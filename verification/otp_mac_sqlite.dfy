/** `waitForOtpFromMessagesDb`: waits for a one-time code by querying the
    local Messages database with the `sqlite3` tool.

    Each query prints the 50 newest non-empty messages, newest first, one
    per line, as `when<U+0001>text`. A baseline query seeds the seen-set
    with the key `when|text` of every row; then every poll cycle re-queries
    and hands each row with an unseen key to the word-bounded pattern
    `\b(\d{6})\b`. A failing baseline query rejects with a fixed message; a
    failing query inside the loop is ignored.
 */
module OtpMacSqlite {
  import opened Outcomes
  import Text
  import Patterns
  import DedupPoll
  import opened OtpCommon

  const FieldSeparator: char := '\U{1}'
  const LineSeparator: char := '\n'

  const UnreadableMessage: string :=
    "Failed to read Messages database via sqlite3. Grant Full Disk Access to your terminal/app and ensure sqlite3 is installed."
  const TimeoutMessage: string := "OTP not received from Messages DB in time"

  /** One parsed output line. `text` is None when the line has no field
      separator: destructuring `[when, text]` then leaves `text` undefined. */
  datatype Row = Row(when: string, text: Option<string>)

  /** `const [when, text] = line.split('\u0001')`: `when` is everything
      before the first separator (the whole line if there is none), `text`
      is what lies between the first and the second separator (or the end
      of the line), and any further fields are dropped. */
  function ParseRow(line: string): (r: Row)
    ensures FieldSeparator !in r.when
    ensures r.text.None? <==> FieldSeparator !in line
    ensures r.text.None? ==> r.when == line
    ensures r.text.Some? ==> FieldSeparator !in r.text.value
    ensures r.text.Some? ==> Text.StartsWith(line, r.when + [FieldSeparator] + r.text.value)
    ensures r.text.Some? ==>
              var n := |r.when| + 1 + |r.text.value|;
              n == |line| || (n < |line| && line[n] == FieldSeparator)
  {
    var fields := Text.Split(line, FieldSeparator);
    if |fields| == 1 then
      assert line == fields[0];
      Row(fields[0], None)
    else
      var tail := Text.Join(fields[1..], FieldSeparator);
      assert line == fields[0] + [FieldSeparator] + tail;
      assert line[|fields[0]|] == FieldSeparator;
      assert Text.StartsWith(tail, fields[1]) && (|fields[1]| == |tail| || tail[|fields[1]|] == FieldSeparator) by {
        if |fields| > 2 {
          assert tail == fields[1] + [FieldSeparator] + Text.Join(fields[2..], FieldSeparator);
        }
      }
      assert line[..|fields[0]| + 1 + |fields[1]|] == fields[0] + [FieldSeparator] + fields[1];
      Row(fields[0], Some(fields[1]))
  }

  /** The lines of `queryRecentMessages`' output: one row per non-empty
      line, in output order (newest message first). */
  function ParseRows(stdout: string): (rows: seq<Row>)
    ensures |rows| == |Text.Pieces(stdout, LineSeparator)|
    ensures forall i :: 0 <= i < |rows| ==> rows[i] == ParseRow(Text.Pieces(stdout, LineSeparator)[i])
  {
    var lines := Text.Pieces(stdout, LineSeparator);
    seq(|lines|, i requires 0 <= i < |lines| => ParseRow(lines[i]))
  }

  /** How `sqlite3 -noheader -separator '\u0001'` prints a result row. */
  function PrintRow(r: Row): string
    requires Printable(r)
  {
    Line(r) + [LineSeparator]
  }

  function PrintRows(rows: seq<Row>): string
    requires forall i :: 0 <= i < |rows| ==> Printable(rows[i])
  {
    if |rows| == 0 then "" else PrintRow(rows[0]) + PrintRows(rows[1..])
  }

  /** A row the tool can print without ambiguity: neither field contains a
      separator or a line break. */
  predicate Printable(r: Row) {
    && r.text.Some?
    && FieldSeparator !in r.when && LineSeparator !in r.when
    && FieldSeparator !in r.text.value && LineSeparator !in r.text.value
  }

  /** Parsing inverts printing: rows whose timestamp and text contain no
      separator and no line break come back exactly as they were printed. */
  lemma PrintedRowsParseBack(rows: seq<Row>)
    requires forall i :: 0 <= i < |rows| ==> Printable(rows[i])
    ensures ParseRows(PrintRows(rows)) == rows
  {
    var lines := Lines(rows);
    PrintedLines(rows, lines);
    var out := PrintRows(rows);
    Text.PiecesOfTerminatedLines(lines, LineSeparator);
    assert Text.Pieces(out, LineSeparator) == lines;
    var parsed := ParseRows(out);
    forall i | 0 <= i < |rows|
      ensures parsed[i] == rows[i]
    {
      assert parsed[i] == ParseRow(lines[i]);
      LineParsesBack(rows[i]);
    }
  }

  function Lines(rows: seq<Row>): (lines: seq<string>)
    requires forall i :: 0 <= i < |rows| ==> Printable(rows[i])
    ensures |lines| == |rows|
    ensures forall i :: 0 <= i < |rows| ==> lines[i] == Line(rows[i])
  {
    seq(|rows|, i requires 0 <= i < |rows| => Line(rows[i]))
  }

  /** A printed row without its line break. */
  function Line(r: Row): string
    requires Printable(r)
  {
    r.when + [FieldSeparator] + r.text.value
  }

  lemma LineParsesBack(r: Row)
    requires Printable(r)
    ensures ParseRow(Line(r)) == r
  {
    Text.SplitJoin([r.when, r.text.value], FieldSeparator);
    assert Text.Join([r.when, r.text.value], FieldSeparator) == Line(r);
  }

  /** The printed output is the printed lines, each ended by a line break. */
  lemma {:induction false} PrintedLines(rows: seq<Row>, lines: seq<string>)
    requires forall i :: 0 <= i < |rows| ==> Printable(rows[i])
    requires |lines| == |rows|
    requires forall i :: 0 <= i < |rows| ==> lines[i] == Line(rows[i])
    ensures forall i :: 0 <= i < |lines| ==> lines[i] != "" && LineSeparator !in lines[i]
    ensures PrintRows(rows) == Text.Join(lines + [""], LineSeparator)
  {
    if |rows| > 0 {
      PrintedLines(rows[1..], lines[1..]);
      assert (lines + [""])[1..] == lines[1..] + [""];
    }
  }

  /** The dedup key `${when}|${text}`; an undefined text prints as
      "undefined". */
  function RowKey(r: Row): string {
    r.when + "|" + ShownText(r)
  }

  /** The text as a template literal shows it. */
  function ShownText(r: Row): string {
    match r.text
    case Some(t) => t
    case None => "undefined"
  }

  /** The first `|` of a key is the one after a `|`-free timestamp. */
  lemma FirstBarEndsTimestamp(when: string, text: string)
    requires '|' !in when
    ensures Text.IndexOf(when + "|" + text, '|') == |when|
  {
    var key := when + "|" + text;
    assert key[|when|] == '|';
    assert key[..|when|] == when;
  }

  /** Two rows whose timestamps have no `|` share a key exactly when they
      have the same timestamp and show the same text; in particular a row
      without text and a row whose text is the word "undefined" share one. */
  lemma RowKeyIdentifies(a: Row, b: Row)
    ensures a.when == b.when && ShownText(a) == ShownText(b) ==> RowKey(a) == RowKey(b)
    ensures '|' !in a.when && '|' !in b.when && RowKey(a) == RowKey(b) ==>
              a.when == b.when && ShownText(a) == ShownText(b)
    ensures RowKey(Row(a.when, None)) == RowKey(Row(a.when, Some("undefined")))
  {
    if '|' !in a.when && '|' !in b.when && RowKey(a) == RowKey(b) {
      var key := RowKey(a);
      FirstBarEndsTimestamp(a.when, ShownText(a));
      FirstBarEndsTimestamp(b.when, ShownText(b));
      assert a.when == key[..|a.when|] == b.when;
      assert ShownText(a) == key[|a.when| + 1..] == ShownText(b);
    }
  }

  /** `r.text.match(/\b(\d{6})\b/)`: on a row without text this raises a
      TypeError, which the loop's `catch` swallows; otherwise the code is
      the leftmost word-bounded run of six digits, and there is none
      exactly when no such run occurs. */
  function Extract(r: Row): (v: DedupPoll.Verdict)
    ensures v.Threw? <==> r.text.None?
    ensures v.Code? ==> && r.text.Some? && Patterns.IsCode(v.code)
                        && exists i :: Patterns.LeftmostAt(r.text.value, i, true)
                                       && v.code == r.text.value[i..i + Patterns.CodeLength]
    ensures v.NoCode? <==> r.text.Some? && forall i :: !Patterns.BoundedSixDigitsAt(r.text.value, i)
  {
    match r.text
    case None => DedupPoll.Threw
    case Some(t) =>
      match Patterns.BoundedSixDigits(t)
      case Some(c) => DedupPoll.Code(c)
      case None => DedupPoll.NoCode
  }

  /** One call of `queryRecentMessages` inside the loop. */
  function Query(run: ToolRun): DedupPoll.Cycle<Row> {
    match run
    case Rejected => DedupPoll.Failed
    case Exited(out) => DedupPoll.Rows(ParseRows(out))
  }

  function Cycles(runs: seq<ToolRun>): (cs: seq<DedupPoll.Cycle<Row>>)
    ensures |cs| == |runs|
    ensures forall k :: 0 <= k < |runs| ==> cs[k] == Query(runs[k])
  {
    seq(|runs|, k requires 0 <= k < |runs| => Query(runs[k]))
  }

  /** The seen-set the baseline query seeds. */
  function BaselineKeys(out: string): set<string> {
    set r | r in ParseRows(out) :: RowKey(r)
  }

  /** The loop after a baseline query that printed `out`. */
  function Poll(out: string, runs: seq<ToolRun>): Option<DedupPoll.Hit> {
    DedupPoll.Run(BaselineKeys(out), Cycles(runs), RowKey, Extract)
  }

  /** The row that produced the code of a hit. */
  function HitRow(runs: seq<ToolRun>, h: DedupPoll.Hit): Row
    requires h.cycle < |runs| && runs[h.cycle].Exited?
    requires h.row < |ParseRows(runs[h.cycle].stdout)|
  {
    ParseRows(runs[h.cycle].stdout)[h.row]
  }

  /** `waitForOtpFromMessagesDb`, given the baseline query's outcome and
      the outcomes of the queries of the cycles that start before the
      deadline. A rejected baseline query rejects with the Full Disk Access
      message and starts no cycle; otherwise only the timeout can reject,
      exactly when the loop finds nothing, and a resolved code is the
      six-digit code of the loop's hit, so everything said about `Poll`
      holds of it. */
  function WaitForOtpFromMessagesDb(baseline: ToolRun, runs: seq<ToolRun>): (r: Result<string, OtpError>)
    ensures baseline.Rejected? ==> r == Err(Thrown(UnreadableMessage))
    ensures baseline.Exited? && r.Err? ==> r.error == Thrown(TimeoutMessage)
    ensures r.Ok? ==> Patterns.IsCode(r.value)
    ensures r.Ok? ==> baseline.Exited? && Poll(baseline.stdout, runs).Some?
                      && Poll(baseline.stdout, runs).value.code == r.value
    ensures baseline.Exited? ==> (r == Err(Thrown(TimeoutMessage)) <==> Poll(baseline.stdout, runs).None?)
  {
    match baseline
    case Rejected => Err(Thrown(UnreadableMessage))
    case Exited(out) =>
      match Poll(out, runs)
      case None => Err(Thrown(TimeoutMessage))
      case Some(h) =>
        DedupPoll.HitIsNew(BaselineKeys(out), Cycles(runs), RowKey, Extract);
        Ok(h.code)
  }

  /** The code comes from the text of a row that was not in the baseline:
      no row the baseline query returned can produce it, and neither can a
      row with the same timestamp and text. */
  lemma BaselineRowsNeverMatch(out: string, runs: seq<ToolRun>)
    ensures var p := Poll(out, runs);
            p.Some? ==>
              && p.value.cycle < |runs| && runs[p.value.cycle].Exited?
              && p.value.row < |ParseRows(runs[p.value.cycle].stdout)|
              && var row := HitRow(runs, p.value);
                 && RowKey(row) !in BaselineKeys(out)
                 && (forall b :: b in ParseRows(out) ==> RowKey(b) != RowKey(row))
                 && row.text.Some? && Patterns.BoundedSixDigits(row.text.value) == Some(p.value.code)
  {
    DedupPoll.HitIsNew(BaselineKeys(out), Cycles(runs), RowKey, Extract);
  }

  /** The code is the first one found: every earlier cycle found none, and
      in the cycle that found it every earlier row with an unseen key had
      text without a word-bounded six-digit run. */
  lemma FirstCodeWins(out: string, runs: seq<ToolRun>)
    ensures var p := Poll(out, runs);
            p.Some? ==>
              && (forall k :: 0 <= k < p.value.cycle ==>
                    !DedupPoll.FindsCode(DedupPoll.SeenBefore(BaselineKeys(out), Cycles(runs), k, RowKey, Extract),
                                         Cycles(runs)[k], RowKey, Extract))
              && p.value.cycle < |runs| && runs[p.value.cycle].Exited?
              && var rows := ParseRows(runs[p.value.cycle].stdout);
                 var seen := DedupPoll.SeenBefore(BaselineKeys(out), Cycles(runs), p.value.cycle, RowKey, Extract);
                 forall j :: 0 <= j < p.value.row && j < |rows| && DedupPoll.Fresh(rows, j, seen, RowKey) ==>
                   rows[j].text.Some? && Patterns.BoundedSixDigits(rows[j].text.value) == None
  {
    var p := Poll(out, runs);
    if p.Some? {
      var rows := ParseRows(runs[p.value.cycle].stdout);
      var seen := DedupPoll.SeenBefore(BaselineKeys(out), Cycles(runs), p.value.cycle, RowKey, Extract);
      var w := DedupPoll.WalkRows(rows, seen, RowKey, Extract);
      assert w.stop == DedupPoll.Matched(p.value.row, p.value.code);
      forall j | 0 <= j < p.value.row && j < |rows| && DedupPoll.Fresh(rows, j, seen, RowKey)
        ensures rows[j].text.Some? && Patterns.BoundedSixDigits(rows[j].text.value) == None
      {
        assert Extract(rows[j]) == DedupPoll.NoCode;
      }
    }
  }

  /** Each key is looked at most once per call: no two rows handed to the
      pattern during one run share a key, and none has a baseline key. */
  lemma KeysEvaluatedOnce(out: string, runs: seq<ToolRun>, k1: int, j1: int, k2: int, j2: int)
    requires 0 <= k1 < |runs| && 0 <= k2 < |runs| && (k1, j1) != (k2, j2)
    ensures && DedupPoll.Evaluated(BaselineKeys(out), Cycles(runs), k1, j1, RowKey, Extract)
            && DedupPoll.Evaluated(BaselineKeys(out), Cycles(runs), k2, j2, RowKey, Extract)
            ==>
            && runs[k1].Exited? && runs[k2].Exited?
            && 0 <= j1 < |ParseRows(runs[k1].stdout)| && 0 <= j2 < |ParseRows(runs[k2].stdout)|
            && RowKey(ParseRows(runs[k1].stdout)[j1]) !in BaselineKeys(out)
            && RowKey(ParseRows(runs[k1].stdout)[j1]) != RowKey(ParseRows(runs[k2].stdout)[j2])
  {
    if && DedupPoll.Evaluated(BaselineKeys(out), Cycles(runs), k1, j1, RowKey, Extract)
       && DedupPoll.Evaluated(BaselineKeys(out), Cycles(runs), k2, j2, RowKey, Extract)
    {
      DedupPoll.EvaluatedOnce(BaselineKeys(out), Cycles(runs), k1, j1, k2, j2, RowKey, Extract);
    }
  }

  /** A failing query inside the loop is swallowed and changes nothing:
      inserting one anywhere leaves the outcome as it was. */
  lemma FailedQueriesIgnored(baseline: ToolRun, runs: seq<ToolRun>, k: nat)
    requires k <= |runs|
    ensures WaitForOtpFromMessagesDb(baseline, runs[..k] + [Rejected] + runs[k..])
            == WaitForOtpFromMessagesDb(baseline, runs)
  {
    if baseline.Exited? {
      var longer := runs[..k] + [Rejected] + runs[k..];
      var cs := Cycles(runs);
      assert Cycles(longer) == cs[..k] + [DedupPoll.Failed] + cs[k..];
      DedupPoll.FailedCycleIgnored(BaselineKeys(baseline.stdout), cs, k, RowKey, Extract);
    }
  }

  /** A stale code is never replayed: when every query in the loop fails
      or returns only rows the baseline query already returned, the call
      times out. */
  lemma StaleRowsTimeOut(out: string, runs: seq<ToolRun>)
    requires forall k :: 0 <= k < |runs| && runs[k].Exited? ==>
               forall r :: r in ParseRows(runs[k].stdout) ==> r in ParseRows(out)
    ensures WaitForOtpFromMessagesDb(Exited(out), runs) == Err(Thrown(TimeoutMessage))
  {
    var cs := Cycles(runs);
    forall k, j | 0 <= k < |cs| && cs[k].Rows? && 0 <= j < |cs[k].items|
      ensures RowKey(cs[k].items[j]) in BaselineKeys(out)
    {
      assert cs[k].items[j] in ParseRows(out);
    }
    DedupPoll.OnlySeenRowsTimeOut(BaselineKeys(out), cs, RowKey, Extract);
  }

  /** The rows of a message whose text is a first line `first`, a line
      break, and a second line `second`: the second line has no field
      separator, so it parses as a row of its own without text. */
  lemma TwoLineMessageRows(when: string, first: string, second: string)
    requires Printable(Row(when, Some(first)))
    requires second != "" && FieldSeparator !in second && LineSeparator !in second
    ensures ParseRows(Text.Join([Line(Row(when, Some(first))), second, ""], LineSeparator))
            == [Row(when, Some(first)), Row(second, None)]
  {
    var lines := [Line(Row(when, Some(first))), second];
    assert lines + [""] == [Line(Row(when, Some(first))), second, ""];
    Text.PiecesOfTerminatedLines(lines, LineSeparator);
    LineParsesBack(Row(when, Some(first)));
  }

  /** When every query in the loop returns just one message whose text
      spans two lines and whose first line has no code, the call times
      out. In the first cycle, matching the second row's
      undefined text throws (or the row is skipped, if its key happens to
      be the first row's) and the cycle is abandoned with both keys already
      seen, so every later cycle passes over both rows. Whatever the second
      line holds, a code included, the call times out. (In general no code
      ever comes from a row without text: see `BaselineRowsNeverMatch`.) */
  lemma CodeOnSecondLineIsLost(baseline: string, when: string, first: string, second: string, runs: seq<ToolRun>)
    requires Printable(Row(when, Some(first))) && Patterns.BoundedSixDigits(first) == None
    requires second != "" && FieldSeparator !in second && LineSeparator !in second
    requires forall k :: 0 <= k < |runs| ==>
               runs[k] == Exited(Text.Join([Line(Row(when, Some(first))), second, ""], LineSeparator))
    ensures WaitForOtpFromMessagesDb(Exited(baseline), runs) == Err(Thrown(TimeoutMessage))
  {
    var rows := [Row(when, Some(first)), Row(second, None)];
    TwoLineMessageRows(when, first, second);
    var cs := Cycles(runs);
    DedupPoll.NoCodeThenThrowSeesBoth(rows, BaselineKeys(baseline), RowKey, Extract);
    DedupPoll.RepeatedCycleTimesOut(BaselineKeys(baseline), rows, cs, RowKey, Extract);
  }
}
