/** `waitForOtpFromMacMessages`: waits for a one-time code by asking the
    Messages application, through `osascript`, for the last message of
    every chat.

    The script prints one line per chat, `<date> <time>|<text>`, or a single
    `ERROR:` line when it fails. The raw lines of a baseline read seed the
    seen-set; every poll cycle re-reads the lines and, for each line not in
    the set, takes the text after the first `|`, adds the line to the set
    and returns the first six consecutive digits of that text, if any. A
    failing baseline read rejects the call; a failing read inside the loop
    is ignored.
 */
module OtpMac {
  import opened Outcomes
  import Text
  import Patterns
  import DedupPoll
  import opened OtpCommon

  const LineSeparator: char := '\n'
  const TextSeparator: char := '|'
  const ErrorPrefix: string := "ERROR:"
  const ScriptErrorPrefix: string := "AppleScript error: "

  const TimeoutMessage: string := "OTP not received from Messages in time"

  /** `readRecentRawLines`: a rejected tool call is passed on; output that
      starts with `ERROR:` rejects with an AppleScript error carrying the
      output; any other output resolves to exactly its non-empty lines. */
  function ReadRecentRawLines(run: ToolRun): (r: Result<seq<string>, OtpError>)
    ensures run.Rejected? ==> r == Err(ToolFailed)
    ensures run.Exited? && Text.StartsWith(run.stdout, ErrorPrefix) ==>
              r == Err(Thrown(ScriptErrorPrefix + run.stdout))
    ensures run.Exited? && !Text.StartsWith(run.stdout, ErrorPrefix) ==>
              && r.Ok?
              && (forall l :: l in r.value <==> l in Text.Split(run.stdout, LineSeparator) && l != "")
              && (forall i :: 0 <= i < |r.value| ==> r.value[i] != "" && LineSeparator !in r.value[i])
  {
    match run
    case Rejected => Err(ToolFailed)
    case Exited(out) =>
      if Text.StartsWith(out, ErrorPrefix) then Err(Thrown(ScriptErrorPrefix + out))
      else Ok(Text.Pieces(out, LineSeparator))
  }

  /** The reader is the inverse of printing one line per chat: output
      made of non-empty, newline-free lines, each ended by a newline, and
      not starting with `ERROR:`, reads back as exactly those lines, in
      their order and with their repetitions. */
  lemma PrintedLinesReadBack(lines: seq<string>)
    requires forall i :: 0 <= i < |lines| ==> lines[i] != "" && LineSeparator !in lines[i]
    requires !Text.StartsWith(Text.Join(lines + [""], LineSeparator), ErrorPrefix)
    ensures ReadRecentRawLines(Exited(Text.Join(lines + [""], LineSeparator))) == Ok(lines)
  {
    Text.PiecesOfTerminatedLines(lines, LineSeparator);
  }

  /** `sep === -1 ? line : line.slice(sep + 1)` with `sep` the first `|`:
      the whole line when it has no `|`, otherwise what follows the first
      `|`, so that the line is a `|`-free head, a `|`, and the result. */
  function TextAfterBar(line: string): (t: string)
    ensures TextSeparator !in line ==> t == line
    ensures TextSeparator in line ==>
              && |t| < |line|
              && line == line[..|line| - |t| - 1] + [TextSeparator] + t
              && TextSeparator !in line[..|line| - |t| - 1]
  {
    var sep := Text.IndexOf(line, TextSeparator);
    if sep == -1 then line
    else
      assert line == line[..sep] + [TextSeparator] + line[sep + 1..];
      line[sep + 1..]
  }

  /** `text.match(/(\d{6})/)` on the text after the bar. It never throws,
      so adding the line to the seen-set before or after matching makes no
      difference; a code is six digits that occur in the text after the
      first `|`, the leftmost such run, and there is none exactly when no six digits in a row
      occur there. */
  function Extract(line: string): (v: DedupPoll.Verdict)
    ensures !v.Threw?
    ensures v.Code? ==> && Patterns.IsCode(v.code)
                        && exists i :: Patterns.LeftmostAt(TextAfterBar(line), i, false)
                                       && v.code == TextAfterBar(line)[i..i + Patterns.CodeLength]
    ensures v.NoCode? <==> forall i :: !Patterns.SixDigitsAt(TextAfterBar(line), i)
  {
    match Patterns.SixDigits(TextAfterBar(line))
    case Some(c) => DedupPoll.Code(c)
    case None => DedupPoll.NoCode
  }

  /** Lines are their own dedup key, timestamp included. */
  function LineKey(line: string): string {
    line
  }

  /** One read inside the loop: either failure is swallowed. */
  function Read(run: ToolRun): DedupPoll.Cycle<string> {
    match ReadRecentRawLines(run)
    case Ok(lines) => DedupPoll.Rows(lines)
    case Err(_) => DedupPoll.Failed
  }

  function Cycles(runs: seq<ToolRun>): (cs: seq<DedupPoll.Cycle<string>>)
    ensures |cs| == |runs|
    ensures forall k :: 0 <= k < |runs| ==> cs[k] == Read(runs[k])
  {
    seq(|runs|, k requires 0 <= k < |runs| => Read(runs[k]))
  }

  /** `new Set(lines)`. */
  function SeenSet(lines: seq<string>): (seen: set<string>)
    ensures forall l :: l in seen <==> l in lines
  {
    set l | l in lines
  }

  /** The loop after a baseline read that returned `baseline`. */
  function Poll(baseline: seq<string>, runs: seq<ToolRun>): Option<DedupPoll.Hit> {
    DedupPoll.Run(SeenSet(baseline), Cycles(runs), LineKey, Extract)
  }

  /** `waitForOtpFromMacMessages`, given the baseline read's outcome and
      the outcomes of the reads of the cycles that start before the
      deadline. A failing baseline read rejects the call with its own
      error; otherwise only the timeout can reject, exactly when the loop
      finds nothing, and a resolved code is the six-digit code of the
      loop's hit, so everything said about `Poll` holds of it. */
  function WaitForOtpFromMacMessages(baseline: ToolRun, runs: seq<ToolRun>): (r: Result<string, OtpError>)
    ensures ReadRecentRawLines(baseline).Err? ==> r == Err(ReadRecentRawLines(baseline).error)
    ensures ReadRecentRawLines(baseline).Ok? && r.Err? ==> r.error == Thrown(TimeoutMessage)
    ensures r.Ok? ==> Patterns.IsCode(r.value)
    ensures r.Ok? ==> ReadRecentRawLines(baseline).Ok? && Poll(ReadRecentRawLines(baseline).value, runs).Some?
                      && Poll(ReadRecentRawLines(baseline).value, runs).value.code == r.value
    ensures ReadRecentRawLines(baseline).Ok? ==>
              (r == Err(Thrown(TimeoutMessage)) <==> Poll(ReadRecentRawLines(baseline).value, runs).None?)
  {
    match ReadRecentRawLines(baseline)
    case Err(e) => Err(e)
    case Ok(lines) =>
      match Poll(lines, runs)
      case None => Err(Thrown(TimeoutMessage))
      case Some(h) =>
        DedupPoll.HitIsNew(SeenSet(lines), Cycles(runs), LineKey, Extract);
        Ok(h.code)
  }

  /** The line the code came from was not among the baseline lines, and
      the code is the first six-digit run of its text after the first `|`. */
  lemma BaselineLinesNeverMatch(baseline: seq<string>, runs: seq<ToolRun>)
    ensures var p := Poll(baseline, runs);
            p.Some? ==>
              && p.value.cycle < |runs|
              && ReadRecentRawLines(runs[p.value.cycle]).Ok?
              && var lines := ReadRecentRawLines(runs[p.value.cycle]).value;
                 && p.value.row < |lines|
                 && lines[p.value.row] !in baseline
                 && Patterns.SixDigits(TextAfterBar(lines[p.value.row])) == Some(p.value.code)
  {
    DedupPoll.HitIsNew(SeenSet(baseline), Cycles(runs), LineKey, Extract);
  }

  /** The code is the first one found: every earlier cycle found none, and
      in the cycle that found it every earlier unseen line had no six
      consecutive digits after its first `|`. */
  lemma FirstLineWins(baseline: seq<string>, runs: seq<ToolRun>)
    ensures var p := Poll(baseline, runs);
            p.Some? ==>
              && (forall k :: 0 <= k < p.value.cycle ==>
                    !DedupPoll.FindsCode(DedupPoll.SeenBefore(SeenSet(baseline), Cycles(runs), k, LineKey, Extract),
                                         Cycles(runs)[k], LineKey, Extract))
              && p.value.cycle < |runs| && ReadRecentRawLines(runs[p.value.cycle]).Ok?
              && var lines := ReadRecentRawLines(runs[p.value.cycle]).value;
                 var seen := DedupPoll.SeenBefore(SeenSet(baseline), Cycles(runs), p.value.cycle, LineKey, Extract);
                 forall j :: 0 <= j < p.value.row && j < |lines| && DedupPoll.Fresh(lines, j, seen, LineKey) ==>
                   Patterns.SixDigits(TextAfterBar(lines[j])) == None
  {
    var p := Poll(baseline, runs);
    if p.Some? {
      DedupPoll.HitIsNew(SeenSet(baseline), Cycles(runs), LineKey, Extract);
      var lines := ReadRecentRawLines(runs[p.value.cycle]).value;
      var seen := DedupPoll.SeenBefore(SeenSet(baseline), Cycles(runs), p.value.cycle, LineKey, Extract);
      var w := DedupPoll.WalkRows(lines, seen, LineKey, Extract);
      assert w.stop == DedupPoll.Matched(p.value.row, p.value.code);
      forall j | 0 <= j < p.value.row && j < |lines| && DedupPoll.Fresh(lines, j, seen, LineKey)
        ensures Patterns.SixDigits(TextAfterBar(lines[j])) == None
      {
        assert Extract(lines[j]) == DedupPoll.NoCode;
      }
    }
  }

  /** Each line is looked at most once per call: no two lines handed to the
      pattern during one run are equal, and none is a baseline line. */
  lemma LinesEvaluatedOnce(baseline: seq<string>, runs: seq<ToolRun>, k1: int, j1: int, k2: int, j2: int)
    requires 0 <= k1 < |runs| && 0 <= k2 < |runs| && (k1, j1) != (k2, j2)
    ensures && DedupPoll.Evaluated(SeenSet(baseline), Cycles(runs), k1, j1, LineKey, Extract)
            && DedupPoll.Evaluated(SeenSet(baseline), Cycles(runs), k2, j2, LineKey, Extract)
            ==>
            && ReadRecentRawLines(runs[k1]).Ok? && ReadRecentRawLines(runs[k2]).Ok?
            && 0 <= j1 < |ReadRecentRawLines(runs[k1]).value| && 0 <= j2 < |ReadRecentRawLines(runs[k2]).value|
            && ReadRecentRawLines(runs[k1]).value[j1] !in baseline
            && ReadRecentRawLines(runs[k1]).value[j1] != ReadRecentRawLines(runs[k2]).value[j2]
  {
    if && DedupPoll.Evaluated(SeenSet(baseline), Cycles(runs), k1, j1, LineKey, Extract)
       && DedupPoll.Evaluated(SeenSet(baseline), Cycles(runs), k2, j2, LineKey, Extract)
    {
      DedupPoll.EvaluatedOnce(SeenSet(baseline), Cycles(runs), k1, j1, k2, j2, LineKey, Extract);
    }
  }

  /** A failing read inside the loop, whether the tool call is rejected or
      the script reports an error, is swallowed and changes nothing. */
  lemma FailedReadsIgnored(baseline: ToolRun, runs: seq<ToolRun>, k: nat, failure: ToolRun)
    requires k <= |runs|
    requires ReadRecentRawLines(failure).Err?
    ensures WaitForOtpFromMacMessages(baseline, runs[..k] + [failure] + runs[k..])
            == WaitForOtpFromMacMessages(baseline, runs)
  {
    if ReadRecentRawLines(baseline).Ok? {
      var longer := runs[..k] + [failure] + runs[k..];
      var cs := Cycles(runs);
      assert Cycles(longer) == cs[..k] + [DedupPoll.Failed] + cs[k..];
      DedupPoll.FailedCycleIgnored(SeenSet(ReadRecentRawLines(baseline).value), cs, k, LineKey, Extract);
    }
  }

  /** When no read in the loop brings a line that was not in the baseline,
      the call times out. */
  lemma StaleLinesTimeOut(baseline: ToolRun, runs: seq<ToolRun>)
    requires ReadRecentRawLines(baseline).Ok?
    requires forall k :: 0 <= k < |runs| && ReadRecentRawLines(runs[k]).Ok? ==>
               forall l :: l in ReadRecentRawLines(runs[k]).value ==> l in ReadRecentRawLines(baseline).value
    ensures WaitForOtpFromMacMessages(baseline, runs) == Err(Thrown(TimeoutMessage))
  {
    var cs := Cycles(runs);
    var seen := SeenSet(ReadRecentRawLines(baseline).value);
    forall k, j | 0 <= k < |cs| && cs[k].Rows? && 0 <= j < |cs[k].items|
      ensures LineKey(cs[k].items[j]) in seen
    {
      assert cs[k].items[j] in ReadRecentRawLines(runs[k]).value;
    }
    DedupPoll.OnlySeenRowsTimeOut(seen, cs, LineKey, Extract);
  }
}
