/** The seen-set poll loop shared by the two local OTP readers (the
    Messages database reader and the AppleScript reader).

    Both readers seed a set of keys from a baseline read, then poll: every
    cycle re-reads the recent rows and walks them in order; a row whose key
    is already in the set is skipped, any other row has its key added and
    its text handed to the code extractor, and the first code found is
    returned at once. A cycle whose read fails leaves the set as it was and
    the loop simply tries again on the next cycle.

    Time is not modelled: the loop is given the finite sequence of cycles
    that start before the deadline, each cycle being what that cycle's read
    returned. Running out of cycles is the timeout.
 */
module DedupPoll {
  import opened Outcomes

  /** What the extractor makes of a row: no code, a code, or an exception
      (which the loop catches, abandoning the rest of that cycle). */
  datatype Verdict = NoCode | Code(code: string) | Threw

  /** One poll cycle: the rows its read returned, or a read that failed. */
  datatype Cycle<T> = Rows(items: seq<T>) | Failed

  /** Where a walk over one cycle's rows ended: after the last row, at a
      row whose extraction threw, or at the row that produced a code. */
  datatype Stop = Exhausted | Aborted(at: nat) | Matched(at: nat, code: string)

  /** A cycle's walk: the seen-set it leaves behind and where it stopped. */
  datatype Walk = Walk(seen: set<string>, stop: Stop)

  /** The row that produced the code, located by cycle and position. */
  datatype Hit = Hit(cycle: nat, row: nat, code: string)

  /** Number of rows the walk passed over without stopping at them. */
  function Passed(stop: Stop, n: nat): nat {
    match stop
    case Exhausted => n
    case Aborted(at) => at
    case Matched(at, _) => at
  }

  /** Row `j` is a candidate: its key was not seen before the cycle and no
      earlier row of the same cycle carries it. */
  predicate Fresh<T>(rows: seq<T>, j: int, seen: set<string>, key: T -> string)
    requires 0 <= j < |rows|
  {
    key(rows[j]) !in seen && forall i :: 0 <= i < j ==> key(rows[i]) != key(rows[j])
  }

  function KeysOf<T>(rows: seq<T>, key: T -> string): set<string> {
    set i | 0 <= i < |rows| :: key(rows[i])
  }

  /** One cycle's walk over its rows, starting from seen-set `seen`.

      The walk stops at a row only if that row is a candidate and its
      extraction produced a code (Matched) or threw (Aborted), and every
      candidate it passed over yielded no code. */
  function WalkRows<T>(rows: seq<T>, seen: set<string>, key: T -> string, eval: T -> Verdict): (w: Walk)
    ensures seen <= w.seen
    ensures Passed(w.stop, |rows|) <= |rows|
    ensures forall j :: 0 <= j < Passed(w.stop, |rows|) && Fresh(rows, j, seen, key) ==> eval(rows[j]) == NoCode
    ensures w.stop.Matched? ==>
              w.stop.at < |rows| && Fresh(rows, w.stop.at, seen, key) && eval(rows[w.stop.at]) == Code(w.stop.code)
    ensures w.stop.Aborted? ==>
              w.stop.at < |rows| && Fresh(rows, w.stop.at, seen, key) && eval(rows[w.stop.at]) == Threw
    decreases |rows|
  {
    if |rows| == 0 then Walk(seen, Exhausted)
    else
      var k := key(rows[0]);
      var v := eval(rows[0]);
      if k !in seen && v.Code? then Walk(seen + {k}, Matched(0, v.code))
      else if k !in seen && v.Threw? then Walk(seen + {k}, Aborted(0))
      else
        var w := WalkRows(rows[1..], seen + {k}, key, eval);
        ShiftWalk(rows, seen, key, eval, w);
        Shift(w)
  }

  /** The contract of `WalkRows`, as a predicate on a walk `w` over `rows`. */
  predicate WalkSound<T>(rows: seq<T>, seen: set<string>, key: T -> string, eval: T -> Verdict, w: Walk) {
    && seen <= w.seen
    && Passed(w.stop, |rows|) <= |rows|
    && (forall j :: 0 <= j < Passed(w.stop, |rows|) && Fresh(rows, j, seen, key) ==> eval(rows[j]) == NoCode)
    && (w.stop.Matched? ==>
          w.stop.at < |rows| && Fresh(rows, w.stop.at, seen, key) && eval(rows[w.stop.at]) == Code(w.stop.code))
    && (w.stop.Aborted? ==>
          w.stop.at < |rows| && Fresh(rows, w.stop.at, seen, key) && eval(rows[w.stop.at]) == Threw)
  }

  /** A sound walk over the rows after the first, started with the first
      row's key added, renumbers to a sound walk over all of them, provided
      the first row was already seen or yields no code. */
  lemma ShiftWalk<T>(rows: seq<T>, seen: set<string>, key: T -> string, eval: T -> Verdict, w: Walk)
    requires |rows| > 0 && (key(rows[0]) in seen || eval(rows[0]).NoCode?)
    requires WalkSound(rows[1..], seen + {key(rows[0])}, key, eval, w)
    ensures WalkSound(rows, seen, key, eval, Shift(w))
  {
    var k := key(rows[0]);
    var rest := rows[1..];
    var seen' := seen + {k};
    assert forall j :: 1 <= j < |rows| ==> rows[j] == rest[j - 1];
    forall j | 1 <= j < |rows| && Fresh(rows, j, seen, key)
      ensures Fresh(rest, j - 1, seen', key)
    {
      assert key(rows[0]) != key(rows[j]);
      assert forall i :: 0 <= i < j - 1 ==> rest[i] == rows[i + 1];
    }
    forall j | 1 <= j < |rows| && Fresh(rest, j - 1, seen', key)
      ensures Fresh(rows, j, seen, key)
    {
      assert forall i :: 1 <= i < j ==> rows[i] == rest[i - 1];
    }
  }

  /** How many rows a walk reached: all of them when it ran out, and the
      row it stopped at included when it stopped. */
  function Reached(stop: Stop, n: nat): nat {
    if stop.Exhausted? then n else stop.at + 1
  }

  /** The walk's seen-set is exactly the old keys plus the keys of the rows
      the walk reached, the one it stopped at included; rows after the stop
      leave no trace. */
  lemma {:induction false} WalkSeenExact<T>(rows: seq<T>, seen: set<string>, key: T -> string, eval: T -> Verdict)
    ensures var w := WalkRows(rows, seen, key, eval);
            && Reached(w.stop, |rows|) <= |rows|
            && w.seen == seen + KeysOf(rows[..Reached(w.stop, |rows|)], key)
    decreases |rows|
  {
    if |rows| == 0 {
      assert rows[..0] == [];
    } else {
      var k := key(rows[0]);
      var w := WalkRows(rows, seen, key, eval);
      if k in seen || eval(rows[0]).NoCode? {
        var w' := WalkRows(rows[1..], seen + {k}, key, eval);
        WalkStep(rows, seen, key, eval);
        WalkSeenExact(rows[1..], seen + {k}, key, eval);
        KeysOfPrefixCons(rows, Reached(w'.stop, |rows| - 1) + 1, key);
      } else {
        assert w.seen == seen + {k} && Reached(w.stop, |rows|) == 1;
        KeysOfPrefixCons(rows, 1, key);
      }
    }
  }

  /** A walk that passes its first row is the renumbered walk over the
      rest: same seen-set, one more row reached. */
  lemma WalkStep<T>(rows: seq<T>, seen: set<string>, key: T -> string, eval: T -> Verdict)
    requires |rows| > 0 && (key(rows[0]) in seen || eval(rows[0]).NoCode?)
    ensures var w := WalkRows(rows, seen, key, eval);
            var w' := WalkRows(rows[1..], seen + {key(rows[0])}, key, eval);
            && w.seen == w'.seen
            && Reached(w.stop, |rows|) == Reached(w'.stop, |rows| - 1) + 1
  {
  }

  /** The keys of a non-empty prefix: the first row's and those of the
      matching prefix of the rest. */
  lemma KeysOfPrefixCons<T>(rows: seq<T>, m: nat, key: T -> string)
    requires 1 <= m <= |rows|
    ensures KeysOf(rows[..m], key) == {key(rows[0])} + KeysOf(rows[1..][..m - 1], key)
  {
    assert rows[..m][1..] == rows[1..][..m - 1];
    KeysOfCons(rows[..m], key);
  }

  /** A prefix's keys are among all the keys, and every row of the prefix
      has its key among them. */
  lemma KeysOfPrefix<T>(rows: seq<T>, m: nat, key: T -> string)
    requires m <= |rows|
    ensures KeysOf(rows[..m], key) <= KeysOf(rows, key)
    ensures forall j :: 0 <= j < m ==> key(rows[j]) in KeysOf(rows[..m], key)
  {
    forall x | x in KeysOf(rows[..m], key) ensures x in KeysOf(rows, key) {
      var i :| 0 <= i < m && x == key(rows[..m][i]);
      assert x == key(rows[i]);
    }
    forall j | 0 <= j < m ensures key(rows[j]) in KeysOf(rows[..m], key) {
      assert key(rows[j]) == key(rows[..m][j]);
    }
  }

  /** The walk's seen-set: every row the walk reached (including the one it
      stopped at) has its key in it, and it holds nothing but the old keys
      and the keys of this cycle's rows. */
  lemma WalkSeen<T>(rows: seq<T>, seen: set<string>, key: T -> string, eval: T -> Verdict)
    ensures var w := WalkRows(rows, seen, key, eval);
            && w.seen <= seen + KeysOf(rows, key)
            && (forall j :: 0 <= j < Passed(w.stop, |rows|) ==> key(rows[j]) in w.seen)
            && (!w.stop.Exhausted? && w.stop.at < |rows| ==> key(rows[w.stop.at]) in w.seen)
  {
    var w := WalkRows(rows, seen, key, eval);
    WalkSeenExact(rows, seen, key, eval);
    KeysOfPrefix(rows, Reached(w.stop, |rows|), key);
  }

  /** The keys of a non-empty sequence of rows: the first row's and the rest's. */
  lemma KeysOfCons<T>(rows: seq<T>, key: T -> string)
    requires |rows| > 0
    ensures KeysOf(rows, key) == {key(rows[0])} + KeysOf(rows[1..], key)
  {
    var rest := rows[1..];
    forall x | x in KeysOf(rows, key) ensures x in {key(rows[0])} + KeysOf(rest, key) {
      var i :| 0 <= i < |rows| && x == key(rows[i]);
      if i > 0 { assert x == key(rest[i - 1]); }
    }
    forall x | x in KeysOf(rest, key) ensures x in KeysOf(rows, key) {
      var i :| 0 <= i < |rest| && x == key(rest[i]);
      assert x == key(rows[i + 1]);
    }
  }

  /** Renumbers a walk over `rows[1..]` as a walk over `rows`. */
  function Shift(w: Walk): Walk {
    match w.stop
    case Exhausted => w
    case Aborted(at) => Walk(w.seen, Aborted(at + 1))
    case Matched(at, c) => Walk(w.seen, Matched(at + 1, c))
  }

  /** The seen-set after one cycle: unchanged when the read failed. */
  function NextSeen<T>(seen: set<string>, c: Cycle<T>, key: T -> string, eval: T -> Verdict): set<string> {
    match c
    case Failed => seen
    case Rows(rows) => WalkRows(rows, seen, key, eval).seen
  }

  /** The seen-set at the start of cycle `k`. */
  function SeenBefore<T>(seen: set<string>, cycles: seq<Cycle<T>>, k: nat, key: T -> string, eval: T -> Verdict): set<string>
    requires k <= |cycles|
    decreases k
  {
    if k == 0 then seen
    else SeenBefore(NextSeen(seen, cycles[0], key, eval), cycles[1..], k - 1, key, eval)
  }

  /** Cycle `c`, started with seen-set `seen`, finds a code. */
  predicate FindsCode<T>(seen: set<string>, c: Cycle<T>, key: T -> string, eval: T -> Verdict) {
    c.Rows? && WalkRows(c.items, seen, key, eval).stop.Matched?
  }

  /** The poll loop after the baseline read: the first cycle that finds a
      code decides the result, which is that cycle's match; when no cycle
      finds one, the result is None (the timeout). */
  function Run<T>(seen: set<string>, cycles: seq<Cycle<T>>, key: T -> string, eval: T -> Verdict): (r: Option<Hit>)
    ensures r.Some? ==>
              && r.value.cycle < |cycles| && cycles[r.value.cycle].Rows?
              && WalkRows(cycles[r.value.cycle].items, SeenBefore(seen, cycles, r.value.cycle, key, eval), key, eval).stop
                 == Matched(r.value.row, r.value.code)
    ensures forall k :: 0 <= k < |cycles| && (r.None? || k < r.value.cycle) ==>
              !FindsCode(SeenBefore(seen, cycles, k, key, eval), cycles[k], key, eval)
    decreases |cycles|
  {
    if |cycles| == 0 then None
    else
      var next := NextSeen(seen, cycles[0], key, eval);
      if FindsCode(seen, cycles[0], key, eval) then
        var m := WalkRows(cycles[0].items, seen, key, eval).stop;
        Some(Hit(0, m.at, m.code))
      else
        var r := Run(next, cycles[1..], key, eval);
        assert forall k :: 1 <= k <= |cycles| ==>
          SeenBefore(seen, cycles, k, key, eval) == SeenBefore(next, cycles[1..], k - 1, key, eval);
        assert forall k :: 1 <= k < |cycles| ==> cycles[k] == cycles[1..][k - 1];
        match r
        case None => None
        case Some(h) => Some(Hit(h.cycle + 1, h.row, h.code))
  }

  /** The code the loop returns, if any. */
  function CodeOf(r: Option<Hit>): Option<string> {
    match r
    case None => None
    case Some(h) => Some(h.code)
  }

  /** Taking one more cycle into account is applying `NextSeen` to the set
      at the start of that cycle. */
  lemma {:induction false} SeenBeforeStep<T>(seen: set<string>, cycles: seq<Cycle<T>>, k: nat, key: T -> string, eval: T -> Verdict)
    requires k < |cycles|
    ensures SeenBefore(seen, cycles, k + 1, key, eval)
            == NextSeen(SeenBefore(seen, cycles, k, key, eval), cycles[k], key, eval)
    decreases k
  {
    if k > 0 {
      SeenBeforeStep(NextSeen(seen, cycles[0], key, eval), cycles[1..], k - 1, key, eval);
    }
  }

  /** The seen-set only grows from cycle to cycle. */
  lemma {:induction false} SeenGrows<T>(seen: set<string>, cycles: seq<Cycle<T>>, j: nat, k: nat, key: T -> string, eval: T -> Verdict)
    requires j <= k <= |cycles|
    ensures seen <= SeenBefore(seen, cycles, j, key, eval) <= SeenBefore(seen, cycles, k, key, eval)
    decreases k
  {
    if j < k {
      SeenGrows(seen, cycles, j, k - 1, key, eval);
      SeenBeforeStep(seen, cycles, k - 1, key, eval);
    } else if k > 0 {
      SeenGrows(seen, cycles, 0, k - 1, key, eval);
      SeenBeforeStep(seen, cycles, k - 1, key, eval);
    }
  }

  /** The row in cycle `k` at position `j` is handed to the extractor. */
  predicate Evaluated<T>(seen: set<string>, cycles: seq<Cycle<T>>, k: int, j: int, key: T -> string, eval: T -> Verdict)
    requires 0 <= k < |cycles|
  {
    && cycles[k].Rows?
    && 0 <= j < |cycles[k].items|
    && var before := SeenBefore(seen, cycles, k, key, eval);
       var w := WalkRows(cycles[k].items, before, key, eval);
       && Fresh(cycles[k].items, j, before, key)
       && (j < Passed(w.stop, |cycles[k].items|) || (!w.stop.Exhausted? && j == w.stop.at))
  }

  /** The key of every row handed to the extractor is new: it is not in the
      baseline, and no other row handed to the extractor during the same
      run carries it, in the same cycle or any other. */
  lemma EvaluatedOnce<T>(seen: set<string>, cycles: seq<Cycle<T>>, k1: int, j1: int, k2: int, j2: int,
                         key: T -> string, eval: T -> Verdict)
    requires 0 <= k1 < |cycles| && 0 <= k2 < |cycles|
    requires Evaluated(seen, cycles, k1, j1, key, eval) && Evaluated(seen, cycles, k2, j2, key, eval)
    requires (k1, j1) != (k2, j2)
    ensures key(cycles[k1].items[j1]) !in seen
    ensures key(cycles[k1].items[j1]) != key(cycles[k2].items[j2])
  {
    SeenGrows(seen, cycles, 0, k1, key, eval);
    if k1 < k2 {
      EarlierKeysSeen(seen, cycles, k1, j1, k2, key, eval);
    } else if k2 < k1 {
      EarlierKeysSeen(seen, cycles, k2, j2, k1, key, eval);
    }
  }

  /** A key handed to the extractor in cycle `k1` is in the seen-set at
      the start of every later cycle. */
  lemma EarlierKeysSeen<T>(seen: set<string>, cycles: seq<Cycle<T>>, k1: int, j1: int, k2: int,
                           key: T -> string, eval: T -> Verdict)
    requires 0 <= k1 < k2 < |cycles|
    requires Evaluated(seen, cycles, k1, j1, key, eval)
    ensures key(cycles[k1].items[j1]) in SeenBefore(seen, cycles, k2, key, eval)
  {
    WalkSeen(cycles[k1].items, SeenBefore(seen, cycles, k1, key, eval), key, eval);
    SeenBeforeStep(seen, cycles, k1, key, eval);
    SeenGrows(seen, cycles, k1 + 1, k2, key, eval);
  }

  /** No key of the baseline ever yields the code: the row that produced it
      was not in the seen-set when its cycle started, so in particular not
      in the baseline. */
  lemma HitIsNew<T>(seen: set<string>, cycles: seq<Cycle<T>>, key: T -> string, eval: T -> Verdict)
    ensures var r := Run(seen, cycles, key, eval);
            r.Some? ==>
              && r.value.row < |cycles[r.value.cycle].items|
              && key(cycles[r.value.cycle].items[r.value.row]) !in SeenBefore(seen, cycles, r.value.cycle, key, eval)
              && key(cycles[r.value.cycle].items[r.value.row]) !in seen
              && eval(cycles[r.value.cycle].items[r.value.row]) == Code(r.value.code)
  {
    var r := Run(seen, cycles, key, eval);
    if r.Some? {
      SeenGrows(seen, cycles, 0, r.value.cycle, key, eval);
    }
  }

  /** A failed read changes nothing: inserting a failed cycle anywhere
      leaves the outcome of the loop as it was. */
  lemma {:induction false} FailedCycleIgnored<T>(seen: set<string>, cycles: seq<Cycle<T>>, k: nat, key: T -> string, eval: T -> Verdict)
    requires k <= |cycles|
    ensures CodeOf(Run(seen, cycles[..k] + [Failed] + cycles[k..], key, eval)) == CodeOf(Run(seen, cycles, key, eval))
    decreases k
  {
    var longer := cycles[..k] + [Failed] + cycles[k..];
    if k == 0 {
      assert longer[1..] == cycles;
    } else {
      assert longer[0] == cycles[0];
      assert longer[1..] == cycles[1..][..k - 1] + [Failed] + cycles[1..][k - 1..];
      FailedCycleIgnored(NextSeen(seen, cycles[0], key, eval), cycles[1..], k - 1, key, eval);
    }
  }

  /** When every row the reads ever return was already in the seen-set at
      the start, no code is found: the loop times out. */
  lemma {:induction false} OnlySeenRowsTimeOut<T>(seen: set<string>, cycles: seq<Cycle<T>>, key: T -> string, eval: T -> Verdict)
    requires forall k, j :: 0 <= k < |cycles| && cycles[k].Rows? && 0 <= j < |cycles[k].items| ==> key(cycles[k].items[j]) in seen
    ensures Run(seen, cycles, key, eval) == None
    decreases |cycles|
  {
    if |cycles| > 0 {
      if cycles[0].Rows? {
        var rows := cycles[0].items;
        var w := WalkRows(rows, seen, key, eval);
        WalkSeen(rows, seen, key, eval);
        assert KeysOf(rows, key) <= seen;
        assert w.seen == seen;
      }
      assert forall k :: 1 <= k < |cycles| ==> cycles[k] == cycles[1..][k - 1];
      OnlySeenRowsTimeOut(seen, cycles[1..], key, eval);
    }
  }

  /** A cycle whose first row yields no code and whose second throws finds
      nothing, yet leaves both keys seen. */
  lemma NoCodeThenThrowSeesBoth<T>(rows: seq<T>, seen: set<string>, key: T -> string, eval: T -> Verdict)
    requires |rows| == 2 && eval(rows[0]) == NoCode && eval(rows[1]) == Threw
    ensures !FindsCode(seen, Rows(rows), key, eval)
    ensures KeysOf(rows, key) <= NextSeen(seen, Rows(rows), key, eval)
  {
    var w := WalkRows(rows, seen, key, eval);
    assert !(w.stop.Aborted? && w.stop.at == 0);
    WalkSeen(rows, seen, key, eval);
  }

  /** When every cycle returns the same rows and the first of them finds no
      code but sees all the rows' keys, the loop times out. */
  lemma RepeatedCycleTimesOut<T>(seen: set<string>, rows: seq<T>, cycles: seq<Cycle<T>>, key: T -> string, eval: T -> Verdict)
    requires forall k :: 0 <= k < |cycles| ==> cycles[k] == Rows(rows)
    requires !FindsCode(seen, Rows(rows), key, eval)
    requires KeysOf(rows, key) <= NextSeen(seen, Rows(rows), key, eval)
    ensures Run(seen, cycles, key, eval) == None
  {
    if |cycles| > 0 {
      var next := NextSeen(seen, Rows(rows), key, eval);
      var rest := cycles[1..];
      forall k, j | 0 <= k < |rest| && rest[k].Rows? && 0 <= j < |rest[k].items|
        ensures key(rest[k].items[j]) in next
      {
        assert rest[k] == cycles[k + 1];
        assert key(rows[j]) in KeysOf(rows, key);
      }
      OnlySeenRowsTimeOut(next, rest, key, eval);
    }
  }
}
