/** The pure pieces of the react-datepicker navigation shared by the booking
    script and the date test script: the English ordinal suffix, the
    `aria-label` of a day cell, and the bounded walk to the target month.
 */
module Calendar {
  import opened Outcomes
  import Js
  import Text
  import Patterns

  // ----- getOrdinal -----

  const Suffixes: seq<string> := ["th", "st", "nd", "rd"]

  /** `getOrdinal(n)`: `s[(v - 20) % 10] || s[v] || s[0]` with `v = n % 100`,
      under JavaScript's truncating `%` and `undefined` for indices outside
      the array. Whatever the integer, the result is one of the four
      suffixes. */
  function Ordinal(n: int): (r: string)
    ensures r in Suffixes
  {
    var v := Js.Rem(n, 100);
    Js.OrDefault(Js.Or(Js.At(Suffixes, Js.Rem(v - 20, 10)), Js.At(Suffixes, v)), Suffixes[0])
  }

  /** The English rule for ordinals: 11th, 12th and 13th (of every
      hundred), and otherwise 1st, 2nd, 3rd by the last digit and "th" for
      the rest. */
  function EnglishSuffix(n: nat): string {
    if 11 <= n % 100 <= 13 then "th"
    else if n % 10 == 1 then "st"
    else if n % 10 == 2 then "nd"
    else if n % 10 == 3 then "rd"
    else "th"
  }

  /** On the numbers below one hundred the indexing trick is the English
      rule. */
  lemma OrdinalBelowHundred(v: int)
    requires 0 <= v < 100
    ensures Ordinal(v) == EnglishSuffix(v)
  {
    assert Js.Rem(v, 100) == v;
    if v < 20 {
      OrdinalBelowTwenty(v);
    } else {
      OrdinalFromTwenty(v);
    }
  }

  /** Below twenty the first index is zero or negative: `s[0]` for 0 and
      10, `undefined` otherwise, so `s[v]` decides. */
  lemma OrdinalBelowTwenty(v: int)
    requires 0 <= v < 20
    ensures Ordinal(v) == EnglishSuffix(v)
  {
    BelowHundredUnchanged(v);
    if v == 0 || v == 10 {
      TenthsUnique(20 - v, 2 - v / 10, 0);
      assert Js.Rem(v - 20, 10) == 0;
    } else if v < 10 {
      TenthsUnique(20 - v, 1, 10 - v);
      assert Js.Rem(v - 20, 10) == v - 10;
      TenthsUnique(v, 0, v);
    } else {
      TenthsUnique(20 - v, 0, 20 - v);
      assert Js.Rem(v - 20, 10) == v - 20;
      TenthsUnique(v, 1, v - 10);
    }
  }

  /** From twenty on the first index is the last digit, and `s[v]` is
      always `undefined`. */
  lemma OrdinalFromTwenty(v: int)
    requires 20 <= v < 100
    ensures Ordinal(v) == EnglishSuffix(v)
  {
    BelowHundredUnchanged(v);
    TenthsUnique(v - 20, v / 10 - 2, v % 10);
    assert Js.Rem(v - 20, 10) == v % 10;
    assert Js.At(Suffixes, v) == None;
  }

  /** A number below one hundred is its own remainder. */
  lemma BelowHundredUnchanged(x: int)
    requires 0 <= x < 100
    ensures x % 100 == x
  {
    var t := x / 100;
    assert 100 * t == x - x % 100;
  }

  /** For every non-negative integer `getOrdinal` follows the English rule. */
  lemma OrdinalIsEnglish(n: int)
    requires n >= 0
    ensures Ordinal(n) == EnglishSuffix(n)
  {
    OrdinalBelowHundred(n % 100);
    OrdinalOfLastTwoDigits(n);
    EnglishSuffixOfLastTwoDigits(n);
  }

  /** The English rule only looks at the last two digits. */
  lemma EnglishSuffixOfLastTwoDigits(n: nat)
    ensures EnglishSuffix(n) == EnglishSuffix(n % 100)
  {
    LastDigitOfLastTwo(n);
  }

  lemma LastDigitOfLastTwo(n: nat)
    ensures (n % 100) % 10 == n % 10
  {
    var v := n % 100;
    var t := 10 * (n / 100) + v / 10;
    assert n == 10 * t + v % 10;
    TenthsUnique(n, t, v % 10);
  }

  /** Division by ten has one remainder. */
  lemma TenthsUnique(n: int, t: int, r: int)
    requires 0 <= r < 10 && n == 10 * t + r
    ensures n % 10 == r
  {
    var t' := n / 10;
    assert 10 * (t - t') == n % 10 - r;
  }

  /** For non-negative integers only the last two decimal digits matter. */
  lemma OrdinalOfLastTwoDigits(n: int)
    requires n >= 0
    ensures Ordinal(n) == Ordinal(n % 100)
  {
    BelowHundredUnchanged(n % 100);
    assert Js.Rem(n, 100) == n % 100 == Js.Rem(n % 100, 100);
  }

  /** A negative number always gets "th": the index `(v - 20) % 10` is then
      negative or zero and `s[v]` is `undefined` or `s[0]`. */
  lemma OrdinalOfNegative(n: int)
    requires n < 0
    ensures Ordinal(n) == "th"
  {
    var v := Js.Rem(n, 100);
    assert v <= 0;
    assert Js.Rem(v - 20, 10) <= 0;
  }

  /** The days of a month that the two scripts' calendar pages show. */
  lemma CalendarDays()
    ensures Ordinal(1) == "st" && Ordinal(21) == "st" && Ordinal(31) == "st"
    ensures Ordinal(2) == "nd" && Ordinal(22) == "nd"
    ensures Ordinal(3) == "rd" && Ordinal(23) == "rd"
    ensures Ordinal(11) == "th" && Ordinal(12) == "th" && Ordinal(13) == "th"
    ensures forall d :: 1 <= d <= 31 && d != 1 && d != 2 && d != 3 && d != 21 && d != 22 && d != 23 && d != 31
                        ==> Ordinal(d) == "th"
  {
    forall d | 1 <= d <= 31 ensures Ordinal(d) == EnglishSuffix(d) {
      OrdinalBelowHundred(d);
    }
  }

  // ----- number formatting -----

  function DigitChar(d: nat): (c: char)
    requires d < 10
    ensures Patterns.IsDigit(c)
  {
    (48 + d) as char
  }

  function DigitValue(c: char): (d: nat)
    requires Patterns.IsDigit(c)
    ensures d < 10 && DigitChar(d) == c
  {
    c as int - 48
  }

  predicate AllDigits(s: string) {
    forall k :: 0 <= k < |s| ==> Patterns.IsDigit(s[k])
  }

  /** `${n}` for a non-negative integer: its decimal digits, with no
      leading zero unless the number is zero. */
  function DecimalDigits(n: nat): (s: string)
    ensures |s| >= 1 && AllDigits(s)
    ensures |s| > 1 ==> s[0] != '0'
    decreases n
  {
    if n < 10 then [DigitChar(n)] else DecimalDigits(n / 10) + [DigitChar(n % 10)]
  }

  /** The value of a string of decimal digits. */
  function ParseDecimal(s: string): nat
    requires AllDigits(s)
  {
    if |s| == 0 then 0 else ParseDecimal(s[..|s| - 1]) * 10 + DigitValue(s[|s| - 1])
  }

  /** Formatting a number and reading it back gives the number. */
  lemma {:induction false} DecimalRoundTrip(n: nat)
    ensures ParseDecimal(DecimalDigits(n)) == n
    decreases n
  {
    var s := DecimalDigits(n);
    if n >= 10 {
      assert s[..|s| - 1] == DecimalDigits(n / 10);
      DecimalRoundTrip(n / 10);
    }
  }

  // ----- buildReactDatepickerAriaLabel -----

  /** The template `Choose W, M D<ordinal>, Y`, given the weekday and month
      names, the day and the year. */
  function AriaLabel(weekday: string, month: string, day: nat, year: nat): string {
    "Choose " + weekday + ", " + month + " " + DecimalDigits(day) + Ordinal(day) + ", " + DecimalDigits(year)
  }

  /** The date this repository's test script picks. */
  lemma TestDateLabel()
    ensures AriaLabel("Saturday", "September", 6, 2025) == "Choose Saturday, September 6th, 2025"
  {
    TestYearDigits();
    OrdinalBelowHundred(6);
  }

  lemma TestYearDigits()
    ensures DecimalDigits(2025) == "2025"
  {
    assert DecimalDigits(20) == "20" by {
      assert DecimalDigits(2) == "2";
    }
    assert DecimalDigits(202) == "202";
  }

  /** Two digit strings each followed by something that does not start
      with a digit can only be equal as wholes if the digits are equal. */
  lemma DigitsThenOther(a: string, x: string, c: string, z: string)
    requires AllDigits(a) && AllDigits(c)
    requires |x| > 0 && !Patterns.IsDigit(x[0])
    requires |z| > 0 && !Patterns.IsDigit(z[0])
    requires a + x == c + z
    ensures a == c && x == z
  {
    assert a == (a + x)[..|a|];
    assert c == (c + z)[..|c|];
  }

  /** Every suffix is two letters long. */
  lemma SuffixShape(n: int)
    ensures |Ordinal(n)| == 2 && !Patterns.IsDigit(Ordinal(n)[0])
  {
    var o := Ordinal(n);
    assert o == "th" || o == "st" || o == "nd" || o == "rd";
  }

  /** The label after its weekday-and-month prefix. */
  function DayAndYear(day: nat, year: nat): string {
    DecimalDigits(day) + (Ordinal(day) + (", " + DecimalDigits(year)))
  }

  lemma LabelSplits(weekday: string, month: string, day: nat, year: nat)
    ensures AriaLabel(weekday, month, day, year) == ("Choose " + weekday + ", " + month + " ") + DayAndYear(day, year)
  {
  }

  lemma CancelPrefix(p: string, a: string, b: string)
    requires p + a == p + b
    ensures a == b
  {
    assert a == (p + a)[|p|..];
    assert b == (p + b)[|p|..];
  }

  /** For a fixed weekday and month the label names exactly one day and
      year, so the cell it selects is the intended one. */
  lemma AriaLabelDeterminesDate(weekday: string, month: string, d1: nat, y1: nat, d2: nat, y2: nat)
    requires AriaLabel(weekday, month, d1, y1) == AriaLabel(weekday, month, d2, y2)
    ensures d1 == d2 && y1 == y2
  {
    var p := "Choose " + weekday + ", " + month + " ";
    LabelSplits(weekday, month, d1, y1);
    LabelSplits(weekday, month, d2, y2);
    CancelPrefix(p, DayAndYear(d1, y1), DayAndYear(d2, y2));
    var t1 := Ordinal(d1) + (", " + DecimalDigits(y1));
    var t2 := Ordinal(d2) + (", " + DecimalDigits(y2));
    SuffixShape(d1);
    SuffixShape(d2);
    assert t1[0] == Ordinal(d1)[0] && t2[0] == Ordinal(d2)[0];
    DigitsThenOther(DecimalDigits(d1), t1, DecimalDigits(d2), t2);
    assert DecimalDigits(y1) == t1[4..];
    assert DecimalDigits(y2) == t2[4..];
    DecimalRoundTrip(d1);
    DecimalRoundTrip(d2);
    DecimalRoundTrip(y1);
    DecimalRoundTrip(y2);
  }

  // ----- goToMonthIfNeeded -----

  const MaxMonthClicks: nat := 12

  /** How the walk to the target month ends: the header showed the target
      after `clicks` clicks on "next"; twelve headers were read without the
      target and all twelve clicks went through; or a page call (a header
      read, a click or the pause after it) failed after `clicks` clicks
      had gone through, which rejects. */
  datatype MonthNav = Reached(clicks: nat) | GaveUp | PageFailed(clicks: nat)

  /** One turn of the loop as the page answers it: the header's text
      content (`None` for `null`), and whether the click on "next" and
      the pause after it went through. */
  datatype MonthStep = MonthStep(header: Option<string>, advanced: bool)

  /** `(await header.textContent())?.trim() || ''`: a missing text reads
      as the empty string; a present one is cut down to the part between
      its leading and trailing white space. */
  function HeaderText(h: Option<string>): (t: string)
    ensures h.None? ==> t == ""
    ensures h.Some? ==> exists i :: Text.CutFrom(h.value, t, i)
    ensures t == "" || (!Text.IsTrimmable(t[0]) && !Text.IsTrimmable(t[|t| - 1]))
  {
    match h
    case Some(t) => Text.Trim(t)
    case None => ""
  }

  /** A turn that neither found the target nor failed to click on. */
  predicate TurnPassed(step: MonthStep, target: string) {
    HeaderText(step.header) != target && step.advanced
  }

  /** `goToMonthIfNeeded`, given what the page does at each turn of the
      loop; the sequence ends at the turn whose header read fails. It stops
      at the first header that reads as the target, after one successful
      click for each turn before it; a failing header read or click
      rejects, whichever turn it happens in; after twelve successful
      clicks it gives up quietly. */
  method GoToMonthIfNeeded(steps: seq<MonthStep>, target: string) returns (r: MonthNav)
    ensures r.Reached? ==> && r.clicks < MaxMonthClicks && r.clicks < |steps|
                           && HeaderText(steps[r.clicks].header) == target
                           && forall j :: 0 <= j < r.clicks ==> TurnPassed(steps[j], target)
    ensures r.GaveUp? ==> && |steps| >= MaxMonthClicks
                          && forall j :: 0 <= j < MaxMonthClicks ==> TurnPassed(steps[j], target)
    ensures r.PageFailed? ==> && r.clicks < MaxMonthClicks && r.clicks <= |steps|
                              && (forall j :: 0 <= j < r.clicks ==> TurnPassed(steps[j], target))
                              && (r.clicks == |steps|
                                  || (HeaderText(steps[r.clicks].header) != target && !steps[r.clicks].advanced))
  {
    var i := 0;
    while i < MaxMonthClicks
      invariant 0 <= i <= MaxMonthClicks && i <= |steps|
      invariant forall j :: 0 <= j < i ==> TurnPassed(steps[j], target)
    {
      if i == |steps| {
        return PageFailed(i);
      }
      if HeaderText(steps[i].header) == target {
        return Reached(i);
      }
      if !steps[i].advanced {
        return PageFailed(i);
      }
      i := i + 1;
    }
    return GaveUp;
  }
}
