/** The two fixed six-digit regular expressions of the OTP readers.

    The local-database reader uses the word-bounded pattern `\b(\d{6})\b`;
    the AppleScript reader and the default of the SMS-provider reader use
    the unanchored `(\d{6})`. A non-global JavaScript `match` reports the
    leftmost match, and since both patterns have a fixed width, "leftmost
    match" is "the first position where the pattern fits". `\d` is the ASCII
    digits and `\w` the ASCII letters, digits and underscore.
 */
module Patterns {
  import opened Outcomes

  const CodeLength: nat := 6

  predicate IsDigit(c: char) {
    '0' <= c <= '9'
  }

  /** A character of the regex class `\w`. */
  predicate IsWordChar(c: char) {
    IsDigit(c) || ('a' <= c <= 'z') || ('A' <= c <= 'Z') || c == '_'
  }

  /** A one-time code as the readers return it: exactly six ASCII digits. */
  predicate IsCode(s: string) {
    |s| == CodeLength && forall k :: 0 <= k < |s| ==> IsDigit(s[k])
  }

  /** `(\d{6})` matches at position `i` of `t`. */
  predicate SixDigitsAt(t: string, i: int) {
    0 <= i && i + CodeLength <= |t| && forall k :: i <= k < i + CodeLength ==> IsDigit(t[k])
  }

  /** `\b(\d{6})\b` matches at position `i`: six digits with no word
      character immediately before or after them. */
  predicate BoundedSixDigitsAt(t: string, i: int) {
    && SixDigitsAt(t, i)
    && (i == 0 || !IsWordChar(t[i - 1]))
    && (i + CodeLength == |t| || !IsWordChar(t[i + CodeLength]))
  }

  predicate MatchesAt(t: string, i: int, bounded: bool) {
    if bounded then BoundedSixDigitsAt(t, i) else SixDigitsAt(t, i)
  }

  /** The leftmost match position at or after `i`, if any. */
  function FirstMatchFrom(t: string, i: nat, bounded: bool): (r: Option<nat>)
    requires i <= |t|
    ensures r.Some? ==> i <= r.value && MatchesAt(t, r.value, bounded)
    ensures r.Some? ==> forall j :: i <= j < r.value ==> !MatchesAt(t, j, bounded)
    ensures r.None? ==> forall j :: i <= j ==> !MatchesAt(t, j, bounded)
    decreases |t| - i
  {
    if i + CodeLength > |t| then None
    else if MatchesAt(t, i, bounded) then Some(i)
    else FirstMatchFrom(t, i + 1, bounded)
  }

  /** The capture of the leftmost match of the chosen pattern. */
  function Capture(t: string, bounded: bool): (r: Option<string>)
    ensures r.Some? <==> exists i :: MatchesAt(t, i, bounded)
    ensures r.Some? ==> IsCode(r.value)
    ensures r.Some? ==> exists i :: LeftmostAt(t, i, bounded) && r.value == t[i..i + CodeLength]
  {
    match FirstMatchFrom(t, 0, bounded)
    case None => None
    case Some(i) =>
      assert LeftmostAt(t, i, bounded);
      Some(t[i..i + CodeLength])
  }

  /** Position `i` is the leftmost match of the pattern in `t`. */
  predicate LeftmostAt(t: string, i: int, bounded: bool) {
    MatchesAt(t, i, bounded) && forall j :: 0 <= j < i ==> !MatchesAt(t, j, bounded)
  }

  /** `t.match(/(\d{6})/)?.[1]`: the first six consecutive digits anywhere
      in `t`, even inside a longer run of digits. */
  function SixDigits(t: string): (r: Option<string>)
    ensures r.Some? <==> exists i :: SixDigitsAt(t, i)
    ensures r.Some? ==> IsCode(r.value)
    ensures r.Some? ==> exists i :: LeftmostAt(t, i, false) && r.value == t[i..i + CodeLength]
  {
    assert forall i :: MatchesAt(t, i, false) == SixDigitsAt(t, i);
    Capture(t, false)
  }

  /** `t.match(/\b(\d{6})\b/)?.[1]`: the first run of exactly six digits
      that is not glued to a letter, digit or underscore. */
  function BoundedSixDigits(t: string): (r: Option<string>)
    ensures r.Some? <==> exists i :: BoundedSixDigitsAt(t, i)
    ensures r.Some? ==> IsCode(r.value)
    ensures r.Some? ==> exists i :: LeftmostAt(t, i, true) && r.value == t[i..i + CodeLength]
  {
    assert forall i :: MatchesAt(t, i, true) == BoundedSixDigitsAt(t, i);
    Capture(t, true)
  }

  /** A seven-digit run gives nothing under the word-bounded pattern but
      its first six digits under the unanchored one. */
  lemma SevenDigitRun()
    ensures BoundedSixDigits("1234567") == None
    ensures SixDigits("1234567") == Some("123456")
  {
    var t := "1234567";
    assert forall i :: !BoundedSixDigitsAt(t, i);
    assert SixDigitsAt(t, 0);
    Leftmost(t, 0, false);
    assert t[0..CodeLength] == "123456";
  }

  /** The word-bounded pattern is the stricter one: whenever it finds a
      code, the unanchored pattern finds one too, at the same place or
      earlier in the text. */
  lemma {:induction false} BoundedIsStricter(t: string)
    ensures BoundedSixDigits(t).Some? ==> SixDigits(t).Some?
    ensures forall i, j :: LeftmostAt(t, i, true) && LeftmostAt(t, j, false) ==> j <= i
  {
    if BoundedSixDigits(t).Some? {
      var i :| BoundedSixDigitsAt(t, i);
      assert SixDigitsAt(t, i);
    }
    forall i, j | LeftmostAt(t, i, true) && LeftmostAt(t, j, false)
      ensures j <= i
    {
      if j > i {
        assert MatchesAt(t, i, false);
      }
    }
  }

  /** A code set off by spaces, as in a typical verification SMS, is found
      by both patterns. */
  lemma CodeInSentence()
    ensures BoundedSixDigits("Your code is 482913") == Some("482913")
    ensures SixDigits("Your code is 482913") == Some("482913")
  {
    var t := "Your code is 482913";
    NoDigitsBefore(t, 13);
    assert t[13..19] == "482913";
    assert SixDigitsAt(t, 13);
    assert LeftmostAt(t, 13, false);
    Leftmost(t, 13, false);
    assert !IsWordChar(t[12]);
    assert LeftmostAt(t, 13, true);
    Leftmost(t, 13, true);
  }

  /** No match of either pattern starts in a stretch of non-digits. */
  lemma NoDigitsBefore(t: string, n: nat)
    requires n <= |t|
    requires forall k :: 0 <= k < n ==> !IsDigit(t[k])
    ensures forall j, bounded :: 0 <= j < n ==> !MatchesAt(t, j, bounded)
  {
    forall j, bounded | 0 <= j < n
      ensures !MatchesAt(t, j, bounded)
    {
      assert !IsDigit(t[j]);
    }
  }

  /** The capture is the text at the leftmost match position. */
  lemma Leftmost(t: string, i: int, bounded: bool)
    requires LeftmostAt(t, i, bounded)
    ensures Capture(t, bounded) == Some(t[i..i + CodeLength])
  {
    var r := Capture(t, bounded).value;
    var j :| LeftmostAt(t, j, bounded) && r == t[j..j + CodeLength];
    assert i == j;
  }
}
