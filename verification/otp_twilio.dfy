/** `waitForOtp`: waits for a one-time code by listing, once per poll
    cycle, the recent SMS messages sent to the provider number.

    There is no baseline: a matching message already present in the first
    listing is accepted. Within a cycle the messages are looked at in the
    order listed. A message is passed over when its id equals the
    remembered id of the last message that was looked at and did not
    match, or when a sender filter is set and the sender does not end with
    it. The first remaining message whose body matches the pattern gives
    the result. A failing list call rejects the whole wait at once.
 */
module OtpTwilio {
  import opened Outcomes
  import Js
  import Text
  import Patterns
  import opened OtpCommon

  const DefaultSinceSeconds: int := 120
  const DefaultTimeoutMs: int := 30000
  const DefaultPollIntervalMs: int := 1000

  const TimeoutMessage: string := "OTP not received in time"

  /** A listed message; `from` and `body` may be missing. */
  datatype Message = Message(sid: string, from: Option<string>, body: Option<string>)

  /** The outcome of one list call. */
  datatype ListCall = Listed(messages: seq<Message>) | ListFailed

  /** The pattern the body is matched against: the default `(\d{6})`, or a
      caller's regex given as its non-global `match`: `None` when it does
      not match, otherwise the value of capture group 1, itself `None` when
      that group is `undefined`. */
  datatype Pattern = SixDigitRegex | Custom(matcher: string -> Option<Option<string>>)

  /** The caller's options; `None` is an option left `undefined`. */
  datatype OtpOptions = OtpOptions(
    accountSid: string,
    authToken: string,
    twilioPhone: string,
    userPhoneLast4: Option<string>,
    matchRegex: Option<Pattern>,
    sinceSeconds: Option<int>,
    timeoutMs: Option<int>,
    pollIntervalMs: Option<int>)

  datatype Settings = Settings(
    userPhoneLast4: Option<string>,
    pattern: Pattern,
    sinceSeconds: int,
    timeoutMs: int,
    pollIntervalMs: int)

  /** The destructuring defaults, which apply only to options left
      `undefined`. */
  function Resolve(o: OtpOptions): (s: Settings)
    ensures s.userPhoneLast4 == o.userPhoneLast4
    ensures o.matchRegex.Some? ==> s.pattern == o.matchRegex.value
    ensures o.matchRegex.None? ==> s.pattern == SixDigitRegex
    ensures o.sinceSeconds.Some? ==> s.sinceSeconds == o.sinceSeconds.value
    ensures o.sinceSeconds.None? ==> s.sinceSeconds == DefaultSinceSeconds
    ensures o.timeoutMs.Some? ==> s.timeoutMs == o.timeoutMs.value
    ensures o.timeoutMs.None? ==> s.timeoutMs == DefaultTimeoutMs
    ensures o.pollIntervalMs.Some? ==> s.pollIntervalMs == o.pollIntervalMs.value
    ensures o.pollIntervalMs.None? ==> s.pollIntervalMs == DefaultPollIntervalMs
  {
    Settings(
      o.userPhoneLast4,
      match o.matchRegex case Some(p) => p case None => SixDigitRegex,
      match o.sinceSeconds case Some(n) => n case None => DefaultSinceSeconds,
      match o.timeoutMs case Some(t) => t case None => DefaultTimeoutMs,
      match o.pollIntervalMs case Some(p) => p case None => DefaultPollIntervalMs)
  }

  /** Leaving an option `undefined` is the same as passing its default:
      the wait behaves the same without a pattern as with the six-digit
      pattern, and the settings are the same without a window, timeout or
      interval as with 120 s, 30 000 ms and 1 000 ms. A given option is
      never replaced by its default. */
  lemma OmittedOptionsAreDefaults(o: OtpOptions, calls: seq<ListCall>)
    ensures WaitForOtp(o.(matchRegex := None), calls) == WaitForOtp(o.(matchRegex := Some(SixDigitRegex)), calls)
    ensures Resolve(o.(matchRegex := None)) == Resolve(o.(matchRegex := Some(SixDigitRegex)))
    ensures Resolve(o.(sinceSeconds := None)) == Resolve(o.(sinceSeconds := Some(DefaultSinceSeconds)))
    ensures Resolve(o.(timeoutMs := None)) == Resolve(o.(timeoutMs := Some(DefaultTimeoutMs)))
    ensures Resolve(o.(pollIntervalMs := None)) == Resolve(o.(pollIntervalMs := Some(DefaultPollIntervalMs)))
    ensures o.matchRegex.Some? && o.sinceSeconds.Some? && o.timeoutMs.Some? && o.pollIntervalMs.Some? ==>
              Resolve(o) == Settings(o.userPhoneLast4, o.matchRegex.value, o.sinceSeconds.value,
                                     o.timeoutMs.value, o.pollIntervalMs.value)
  {
  }

  /** `body.match(matchRegex)`, reduced to "no match" or the value of
      `match[1]`. Under the default pattern a match always captures six
      digits, those of the leftmost run, and there is a match exactly when
      the body holds six consecutive digits. */
  function Match(p: Pattern, body: string): (r: Option<Option<string>>)
    ensures p.SixDigitRegex? ==> (r.Some? <==> exists i :: Patterns.SixDigitsAt(body, i))
    ensures p.SixDigitRegex? && r.Some? ==> r.value.Some? && Patterns.IsCode(r.value.value)
    ensures p.SixDigitRegex? && r.Some? ==>
              exists i :: Patterns.LeftmostAt(body, i, false) && r.value == Some(body[i..i + Patterns.CodeLength])
  {
    match p
    case SixDigitRegex =>
      (match Patterns.SixDigits(body) case Some(c) => Some(Some(c)) case None => None)
    case Custom(f) => f(body)
  }

  /** `msg.body || ''`. */
  function BodyOf(m: Message): string {
    Js.OrDefault(m.body, "")
  }

  /** The sender filter: with a non-empty `userPhoneLast4` the sender,
      read as `''` when missing, must end with it; otherwise every message
      passes. */
  predicate Accepted(last4: Option<string>, m: Message) {
    !Js.Truthy(last4) || Text.EndsWith(Js.OrDefault(m.from, ""), last4.value)
  }

  /** The id check: only a remembered, non-empty id can cause a skip. */
  predicate SkippedAfter(last: Option<string>, m: Message) {
    Js.Truthy(last) && m.sid == last.value
  }

  /** The sender filter. Without a non-empty filter every message passes.
      With one, a sender ending in it passes whatever comes before, and a
      sender shorter than the filter (a missing sender reads as `''`) is
      turned away. */
  lemma SenderFilter(last4: Option<string>, m: Message, prefix: string)
    ensures !Js.Truthy(last4) ==> Accepted(last4, m)
    ensures Js.Truthy(last4) ==> Accepted(last4, m.(from := Some(prefix + last4.value)))
    ensures Js.Truthy(last4) && |Js.OrDefault(m.from, "")| < |last4.value| ==> !Accepted(last4, m)
    ensures Js.Truthy(last4) && m.from.None? ==> !Accepted(last4, m)
  {
    if Js.Truthy(last4) {
      var f := prefix + last4.value;
      assert f[|f| - |last4.value|..] == last4.value;
    }
  }

  /** The id check. Before any id is remembered, and after an empty one,
      nothing is skipped; after a non-empty id, exactly the messages with
      that id are. */
  lemma SkipOnlyRememberedId(last: Option<string>, m: Message)
    ensures !SkippedAfter(None, m) && !SkippedAfter(Some(""), m)
    ensures Js.Truthy(last) ==> (SkippedAfter(last, m) <==> m.sid == last.value)
  {
  }

  /** A missing body is matched as the empty string, so under the default
      pattern a message without a body, or with an empty one, never gives
      a code. */
  lemma MissingBodyIsEmpty(s: Settings, m: Message)
    ensures Hits(s, m.(body := None)) == Hits(s, m.(body := Some("")))
    ensures s.pattern.SixDigitRegex? && !Js.Truthy(m.body) ==> !Hits(s, m)
  {
    if s.pattern.SixDigitRegex? && !Js.Truthy(m.body) {
      assert BodyOf(m) == "";
      assert forall i :: !Patterns.SixDigitsAt(BodyOf(m), i);
    }
  }

  /** A message that passes the filter and whose body matches. */
  predicate Hits(s: Settings, m: Message) {
    Accepted(s.userPhoneLast4, m) && Match(s.pattern, BodyOf(m)).Some?
  }

  /** What one cycle ends with: a capture, or the id remembered for the
      next cycle. */
  datatype Scan = Found(capture: Option<string>) | Continue(last: Option<string>)

  /** The `for` loop over one listing, starting from the remembered id
      `last`. A capture comes from a listed message that passes the filter
      and matches; a remembered id is the one it started with or the id of
      a listed message that passed the filter and did not match. */
  function ScanMessages(msgs: seq<Message>, last: Option<string>, s: Settings): (r: Scan)
    ensures r.Found? ==> exists i :: 0 <= i < |msgs| && Accepted(s.userPhoneLast4, msgs[i])
                                     && Match(s.pattern, BodyOf(msgs[i])) == Some(r.capture)
    ensures r.Continue? ==>
              || r.last == last
              || exists i :: 0 <= i < |msgs| && r.last == Some(msgs[i].sid)
                               && Accepted(s.userPhoneLast4, msgs[i]) && !Hits(s, msgs[i])
    decreases |msgs|
  {
    if |msgs| == 0 then Continue(last)
    else
      var m := msgs[0];
      var rest := ScanMessages(msgs[1..], if SkippedAfter(last, m) || !Accepted(s.userPhoneLast4, m)
                                          then last else Some(m.sid), s);
      if SkippedAfter(last, m) || !Accepted(s.userPhoneLast4, m) then
        assert rest.Found? ==> exists i :: 1 <= i < |msgs| && Accepted(s.userPhoneLast4, msgs[i])
                                         && Match(s.pattern, BodyOf(msgs[i])) == Some(rest.capture);
        rest
      else
        match Match(s.pattern, BodyOf(m))
        case Some(g) => Found(g)
        case None =>
          assert rest.Found? ==> exists i :: 1 <= i < |msgs| && Accepted(s.userPhoneLast4, msgs[i])
                                           && Match(s.pattern, BodyOf(msgs[i])) == Some(rest.capture);
          rest
  }

  /** The `while` loop: one list call per cycle that starts before the
      deadline, the remembered id carried from cycle to cycle. A failed
      list call rejects at once with the provider's error; running out of
      cycles is the timeout; a result is the capture of a listed message
      that passes the filter and matches, after only successful listings. */
  function Listen(calls: seq<ListCall>, last: Option<string>, s: Settings): (r: Result<Option<string>, OtpError>)
    ensures r.Err? ==> r.error == ApiFailed || r.error == Thrown(TimeoutMessage)
    ensures r == Err(ApiFailed) ==> exists k :: 0 <= k < |calls| && calls[k].ListFailed?
    ensures r == Err(Thrown(TimeoutMessage)) ==> forall k :: 0 <= k < |calls| ==> calls[k].Listed?
    ensures r.Ok? ==> exists k :: 0 <= k < |calls| && Listing(calls, k, s, r.value)
    decreases |calls|
  {
    if |calls| == 0 then Err(Thrown(TimeoutMessage))
    else
      match calls[0]
      case ListFailed => Err(ApiFailed)
      case Listed(ms) =>
        match ScanMessages(ms, last, s)
        case Found(g) =>
          assert Listing(calls, 0, s, g);
          Ok(g)
        case Continue(next) =>
          var r := Listen(calls[1..], next, s);
          LaterCycle(calls, s, r);
          r
  }

  /** Cycle `k` listed successfully, every earlier cycle did too, and one of
      its messages passes the filter and its body's match gives `g`. */
  predicate Listing(calls: seq<ListCall>, k: int, s: Settings, g: Option<string>)
    requires 0 <= k < |calls|
  {
    && (forall j :: 0 <= j <= k ==> calls[j].Listed?)
    && exists i :: 0 <= i < |calls[k].messages| && Accepted(s.userPhoneLast4, calls[k].messages[i])
                   && Match(s.pattern, BodyOf(calls[k].messages[i])) == Some(g)
  }

  /** What a later cycle's result says about the whole run, once the
      first cycle listed successfully without a result. */
  lemma LaterCycle(calls: seq<ListCall>, s: Settings, r: Result<Option<string>, OtpError>)
    requires |calls| > 0 && calls[0].Listed?
    requires r == Err(ApiFailed) ==> exists k :: 0 <= k < |calls[1..]| && calls[1..][k].ListFailed?
    requires r == Err(Thrown(TimeoutMessage)) ==> forall k :: 0 <= k < |calls[1..]| ==> calls[1..][k].Listed?
    requires r.Ok? ==> exists k :: 0 <= k < |calls[1..]| && Listing(calls[1..], k, s, r.value)
    ensures r == Err(ApiFailed) ==> exists k :: 0 <= k < |calls| && calls[k].ListFailed?
    ensures r == Err(Thrown(TimeoutMessage)) ==> forall k :: 0 <= k < |calls| ==> calls[k].Listed?
    ensures r.Ok? ==> exists k :: 0 <= k < |calls| && Listing(calls, k, s, r.value)
  {
    if r.Ok? {
      var k :| 0 <= k < |calls[1..]| && Listing(calls[1..], k, s, r.value);
      assert calls[1..][k] == calls[k + 1];
      assert forall j :: 0 <= j <= k ==> calls[1..][j] == calls[j + 1];
      assert Listing(calls, k + 1, s, r.value);
    }
    if r == Err(ApiFailed) {
      var k :| 0 <= k < |calls[1..]| && calls[1..][k].ListFailed?;
      assert calls[k + 1].ListFailed?;
    }
    if r == Err(Thrown(TimeoutMessage)) {
      forall k | 0 <= k < |calls| ensures calls[k].Listed? {
        if k > 0 { assert calls[1..][k - 1] == calls[k]; }
      }
    }
  }

  /** Under the default pattern every hit captures a six-digit code. */
  lemma DefaultCaptureIsCode(calls: seq<ListCall>, s: Settings, g: Option<string>)
    requires s.pattern.SixDigitRegex?
    requires exists k :: 0 <= k < |calls| && Listing(calls, k, s, g)
    ensures g.Some? && Patterns.IsCode(g.value)
  {
    var k :| 0 <= k < |calls| && Listing(calls, k, s, g);
    var i :| 0 <= i < |calls[k].messages| && Accepted(s.userPhoneLast4, calls[k].messages[i])
               && Match(s.pattern, BodyOf(calls[k].messages[i])) == Some(g);
  }

  /** `waitForOtp`, given the options and the outcomes of the list calls of
      the cycles that start before the deadline. */
  function WaitForOtp(o: OtpOptions, calls: seq<ListCall>): (r: Result<Option<string>, OtpError>)
    ensures r.Err? ==> r.error == ApiFailed || r.error == Thrown(TimeoutMessage)
    ensures r == Err(ApiFailed) ==> exists k :: 0 <= k < |calls| && calls[k].ListFailed?
    ensures r == Err(Thrown(TimeoutMessage)) ==> forall k :: 0 <= k < |calls| ==> calls[k].Listed?
    ensures r.Ok? ==> exists k :: 0 <= k < |calls| && Listing(calls, k, Resolve(o), r.value)
    ensures r.Ok? && Resolve(o).pattern.SixDigitRegex? ==> r.value.Some? && Patterns.IsCode(r.value.value)
  {
    var s := Resolve(o);
    var r := Listen(calls, None, s);
    if r.Ok? && s.pattern.SixDigitRegex? then
      DefaultCaptureIsCode(calls, s, r.value);
      r
    else r
  }

  // ----- A reference reading without the id check -----

  /** Message `i` is the first in `msgs` that passes the filter and matches. */
  predicate FirstHitAt(msgs: seq<Message>, i: int, s: Settings) {
    0 <= i < |msgs| && Hits(s, msgs[i]) && forall j :: 0 <= j < i ==> !Hits(s, msgs[j])
  }

  /** The capture of the first message of a listing that passes the filter
      and matches, ignoring message ids altogether. */
  function FirstHit(msgs: seq<Message>, s: Settings): (r: Option<Option<string>>)
    ensures r.Some? ==> exists i :: FirstHitAt(msgs, i, s) && Match(s.pattern, BodyOf(msgs[i])) == r
    ensures r.None? ==> forall i :: 0 <= i < |msgs| ==> !Hits(s, msgs[i])
    decreases |msgs|
  {
    if |msgs| == 0 then None
    else if Hits(s, msgs[0]) then
      assert FirstHitAt(msgs, 0, s);
      Match(s.pattern, BodyOf(msgs[0]))
    else
      var r := FirstHit(msgs[1..], s);
      HitAfterMiss(msgs, s, r);
      r
  }

  /** A first hit after the head of a listing that misses is a first hit
      of the whole listing. */
  lemma HitAfterMiss(msgs: seq<Message>, s: Settings, r: Option<Option<string>>)
    requires |msgs| > 0 && !Hits(s, msgs[0])
    requires r.Some? ==> exists i :: FirstHitAt(msgs[1..], i, s) && Match(s.pattern, BodyOf(msgs[1..][i])) == r
    requires r.None? ==> forall i :: 0 <= i < |msgs[1..]| ==> !Hits(s, msgs[1..][i])
    ensures r.Some? ==> exists i :: FirstHitAt(msgs, i, s) && Match(s.pattern, BodyOf(msgs[i])) == r
    ensures r.None? ==> forall i :: 0 <= i < |msgs| ==> !Hits(s, msgs[i])
  {
    if r.Some? {
      var i :| FirstHitAt(msgs[1..], i, s) && Match(s.pattern, BodyOf(msgs[1..][i])) == r;
      assert forall j :: 0 <= j < i ==> msgs[1..][j] == msgs[j + 1];
      assert FirstHitAt(msgs, i + 1, s);
    } else {
      forall i | 0 <= i < |msgs| ensures !Hits(s, msgs[i]) {
        if i > 0 { assert msgs[1..][i - 1] == msgs[i]; }
      }
    }
  }

  /** The wait read as "the first hit of the first listing that has one",
      with no remembered id. */
  function ReferenceListen(calls: seq<ListCall>, s: Settings): (r: Result<Option<string>, OtpError>)
    decreases |calls|
  {
    if |calls| == 0 then Err(Thrown(TimeoutMessage))
    else
      match calls[0]
      case ListFailed => Err(ApiFailed)
      case Listed(ms) =>
        match FirstHit(ms, s)
        case Some(g) => Ok(g)
        case None => ReferenceListen(calls[1..], s)
  }

  /** Message ids identify messages: every listed message is the one
      `byId` gives for its id. */
  predicate IdsIdentify(calls: seq<ListCall>, byId: string -> Message) {
    forall k, i :: 0 <= k < |calls| && calls[k].Listed? && 0 <= i < |calls[k].messages| ==>
      calls[k].messages[i] == byId(calls[k].messages[i].sid)
  }

  /** A remembered id is harmless when the message it names passes the
      filter and does not match. */
  predicate Harmless(last: Option<string>, s: Settings, byId: string -> Message) {
    Js.Truthy(last) ==> Accepted(s.userPhoneLast4, byId(last.value)) && !Hits(s, byId(last.value))
  }

  /** Within one listing whose ids identify its messages, the id check
      never changes the outcome: the scan finds what the first hit gives,
      and otherwise remembers a harmless id. */
  lemma {:induction false} ScanFindsFirstHit(msgs: seq<Message>, last: Option<string>, s: Settings, byId: string -> Message)
    requires forall i :: 0 <= i < |msgs| ==> msgs[i] == byId(msgs[i].sid)
    requires Harmless(last, s, byId)
    ensures FirstHit(msgs, s).Some? ==> ScanMessages(msgs, last, s) == Found(FirstHit(msgs, s).value)
    ensures FirstHit(msgs, s).None? ==> ScanMessages(msgs, last, s).Continue?
                                        && Harmless(ScanMessages(msgs, last, s).last, s, byId)
    decreases |msgs|
  {
    if |msgs| > 0 {
      var m := msgs[0];
      assert m == byId(m.sid);
      if SkippedAfter(last, m) || !Accepted(s.userPhoneLast4, m) {
        ScanFindsFirstHit(msgs[1..], last, s, byId);
      } else if !Hits(s, m) {
        ScanFindsFirstHit(msgs[1..], Some(m.sid), s, byId);
      }
    }
  }

  /** Skipping the remembered id is redundant: when ids identify messages,
      the wait gives exactly what the reference reading gives. */
  lemma {:induction false} IdCheckIsRedundant(calls: seq<ListCall>, last: Option<string>, s: Settings, byId: string -> Message)
    requires IdsIdentify(calls, byId)
    requires Harmless(last, s, byId)
    ensures Listen(calls, last, s) == ReferenceListen(calls, s)
    decreases |calls|
  {
    if |calls| > 0 && calls[0].Listed? {
      var ms := calls[0].messages;
      assert forall i :: 0 <= i < |ms| ==> ms[i] == byId(ms[i].sid);
      ScanFindsFirstHit(ms, last, s, byId);
      if FirstHit(ms, s).None? {
        assert IdsIdentify(calls[1..], byId) by {
          forall k, i | 0 <= k < |calls[1..]| && calls[1..][k].Listed? && 0 <= i < |calls[1..][k].messages|
            ensures calls[1..][k].messages[i] == byId(calls[1..][k].messages[i].sid)
          {
            assert calls[1..][k] == calls[k + 1];
          }
        }
        IdCheckIsRedundant(calls[1..], ScanMessages(ms, last, s).last, s, byId);
      }
    }
  }

  /** There is no baseline: when ids identify messages and the first
      listing already holds a message that passes the filter and matches,
      the first such message gives the result. */
  lemma FirstListingCounts(o: OtpOptions, calls: seq<ListCall>, byId: string -> Message)
    requires IdsIdentify(calls, byId)
    requires |calls| > 0 && calls[0].Listed?
    requires exists i :: 0 <= i < |calls[0].messages| && Hits(Resolve(o), calls[0].messages[i])
    ensures WaitForOtp(o, calls) == Ok(FirstHit(calls[0].messages, Resolve(o)).value)
  {
    IdCheckIsRedundant(calls, None, Resolve(o), byId);
  }

  /** Without that assumption the id check does matter: a message that
      reuses the id of a non-matching one right after it is never read. */
  lemma ReusedIdIsSkipped()
    ensures var quiet := Message("SM1", None, Some("hello"));
            var coded := Message("SM1", None, Some("code 123456"));
            var o := OtpOptions("AC1", "token", "+15550100", None, None, None, None, None);
            && WaitForOtp(o, [Listed([quiet, coded])]) == Err(Thrown(TimeoutMessage))
            && ReferenceListen([Listed([quiet, coded])], Resolve(o)) == Ok(Some("123456"))
  {
    var quiet := Message("SM1", None, Some("hello"));
    var coded := Message("SM1", None, Some("code 123456"));
    var s := Resolve(OtpOptions("AC1", "token", "+15550100", None, None, None, None, None));
    assert Patterns.SixDigits("hello") == None;
    SmsCode();
    assert !Hits(s, quiet) && Hits(s, coded);
    assert ScanMessages([coded], Some("SM1"), s) == Continue(Some("SM1"));
    assert ScanMessages([quiet, coded], None, s) == Continue(Some("SM1"));
    assert FirstHit([quiet, coded], s) == Some(Some("123456"));
  }

  /** The code of a typical verification SMS. */
  lemma SmsCode()
    ensures Patterns.SixDigits("code 123456") == Some("123456")
  {
    var t := "code 123456";
    Patterns.NoDigitsBefore(t, 5);
    assert Patterns.SixDigitsAt(t, 5);
    Patterns.Leftmost(t, 5, false);
    assert t[5..11] == "123456";
  }
}
