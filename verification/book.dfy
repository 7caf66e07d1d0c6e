/** The pure decisions of the booking script (`src/book.ts`): when it asks
    the SMS provider for a one-time code and what it does with the answer,
    the 08:00 gate and the time-slot label. It also holds the one decision
    of the date-test script (`src/testDate.ts`) that the booking script
    does not share, the choice of the last participant option; the
    pieces the two scripts share are in `Calendar`.
 */
module Book {
  import opened Outcomes
  import Js
  import Patterns
  import Env
  import OtpTwilio

  /** The wait the booking script asks of the SMS provider. */
  const OtpTimeoutMs: int := 45000
  /** The slot label used when the configuration has none. */
  const FallbackSlotLabel: string := "6:00 PM"

  /** How `ensureOtp` ends; it never rejects. */
  datatype OtpStep =
    | NoCredentials                            // returned before touching the page
    | NoPrompt                                 // no code field appeared
    | NoCode                                   // the wait for a code rejected
    | NotFilled(code: string)                  // a code arrived but typing it into the field failed
    | Entered(code: string, submitted: bool)   // the code was typed; the submit click succeeded or not

  /** All three provider settings are present and non-empty. */
  predicate HasCredentials(cfg: Env.Config) {
    Js.Truthy(cfg.twilioAccountSid) && Js.Truthy(cfg.twilioAuthToken) && Js.Truthy(cfg.twilioPhoneNumber)
  }

  /** The options `ensureOtp` passes to `waitForOtp`: the configured
      credentials and sender filter, the six-digit pattern and a 45 second
      wait, the lookback and poll interval left at their defaults. */
  function OtpOptionsFor(cfg: Env.Config): (o: OtpTwilio.OtpOptions)
    requires HasCredentials(cfg)
    ensures OtpTwilio.Resolve(o) == OtpTwilio.Settings(cfg.userPhoneLast4, OtpTwilio.SixDigitRegex,
                                                       OtpTwilio.DefaultSinceSeconds, OtpTimeoutMs,
                                                       OtpTwilio.DefaultPollIntervalMs)
  {
    OtpTwilio.OtpOptions(
      accountSid := cfg.twilioAccountSid.value,
      authToken := cfg.twilioAuthToken.value,
      twilioPhone := cfg.twilioPhoneNumber.value,
      userPhoneLast4 := cfg.userPhoneLast4,
      matchRegex := Some(OtpTwilio.SixDigitRegex),
      sinceSeconds := None,
      timeoutMs := Some(OtpTimeoutMs),
      pollIntervalMs := None)
  }

  /** `ensureOtp`, given whether the code field appears, the outcomes of
      the provider's list calls, whether filling the field succeeds and
      whether the submit click succeeds. Without credentials it does
      nothing; otherwise every failure is swallowed, the submit button is
      clicked only after the field was filled, and whatever is typed into
      the field is the code the wait resolved with: a six-digit code found
      in a message that passed the sender filter. A rejected wait, and
      only that, ends without a code. */
  function EnsureOtp(cfg: Env.Config, promptShown: bool, calls: seq<OtpTwilio.ListCall>,
                     filled: bool, submitted: bool): (r: OtpStep)
    ensures r.NoCredentials? <==> !HasCredentials(cfg)
    ensures r.NoPrompt? <==> HasCredentials(cfg) && !promptShown
    ensures r.NoCode? ==> OtpTwilio.WaitForOtp(OtpOptionsFor(cfg), calls).Err?
    ensures HasCredentials(cfg) && promptShown ==> (r.NoCode? <==> OtpTwilio.WaitForOtp(OtpOptionsFor(cfg), calls).Err?)
    ensures r.NotFilled? || r.Entered? ==> OtpTwilio.WaitForOtp(OtpOptionsFor(cfg), calls) == Ok(Some(r.code))
    ensures r.NotFilled? ==> !filled
    ensures r.Entered? ==> filled && r.submitted == submitted
    ensures (r.NotFilled? || r.Entered?) ==>
              && Patterns.IsCode(r.code)
              && exists k :: 0 <= k < |calls| && OtpTwilio.Listing(calls, k, OtpTwilio.Resolve(OtpOptionsFor(cfg)), Some(r.code))
  {
    if !HasCredentials(cfg) then NoCredentials
    else if !promptShown then NoPrompt
    else
      match OtpTwilio.WaitForOtp(OtpOptionsFor(cfg), calls)
      case Err(_) => NoCode
      case Ok(code) => if filled then Entered(code.value, submitted) else NotFilled(code.value)
  }

  /** With the configuration read from the environment, the provider is
      asked for nothing exactly when one of the three provider variables is
      unset or empty. */
  lemma CredentialsFromEnvironment(env: map<string, string>, promptShown: bool,
                                   calls: seq<OtpTwilio.ListCall>, filled: bool, submitted: bool)
    ensures EnsureOtp(Env.LoadConfig(env), promptShown, calls, filled, submitted).NoCredentials? <==>
              || "TWILIO_ACCOUNT_SID" !in env || env["TWILIO_ACCOUNT_SID"] == ""
              || "TWILIO_AUTH_TOKEN" !in env || env["TWILIO_AUTH_TOKEN"] == ""
              || "TWILIO_PHONE_NUMBER" !in env || env["TWILIO_PHONE_NUMBER"] == ""
  {
  }

  /** The page-side 08:00 test `h > 8 || (h === 8 && m >= 0)` on a clock
      reading: it holds exactly from 08:00 on, whatever the minutes. */
  function EightOClockReached(hours: int, minutes: int): (open: bool)
    requires 0 <= hours < 24 && 0 <= minutes < 60
    ensures open <==> hours >= 8
  {
    hours > 8 || (hours == 8 && minutes >= 0)
  }

  /** `cfg.TARGET_SLOT_TIME || '6:00 PM'`: never empty, so the slot
      button's `has-text` selector always names a time; it is the
      configured slot time unless that is missing or empty. */
  function SlotLabel(cfg: Env.Config): (slot: string)
    ensures slot != ""
    ensures slot == FallbackSlotLabel || Some(slot) == cfg.targetSlotTime
    ensures Js.Truthy(cfg.targetSlotTime) ==> slot == cfg.targetSlotTime.value
  {
    Js.OrDefault(cfg.targetSlotTime, FallbackSlotLabel)
  }

  /** With the configuration read from the environment the slot label is
      the configured slot time: the script's own fallback is never the one
      that decides, though it agrees with the configuration's default. */
  lemma SlotLabelIsConfigured(env: map<string, string>)
    ensures SlotLabel(Env.LoadConfig(env)) == Env.LoadConfig(env).targetSlotTime.value
    ensures SlotLabel(Env.LoadConfig(env)) ==
              (if "TARGET_SLOT_TIME" in env && env["TARGET_SLOT_TIME"] != "" then env["TARGET_SLOT_TIME"]
               else FallbackSlotLabel)
  {
  }

  /** The participant option the test script clicks: a valid index with no
      option after it, and none when the list is empty. */
  function LastParticipantOption(count: nat): (r: Option<nat>)
    ensures r.Some? <==> count > 0
    ensures r.Some? ==> r.value < count && !(r.value + 1 < count)
  {
    if count > 0 then Some(count - 1) else None
  }
}
