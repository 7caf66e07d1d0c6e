/** `loadConfig`: the scripts' configuration, read from the process
    environment with `||` defaults.

    The environment is a map from variable names to values; an unset
    variable is a missing key. A variable with a default takes it when it is
    unset or empty; the credentials and the court are passed through as
    they are, `undefined` when unset.
 */
module Env {
  import opened Outcomes
  import Js

  const DefaultRecUrl: string := "https://www.rec.us/presidiowall"
  const DefaultTargetDate: string := ""
  const DefaultTargetTime: string := "08:00"
  const DefaultTargetSlotTime: string := "6:00 PM"
  const DefaultTimeZone: string := "America/Los_Angeles"
  const DefaultStorageState: string := ".pw-user-data/storage-state.json"
  const DefaultUserDataDir: string := ".pw-user-data"

  /** The `Config` type; its optional members are `Option`s. */
  datatype Config = Config(
    recUrl: string,
    targetDate: string,
    targetTime: string,
    targetSlotTime: Option<string>,
    targetCourt: Option<string>,
    timeZone: string,
    twilioAccountSid: Option<string>,
    twilioAuthToken: Option<string>,
    twilioPhoneNumber: Option<string>,
    userPhoneLast4: Option<string>,
    storageState: Option<string>,
    userDataDir: Option<string>)

  /** `env.NAME`. */
  function Lookup(env: map<string, string>, name: string): (v: Option<string>)
    ensures v.Some? <==> name in env
    ensures v.Some? ==> v.value == env[name]
  {
    if name in env then Some(env[name]) else None
  }

  /** `env.NAME || fallback`: the variable's value when it is set and not
      empty, the fallback otherwise. */
  function Setting(env: map<string, string>, name: string, fallback: string): (v: string)
    ensures name in env && env[name] != "" ==> v == env[name]
    ensures name !in env || env[name] == "" ==> v == fallback
  {
    Js.OrDefault(Lookup(env, name), fallback)
  }

  /** `loadConfig()` over the environment `env`. It never fails and
      validates nothing. */
  function LoadConfig(env: map<string, string>): Config
  {
    Config(
      recUrl := Setting(env, "REC_URL", DefaultRecUrl),
      targetDate := Setting(env, "TARGET_DATE", DefaultTargetDate),
      targetTime := Setting(env, "TARGET_TIME", DefaultTargetTime),
      targetSlotTime := Some(Setting(env, "TARGET_SLOT_TIME", DefaultTargetSlotTime)),
      targetCourt := Lookup(env, "TARGET_COURT"),
      timeZone := Setting(env, "TZ", DefaultTimeZone),
      twilioAccountSid := Lookup(env, "TWILIO_ACCOUNT_SID"),
      twilioAuthToken := Lookup(env, "TWILIO_AUTH_TOKEN"),
      twilioPhoneNumber := Lookup(env, "TWILIO_PHONE_NUMBER"),
      userPhoneLast4 := Lookup(env, "USER_PHONE_LAST4"),
      storageState := Some(Setting(env, "STORAGE_STATE", DefaultStorageState)),
      userDataDir := Some(Setting(env, "USER_DATA_DIR", DefaultUserDataDir)))
  }

  /** The members whose type is optional but which `loadConfig` always
      fills hold a non-empty string, so the scripts' non-null assertions on
      them hold and their own `|| '6:00 PM'` fallback is never taken; the
      mandatory string members other than the target date are non-empty
      too. */
  lemma DefaultedMembersAreSet(env: map<string, string>)
    ensures var cfg := LoadConfig(env);
            && Js.Truthy(cfg.targetSlotTime) && Js.Truthy(cfg.storageState) && Js.Truthy(cfg.userDataDir)
            && cfg.recUrl != "" && cfg.targetTime != "" && cfg.timeZone != ""
  {
  }

  /** The variables that have a default, and those passed through. */
  const Defaulted: set<string> :=
    {"REC_URL", "TARGET_DATE", "TARGET_TIME", "TARGET_SLOT_TIME", "TZ", "STORAGE_STATE", "USER_DATA_DIR"}
  const PassedThrough: set<string> :=
    {"TARGET_COURT", "TWILIO_ACCOUNT_SID", "TWILIO_AUTH_TOKEN", "TWILIO_PHONE_NUMBER", "USER_PHONE_LAST4"}

  /** The default of a defaulted variable. */
  function DefaultOf(name: string): string {
    match name
    case "REC_URL" => DefaultRecUrl
    case "TARGET_DATE" => DefaultTargetDate
    case "TARGET_TIME" => DefaultTargetTime
    case "TARGET_SLOT_TIME" => DefaultTargetSlotTime
    case "TZ" => DefaultTimeZone
    case "STORAGE_STATE" => DefaultStorageState
    case _ => DefaultUserDataDir
  }

  /** The member of a config that a variable sets, as a value that may be
      `undefined`. */
  function Field(cfg: Config, name: string): Option<string> {
    match name
    case "REC_URL" => Some(cfg.recUrl)
    case "TARGET_DATE" => Some(cfg.targetDate)
    case "TARGET_TIME" => Some(cfg.targetTime)
    case "TARGET_SLOT_TIME" => cfg.targetSlotTime
    case "TZ" => Some(cfg.timeZone)
    case "STORAGE_STATE" => cfg.storageState
    case "USER_DATA_DIR" => cfg.userDataDir
    case "TARGET_COURT" => cfg.targetCourt
    case "TWILIO_ACCOUNT_SID" => cfg.twilioAccountSid
    case "TWILIO_AUTH_TOKEN" => cfg.twilioAuthToken
    case "TWILIO_PHONE_NUMBER" => cfg.twilioPhoneNumber
    case _ => cfg.userPhoneLast4
  }

  /** The member a defaulted variable sets is `env.NAME || default`. */
  lemma DefaultedField(env: map<string, string>, name: string)
    requires name in Defaulted
    ensures Field(LoadConfig(env), name) == Some(Setting(env, name, DefaultOf(name)))
  {
  }

  /** A defaulted variable set to a non-empty value always wins over its
      default; set to the empty string or unset, it takes the default. */
  lemma NonEmptyValueWins(env: map<string, string>, name: string, value: string)
    requires name in Defaulted
    ensures value != "" ==> Field(LoadConfig(env[name := value]), name) == Some(value)
    ensures Field(LoadConfig(env[name := ""]), name) == Some(DefaultOf(name))
    ensures Field(LoadConfig(env - {name}), name) == Some(DefaultOf(name))
  {
    DefaultedField(env[name := value], name);
    DefaultedField(env[name := ""], name);
    DefaultedField(env - {name}, name);
  }

  /** A passed-through variable is copied as it is: its value, empty or
      not, or `undefined` when unset. */
  lemma PassedThroughUnchanged(env: map<string, string>, name: string)
    requires name in PassedThrough
    ensures Field(LoadConfig(env), name) == Lookup(env, name)
  {
  }

  /** Variables the configuration does not name have no effect on it. */
  lemma OtherVariablesIgnored(env: map<string, string>, name: string, value: string)
    requires name !in Defaulted && name !in PassedThrough
    ensures LoadConfig(env[name := value]) == LoadConfig(env)
  {
    forall n | n in Defaulted + PassedThrough
      ensures Lookup(env[name := value], n) == Lookup(env, n)
    {
    }
  }
}
