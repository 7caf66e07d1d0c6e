# presidio-wall-scheduler: the one-time-code readers and their helpers

This project models the part of the Presidio Wall court-booking scripts that
obtains a one-time code (OTP). There are three readers:

- `waitForOtpFromMessagesDb` queries the local Messages database with
  `sqlite3`;
- `waitForOtpFromMacMessages` reads the last message of every chat through
  `osascript`;
- `waitForOtp` lists the recent SMS of an SMS provider (Twilio).

Each reader polls a list of recent messages until a deadline.

- The two Messages readers remember every row or line they have looked
  at, seeded with the ones present at the start.
  - The database reader returns the first word-bounded six-digit run (no
    letter, digit or underscore touching it) in the text of a row whose
    `when|text` key it has not seen. A message's second and later lines
    print as rows without text, so a code there is never returned.
  - The AppleScript reader returns the first six-digit run after the first
    `|` of a line it has not seen.
- The SMS reader has no such memory. It remembers only the id of the last
  message that passed its sender filter without matching, and skips a
  message with that id. It returns the capture of the caller's pattern,
  which is `(\d{6})` unless the caller gives another.

The project also models the small pure pieces of the booking and date-test
scripts:

- the English ordinal suffix;
- the `aria-label` of a date-picker day cell;
- the bounded walk to the target month;
- the `ensureOtp` guard;
- the 08:00 gate;
- the slot label;
- the last-participant choice;
- `loadConfig`'s `||` defaulting.

How the model is built:

- **Time.** Time is not modelled. A poll loop takes the finite sequence of
  outcomes of the reads made by the cycles that start before the deadline.
  When that sequence runs out, the loop has timed out. The sleep, the
  interval and the real clock play no part.
- **Reads.** A tool call (`sqlite3` or `osascript`) is a `ToolRun`: it either
  exits with its standard output or is rejected. A provider list call either
  returns its messages or fails.
- **Seen-set loop.** The module `DedupPoll` holds the loop that both local
  readers share. Its keys are strings. Row keys and extraction are
  parameters, and a row's extraction can give no code, a code, or throw.
- **JavaScript semantics.** The module `Js` states the JavaScript behaviour
  the code relies on:
  - the truncating `%`;
  - `undefined` for an array read out of range;
  - `||` on strings and `undefined`.
- **Strings.** The module `Text` models `split`, `filter(Boolean)`, `indexOf`
  and `trim`.
- **Patterns.** The module `Patterns` models the two six-digit regular
  expressions as leftmost-match functions.
- **Duplicated code.** `getOrdinal`, the label template and
  `goToMonthIfNeeded` appear in both `src/book.ts` and `src/testDate.ts` with
  the same text. Each is modelled once, in `Calendar`.

Behaviour of the code worth knowing before reading the model:

- **In-loop read failures.** The two local readers swallow a failed read
  inside the loop and keep polling (src/otpMacSqlite.ts:53-55,
  src/otpMac.ts:58-60). The SMS reader does not catch provider errors at
  all, so one failed list call rejects the wait (src/otpTwilio.ts:32).
- **Baseline failure messages.** A failed baseline query of the database
  reader always rejects with the fixed Full Disk Access message
  (src/otpMacSqlite.ts:40-42). The AppleScript reader instead passes its
  baseline error on unchanged (src/otpMac.ts:46).
- **No fallback.** No reader falls back to another. Each reader runs alone,
  and the booking script calls only the SMS reader (src/book.ts:103).
- **Error messages.** The three timeout messages are different strings
  (src/otpMacSqlite.ts:58, src/otpMac.ts:63, src/otpTwilio.ts:46).

## Model

| member | source | states |
|---|---|---|
| OtpMacSqlite.ParseRow | src/otpMacSqlite.ts:27-28 | `when` is the text before the first U+0001 (the whole line if there is none); `text` is undefined exactly when the line has no U+0001, and otherwise is the separator-free field after the first one; the line starts with when, separator, text, and then either ends or continues with another separator, so later fields are dropped |
| OtpMacSqlite.PrintedRowsParseBack | src/otpMacSqlite.ts:24-29 | parsing inverts the tool's printing: rows whose fields hold no separator and no line break come back unchanged |
| OtpMacSqlite.TwoLineMessageRows | src/otpMacSqlite.ts:25-29 | a message text with a line break prints as two lines; the second line becomes a row of its own with undefined text |
| OtpMacSqlite.WaitForOtpFromMessagesDb | src/otpMacSqlite.ts:32-59 | a rejected baseline query rejects with the Full Disk Access message and no cycle runs; after a good baseline the only rejection is "OTP not received from Messages DB in time"; a resolved value is always six ASCII digits, and it is the code of the loop's hit, so `BaselineRowsNeverMatch` and `FirstCodeWins` apply to it; the timeout happens exactly when the loop finds nothing |
| OtpMacSqlite.RowKeyIdentifies | src/otpMacSqlite.ts:47 | rows with the same timestamp and shown text share the `when\|text` key (also src/otpMacSqlite.ts:39); for `\|`-free timestamps a shared key means the same timestamp and shown text; a row without text and a row whose text is "undefined" share a key |
| OtpMacSqlite.Extract | src/otpMacSqlite.ts:50 | a row without text throws; otherwise the code is the leftmost word-bounded six-digit run of the text, and there is none exactly when no such run occurs |
| OtpMacSqlite.BaselineRowsNeverMatch | src/otpMacSqlite.ts:35-51 | the code comes from a row of a successful query whose `when\|text` key is not a baseline key, so no baseline row and no row equal to one can give it; it is that row's word-bounded six-digit capture |
| OtpMacSqlite.FirstCodeWins | src/otpMacSqlite.ts:43-52 | no earlier cycle finds a code; in the deciding cycle, every earlier row with an unseen key has text and no word-bounded six-digit run |
| OtpMacSqlite.KeysEvaluatedOnce | src/otpMacSqlite.ts:46-50 | two distinct rows handed to the pattern during one call never share a key, and none has a baseline key |
| OtpMacSqlite.FailedQueriesIgnored | src/otpMacSqlite.ts:43-57 | inserting a failing query anywhere into the loop does not change the result |
| OtpMacSqlite.StaleRowsTimeOut | src/otpMacSqlite.ts:35-58 | when every loop query fails or returns only baseline rows, the call times out |
| OtpMacSqlite.CodeOnSecondLineIsLost | src/otpMacSqlite.ts:25-51 | when every loop query returns only one two-line message whose first line has no code, the call times out whatever the second line holds: in the first cycle the second row's undefined text throws after both keys were added, and every later cycle skips both |
| OtpMac.ReadRecentRawLines | src/otpMac.ts:34-40 | a rejected tool call fails; output starting with `ERROR:` rejects with `AppleScript error: ` followed by the output; any other output gives the non-empty lines and only those, none containing a line break (order and repetitions: `OtpMac.PrintedLinesReadBack`) |
| OtpMac.PrintedLinesReadBack | src/otpMac.ts:34-40 | output of non-empty, newline-free lines, each ended by a line break and not starting with `ERROR:`, reads back as exactly those lines, in order and with repetitions |
| OtpMac.TextAfterBar | src/otpMac.ts:52-53 | a line without `\|` is its own text; otherwise the line is a `\|`-free head, a `\|`, and the result |
| OtpMac.Extract | src/otpMac.ts:52-56 | matching never throws, so adding the line before or after the match is the same; the code is the leftmost six-digit run of the text after the first `\|`, and there is none exactly when no six digits in a row occur there |
| OtpMac.WaitForOtpFromMacMessages | src/otpMac.ts:42-64 | a failing baseline read rejects with that read's own error; after a good baseline the only rejection is "OTP not received from Messages in time"; a resolved value is six digits, and it is the code of the loop's hit, so `BaselineLinesNeverMatch` and `FirstLineWins` apply to it; the timeout happens exactly when the loop finds nothing |
| OtpMac.BaselineLinesNeverMatch | src/otpMac.ts:45-56 | the code comes from a line of a successful read that is not a baseline line, and it is the first six-digit run of that line's text after its first `\|` |
| OtpMac.FirstLineWins | src/otpMac.ts:47-57 | no earlier cycle finds a code; in the deciding cycle, every earlier unseen line has no six consecutive digits after its first `\|` |
| OtpMac.LinesEvaluatedOnce | src/otpMac.ts:50-55 | two distinct lines handed to the pattern during one call are different strings, timestamps included, and neither is a baseline line |
| OtpMac.FailedReadsIgnored | src/otpMac.ts:48-60 | inserting a failing read anywhere into the loop does not change the result, whether the tool call is rejected or the script reports `ERROR:` |
| OtpMac.StaleLinesTimeOut | src/otpMac.ts:46-63 | when every loop read fails or returns only baseline lines, the call times out |
| Patterns.SixDigits | src/otpMac.ts:54 | `(\d{6})` matches exactly when some position starts six digits; the capture is the six digits at the leftmost such position |
| Patterns.BoundedSixDigits | src/otpMacSqlite.ts:50 | `\b(\d{6})\b` matches exactly when some six digits have no word character on either side; the capture is the leftmost such run |
| Patterns.SevenDigitRun | src/otpMacSqlite.ts:50 | "1234567" gives nothing under the word-bounded pattern and "123456" under the unanchored one |
| Patterns.BoundedIsStricter | src/otpMacSqlite.ts:50 | a word-bounded match implies an unanchored one, and the leftmost unanchored match starts no later |
| Patterns.CodeInSentence | src/otpMacSqlite.ts:50 | both patterns take "482913" from "Your code is 482913" |
| Patterns.Leftmost | src/otpMac.ts:54 | the capture is the six characters at the leftmost match position |
| Text.Split | src/otpMacSqlite.ts:27 | `split` gives at least one piece, no piece holds the separator, and joining the pieces gives the input back |
| Text.SplitJoin | src/otpMacSqlite.ts:27 | splitting a join of separator-free pieces gives those pieces back |
| Text.Pieces | src/otpMac.ts:39 | `split` then `filter(Boolean)` keeps the non-empty pieces and only those, none holding the separator (order and repetitions: `Text.DropEmptyAppend`, `Text.PiecesOfJoin`) |
| Text.DropEmptyAppend | src/otpMac.ts:39 | `filter(Boolean)` of a concatenation is the concatenation of the filtered parts, so order and repetitions are kept |
| Text.PiecesOfJoin | src/otpMacSqlite.ts:25 | the pieces of a join of separator-free parts are the non-empty parts, in order |
| Text.PiecesOfTerminatedLines | src/otpMacSqlite.ts:25 | output made of non-empty lines, each ending in a line break, splits back into exactly those lines |
| Text.IndexOf | src/otpMac.ts:52 | -1 exactly when the character is absent; otherwise the position of its first occurrence |
| Text.Trim | src/book.ts:74 | the result is a contiguous part of the input, with only whitespace cut off around it, and neither starts nor ends with whitespace |
| Js.Rem | src/book.ts:21-22 | JavaScript `%` agrees with the Euclidean remainder on non-negative dividends, is odd in the dividend, and its magnitude is below the divisor |
| DedupPoll.WalkRows | src/otpMacSqlite.ts:46-51 | a cycle stops only at a row whose key is new to the call and to the cycle, and only when that row gives a code or throws; every new row it passed gave no code; the seen-set only grows |
| DedupPoll.WalkSeen | src/otpMacSqlite.ts:47-49 | after a cycle, the seen-set holds the key of every row the cycle reached, and nothing except old keys and this cycle's keys |
| DedupPoll.WalkSeenExact | src/otpMacSqlite.ts:46-52 | after a cycle, the seen-set is exactly the old keys plus the keys of the rows up to and including the one the cycle stopped at; rows after the stop leave no trace |
| DedupPoll.Run | src/otpMacSqlite.ts:43-58 | the result is the match of the first cycle that finds a code, and no earlier cycle finds one; with no match the loop gives nothing, which is the timeout |
| DedupPoll.HitIsNew | src/otpMacSqlite.ts:47-51 | the row that gives the code has a key outside the baseline and outside every earlier cycle's seen-set |
| DedupPoll.EvaluatedOnce | src/otpMacSqlite.ts:47-50 | two distinct evaluated rows of one run have distinct keys, and neither key is a baseline key |
| DedupPoll.FailedCycleIgnored | src/otpMacSqlite.ts:53-56 | a failed cycle inserted anywhere does not change the code the loop finds, or that it finds none |
| DedupPoll.OnlySeenRowsTimeOut | src/otpMacSqlite.ts:43-58 | when every row of every cycle has a key already seen, the loop finds nothing |
| DedupPoll.RepeatedCycleTimesOut | src/otpMacSqlite.ts:43-58 | when every cycle returns the same rows, and the first cycle finds no code but sees all their keys, the loop finds nothing |
| OtpTwilio.OmittedOptionsAreDefaults | src/otpTwilio.ts:15-24 | leaving the pattern undefined gives the same wait as passing `(\d{6})`; leaving the lookback, timeout or interval undefined gives the same settings as passing 120 s, 30000 ms or 1000 ms; given options are used as given |
| OtpTwilio.Match | src/otpTwilio.ts:38 | under the default pattern a body matches exactly when it holds six consecutive digits, and the capture is then the six digits of the leftmost such run |
| OtpTwilio.SenderFilter | src/otpTwilio.ts:35-36 | without a non-empty filter every message passes; with one, a sender ending in it passes whatever precedes it, and a sender shorter than it, a missing one included, is turned away |
| OtpTwilio.SkipOnlyRememberedId | src/otpTwilio.ts:34 | nothing is skipped before an id is remembered or after an empty one; after a non-empty id exactly the messages with that id are skipped |
| OtpTwilio.MissingBodyIsEmpty | src/otpTwilio.ts:37-38 | a missing body is matched as the empty string, so under the default pattern a message with no or an empty body never gives a code |
| OtpTwilio.ScanMessages | src/otpTwilio.ts:33-43 | a found capture comes from a listed message that passes the sender filter and whose body matches; a remembered id is the old one, or the id of a listed message that passed the filter and did not match |
| OtpTwilio.Listen | src/otpTwilio.ts:27-46 | a failing list call rejects with the provider's error, and only if one was made; the timeout comes only after all calls listed successfully; a result is the capture of a filtered, matching message of a successful listing after only successful listings |
| OtpTwilio.WaitForOtp | src/otpTwilio.ts:14-47 | as `Listen`, starting with no remembered id; under the default pattern the result is a six-digit code |
| OtpTwilio.FirstHit | src/otpTwilio.ts:33-41 | reference reading without ids: the capture of the first listed message that passes the filter and matches, or nothing when no message does |
| OtpTwilio.ScanFindsFirstHit | src/otpTwilio.ts:33-43 | when ids identify messages and the remembered id names a filtered, non-matching message, a cycle finds exactly the reference first hit, and otherwise remembers such an id again |
| OtpTwilio.IdCheckIsRedundant | src/otpTwilio.ts:28-45 | when ids identify messages, the wait with its `lastMessageSid` skip equals the reference reading with no skip |
| OtpTwilio.FirstListingCounts | src/otpTwilio.ts:28-41 | there is no baseline: when the first listing already holds a filtered, matching message, the first such message gives the result |
| OtpTwilio.ReusedIdIsSkipped | src/otpTwilio.ts:34-42 | when a matching message reuses the id of the non-matching one before it, the skip hides it and the wait times out, while the reference reading finds its code |
| OtpTwilio.SmsCode | src/otpTwilio.ts:20 | the default pattern takes "123456" from "code 123456" |
| Calendar.Ordinal | src/book.ts:19-23 | `getOrdinal` gives one of "th", "st", "nd", "rd" for every integer |
| Calendar.OrdinalBelowHundred | src/book.ts:19-23 | on 0..99 the indexing trick is the English rule |
| Calendar.OrdinalIsEnglish | src/book.ts:19-23 | for every n >= 0, 11 to 13 of each hundred give "th"; otherwise a last digit 1, 2 or 3 gives "st", "nd" or "rd", and any other gives "th" |
| Calendar.OrdinalOfLastTwoDigits | src/book.ts:21 | for n >= 0 only n % 100 matters |
| Calendar.EnglishSuffixOfLastTwoDigits | src/book.ts:21-22 | the English rule itself looks only at the last two digits |
| Calendar.OrdinalOfNegative | src/book.ts:21-22 | every negative number gets "th" |
| Calendar.CalendarDays | src/testDate.ts:10-14 | days 1, 21 and 31 give "st"; 2 and 22 give "nd"; 3 and 23 give "rd"; 11, 12 and 13 give "th"; every other day of a month gives "th" |
| Calendar.DecimalDigits | src/book.ts:62 | `${n}` is a non-empty digit string with no leading zero |
| Calendar.DecimalRoundTrip | src/book.ts:62 | reading the printed digits back gives the number |
| Calendar.TestDateLabel | src/testDate.ts:51-54 | Saturday, September 6, 2025 gives "Choose Saturday, September 6th, 2025" |
| Calendar.AriaLabelDeterminesDate | src/book.ts:60-63 | for a fixed weekday and month, equal labels mean the same day and year |
| Calendar.HeaderText | src/book.ts:74 | a missing text reads as ""; a present one gives a contiguous part of it with only whitespace cut off around it, which neither starts nor ends with whitespace |
| Calendar.GoToMonthIfNeeded | src/book.ts:71-79 | it stops at the first header that reads as the target, after a successful click for each earlier turn and fewer than 12 clicks; a failing header read or click rejects in whichever turn it happens, after exactly the clicks that went through, the twelfth included; it gives up quietly only after 12 turns without the target whose clicks all went through |
| Env.DefaultedMembersAreSet | src/env.ts:22-35 | the slot time, storage state and user-data directory are always non-empty, as are the site URL, target time and time zone |
| Env.DefaultedField | src/env.ts:23-34 | each defaulted member is its variable with its own default |
| Env.NonEmptyValueWins | src/env.ts:23-34 | a non-empty value always wins; the empty string and an unset variable both give the default |
| Env.PassedThroughUnchanged | src/env.ts:27-32 | the court, the three provider variables and the phone suffix are copied as they are, undefined when unset |
| Env.OtherVariablesIgnored | src/env.ts:20-38 | a variable the configuration does not name has no effect on it |
| Book.OtpOptionsFor | src/book.ts:103-110 | the wait uses the configured sender filter, the six-digit pattern, a 45000 ms timeout, and the default 120 s lookback and 1000 ms interval |
| Book.EnsureOtp | src/book.ts:98-116 | it does nothing exactly when a provider credential is missing or empty; it never rejects; without a prompt it stops; with credentials and a prompt it ends without a code exactly when the wait rejects; a failed fill swallows the code and clicks nothing; anything typed is exactly the code the wait resolved with, a six-digit code from a filtered message of a successful listing, and only then is the submit click tried |
| Book.CredentialsFromEnvironment | src/book.ts:100 | with the loaded configuration, nothing is asked of the provider exactly when one of its three variables is unset or empty |
| Book.EightOClockReached | src/book.ts:131-134 | the gate is open exactly from hour 8 on, whatever the minutes |
| Book.SlotLabel | src/book.ts:141 | the label is never empty, so the slot selector always names a time; it is the configured slot time when that is non-empty, and "6:00 PM" otherwise |
| Book.SlotLabelIsConfigured | src/book.ts:141 | the slot label is the configured slot time, which is the variable's non-empty value or "6:00 PM" |
| Book.LastParticipantOption | src/testDate.ts:113-119 | an option is chosen exactly when there is one; it is a valid index with no option after it |

## Left out

- Process and network I/O is not modelled. The `sqlite3` and `osascript` calls, the SQL text, the AppleScript and the provider client become outcome parameters.
- The query limit of 50 rows and the provider's list limit of 10 are not modelled. The outcomes given to the model are assumed to respect them.
- The timing options of the two Messages readers (`timeoutMs`, default 120000 ms, and `pollIntervalMs`, default 1000 ms) are not modelled: they only fix the deadline and the sleep, and the model is given the cycles directly. The AppleScript reader's `sinceSeconds` option is accepted but never read by the code.
- The SQL's timestamp conversion, and the `text IS NOT NULL` filter, belong to the database engine.
- Time is not modelled: `Date.now`, the sleep between cycles, the poll interval, and the sliding `dateSentAfter` lookback window. The deadline is the length of the outcome sequence.
- The provider client's own validation of its credentials is not modelled. It lives in the third-party library.
- OtpTwilio.Match: a caller-supplied regular expression is an abstract matcher. Only the default six-digit pattern is modelled in detail, because the general regex engine is runtime library behaviour.
- The `Intl.DateTimeFormat` and `Date` helpers are not modelled: `getTzParts`, `getZonedDateOnly`, `addDays`, `msUntil` and the month-and-year header text. The label is built from the weekday, month, day and year as given.
- Calendar.Ordinal: non-integer numbers and NaN are not modelled; day numbers are integers.
- The Playwright page steps are modelled only through their outcomes, which are parameters:
  - opening the date picker;
  - the clicks, waits and screenshots;
  - the 90-second wait for the 08:00 gate and its swallowed failure;
  - the slot button locator;
  - the Book button.
- Book.EnsureOtp: the code-field wait, the fill and the submit click are each reduced to a success flag the model is given.
- The command-line entry blocks, `src/otpListen.ts`, `dotenv.config()`, `src/inspect.ts` and `src/saveStorage.ts` are not part of this model.
- Env.LoadConfig is stated member by member by the `Env` lemmas rather than by a contract of its own.
