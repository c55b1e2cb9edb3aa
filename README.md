# Sysbots channel lock bot: the Lock Coordinator

This Dafny project models the core of a small Discord bot (`index.js`).
Members who hold an allowed role send `!lock` or `!unlock` in a channel.
On `!lock` the bot puts ❌ in front of the channel name and denies the
managed role the right to send messages. On `!unlock` it puts ✅ there and
clears that overwrite. A channel toggled within the last fifteen minutes
cannot be toggled again. The bot keeps an in-memory record, `rememberData`,
of each channel's last state and last toggle time. After every toggle it
writes the whole record to `remember.json`.

The model has six modules:

- Wrappers (`wrappers.dfy`) holds the `Option` type.
- JsStrings (`js_strings.dfy`) holds the JavaScript string operations the
  handler relies on:
  - `trim`;
  - the first field of `split(/ +/)`;
  - `toLowerCase`;
  - `startsWith` and `slice`;
  - `replace` with a one-character pattern;
  - the decimal text of an integer in a template literal.
- Cooldown (`cooldown.dfy`) holds `lockDuration`, `canExecuteCommand`
  (with JavaScript truthiness of the stored timestamp) and
  `formatRemainingTime` (with JavaScript's truncating `%`).
- CommandParsing (`command.dfy`) holds the prefix and bot-author test and
  the extraction of the command word.
- ChannelName (`channel_name.dfy`) holds the emoji convention and the two
  renames.
- LockCoordinator (`lock_coordinator.dfy`) holds:
  - `Decide`, the whole decision for one message: ignore, three permission
    refusals, not a toggle, already in state, cooldown, or toggle;
  - `Resolve`, its toggle part;
  - `Record`, the two store writes;
  - the class `RememberStore`, the process-wide `rememberData` object.

`RememberStore.HandleMessage` runs the handler step by step. Its contract
ties the outcome to `Decide` and the new store to `Record`. The clock
(`Date.now()`) becomes the parameter `now`. The chat client's permission
answers become booleans. The effects of a toggle on the channel come back
as the new name and the send overwrite. The file write becomes the
`lastWritten` snapshot.

### Behaviour of the code worth knowing

- **The stored state is never read.** The handler writes
  `rememberData[channel.id]` on every toggle but never reads it. Whether a
  channel counts as locked depends only on whether its name starts with ❌
  (`index.js:104`). `IsLockedName` and `AlreadyInRequestedState` model
  exactly that, and the stored state is only written (`Record`).
- **The 15-minute boundary is refused.** `canExecuteCommand` uses a strict
  `>` (`index.js:35`), so a toggle is still refused when exactly fifteen
  minutes have elapsed (`CanExecuteCommandExactly`, `OppositeAfterToggle`).
  Under the model's single clock reading `now`, that refusal reports `0m 0s`.
- **A toggle at clock time 0 leaves no cooldown.** `!lastExecuted` treats a
  stored timestamp of `0` as "never executed", so the next toggle is allowed
  at any time (`ToggleAtTimeZeroLeavesNoCooldown`).
- **A clock that went back lengthens the wait.** A stored time later than
  the clock is refused as well. The reported wait can then exceed fifteen
  minutes, for example `15m 1s` (`ClockBackReportsMoreThanFifteenMinutes`).
- **There is no state query and no persistence error handling.** A failing
  file read at start-up or a failing write ends the process or the handler.

## Model

| member | source | states |
|---|---|---|
| JsStrings.Slice | index.js:59 | `slice(prefix.length)` leaves everything after the prefix, and nothing once the index passes the end |
| JsStrings.TrimStart | index.js:59 | leading part of `trim`: the result is a suffix of the input, every dropped character is white space, and it does not start with white space |
| JsStrings.Trim | index.js:59 | `trim` leaves the slice of the text that lies between a run of leading and a run of trailing white space (the leading run being what `TrimStart` drops), with no white space at either end, and nothing exactly when the text is all white space |
| JsStrings.TrimEnd | index.js:59 | trailing part of `trim`: the result is a prefix of the input, every dropped character is white space, and it does not end with white space |
| JsStrings.FirstSplitField | index.js:59-60 | first field of `split(/ +/)`: a prefix with no space that is followed by a space or by the end of the text |
| JsStrings.ToLowerCase | index.js:60 | `toLowerCase` keeps the length and maps every character on its own |
| JsStrings.ToLowerCaseIsIdempotent | index.js:60 | a lower-cased command has no upper-case letter left, and lower-casing it again changes nothing |
| JsStrings.ToLowerCaseOfLower | index.js:60 | a word without upper-case letters is its own lower case |
| JsStrings.IndexOf | index.js:132 | the position `replace` acts on: no earlier occurrence, and the character is there unless the end was reached |
| JsStrings.RemoveFirst | index.js:132 | `replace(emoji, '')` removes exactly one occurrence, the first, and keeps all other characters in order; a name without the emoji is unchanged |
| JsStrings.RemoveFirstCount | index.js:132 | one copy of the character goes, if there was one, and every other character stays |
| JsStrings.NatToString | index.js:43 | template text of a non-negative integer: digits only, no leading zero, and it reads back as the number |
| JsStrings.IntToString | index.js:43 | template text of any integer: canonical (no leading zero, no `-0`), a minus sign exactly for negatives, and it reads back as the number |
| JsStrings.DigitsValueInjective | index.js:43 | digit strings without leading zeros are fixed by the number they denote |
| JsStrings.CanonicalIntTextIsUnique | index.js:43 | canonical integer text is fixed by its value, so the contracts of `IntToString` and `FormatRemainingTime` pin down the printed text |
| Cooldown.CanExecuteCommand | index.js:34-36 | definition of `canExecuteCommand`, with `Cooldown.IsTruthy` for the JavaScript truthiness of `!lastExecuted` (`undefined` and `0` are falsy); its contract is stated by `Cooldown.CanExecuteCommandExactly` and `Cooldown.CanExecuteCommandMonotone` |
| Cooldown.RemainingTime | index.js:119 | definition of `lockDuration - (Date.now() - lastExecuted)`; its bounds on a refusal are stated by `Cooldown.RefusalRemainingTime` and `LockCoordinator.CooldownRefusal` |
| Cooldown.CanExecuteCommandExactly | index.js:34-36 | no stored time or a stored 0 allows the command; a non-zero stored time allows it exactly when more than the duration has passed; the exact boundary is refused |
| Cooldown.CanExecuteCommandMonotone | index.js:34-36 | once the cooldown allows the command, any later time allows it too |
| Cooldown.RefusalRemainingTime | index.js:118-119 | a refusal happens exactly when a non-zero time is stored and the remaining time is non-negative; that remaining time is at most `lockDuration` when the clock has not gone back |
| Cooldown.JsRemainder | index.js:42 | JavaScript `%` by a positive divisor: the result has the dividend's sign and is smaller in size than the divisor |
| Cooldown.SplitRemainingTime | index.js:39-42 | for a non-negative time the seconds are in 0..59, and minutes times 60 plus seconds give the whole seconds `Math.floor(ms / 1000)` |
| Cooldown.FormatRemainingTime | index.js:39-44 | the text is `<minutes>m <seconds>s`; read back, the two fields are the canonical integer texts of the minutes and seconds of `SplitRemainingTime` |
| Cooldown.ReportedWaitIsAtMostFifteenMinutes | index.js:118-123 | when the clock has not gone back since the stored time, the wait a refusal reports is shown as at most 15 minutes, and as 15 minutes only with 0 seconds |
| Cooldown.ClockBackReportsMoreThanFifteenMinutes | index.js:118-123 | a stored time 1 second after the clock is refused, and the wait is shown as 15 minutes 1 second |
| Cooldown.NegativeWaitShowsNegativeFields | index.js:39-42 | a remaining time of -1 ms is split into -1 minutes and -1 seconds |
| CommandParsing.IsAddressed | index.js:57 | definition of the prefix and bot-author test; `LockCoordinator.GateOrder` states that a message failing it is ignored and nothing else is |
| CommandParsing.CommandWord | index.js:59-60 | the command word holds no space and no upper-case letter; `CommandParsing.CommandWordOf` states which word it is |
| CommandParsing.Recognize | index.js:101 | definition of the test that the command is `lock` or `unlock`; `LockCoordinator.GateOrder` states that any other word ends as no toggle |
| CommandParsing.CommandWordOf | index.js:59-60 | after the prefix, any leading white space, a word, and then nothing, only white space, or a space plus arguments: the command is the lower-cased word, whatever the arguments |
| CommandParsing.CommandWordOfBareWord | index.js:59-60 | a word alone after the prefix is its own command word, lower-cased |
| CommandParsing.CommandHasNoWhiteSpace | index.js:101 | no word that holds white space is `lock` or `unlock` |
| CommandParsing.WhiteSpaceInsideWordIsNoCommand | index.js:59-101 | only spaces separate the command from its arguments: `!lock` followed by a tab and a word is not a toggle command |
| ChannelName.IsLockedName | index.js:104 | definition of `channel.name.startsWith(lockEmoji)`; `ChannelName.LockedName` and `ChannelName.UnlockedName` state that the renames set it and clear it |
| ChannelName.LockedName | index.js:132 | whatever the old name, the locked name starts with ❌, so the channel counts as locked |
| ChannelName.LockedNameCharacters | index.js:132 | the locked name has lost one ✅ if it had one, has gained one ❌, and keeps every other character |
| ChannelName.UnlockedName | index.js:152 | whatever the old name, the unlocked name does not start with ❌, so the channel counts as unlocked |
| ChannelName.UnlockedNameCharacters | index.js:152 | the unlocked name has lost one ❌ if it had one, has gained one ✅, and keeps every other character |
| ChannelName.LockSwapsStatusEmoji | index.js:132 | locking a name that starts with ✅ replaces just that emoji |
| ChannelName.UnlockSwapsStatusEmoji | index.js:152 | unlocking a name that starts with ❌ replaces just that emoji |
| ChannelName.UnlockAfterLock | index.js:132-152 | unlocking a just-locked name removes the ❌ that locking added |
| ChannelName.LockAfterUnlock | index.js:132-152 | locking a just-unlocked name removes the ✅ that unlocking added |
| ChannelName.UnlockUndoesLock | index.js:132-152 | lock then unlock gives back a name that started with ✅ |
| ChannelName.LockUndoesUnlock | index.js:132-152 | unlock then lock gives back a name that started with ❌ |
| LockCoordinator.Decide | index.js:57-101 | the decision for one message; its order of gates is stated by `LockCoordinator.GateOrder`, and `LockCoordinator.RememberStore.HandleMessage` is proved to follow it |
| LockCoordinator.Resolve | index.js:101-170 | the toggle decision, built from `LockCoordinator.AlreadyInRequestedState` (the test of `index.js:107`) and a stored time read by `LockCoordinator.LastExecuted` (`index.js:102`); stated by `LockCoordinator.ResolveAnswers`, `LockCoordinator.AlreadyInStateIgnoresCooldown`, `LockCoordinator.CooldownRefusal` and `LockCoordinator.ToggleConditions`, and `LockCoordinator.RememberStore.Toggle` is proved to follow it |
| LockCoordinator.Record | index.js:139-161 | the two writes of a toggle; stated by `LockCoordinator.RecordFrame` and `LockCoordinator.RecordAgreesWithNewName` |
| LockCoordinator.ResolveAnswers | index.js:101-170 | once a `lock`/`unlock` is admitted, the handler answers that command: already in state, cooldown, or toggle |
| LockCoordinator.GateOrder | index.js:57-101 | each refusal happens exactly when its own gate fails and every earlier gate passes; an admitted `lock`/`unlock` reaches the toggle decision, and any other word is no toggle |
| LockCoordinator.AlreadyInStateIgnoresCooldown | index.js:104-116 | asking for the state the name already shows is answered "already" whatever the cooldown, and only then |
| LockCoordinator.CooldownRefusal | index.js:118-129 | past the state check, a cooldown refusal happens exactly when `canExecuteCommand` fails; it carries `lockDuration - (now - lastExecuted)`, never negative |
| LockCoordinator.ToggleConditions | index.js:131-157 | a toggle happens exactly when the name does not show the state and the cooldown allows it; the new name shows the requested state, and the role's send overwrite is denied on lock and cleared on unlock |
| LockCoordinator.RepeatAfterToggle | index.js:104-116 | right after a toggle, the same command on the new name is answered "already in state" |
| LockCoordinator.OppositeAfterToggle | index.js:118-140 | after a toggle at a non-zero time, the opposite command is refused up to and including 15 minutes later with the exact remaining wait, and toggles after that |
| LockCoordinator.OppositeOnName | index.js:104-129 | on a name that shows one state, the opposite command is refused only by the cooldown started at `now`, and toggles once that has run out |
| LockCoordinator.ToggleAtTimeZeroLeavesNoCooldown | index.js:35 | a toggle stored at time 0 imposes no cooldown on the next toggle |
| LockCoordinator.RecordFrame | index.js:139-160 | a toggle's writes set the channel's state and cooldown and leave every other entry of both maps unchanged |
| LockCoordinator.RecordAgreesWithNewName | index.js:132-160 | after a toggle, the stored state of the channel agrees with what the new name shows |
| LockCoordinator.SnowflakeIsNotCooldownsKey | index.js:48-50 | a numeric channel id never clashes with the `cooldowns` key of `rememberData` |
| LockCoordinator.RememberStore.constructor | index.js:47-50 | start-up keeps the loaded entries and adds an empty `cooldowns` map when there is none |
| LockCoordinator.RememberStore.HandleMessage | index.js:56-175 | the outcome is `Decide` on the channel name and the stored cooldown; only a toggle changes the store, by `Record`, and writes the whole store; every other outcome leaves store and file alone |
| LockCoordinator.RememberStore.Toggle | index.js:101-170 | the `lock`/`unlock` branch: the outcome is `Resolve`; a toggle applies `Record` and writes the snapshot; a refusal changes nothing |

## Left out

- Discord client calls are outside the model: `setName`, `permissionOverwrites.edit`, `channel.send`, `author.send`, the message deletions and their five-second timers, and the embeds' colours and titles. The model's outcome carries the decision, the new name and the overwrite.
- A rejected `setName` or `permissionOverwrites.edit`, for example on a rate limit, is not modelled. In the code such a failure happens before the store writes and ends the handler. The model assumes both calls succeed.
- Concurrent handlers are not modelled. The handler awaits between its checks and its writes, so two messages for one channel could interleave. The model runs each message to completion.
- The `fs` and `JSON` calls are not modelled. Reading `remember.json` appears only as the constructor's arguments. Writing it appears as the `lastWritten` snapshot.
- Values of other types in the loaded file, such as a string or `null` timestamp, are not modelled. Stored timestamps are integers.
- Environment variables and role lookup are not modelled. Holding one of the allowed roles is a boolean, and the managed role id does not appear.
- JsStrings.TrimStart, JsStrings.TrimEnd and JsStrings.ToLowerCase cover ASCII white space and ASCII letters only. The source's `trim` and `toLowerCase` are Unicode-aware.
- LockCoordinator.RememberStore.HandleMessage reads the clock once. The source reads `Date.now()` at most twice per message: at `index.js:35` (only when a truthy time is stored), then at `index.js:119` on a refusal or at `index.js:140`/`160` on a toggle. The model treats those readings as one `now`.
- LockCoordinator.RememberStore.HandleMessage requires a numeric channel id, so the channel entry never overwrites the `cooldowns` map that shares its object.
- Cooldown.SplitRemainingTime states the minutes and seconds identity only for a non-negative time. Under the model's single `now`, a refusal never reports a negative time (`Cooldown.RefusalRemainingTime`).
- The source can display a negative wait, and the model does not capture this. `index.js:35` and `index.js:119` read the clock separately. If the check at line 35 refuses at exactly 15 minutes and the clock then moves 1 ms before line 119, the remaining time is -1 ms, which is shown as `-1m -1s` (`Cooldown.NegativeWaitShowsNegativeFields`).
- Cooldown.JsRemainder states only the sign and range of the result. Its value relation to the dividend is not stated.
