# SoTaCo blind automation, modelled in Dafny

SoTaCo drives Somfy blinds through a Tahoma gateway. Its automatic mode works in four steps:

- It reads the device list of the gateway and the current measurements of a weather station.
- It merges the telemetry into the configured devices.
- It tries each device's rules (`condition => action`) in order.
- For the first rule whose condition holds, it sends the action, unless the blind already is where the action would take it. Without `--execute` it only prints what it would do.

A rule that fails validation stops the script on the spot, and the state file is then not written.

This project models that engine and the functions it rests on, and proves what they promise:

- `Strings`: the PHP string built-ins the script uses (`explode`, `preg_replace` and `preg_match` with a plain-word pattern, the float sanitiser) and the script's `isInteger`.
- `Conditions`: `getAlloweVariables`, `checkCondition` (with an exact model of its `preg_split` pattern), `checkAction` and `getSanitizedExpression`.
- `ConditionExamples`: rules of the sample configuration, and near misses, worked through as lemmas about that model.
- `Devices`: the parse part of `getDeviceData`, which selects devices and derives `up` and `down` from position and tilt.
- `Weather`: the parse part of `getWeatherData`, which picks the first line of the station and sanitises five of its fields.
- `Clock`: the time variables, taken from a `Time` value instead of the system clock.
- `Automation`: the merge, the walk over one device's rules, one device's step, and the whole automatic mode, as loops (`MergeTelemetry`, `WalkRules`, `Automate`). Each loop is proved equal to a function (`MergeAll`, `WalkFrom`, `Automation`) whose properties are proved as lemmas.

Inputs and outputs:

- `eval` is a parameter of type `(string, map<string, Scalar>) -> bool`. It receives the rewritten condition and the bound variables.
- The gateway's device list, the weather CSV, the stored state data, the time and the `--execute` flag are all inputs.
- The commands sent, the dry-run lines and the new state data are outputs.
- The run ends as `Completed` or `Aborted(error, ...)`.

## Model

| member | source | states |
|---|---|---|
| Strings.Split | control.php:387-388 | `explode` on one character yields at least one part, and no part holds the separator |
| Strings.JoinSplit | control.php:387-388 | joining the parts of `explode` again gives back the text |
| Strings.SplitJoin | control.php:387-388 | `explode` undoes a join of separator-free parts, so lines and fields are recovered exactly |
| Strings.Contains | control.php:541 | the unanchored match of a literal word holds iff the word occurs at some offset |
| Strings.ReplaceAll | control.php:593 | `preg_replace` with a word pattern, scanning left to right; what it does is stated by the lemmas below |
| Strings.ReplaceAllAbsent | control.php:593 | `preg_replace` of a word that does not occur changes nothing |
| Strings.ReplaceAllOnce | control.php:593 | a single occurrence, with none starting before it or after it, is replaced and the rest kept |
| Strings.ReplaceAllHead | control.php:593 | text without the first character of the word passes through unchanged, and the replacement goes on after it |
| Strings.ReplaceAllSplit | control.php:593 | when the second part starts with a character outside the word, no occurrence straddles the join, so replacing distributes over it |
| Strings.EraseReplaceAll | control.php:593 | putting `$` before every occurrence of a `$`-free word only inserts `$` characters |
| Strings.SanitizeFloat | control.php:392-396 | the sanitiser keeps only digits, `+`, `-` and `.`, and never lengthens the text |
| Strings.SanitizeFloatKeeps | control.php:392-396 | text made only of kept characters passes unchanged |
| Strings.SanitizeFloatDrops | control.php:392-396 | text without a digit, `+`, `-` or `.` sanitises to the empty text |
| Strings.SanitizeFloatIdempotent | control.php:392-396 | sanitising twice is sanitising once |
| Strings.SanitizeFloatAppend | control.php:392-396 | sanitising works character by character: it distributes over concatenation |
| Strings.IsInteger | control.php:496-498 | `isInteger` holds iff the text, less one final line feed, is one or more ASCII digits |
| Strings.DigitsOnly | control.php:497 | the left-to-right scan holds iff every character is a digit |
| Strings.IsIntegerDecimal | control.php:496-498 | every rendered natural number passes `isInteger`, also with a trailing line feed |
| Strings.IsIntegerRejects | control.php:496-498 | the empty text, a sign, a leading space and two line feeds fail `isInteger` |
| Strings.DecimalValue | control.php:130 | reading back a rendered number gives the number |
| Conditions.AllowedVariables | control.php:561-579 | the whitelist has 14 names, in the script's order |
| Conditions.AllowedVariablesShape | control.php:561-579 | the names are distinct, non-empty lower-case words |
| Conditions.OperatorLength | control.php:517-520 | the alternative that matches at a position is 2 for `&&` and `\|\|`, 1 for an operator character, digit, `+` or `.`, and 0 exactly when none applies |
| Conditions.Segments | control.php:520 | the split of `preg_split` with the matches kept; `SegmentsShape`, `SegmentsCover` and `FirstDelimiter` state what it yields |
| Conditions.SkipSpaces | control.php:520 | the greedy `\s*` stops at the first non-whitespace character |
| Conditions.FirstDelimiter | control.php:520 | the split finds the leftmost match: no match starts before it |
| Conditions.SegmentsShape | control.php:520 | every piece is non-empty and operator-free, and every match is non-empty whitespace and operator text |
| Conditions.SegmentsCover | control.php:520 | pieces and matches put back together are the condition: the split loses nothing |
| Conditions.PieceTextsMembers | control.php:520 | the pieces of `PREG_SPLIT_NO_EMPTY` are exactly the texts between matches |
| Conditions.Pieces | control.php:520 | what `preg_split` returns with `PREG_SPLIT_NO_EMPTY`; `PieceTextsMembers`, `PiecesShape` and `PiecesStep` state what it yields |
| Conditions.PiecesShape | control.php:520 | no piece is empty or holds an operator, digit, `+` or `.` |
| Conditions.PiecesStep | control.php:520 | a word followed by an operator and its surrounding whitespace is the next piece, and the split goes on after the whitespace |
| Conditions.LastPiece | control.php:520 | text in which the pattern never matches is one single piece |
| Conditions.NumberNoPieces | control.php:520 | a number literal is consumed by `[\d+\.]` and leaves no piece |
| Conditions.FirstRejected | control.php:526-532 | finds nothing iff every piece is allowed, and otherwise the first piece that is not |
| Conditions.ConditionError | control.php:515-533 | no error iff every piece is an allowed name; an error names the condition and a piece that is not allowed |
| Conditions.ConditionErrorFirst | control.php:526-532 | the error names the first rejected piece, all pieces before it being allowed |
| Conditions.CheckComponents | control.php:523-532 | the loop over the pieces returns the error for the first piece not in the whitelist, or none |
| Conditions.CheckCondition | control.php:515-533 | `checkCondition` returns exactly the condition error |
| Conditions.ConditionAlphabet | control.php:515-533 | an accepted condition holds only whitespace, operator characters, `&`, `\|`, digits and lower-case letters, so it has no `$`, `;`, quote or backtick |
| Conditions.ActionAccepted | control.php:541 | an action passes iff `up`, `down` or `my` occurs in it anywhere |
| Conditions.ActionError | control.php:540-544 | no error iff the action passes; otherwise the error is the invalid-action error for that action |
| Conditions.SanitizedExpression | control.php:587-597 | the loop yields `return (` + the condition with each name rewritten in list order + `);`, and removing every `$` gives back the wrapped condition |
| Conditions.RewriteNames | control.php:592-594 | the expression after the loop has replaced each name in list order; `EraseRewriteNames` and `Rewriting.AsWrittenAgrees` state what it yields |
| Conditions.EraseRewriteNames | control.php:592-594 | rewriting the names only inserts `$` characters |
| Conditions.RewriteNamesSkip | control.php:592-594 | a name that does not occur leaves the expression unchanged |
| Conditions.RewriteNamesAbsentRest | control.php:592-594 | once no remaining name occurs, the rest of the loop changes nothing |
| Conditions.IntendedExpression | control.php:587-597 | the intended rewriting (a `$` before every piece) differs from the wrapped condition only by inserted `$` characters |
| Conditions.NumberDollared | control.php:587-597 | a number literal comes through the intended rewriting unchanged |
| ConditionExamples.WindRuleAccepted | config.dist.php:74 | `wind > 50` splits into `["wind"]` and is accepted |
| ConditionExamples.MovedRuleAccepted | config.dist.php:77 | `moved && hour >= 13` splits into `["moved", "hour"]` and is accepted |
| ConditionExamples.AssignmentAccepted | control.php:517-529 | `=` counts as an operator character, so the assignment `hour = 13` splits into `["hour"]` and is accepted |
| ConditionExamples.NegativeLiteralRejected | control.php:517-529 | in `temperature > -5` the `-` is left as a piece, so the rule is rejected |
| ConditionExamples.SingleAmpersandRejected | control.php:517-529 | a single `&` is no operator: `up & down` stays one piece and is rejected |
| ConditionExamples.LeadingSpaceRejected | control.php:520-529 | whitespace is absorbed only next to an operator: ` up` is rejected |
| ConditionExamples.UnknownNameRejected | config.dist.php:40 | `executed`, documented in the sample configuration, is not a name the check allows |
| ConditionExamples.YeardayRuleAccepted | control.php:515-533 | `yearday > 100` is accepted |
| ConditionExamples.YeardayMangled | control.php:587-597 | as written, the rewriting of `yearday > 100` is `year$day > 100` |
| ConditionExamples.YeardayIntended | control.php:587-597 | the corrected rewriting of `yearday > 100` is `return ($yearday > 100);` |
| ConditionExamples.ActionExamples | control.php:540-544 | `up`, `down`, `my` and `setup` pass; `Up` and `open` do not |
| Rewriting.NoOtherNameInside | control.php:561-579 | no allowed name occurs inside another one, except `day` inside `yearday` |
| Rewriting.SegmentsApart | control.php:520 | in the split, a piece is always followed by a match, never by another piece |
| Rewriting.AcceptedSegmentsFit | control.php:515-533 | every piece of an accepted condition without `yearday` is an allowed name other than `yearday`, and every match holds no letter |
| Rewriting.PartlyStep | control.php:593 | one pass of the loop puts `$` before exactly the pieces equal to the name, and before no other text, when the name does not occur inside any other piece or any match |
| Rewriting.RewriteNamesPartly | control.php:592-594 | after the first k names, the condition has a `$` before exactly the pieces among those names |
| Rewriting.AsWrittenAgrees | control.php:587-597 | for an accepted condition without `yearday`, the script's expression equals the intended one, a `$` before every piece |
| Devices.LastSettings | control.php:248-263 | the record fields set by the settings states in order, so the last one wins; `LastSettingsIsLast` states which |
| Devices.LastSettingsIsLast | control.php:248-263 | the settings come from the last settings state, with none after it, and are absent iff there is no settings state |
| Devices.IsUp | control.php:257-258 | up is a position below 1000; `UpDownExclusive` relates it to down |
| Devices.IsDown | control.php:260-261 | down is a position above 50000 with the tilt absent, 0 (loose `== null`) or above 40000; `UpDownExclusive` relates it to up |
| Devices.UpDownExclusive | control.php:257-261 | up iff position < 1000; down iff position > 50000 and the tilt is absent, 0 or > 40000; never both; 0 is up and 51200 untilted is down |
| Devices.ReadSettings | control.php:248-263 | the loop over the states returns the settings of the last settings state |
| Devices.DeviceData | control.php:236-269 | the loop returns the selected entries, each parsed, in input order |
| Devices.Selected | control.php:237-241 | the entries the loop keeps, in order; `SelectedMembers` and `SelectedAppend` state which |
| Devices.SelectedMembers | control.php:237-241 | without a device id (empty or `"0"`) every entry is kept; with one, exactly the entries whose `deviceURL` equals it |
| Devices.SelectedAppend | control.php:237-266 | selection keeps the input order: it distributes over concatenation |
| Weather.FirstStationLine | control.php:387-389 | finds no line iff no line is the station's, otherwise the first one that is |
| Weather.WeatherOf | control.php:387-403 | what `getWeatherData` returns for the CSV text; `WeatherValues` and `StationLineRead` state what it yields |
| Weather.WeatherData | control.php:387-403 | the scan returns the sanitised fields 2, 3, 5, 9 and 10 of the station's first line, or five zeros |
| Weather.WeatherValues | control.php:387-403 | the result is the five zeros iff no line belongs to the station; otherwise all five values are number texts |
| Weather.StationLineRead | control.php:387-397 | a CSV built from lines gives back the station line's five number fields unchanged |
| Clock.Hour | control.php:127 | `date('H')`, two digits; `TimeVariables` reads it back as the hour |
| Clock.Minute | control.php:128 | `date('i')`, two digits; `TimeVariables` reads it back as the minute |
| Clock.Day | control.php:129 | `date('w') + 1`, an integer; `TimeVariables` bounds it to 1..7 |
| Clock.Month | control.php:130 | `date('n')`, without a leading zero; `TimeVariables` states this |
| Clock.WeekAsWritten | control.php:131 | the week with every `0` deleted; `WeekCollision` and `WeekAgrees` relate it to the intended week |
| Clock.Week | control.php:131 | the week without its leading zero, as intended; `WeekInjective` proves weeks stay distinct |
| Clock.Yearday | control.php:132 | `date('z') + 1`, an integer; `TimeVariables` bounds it to 1..366 |
| Clock.Today | control.php:114 | `date('Ymd')`; `TodayInjective` proves it tells dates apart |
| Clock.TwoDigitsValue | control.php:127-128 | a two-digit field has two digits and reads back as its number |
| Clock.TimeVariables | control.php:127-132 | `hour` and `minute` read back as the clock's fields, `month` has no leading zero, `day` is in 1..7 and `yearday` in 1..366 |
| Clock.WeekCollision | control.php:131 | as written, week 10·d reads the same as week d |
| Clock.WeekAgrees | control.php:131 | away from multiples of ten, the written week is the intended one |
| Clock.WeekInjective | control.php:131 | the corrected week tells every week apart |
| Clock.TodayInjective | control.php:114 | `Ymd` strings are equal iff year, month and day are equal |
| Automation.MergeOne | control.php:108-122 | the inner loop for one record keeps the number of entries; `MergeOneEntries` and `MergeOneState` state its effect |
| Automation.MergeAll | control.php:107-124 | the nested loops keep the number of entries; `MergeState`, `MergeEntries` and `MovedIffToday` state their effect |
| Automation.MergeTelemetry | control.php:106-124 | the nested loops compute the merge function over all telemetry records |
| Automation.MergeOneDevices | control.php:108-123 | the merge never changes which configured device an entry is |
| Automation.MergeOneEntries | control.php:108-119 | for one record, matching entries get its `up`, `down` and `moved`, and other entries are unchanged |
| Automation.MergeOneState | control.php:120-121 | for one record, the state entries of matching devices get its `name` and `id`, and nothing else changes |
| Automation.MergeState | control.php:106-124 | after the merge, state entries exist for stored keys and matched devices; matched ones take `name` and `id` from the last matching record; `lastMoved` is untouched |
| Automation.MergeEntries | control.php:106-124 | after the merge, each device carries `up` and `down` of the last record with its id and `moved` from its stored `lastMoved`; unmatched devices keep all three unset |
| Automation.MovedIffToday | control.php:113-118 | `moved` is true iff the device was matched and its stored `lastMoved` is today |
| Automation.Bindings | control.php:127-132 | the variables bound for `eval` are exactly the 14 allowed names |
| Automation.BindingsClock | control.php:127-128 | `hour` and `minute` are bound to the clock's two-digit fields |
| Automation.BindingsCalendar | control.php:130-131 | `month` is bound without a leading zero, and `week` to the text the script computes |
| Automation.BindingsCounts | control.php:129-132 | `day` is an integer in 1..7 and `yearday` an integer in 1..366 |
| Automation.BindingsWeek | control.php:131 | the bound week is the week number unless it is a multiple of ten, and then the number of its tens |
| Automation.BindingsWeather | control.php:76 | `temperature`, `rain`, `radiation`, `wind` and `gust` are bound to the reading's fields |
| Automation.BindingsDevice | control.php:148-150 | `up`, `down` and `moved` are bound to the merged device entry's fields |
| Automation.Holds | control.php:152-157 | `eval` of the condition with a `$` before every variable; `VerdictAsWritten` ties it to the script's expression |
| Automation.VerdictAsWritten | control.php:152-157 | for a valid rule without `yearday`, the verdict is `eval` of exactly the expression `getSanitizedExpression` builds |
| Automation.TryRule | control.php:143-157 | one rule gives its condition error, else its action error, else the truth of its rewritten condition under the bindings |
| Automation.WalkRules | control.php:142-184 | the loop over the rules ends as the walk over their verdicts does |
| Automation.FirstMatchWins | control.php:142-184 | the walk stops at the first rule that is invalid or holds, all earlier rules being valid and false; it finds nothing iff all rules are valid and false |
| Automation.LaterRulesIgnored | control.php:160-184 | rules after the first one that holds are never looked at, not even validated |
| Automation.AbortStops | control.php:144-145 | once a rule is invalid, later devices change nothing |
| Automation.AlreadyThere | control.php:165 | the no-op test: `up` on a device that is up or `down` on one that is down; `StepEffect` states its use |
| Automation.Stamped | control.php:178 | the device's state entry (created empty if missing) gets `lastMoved` today, and no other entry or field changes; `RunStamps` states its use |
| Automation.Step | control.php:137-185 | one device's part of the run; `StepEffect` states its effect |
| Automation.StepEffect | control.php:135-185 | an invalid rule aborts with its error; a device that fires gets one command and its day stamped when executing, or one dry-run line otherwise; any other device changes nothing |
| Automation.RunDevice | control.php:135-185 | one device's loop body computes the step function over its walk |
| Automation.RunPrefix | control.php:135-186 | the run over the first n devices; `AbortStops`, `RunCommands`, `RunStamps` and `RunOutcome` state its effect |
| Automation.RunCommands | control.php:165-184 | at most one command per device, in device order, each the chosen action of a firing device; a dry run sends none and leaves the state data alone; a real run prints nothing |
| Automation.RunDispatches | control.php:165-178 | in a completed real run, a device gets a command iff it fires |
| Automation.RunStamps | control.php:178 | state entries are added only for devices that got a command, whose `lastMoved` becomes today; all others stay as merged |
| Automation.RunOutcome | control.php:144-145 | the run completes iff no device stops at an invalid rule; an aborted run stops at the first such device, keeping what the devices before it did |
| Automation.Automation | control.php:106-186 | the automatic mode as merge then run; `DryRun` and the lemmas above state its effect |
| Automation.DryRun | control.php:167-181 | without `--execute` no command is sent and the merged state data is kept; with it no dry-run line is printed |
| Automation.Automate | control.php:106-189 | the automatic mode computes merge-then-run, stopping at the first invalid rule |
| Automation.AutomaticMode | control.php:72-189 | the automatic mode from the gateway's device list and the weather CSV: every device selected (`getDeviceData('')`), the station's reading, then `Automate` |

## Left out

- HTTP through curl in `getDeviceData`, `sendCommand` and `getWeatherData` (control.php:204-225, 279-322, 337-384) is network I/O. The decoded device list and the CSV text are inputs, and a command is a record appended to the run's output.
- File cache reads and writes and JSON encoding and decoding (control.php:99-104, 189, 201, 225, 335, 384) are persistence I/O. The state data is a map in and a map out; the map is written only when the run completes.
- CLI option parsing and the manual commands (control.php:13-69) are left out. So are `showHelp`, `printValueIfOnDebug`, `getWeatherDataInfo` and `usleep` (control.php:175), which are output and timing only.
- The weather overrides from the command line (control.php:78-93) are left out. The weather reading of the run is an input, so an overridden reading is just another input.
- `eval` (control.php:157) is PHP's dynamic execution. It is a parameter, an arbitrary function of the rewritten condition and the bound variables.
- Automation.Holds: the condition is evaluated through `IntendedExpression`. For every accepted condition without `yearday` this is the script's own expression (`Rewriting.AsWrittenAgrees`, `Automation.VerdictAsWritten`). For a condition with `yearday` the script's expression is `year$day`, a PHP parse error that ends the script; that crash is not modelled (see Findings).
- Automation.Holds: the model's `eval` always returns a boolean. An accepted condition that is not valid PHP (`hour >`, `()`, `!`) ends the script in `eval` (control.php:157) with a parse error, before the state file is written (control.php:189); the model does not capture that crash.
- Automation.Bindings: the model's `eval` has no side effects, and every rule sees the variables bound afresh. In PHP the evaluated code runs in the script's global scope, and `checkCondition` lets `=` and `+` through (control.php:517-520), so `hour = 13` or `hour++` assigns to the variable. Only `up`, `down` and `moved` are set again for each rule (control.php:148-150); an assigned time or weather variable keeps its new value for the later rules and devices, which the model does not capture.
- Clock: one `Time` value stands for every clock read of the run. The script reads the clock for the merge (control.php:114), for the time variables (control.php:127-132) and again for each stamp (control.php:178), after a half-second pause per command (control.php:175). A run that crosses midnight stamps the new day while `moved` was computed for the old one; the model uses a single day throughout.
- Loose `==`/`!=` comparisons (control.php:109, 114, 239) are modelled as exact string equality. PHP compares two numeric strings as numbers, so ids or dates written differently as numbers (`"1e1"` and `"10"`) would match there and not here.
- The weather values, positions and tilts are modelled as sanitised strings and integers. Their meaning as floating-point numbers matters only inside `eval`.
- A PHP array cannot hold the same condition twice in a device's `rules`; the model takes the rules as a sequence in which this could happen.
- The dry-run line is modelled without its timestamp prefix (control.php:180).
- config.dist.php holds constants only. Its sample rules appear as worked examples.

## Findings

| source | as written | input that shows it | evidently intended | confidence | as-written member | corrected member |
|---|---|---|---|---|---|---|
| control.php:131 | `preg_replace('/0/', '', date('W'))` deletes every `0` of the two-digit ISO week | week 10: `date('W')` is `"10"` and gives `"1"`, the same as week 1 (also 20/2, 30/3, 40/4, 50/5) | only the leading zero is dropped, so weeks stay distinct; `Clock.WeekInjective` proves this for the corrected week, and `Automation.BindingsWeek` states what the script binds instead | not executed | Clock.WeekCollision | Clock.Week |
| control.php:592-594 | each name is replaced as a substring, in list order, and `day` comes before `yearday` | condition `yearday > 100` becomes `return (year$day > 100);` | every variable gets exactly one `$`: `return ($yearday > 100);`, as `ConditionExamples.YeardayIntended` proves | not executed | ConditionExamples.YeardayMangled | Conditions.IntendedExpression |
