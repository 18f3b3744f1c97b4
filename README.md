# Macro recorder and autoclicker, modelled in Dafny

This project models two small desktop utilities.

**The macro recorder/player** (`Macros.py`) records mouse and keyboard events as timestamped action records. It keeps them in a list that can be cleared, saved in a `{"version": 1, "actions": [...]}` envelope, loaded back, and played back. Playback runs on a worker that waits `max(0, t - prev_t)` before each action and honours a stop flag. The recorder also validates four global hotkeys. Keys that form a single-key hotkey are kept out of recordings.

**The autoclicker** (`AutoClicker.py`) merges a configuration from defaults, a JSON file and the command line. Its worker runs a loop that checks the failsafe corner, then the click and duration limits, then clicks and sleeps for a jittered, clamped interval.

The modules follow the program's structure:

- `Wrappers`: Option and Result.
- `Json`: JSON values, Python truthiness, `int()` and `float()` of a value.
- `Text`: `strip`, `lower` and `replace(" ", "")`.
- `Keys`: keys, hotkey parts, matching, and key serialisation.
- `Hotkeys`: hotkey validation.
- `Actions`: action records, the replay dispatch, and the save/load envelope.
- `Playback`: the playback schedule, as a function.
- `Macros`: the recorder as a class. Its flags, action list, move filter, hotkey parts and event queue are fields. Its commands and callbacks are methods.
- `ClickConfig`: configuration fields, defaults, merge, command-line overrides and the hotkey table.
- `Clicker`: the clicker's pure cycle and run functions, plus the `AutoClicker` class.

Foreign inputs are parameters:

- **Clock, pointer and random draw.** Each clock reading, pointer position and random draw is passed in.
- **Playback stop flag.** It is a function from "moments" to booleans. Moment `2i` is the look before action `i`. Moment `2i + 1` is the end of the wait before action `i`.
- **The clicker's worker.** It reads one `Reading` per cycle.
- **pynput.** `keyboard.HotKey.parse` is a function parameter. The names of pynput's special keys and mouse buttons are a `Host` value. So is Python's `int()`/`float()` of a string.
- **Controller output.** What the controllers receive is modelled as a sequence of commands.

## Model

| member | source | states |
|---|---|---|
| Text.StripEmptyIffBlank | Macros.py:313-322 | a stripped hotkey text is empty exactly when every character of the original is whitespace |
| Text.StripIdempotent | Macros.py:313-318 | stripping an already stripped text changes nothing |
| Text.RemoveSpaces | Macros.py:276 | the result holds every non-space character of the input and no space |
| Text.RemoveSpacesAppend | Macros.py:276 | removing spaces works piece by piece: a space disappears, any other character is kept, and the pieces keep their order |
| Hotkeys.NormalizeStripped | Macros.py:275-276 | normalising a stripped text gives the same as normalising the raw one |
| Hotkeys.Normalize | Macros.py:275-276 | a normalised hotkey text holds no space and no ASCII capital letter |
| Hotkeys.DistinctIffFullSet | Macros.py:324-326 | the set of four normalised texts has four elements exactly when no two coincide |
| Hotkeys.ParseAll | Macros.py:328-338 | parsing stops at the first hotkey that fails, reports its position and error, and succeeds exactly when every hotkey parses |
| Hotkeys.ValidateAccepts | Macros.py:312-346 | hotkeys are accepted iff none is blank, no two coincide after normalising, and all parse; then each of the four is bound to its own command |
| Hotkeys.ParseAllSingleKeys | Macros.py:328-338 | the suppressed parts are exactly the parts of the hotkeys that parse to a single key |
| Hotkeys.ValidateMissing | Macros.py:320-322 | the first blank hotkey is reported as missing, whatever follows |
| Hotkeys.ValidateDuplicate | Macros.py:324-326 | two non-blank hotkeys that coincide after normalising are refused as not unique |
| Hotkeys.BuildHotkeyBindings | Macros.py:312-346 | the loops of the binding builder produce exactly the validation result |
| Keys.KeyCodeMatchesIgnoresCase | Macros.py:279-284 | key-code matching is symmetric and compares characters case-insensitively when no virtual-key number decides; the folding covers A–Z, U+00C0–U+00DE, U+0391–U+03A9 and U+0400–U+042F |
| Keys.KeyCodeMatches | Macros.py:279-284 | equal key codes match; different virtual-key numbers never match |
| Keys.PartMatchesKey | Macros.py:286-304 | a key matches the part made from it; a key that has no key code matches only its own key part |
| Keys.MatchThroughSpecialValue | Macros.py:286-304 | a special key whose value is a key code matches a code or text part exactly as that key code would |
| Keys.SerializeKey | Macros.py:398-408 | a character is preferred, then the virtual-key number, then "text"; a special key is written by its name |
| Keys.DeserializeKey | Macros.py:410-419 | a "char" payload reads back exactly when its value is a non-empty text, a "vk" payload exactly when it is an integer (a bool counting as one), a "special" payload exactly when it names a known special key, each as that key; every other payload reads back as no key |
| Keys.DeserializeSerialized | Macros.py:398-419 | a serialised key reads back iff it is restorable, with the same character, virtual-key number or special name |
| Actions.ButtonFromName | Macros.py:421-425 | a known button name is kept, and any other name becomes the left button |
| Actions.Execute | Macros.py:604-631 | each record replays as at most one controller command, and an unknown kind replays as nothing; only a move or a scroll can fail; a key record replays as a press for phase "press", as a release for any other phase, and as nothing when its key cannot be restored |
| Actions.ReplayMove | Macros.py:633-648 | a recorded pointer move replays as a move to the same position |
| Actions.ReplayClick | Macros.py:650-659 | a recorded button event replays as the same press or release of the same button |
| Actions.ReplayScroll | Macros.py:661-662 | a recorded scroll replays as the same scroll |
| Actions.ReplayKey | Macros.py:664-678 | a recorded key event replays as the same phase of the restored key; a key that cannot be restored is skipped |
| Actions.Round6 | Macros.py:393 | rounding to six decimals keeps a non-negative time non-negative and moves it by at most half a microsecond |
| Actions.Round6Monotone | Macros.py:393 | rounding to six decimals keeps order |
| Actions.Save | Macros.py:504-519 | saving refuses an empty macro; otherwise it writes version 1 and the actions |
| Actions.Load | Macros.py:529-537 | a bare list or an envelope whose "actions" is a list loads as the objects of that list; a missing or non-list "actions" is an error |
| Actions.DictsOf | Macros.py:537 | the loaded actions are exactly the objects of the list |
| Actions.DictsOfAppend | Macros.py:537 | the filter keeps an object, drops any other value, and keeps the order of what it keeps |
| Actions.LoadSaved | Macros.py:504-537 | loading a saved macro gives back the same actions |
| Actions.LoadBareList | Macros.py:530-537 | loading a bare list of action objects gives back the same actions |
| Playback.Delay | Macros.py:585 | each wait is `max(0, t - prev_t)` |
| Playback.Play | Macros.py:576-602 | an empty macro plays as done with nothing executed; a stop flag seen first stops before any action |
| Playback.TimeOf | Macros.py:584 | an action with no time counts as time 0 |
| Playback.PlayFromPrefix | Macros.py:576-602 | playback executes a prefix of the snapshot, each action without error and in order; it reports done iff it executed all of them |
| Playback.PlayFromFailsAt | Macros.py:583-600 | a failed playback ends at an action whose time or whose replay cannot be converted |
| Playback.PlayFromHonoursStop | Macros.py:580-595 | every executed action was preceded by two clear looks at the stop flag; a stopped playback saw the flag |
| Playback.StopBounds | Macros.py:580-595 | once the flag is seen at action k, no action from k on runs |
| Playback.PlayFromTelescopes | Macros.py:583-596 | the waits add up to the time of the last executed action minus the starting time |
| Playback.PlayWaitsDuration | Macros.py:225 | a completed playback of well-stamped actions waits in total exactly the duration the window shows |
| Macros.EventTime | Macros.py:387-388 | the event time is the clock reading minus the recording start, and 0 for a reading before the start |
| Macros.StampsOrdered | Macros.py:387-395 | recorded times are non-negative, and a later clock reading never gets an earlier stamp |
| Macros.RunSchedule | Macros.py:576-602 | the worker's loop computes exactly the playback schedule |
| Macros.MacroApp.Launch | Macros.py:83-84 | start-up succeeds exactly when the default hotkeys are valid and their listener starts |
| Macros.MacroApp.ApplyHotkeys | Macros.py:367-382 | refused hotkeys change nothing; accepted ones replace the bindings and the suppressed parts, and leave no listener when it cannot start |
| Macros.MacroApp.ShouldSuppressKey | Macros.py:306-310 | a key is suppressed iff some hotkey part matches it |
| Macros.MacroApp.SetCaptureMoves | Macros.py:259-264 | the move-capture option takes the checkbox value |
| Macros.MacroApp.RecordEvent | Macros.py:390-395 | nothing happens when not recording; otherwise exactly one stamped action is appended and announced |
| Macros.MacroApp.OnMouseMove | Macros.py:633-648 | a move is recorded only when captured, at least 0.02 s and 2 units (Manhattan) from the last one; only a recorded move updates the filter; the same record is queued for the list whenever it is appended, and nothing is queued otherwise |
| Macros.MacroApp.OnMouseClick | Macros.py:650-659 | a button event appends one click record while recording; the same record is queued for the list whenever it is appended, and nothing is queued otherwise |
| Macros.MacroApp.OnMouseScroll | Macros.py:661-662 | a scroll appends one scroll record while recording; the same record is queued for the list whenever it is appended, and nothing is queued otherwise |
| Macros.MacroApp.OnKeyPress | Macros.py:664-670 | a press is recorded while recording unless the key is suppressed; the same record is queued for the list whenever it is appended, and nothing is queued otherwise |
| Macros.MacroApp.OnKeyRelease | Macros.py:672-678 | a release is recorded while recording unless the key is suppressed; the same record is queued for the list whenever it is appended, and nothing is queued otherwise |
| Macros.MacroApp.StartRecording | Macros.py:448-478 | refused while playing, a no-op while recording; otherwise clears the actions and resets the move filter |
| Macros.MacroApp.StopRecording | Macros.py:480-486 | recording stops and the actions stay |
| Macros.MacroApp.ClearActions | Macros.py:496-502 | recording stops and the action list is empty |
| Macros.MacroApp.SaveMacro | Macros.py:504-519 | a document is written exactly for a non-empty macro and a chosen file; it is the saved envelope and loads back to the same actions |
| Macros.MacroApp.LoadMacro | Macros.py:521-548 | recording stops; on success the actions are replaced by the loaded ones, otherwise they are unchanged |
| Macros.MacroApp.PlayMacro | Macros.py:550-567 | refused while recording, a no-op while playing, refused for an empty macro; otherwise clears the stop flag and starts playing |
| Macros.MacroApp.StopPlayback | Macros.py:569-574 | the stop flag is set only while playing |
| Macros.MacroApp.PlayWorker | Macros.py:576-602 | playback follows the schedule, and exactly one end event is queued |
| Macros.MacroApp.DrainQueue | Macros.py:680-705 | the queue is emptied, and a done, stopped or error event ends playing |
| Macros.MacroApp.Close | Macros.py:710-716 | closing ends recording, sets the stop flag and drops the hotkeys |
| ClickConfig.Merge | AutoClicker.py:64-69 | only the base's fields change, each to its override when there is one |
| ClickConfig.MergeNothing | AutoClicker.py:64-69 | empty overrides give back the base configuration |
| ClickConfig.MergeIgnoresUnknown | AutoClicker.py:66-68 | keys that are not fields play no part |
| ClickConfig.MergeTwice | AutoClicker.py:180-202 | merging the file and then the command line is one merge with their union, the command line winning |
| ClickConfig.Decode | AutoClicker.py:27-39 | a configuration decodes exactly when the interval is numeric, each truthy jitter, count or duration is numeric, the coordinates are whole when the position is fixed, and the button and keys are texts; the settings then hold those values, 0 for a falsy limit, and the flags' truthiness |
| ClickConfig.Amount | AutoClicker.py:105-137 | a falsy limit or jitter counts as none, and a truthy one must be a number |
| ClickConfig.Coordinate | AutoClicker.py:123-124 | a coordinate is read only when the position is fixed |
| ClickConfig.DecodeNullLimits | AutoClicker.py:106-133 | null limits and jitter, and a null coordinate outside fixed mode, are accepted |
| ClickConfig.DecodeNullFixedCoordinate | AutoClicker.py:123-124 | a null coordinate in fixed mode is refused |
| ClickConfig.DecodeDefaults | AutoClicker.py:27-42 | the defaults are 0.10 s, no jitter, left, single click, no limits, cursor position, failsafe on, `<f8>` and `<esc>` |
| ClickConfig.CliOverrides | AutoClicker.py:188-200 | the command line only overrides configuration fields |
| ClickConfig.CliOverridesGiven | AutoClicker.py:188-200 | the overrides hold exactly the options that were given, all of them fields |
| ClickConfig.CliSwitchesOneWay | AutoClicker.py:192-198 | `--double` and `--fixed` only set True, and `--no-failsafe` only sets False |
| ClickConfig.Resolve | AutoClicker.py:180-202 | resolving fails exactly when a config path is given and the file cannot be read or does not hold an object; otherwise the configuration has exactly the twelve fields |
| ClickConfig.ResolveLayers | AutoClicker.py:180-202 | each field is the command line's value when given, else the file's, else the default; without a config path the file contributes nothing |
| ClickConfig.HotkeyTable | AutoClicker.py:232-235 | both keys are bound; the quit key always quits |
| ClickConfig.SameKeysLoseToggle | AutoClicker.py:232-235 | identical toggle and quit keys are accepted and leave only quitting bound |
| Clicker.ButtonFor | AutoClicker.py:48-52 | a button is found exactly for a name whose lower case is left, right or middle |
| Clicker.ButtonForNames | AutoClicker.py:48-52 | a button is found exactly for left, right and middle, in any letter case |
| Clicker.Clamp | AutoClicker.py:55-56 | the clamped value is the input when it is positive and 0 otherwise |
| Clicker.SleepDelay | AutoClicker.py:130-137 | the sleep is never negative, and without positive jitter it is the clamped interval |
| Clicker.SleepDelayBounds | AutoClicker.py:130-137 | the sleep lies between the clamped ends of the jitter range |
| Clicker.SleepWithoutJitter | AutoClicker.py:133-136 | with no positive jitter the draw plays no part |
| Clicker.ClickCommands | AutoClicker.py:122-127 | the pointer moves first when the position is fixed, then one click is sent, doubled if set |
| Clicker.OneClickPerCycle | AutoClicker.py:122-128 | each click sends exactly one click command, a double click included |
| Clicker.CycleEffect | AutoClicker.py:139-156 | a paused worker idles; a failsafe pause means the corner was reached; a limit pause means a limit was reached without the failsafe; a click sends the click commands and sleeps the jittered, clamped delay |
| Clicker.Drive | AutoClicker.py:139-156 | a worker that quits ends paused, and sleeps at most once per cycle |
| Clicker.DriveQuits | AutoClicker.py:139-156 | the worker quits exactly when some reading asks it to |
| Clicker.CycleOrder | AutoClicker.py:139-156 | a cycle clicks iff active, the failsafe has not fired and no limit is reached; the failsafe comes first; a click counts exactly one |
| Clicker.CountLimitFrom | AutoClicker.py:109-110 | with a count limit of n, a worker at k clicks does n - k more and then pauses |
| Clicker.ExactlyNClicks | AutoClicker.py:139-156 | a worker started with a click count of n clicks exactly n times and then pauses |
| Clicker.PausedStaysPaused | AutoClicker.py:141-143 | a paused worker sends nothing and stays paused |
| Clicker.NoClickAfterDuration | AutoClicker.py:106-108 | no click is sent once the duration has passed, and clicking pauses |
| Clicker.Toggled | AutoClicker.py:90-99 | pausing keeps the counters; resuming restarts the count and the clock |
| Clicker.ToggleTwiceRestarts | AutoClicker.py:90-99 | pausing and resuming gives a fresh count started at the second toggle |
| Clicker.AutoClicker.Build | AutoClicker.py:72-78 | construction succeeds exactly for a known button name |
| Clicker.AutoClicker.Toggle | AutoClicker.py:90-99 | the counters become the toggled counters |
| Clicker.AutoClicker.Stop | AutoClicker.py:101-103 | stop-all is set and clicking stops |
| Clicker.AutoClicker.ShouldStopForLimits | AutoClicker.py:105-111 | true iff a nonzero duration has elapsed since a recorded start, or a nonzero count is reached |
| Clicker.AutoClicker.FailsafeTriggered | AutoClicker.py:113-120 | true iff enabled, the position can be read, and both coordinates are at most 0 |
| Clicker.AutoClicker.DoClick | AutoClicker.py:122-128 | the click commands are sent and the count rises by one |
| Clicker.AutoClicker.SleepInterval | AutoClicker.py:130-137 | the sleep taken is the jittered, clamped delay |
| Clicker.AutoClicker.RunCycle | AutoClicker.py:140-156 | one pass of the loop changes the counters and sends commands as the cycle function says |
| Clicker.AutoClicker.Run | AutoClicker.py:139-156 | the worker's loop ends in the state, commands and sleeps of the run function |

Identical toggle and quit keys are not rejected. The hotkey dictionary at AutoClicker.py:232-235 keeps the later entry, so only quitting stays bound; see `ClickConfig.SameKeysLoseToggle`.

## Left out

- The tkinter interface is not modelled: widgets, styles, the status texts, the list box, `_format_action`'s display text and the always-on-top option.
- Threads, `queue.Queue` and the `after` polling are not modelled. The workers are sequential loops. Stop-flag observations, clock readings, pointer positions and random draws are parameters.
- File dialogs, file reads and writes, and JSON text are not modelled. Save and load work on JSON values. A chosen file and its read result are parameters.
- pynput is a foreign library. `HotKey.parse`, the special-key and button name tables, and the controllers are parameters or command sequences.
- Exceptions raised inside the pynput controllers during playback are not modelled. Only the conversion errors of `int()`/`float()` produce a playback error.
- Macros.MacroApp.ApplyHotkeys: when the listener is created but its start raises, the source keeps the new, non-running listener object assigned. The model records that no listener runs.
- Keys.SerializeKey: the "text" payload stores `str(key)` in the source, but the model stores null there. No such payload is ever read back.
- Keys.DeserializeKey: special names are looked up in a table of pynput's key names. Other attributes that `hasattr` would also find are not modelled.
- Actions.Execute: a non-string "button" value is passed through `str()` in the source. The model treats it as an unknown name, which plays back as the left button unless the name "" is a known button.
- KeyCodeMatchesIgnoresCase: lower case is modelled only for A–Z, the Latin-1 capitals U+00C0–U+00DE (except U+00D7), the basic Greek capitals U+0391–U+03A9 and the basic Cyrillic capitals U+0400–U+042F. Latin Extended capitals (such as U+0141), accented Greek capitals (such as U+0386), the other Cyrillic capitals (U+0460 and up), all other scripts, and letters whose lower case is more than one character (such as U+0130) are not folded, whereas Python's `lower()` folds them. This affects Keys.KeyCodeMatches, Keys.PartMatchesKey, Hotkeys.Normalize and Clicker.ButtonFor.
- Actions.Round6: it rounds the exact real value half-to-even. Python rounds the binary float.
- ClickConfig.Decode: it refuses, at decoding, a non-numeric interval and a truthy non-numeric jitter, count or duration. The source keeps them and fails with a `TypeError` when the worker first compares or adds them.
- ClickConfig.Decode: in fixed-position mode it refuses coordinates that are not whole numbers. The source hands any value to pynput.
- ClickConfig.Decode: it refuses a toggle or quit key that is not text. The source hands it to pynput's hotkey listener. A non-text button is refused too, and there the source also fails, when it constructs the clicker.
- The order of the keys inside each saved action record (a JSON object is modelled as a map) is not modelled, and neither are non-finite floats.
- `main`'s banner, `argparse` parsing and `exit()` are not modelled. So is the `GlobalHotKeys` listener loop; only its key table is modelled.
