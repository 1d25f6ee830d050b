# In-game console command engine

A Dafny model of the text-command engine of a Unity in-game console. The player
types a command line such as

    Player Heal 10
    bind 3 Spawn "big crate" 1,2,3

and the console does the following:

- It trims the command, records it in the history and saves the newest 101
  history lines.
- It splits the command into tokens. Quoted groups stay one token.
- It dispatches on the first token:
  - a key binding (`bind n ...`);
  - a call on one named scene object (`Object Method args...`);
  - a broadcast to every object that exposes the method (`Method args...`);
  - Unity's `SendMessage`, when that is allowed;
  - otherwise a "not recognized" log line.
- Before a method is called, each string token is coerced into one argument per
  parameter. Array parameters can swallow the rest of the tokens. In the model,
  parameters with no token keep their default or the placeholder for their
  type, an empty array for the four array types. The code as written gives
  them DBNull instead (see "## Findings").

Around the dispatcher sit several more parts:

- the registry of console methods, rebuilt from the scene;
- the autocomplete list;
- the history and suggestion cursors, driven by the arrow keys and Return;
- the ten digit-key bindings;
- the history file.

## Modules

- `Results`: `Option`, the .NET exceptions the code can raise (`Fault`), and a
  `Result` type that carries them.
- `Text`: the ordinal string primitives the code calls: `IndexOf`, `Contains`,
  `StartsWith`, `Split` with `StringSplitOptions.None`, `Join`, `Replace`,
  `Trim` and `ToLower`. It includes their round trips (`Join(Split(s))`,
  `Split(Join(parts))`) and `Replace` as the join of a split.
- `Values`: the parameter types and argument values the coercer distinguishes.
- `Convert`: `Int32.Parse`, `Single.Parse` on decimal numerals,
  `Boolean.Parse`, `Convert.ChangeType` from a string, and `Int32.ToString`.
- `ArrayHelper`, `StringHelper`, `TypeHelper` and `FileHelper`: the helper
  classes of the same names.
- `MethodHelper`: `StringsToArguments` and `Invoke`. The coercion loop is
  proved against a declarative description: item k goes to parameter k, up to
  and including the first array parameter that captures the rest.
- `Tokenizer`: `MethodHelper.CommandSplit`, the sentinel-based quoted-group
  splitter.
- `Registry`: `Console.UpdateMethodList`, the scene scan and the two
  dictionaries `byObject` and `byMethod`.
- `Console`:
  - `Run_Command`, split into recording and dispatch (`Resolve`);
  - `UpdateAutoComplete`;
  - `Start`, `Open`, `Close`, `Load` and `Save`;
  - the digit bindings;
  - the key branches of `OnGUI`;
  - an invariant (`Wf`) that every operation preserves.

The scene, the invoked methods and the files are parameters of the model:

- `scene` lists the objects, components and public methods that reflection
  would report;
- `host` says, for a binding and its arguments, whether the method returns or
  throws (and with what message);
- a file is `Option<seq<string>>`, `None` when it does not exist;
- `Save` is modelled by the lines it would write (`Report.saved`).

Quirks of the code that the model keeps:

- `Save` writes the newest 101 lines (Base/Console.cs:457), although the
  comment on line 456 speaks of 100.
- `bind` only writes the in-memory `bindings` array (Base/Console.cs:278).
  `Save` writes the history alone (Base/Console.cs:454-463), so bindings are
  not kept across sessions.
- Return on a selected suggestion appends it to the command with no separator
  (Base/Console.cs:150).
- Argument coercion runs outside the `try` in `MethodHelper.Invoke`
  (Helpers/MethodHelper.cs:22-32). A conversion error therefore stops the
  rest of a broadcast and escapes.
- The `catch` block stringifies every argument (Helpers/MethodHelper.cs:37-38).
  A null argument makes that report itself throw `NullReferenceException`.
- The digit bindings run whenever the console is not being opened in that
  frame, including while it is open (Base/Console.cs:102-113). The comment on
  line 109 says they run only when it is closed.
- `TypeHelper.StringToBool` is true for "0", "t" and "true" in any case, and
  false for everything else, "1" included (Helpers/TypeHelper.cs:37-49).
- A literal `____` in a command is the tokenizer's sentinel, so it comes back
  as a single space (Helpers/MethodHelper.cs:124, 133).
- `Load` and `Start` leave the history cursor at the count
  (Base/Console.cs:472). With two or more entries, the first Up then recalls
  the second-newest entry, not the newest (Base/Console.cs:175-177); with one
  entry the cursor wraps to 0 and Up recalls that entry.
- Editing the command recomputes the suggestion list but keeps the selection
  index (Base/Console.cs:227-233, 371-374). A selection made on a longer list
  can point past the new list, and the next Return throws
  (Base/Console.cs:150).

## Model

| member | source | states |
|---|---|---|
| `ArrayHelper.SubArray` | Helpers/ArrayHelper.cs:6-19 | Succeeds exactly when `0 <= start <= last + 1` and `last < length`, where `last` is `end`, or `length - 1` for `-1`. The copy is `source[start..last]` element by element. Otherwise it throws `OverflowException` for a negative count, `ArgumentOutOfRangeException` for a negative start, and `ArgumentException` past the end. |
| `ArrayHelper.SubArrayTail` | Helpers/ArrayHelper.cs:8-9 | Without an end, `SubArray` is the suffix from `start`: the whole array from 0, and empty from the length. |
| `ArrayHelper.SubArrayOutOfRange` | Helpers/ArrayHelper.cs:11-14 | A start past the end gives a negative count, so the allocation throws. |
| `StringHelper.ArrayToStringTail` | Helpers/StringHelper.cs:13-17 | On a string array, `ArrayToString` from `start` is the suffix joined with the separator. |
| `StringHelper.GetSubStrings` | Helpers/StringHelper.cs:19-29 | Every group found for `start(.*?)end` holds neither a line break nor the closing delimiter. |
| `StringHelper.QuoteGroupsCount` | Helpers/StringHelper.cs:19-29 | With quotes as both delimiters there are at most half as many groups as quotes. |
| `StringHelper.LoneQuoteNoGroup` | Helpers/StringHelper.cs:19-29 | A text with at most one quote yields no group. |
| `StringHelper.ReplaceFirst` | Helpers/StringHelper.cs:31-39 | The text is unchanged when `search` is absent. Otherwise the length changes by the difference, the text before the first occurrence and after it is kept, and the replacement sits in between. |
| `StringHelper.ReplaceFirstSelf` | Helpers/StringHelper.cs:31-39 | Replacing the first occurrence by itself gives the text back. |
| `TypeHelper.StringToType` | Helpers/TypeHelper.cs:27-34 | A converted value has the requested type. A bool is `StringToBool` of the text and never fails. Every other type goes through `Convert.ChangeType`, and a string converts to itself. |
| `TypeHelper.StringArrayToTypeArray` | Helpers/TypeHelper.cs:6-14 | Succeeds exactly when every element converts. The result then has the same length and element i is `values[i]` converted. A failure carries the error of the first element that does not convert, all earlier ones converting. |
| `TypeHelper.StringToBoolSpelled` | Helpers/TypeHelper.cs:37-49 | `StringToBool` is true exactly for "0", "t"/"T", and "true" in any mix of case. |
| `TypeHelper.StringToBoolIgnoresCase` | Helpers/TypeHelper.cs:37-49 | `StringToBool` gives the same answer on a text and on its lower-cased form. |
| `TypeHelper.StringToBoolTrueExamples` | Helpers/TypeHelper.cs:41-44 | "0", "t", "true", "T", "TRUE" and "True" are true. |
| `TypeHelper.StringToBoolFalseExamples` | Helpers/TypeHelper.cs:46-47 | "1", "false", "" and "yes" are false. |
| `TypeHelper.StringsToStrings` | Helpers/TypeHelper.cs:16-24 | `TypeArrayToStringArray` on a string array gives the same array. |
| `TypeHelper.IntArrayRoundTrip` | Helpers/TypeHelper.cs:6-24 | Stringifying 32-bit integers and converting the texts back gives the same integers. |
| `Convert.ParseInt32` | Base/Console.cs:278 | A parsed integer lies in the 32-bit range. |
| `Convert.ParseShowInt` | Helpers/TypeHelper.cs:16-34 | Parsing `ToString()` of any 32-bit integer gives the integer back. |
| `Convert.ParseFloatInt` | Helpers/MethodHelper.cs:108-109 | `Single.Parse` of the decimal text of any integer, negative ones included, gives that integer. |
| `Convert.ParseDecimal` | Helpers/MethodHelper.cs:108-109 | `Single.Parse` of `w.f`, with w a whole number and f any digits, gives w plus the value of f over ten to the number of its digits. |
| `Convert.ChangeType` | Helpers/MethodHelper.cs:108-109 | A converted value has the target type. A string converts to itself. An array or a named type of `Other`, none of them IConvertible, cannot be produced from a string (`InvalidCastException`). |
| `FileHelper.LoadFile` | Helpers/FileHelper.cs:7-32 | A missing file gives no lines. Otherwise the lines are a subsequence of the file's, in order. Each line is kept with its multiplicity, except blank lines when they are ignored. With the filter on, no kept line is blank. |
| `FileHelper.KeepLines` | Helpers/FileHelper.cs:18-28 | The reading loop keeps the lines in order, with their multiplicity, dropping exactly the blank ones when asked. |
| `FileHelper.LoadFileKeepsAll` | Helpers/FileHelper.cs:18-28 | Without the filter, every line is kept. |
| `FileHelper.LoadFileNoBlank` | Helpers/FileHelper.cs:18-28 | A file with no blank line loads whole with the filter on. |
| `MethodHelper.Placeholder` | Helpers/MethodHelper.cs:59-70 | A parameter's starting value is its declared non-null default. Otherwise it is the table's entry for its type, or null when there is none. |
| `MethodHelper.ObjectsFit` | Helpers/MethodHelper.cs:14-19 | The table maps each of the four array types to an empty array of that type. |
| `MethodHelper.IsArray` | Helpers/MethodHelper.cs:139-147 | The array types the coercer fills are exactly the types the placeholder table (lines 14-19) holds an empty array for. |
| `MethodHelper.AsWrittenSkipsTable` | Helpers/MethodHelper.cs:65-69 | As written, a parameter without a default gets DBNull, which has no parameter type. |
| `MethodHelper.PlaceholderUsesTable` | Helpers/MethodHelper.cs:65-69 | The corrected placeholder agrees with the as-written one whenever a default is declared. Without a default, it differs and gives the table's entry, of the parameter's type. |
| `MethodHelper.ConvertArray` | Helpers/MethodHelper.cs:95-99 | A converted array has the requested element type and one element per text, element k being text k converted. It succeeds exactly when every text converts, and otherwise fails with the error of the first text that does not. |
| `MethodHelper.ConsumedFrom` | Helpers/MethodHelper.cs:72-103 | The loop consumes items up to and including the first array parameter that takes the rest of the items, and no further. |
| `MethodHelper.CoerceAt` | Helpers/MethodHelper.cs:78-109 | An item converted for its parameter has that parameter's type. |
| `MethodHelper.FillFrom` | Helpers/MethodHelper.cs:72-110 | On success the loop keeps one argument per parameter, each still fitting its parameter. |
| `MethodHelper.StringsToArguments` | Helpers/MethodHelper.cs:50-113 | One argument per parameter. Each is the parameter's placeholder or a value of its type. |
| `MethodHelper.FillFromSpec` | Helpers/MethodHelper.cs:72-110 | The loop succeeds exactly when the consumed items fit the parameter list and each converts. It then sets exactly the consumed positions, each to its own conversion. Otherwise it fails with the error of the first item that does not convert, or, when every item up to the last parameter converts and items remain, with `IndexOutOfRange`. |
| `MethodHelper.FillFromSuccess` | Helpers/MethodHelper.cs:72-110 | By induction on the items: when the loop succeeds and which positions it sets to what. |
| `MethodHelper.FillFromSucceeds` | Helpers/MethodHelper.cs:72-110 | By induction on the items: the loop succeeds exactly when the consumed items fit within the parameter list and every consumed item converts. |
| `MethodHelper.FillFromValues` | Helpers/MethodHelper.cs:72-110 | By induction on the items: after a success, each consumed position holds its own item's conversion and every other position keeps its incoming argument. |
| `MethodHelper.FillFromFailure` | Helpers/MethodHelper.cs:72-110 | By induction on the items: a failure is the first failing conversion, or `IndexOutOfRange` once every item up to the last parameter has converted. |
| `MethodHelper.FillFromStep` | Helpers/MethodHelper.cs:78-109 | One loop iteration: a conversion failure escapes, a capturing array ends the loop, and anything else moves on to the next item. |
| `MethodHelper.StringsToArgumentsSpec` | Helpers/MethodHelper.cs:50-113 | `StringsToArguments` against the declarative description: position k below the consumed count gets item k converted, every later position its placeholder. It succeeds exactly when the consumed items fit and convert, and otherwise fails with the first failing conversion's error, or `IndexOutOfRange` when every item up to the last parameter converts and items remain. |
| `MethodHelper.NullOnlyUnfilled` | Helpers/MethodHelper.cs:59-70 | A null argument only ever comes from a parameter that no item reached and that has neither a default nor a placeholder. |
| `MethodHelper.Invoke` | Helpers/MethodHelper.cs:22-46 | A coercion fault propagates to the caller. Invoke fails exactly when the method threw and an argument is null, because the report stringifies the arguments. Otherwise the coerced arguments are passed, and a report is logged exactly when the method threw, holding the arguments, the parameters and the message. |
| `MethodHelper.GreedyArrayExample` | Helpers/MethodHelper.cs:89-102 | For `Spawn(string, bool, int[])` with items `x true 1 2 3`, the array takes `1 2 3`. |
| `MethodHelper.DefaultsExample` | Helpers/MethodHelper.cs:59-70 | For `Heal(int, int = 5, string[])` with item `7`, the arguments are 7, 5 and an empty array. |
| `MethodHelper.TooManyItemsExample` | Helpers/MethodHelper.cs:72-75 | Two items for a one-parameter method throw `IndexOutOfRangeException`. |
| `Tokenizer.CommandSplit` | Helpers/MethodHelper.cs:115-137 | A command always splits into at least one token. |
| `Tokenizer.RestoreFree` | Helpers/MethodHelper.cs:132-133 | A part without the sentinel is left as it is. |
| `Tokenizer.RestoreAllFree` | Helpers/MethodHelper.cs:132-133 | Parts without the sentinel all come back unchanged from the restoring loop. |
| `Tokenizer.RestoreProtected` | Helpers/MethodHelper.cs:121-133 | A group without underscores, protected and then restored, is its pieces joined by spaces. |
| `Tokenizer.OneGroup` | Helpers/StringHelper.cs:19-29 | In `a"y"b` with no other quote and no line break in y, the only group is y. |
| `Tokenizer.CommandSplitOneGroup` | Helpers/MethodHelper.cs:115-137 | For a command `a"y"b` with one quoted group anywhere, the tokens are the restored pieces of `a`, the protected group and `b` split on spaces. |
| `Tokenizer.CommandSplitPlain` | Helpers/MethodHelper.cs:115-137 | A command with at most one quote and no sentinel splits as a plain `Split`. |
| `Tokenizer.CommandSplitGroup` | Helpers/MethodHelper.cs:115-137 | In `x "y" z`, the quoted group is one token without its quotes and keeps its inner spaces. The text around it splits as usual. |
| `Tokenizer.CommandSplitGroupLast` | Helpers/MethodHelper.cs:115-137 | In `x "y"`, with the group last, the tokens are those of x followed by y as one token. |
| `Tokenizer.GroupBetweenWords` | Helpers/MethodHelper.cs:115-137 | For plain words x and z and a quote-free group y, `x "y" z` gives exactly the three tokens x, y and z. |
| `Tokenizer.GroupAfterTwoWords` | Helpers/MethodHelper.cs:115-137 | For plain words a and b and a quote-free group y, `a b "y"` gives exactly the three tokens a, b and y. |
| `Tokenizer.QuotedGroupExample` | Helpers/MethodHelper.cs:115-137 | `foo "a b" c` gives `foo`, `a b`, `c`. |
| `Tokenizer.QuotedBindExample` | Helpers/MethodHelper.cs:115-137 | `bind 3 "spawn enemy"` gives `bind`, `3`, `spawn enemy`. |
| `Tokenizer.LoneQuote` | Helpers/MethodHelper.cs:115-137 | An unmatched quote groups nothing and stays in its token. |
| `Tokenizer.SentinelCollisionExample` | Helpers/MethodHelper.cs:131-133 | A literal `____` in the command comes back as a space: `a____b` gives the one token `a b`. |
| `Registry.FirstConsoleMethodFrom` | Base/Console.cs:427-448 | The found method is the first whose name starts with `Console_`. None is found exactly when no method does. |
| `Registry.Scan` | Base/Console.cs:422-450 | Every scanned binding is the first console method of its component, named after its object. Bindings come in strict object-then-component order. |
| `Registry.OnePerComponent` | Base/Console.cs:427-448 | The `break` leaves at most one binding per component. |
| `Registry.ScanComplete` | Base/Console.cs:422-450 | Every non-null component that has a console method is in the scan. |
| `Registry.AddValid` | Base/Console.cs:431-445 | Registering one binding keeps the registry invariant. |
| `Registry.AddAllValid` | Base/Console.cs:417-452 | Registering any sequence of bindings from empty indexes gives a valid registry. Key orders hold no duplicates and match the keys. Every object has a method. Every list is non-empty and holds only bindings exposed under its name. |
| `Registry.AddAllByMethod` | Base/Console.cs:441-445 | `byMethod[n]` lists exactly the bindings exposed under `n`, in registration order. `n` is a key exactly when there is one. |
| `Registry.AddAllByObject` | Base/Console.cs:434-439 | An object is a key exactly when some binding belongs to it. `byObject[o][n]` is defined exactly when some binding of `o` is exposed as `n`, and it is the first such binding. |
| `Registry.UpdateMethodListSpec` | Base/Console.cs:417-452 | `UpdateMethodList` rebuilds both indexes from the scene scan: valid, `byMethod` complete and in order, `byObject` keyed by exactly the scanned objects, each holding exactly the names some binding of that object exposes, mapped to the first such binding. |
| `Registry.AddAllOrders` | Base/Console.cs:431-445 | The key orders are those of first registration: objects by their first binding, method names by the first binding exposing them, each object's names by the first of its bindings exposing them. |
| `Registry.UpdateMethodListOrders` | Base/Console.cs:417-452 | After a rebuild, the object names, the method names and each object's names follow their first appearance in the scene scan, which fixes the order of the autocomplete list. |
| `Console.InvokeOne` | Helpers/ComponentMethod.cs:17-20 | At most one call, to the given binding, made exactly when coercion succeeds and with the coerced arguments. Without an escaping exception the call happened. An escaping exception logs nothing. |
| `Console.InvokeOneReport` | Helpers/MethodHelper.cs:22-46 | A coercion error escapes as the fault. After a successful coercion, `NullReferenceException` escapes exactly when the method threw and an argument is null. The one log line is written exactly when the method threw and no argument is null, and it is the report of the arguments, the parameters and the message. |
| `Console.Broadcast` | Base/Console.cs:295-300 | Calls go to the bindings in order, each with the data coerced for its own method. Without an escaping exception, every binding is called. |
| `Console.BroadcastLogs` | Base/Console.cs:295-300 | The broadcast logs are the single-call logs of the bindings reached, in order. |
| `Console.BroadcastStopsAt` | Base/Console.cs:295-300 | The first invocation that lets an exception escape ends the loop: that exception is the one reported, and exactly the bindings before it, plus its own call if it made one, were called. |
| `Console.BroadcastFault` | Base/Console.cs:295-300 | A broadcast ends without an escaping exception exactly when no single invocation lets one escape. A call that throws and is reported therefore lets the next binding run. |
| `Console.BroadcastAll` | Base/Console.cs:295-300 | When every coercion succeeds and no report can throw, the broadcast calls every binding exactly once, in order, with nothing escaping. |
| `Console.Resolve` | Base/Console.cs:262-311 | Dispatch keeps the number of binding slots. Only `bind` changes a slot, and then with no other effect. A SendMessage comes with no other effect. |
| `Console.SaveLines` | Base/Console.cs:454-463 | Save writes the newest `min(count, 101)` history entries, oldest first. |
| `Console.SaveWindowBound` | Base/Console.cs:456-461 | The saved window holds at most 101 lines and ends with the newest entry. A short history is saved whole. |
| `Console.RunCommand` | Base/Console.cs:243-260 | Run_Command leaves the registry, flags, text field and suggestions alone, and keeps the number of slots. It saves exactly when the trimmed command is not blank. |
| `Console.BlankCommandIgnored` | Base/Console.cs:246-250 | A command of white space changes nothing and does nothing. |
| `Console.CommandRecorded` | Base/Console.cs:252-260 | Any other command is appended trimmed to the history. The cursor goes to 0 and the new window is saved. |
| `Console.Dispatched` | Base/Console.cs:262-311 | Any other command's bindings, effects and SendMessage are those dispatch gives for its tokens. |
| `Console.BindTooShort` | Base/Console.cs:270-276 | `bind` with fewer than three tokens logs its usage line and binds nothing. |
| `Console.BindSetsSlot` | Base/Console.cs:278 | `bind n cmd...` stores the remaining tokens, joined by spaces, in slot n and nothing else. |
| `Console.BindBadSlot` | Base/Console.cs:278 | `bind x ...` throws the parse error when x is not a numeral, and `IndexOutOfRange` when it names no slot. Nothing is bound either way. |
| `Console.ObjectCall` | Base/Console.cs:281-293 | `obj method args...` invokes that object's binding once with the remaining tokens and never falls through to the broadcast. |
| `Console.ObjectNoMethod` | Base/Console.cs:286-290 | An object without that method logs `No method m in object o` and calls nothing. |
| `Console.MethodBroadcast` | Base/Console.cs:295-300 | A registered method name, when this is not an object call, broadcasts to every binding of that name in order. |
| `Console.Unrecognized` | Base/Console.cs:302-311 | Anything else is sent with SendMessage when allowed, with the remaining tokens joined by spaces. Otherwise it logs `Command x not recognized`. |
| `Console.FilterContains` | Base/Console.cs:383-413 | The names kept are exactly those that contain the typed token, in their original order. |
| `Console.UpdateAutoComplete` | Base/Console.cs:371-415 | After an object name, the suggestions are that object's method names that contain the last token, in key order. After a method name there are none. Otherwise they are the object names, then the method names, that contain it, each in key order. Nothing but the list changes. |
| `Console.SingleTokenAutoComplete` | Base/Console.cs:376-388 | With one token, the token before the last is the token itself, so an object's name lists its own methods. |
| `Console.SuggestionsRegistered` | Base/Console.cs:371-415 | Every suggestion names a registered object or method. |
| `Console.Open` | Base/Console.cs:76-81 | Open shows the console, rebuilds the registry from the scene, and leaves the suggestions refreshed for the new registry. History, bindings, command, cursors and the SendMessage flag are kept. |
| `Console.Edit` | Base/Console.cs:227-233 | A changed text field refreshes the suggestions for the new text and keeps the selection index. An unchanged one changes nothing. |
| `Console.Load` | Base/Console.cs:465-473 | Load appends the non-blank lines of the file, in order, after the existing history and puts the cursor at the count. |
| `Console.Start` | Base/Console.cs:65-73 | Start loads the history file, builds the registry and leaves the console closed with an empty command, no selection and the suggestions refreshed. The bindings and the SendMessage flag are as configured. |
| `Console.RunBinding` | Base/Console.cs:108-112 | A digit runs the command bound to its slot. An unset slot or one past the array throws and changes nothing. |
| `Console.Rem` | Base/Console.cs:175 | C#'s `%` keeps the sign of the dividend: within `[0, n)` for a non-negative dividend and `(-n, 0]` for a negative one. |
| `Console.KeyPress` | Base/Console.cs:127-233 | On a closed console only the toggle key does anything, and it opens the console. On an open one the toggle key closes it. Any other key gives the report and the command its branch gives. A changed command leaves the suggestions refreshed; a key that leaves the command unchanged, or throws, gives exactly its branch's state, suggestion list included. |
| `Console.KeyPressIsBranch` | Base/Console.cs:145-233 | Every key but the toggle on an open console does what its branch does. When the branch changes the command without throwing, the state is the branch's state with the suggestions recomputed. Otherwise the step is the branch's own and the list is kept. |
| `Console.KeyBranch` | Base/Console.cs:145-190 | No key branch touches the suggestion list, the registry, or whether the console is open. |
| `Console.OtherKeyQuiet` | Base/Console.cs:138-190 | A key with no branch leaves an open console exactly as it was. |
| `Console.SideArrowsReset` | Base/Console.cs:161-165 | Left and Right reset both cursors and do nothing else. |
| `Console.DownCycles` | Base/Console.cs:181-190 | Down does nothing without suggestions. From the history it selects the first suggestion. Otherwise it steps cyclically through the list. Only the two cursors change, so repeated presses cycle through one list. |
| `Console.UpCycles` | Base/Console.cs:167-179 | Up steps cyclically back through a non-empty history and loads the entry into the text field. A selected suggestion is dropped for the newest entry. Only the history cursor, the selection and the command change, plus the suggestion list, which is refreshed when the command changed and kept otherwise. |
| `Console.UpFromResetIsNewest` | Base/Console.cs:167-177 | After Left or Right, the first Up recalls the newest command. |
| `Console.UpFromCountSkipsNewest` | Base/Console.cs:167-177 | With the cursor at the count, as Load leaves it, and two or more entries, the first Up recalls the second-newest entry. |
| `Console.UpFromCountSingle` | Base/Console.cs:167-177 | With one entry and the cursor at the count, the cursor wraps to 0 and the first Up recalls that entry. |
| `Console.UpOnEmptyHistoryFaults` | Base/Console.cs:167-177 | Up on an empty history throws `ArgumentOutOfRangeException`, keeping the cursor assignments made before the throw and nothing else. |
| `Console.ReturnAppendsSuggestion` | Base/Console.cs:147-153 | Return on a selected suggestion appends it to the command as it is and clears the selection. Nothing runs, and nothing else changes except the suggestion list, refreshed when the command changed. |
| `Console.ReturnOnBlankQuiet` | Base/Console.cs:145-159 | Return with no selection on a command that is only white space changes nothing and runs nothing. |
| `Console.ReturnRunsCommand` | Base/Console.cs:154-159 | Return with no selection runs the command, recording it. The result is exactly the run's step, with the text field emptied unless the command threw, so whatever the command did (a bind setting its slot, say) is kept. |
| `Console.StaleSelectionFaults` | Base/Console.cs:148-150 | A selection beyond the list makes Return throw. |
| `Console.EditLeavesStaleSelection` | Base/Console.cs:371-375 | With nothing registered, any edit empties the list but keeps the selection, and the next Return throws. |
| `Console.CloseKeepsSelection` | Base/Console.cs:84-88 | Close drops the list but not the selection index. |
| `Console.RunCommandWf` | Base/Console.cs:243-312 | Run_Command keeps the invariant: ten slots, a valid registry, cursors at -1 or above, no blank history entry. |
| `Console.RecordedNotBlank` | Base/Console.cs:246-254 | A recorded command is never blank. |
| `Console.RunBindingWf` | Base/Console.cs:108-112 | A digit key keeps the invariant. |
| `Console.OpenWf` | Base/Console.cs:76-81 | Open keeps the invariant. |
| `Console.LoadWf` | Base/Console.cs:465-473 | Load keeps the invariant. |
| `Console.StartWf` | Base/Console.cs:65-73 | Start establishes the invariant from ten configured slots. |
| `Console.KeyPressWf` | Base/Console.cs:127-190 | Every key press keeps the invariant. |
| `Console.SaveLoadRoundTrip` | Base/Console.cs:454-473 | Loading the saved file into an empty history gives back exactly the saved window, with the cursor at its end. |
| `Text.JoinSplit` | Helpers/MethodHelper.cs:124 | Joining the pieces of a split with the same separator gives the text back. |
| `Text.SplitJoin` | Helpers/MethodHelper.cs:133 | Splitting a join gives the parts back when no part holds the separator's first character. |
| `Text.SplitPiecesFree` | Helpers/MethodHelper.cs:129 | No piece of a split holds the separator. |
| `Text.SplitAround` | Helpers/MethodHelper.cs:129 | With a one-character separator, splitting around an occurrence of it splits both sides independently. |
| `Text.ReplaceIsJoinOfSplit` | Base/Console.cs:432 | `Replace` substitutes every non-overlapping occurrence, scanning left to right. This is the join of the split with the replacement. |
| `Text.TrimIsSlice` | Base/Console.cs:246 | `Trim` is a slice of the text with only white space cut on either side. |
| `Text.TrimEmpty` | Base/Console.cs:249 | A text trims to nothing exactly when it is all white space. |
| `Text.TrimIdempotent` | Base/Console.cs:246 | Trimming twice is trimming once. |

## Findings

| source | as written | input that shows it | evidently intended | confidence | as-written member | corrected member |
|---|---|---|---|---|---|---|
| Helpers/MethodHelper.cs:65-69 | The table placeholder is used only when `pi.DefaultValue == null`. Reflection reports a parameter that has no default as `DBNull.Value`, which is not null, so such a parameter gets DBNull. | A method `Spawn(int[] values)` called with no items: `values` receives DBNull instead of an empty `int[]`, and the call then fails inside reflection. | A parameter without a default gets the table's placeholder for its type, as the comment on line 64 says. | medium, not executed | `MethodHelper.AsWrittenSkipsTable` (on `MethodHelper.PlaceholderAsWritten`) | `MethodHelper.PlaceholderUsesTable` (on `MethodHelper.Placeholder`, which the rest of the model uses) |

## Left out

- Rendering and layout: the GUI boxes, scroll views, rich-text colouring
  (`Consolify`, `WriteToConsole`, `GetParametersString`), cursor moves, and
  the debug-render toggle that sends `RenderDebug` to every object each frame.
- Unity's event plumbing: `GetPressed` and its repeat suppression, focus, and
  `Input.GetKeyDown`. A key press is an input of `KeyPress`, and a digit key
  is `RunBinding`. The text field's own editing is `Edit`.
- Reflection. Objects, components and methods are data. A method's behaviour
  is the `host` parameter. Argument type mismatches inside `MethodInfo.Invoke`
  are part of what `host` decides.
- `GameObject.SendMessage` is recorded as a request (`Report.sendMessage`),
  not performed.
- File I/O. A file is its sequence of lines. `Save` is the lines it writes.
  I/O errors are not modelled.
- Floating point. `Single.Parse` is modelled on plain decimal numerals with
  an exact value. Exponents, thousands separators, culture and rounding to
  32 bits are left out.
- Culture. String comparisons are ordinal, and `ToLower` changes only ASCII
  letters.
- The regular expression in `GetSubStrings` is modelled as the scan it
  performs for escaped literal delimiters. Other patterns are not needed by
  the console.
- An empty separator or group delimiter is not modelled. .NET splits on white
  space for an empty separator, and the console always passes a space and
  quotes.
- Convert.ParseInt32: the contract states only the 32-bit range. The
  accepted syntax (white space, sign, digits) is given by its definition and
  by the round trip `Convert.ParseShowInt`.
- Convert.ChangeType: for integers, floats and booleans the contract states
  only the result type and the unsupported targets. Parsing details are given
  by the parse functions and their round trips (`Convert.ParseShowInt`,
  `Convert.ParseFloatInt`, `Convert.ParseDecimal`).
- Convert.ChangeType: the other IConvertible targets of .NET (`double`,
  `long`, `char`, `decimal` and the like) and `object` are not parameter types
  of the model. A console method with such a parameter is outside the model;
  `Other` stands only for types that cannot be produced from a string.
- Tokenizer.CommandSplit: the contract on the function is only that there
  is at least one token. What the tokens are is stated for a command without
  a matched pair of quotes (`Tokenizer.CommandSplitPlain`) and for a command
  with exactly one quoted group: anywhere, as the restored split of the
  protected text (`Tokenizer.CommandSplitOneGroup`), and as plain tokens when
  the group has no underscore and sits between spaces
  (`Tokenizer.CommandSplitGroup`) or at the end (`Tokenizer.CommandSplitGroupLast`).
  The tokens of a command with several quoted groups are not stated.
- Console.KeyPress: the function's own contract relates every other key to
  its branch (`Console.KeyBranch`). What each branch does, the fields it
  leaves alone included, is stated by the per-key lemmas: Return on a
  selection, a stale selection, a blank command and a runnable command; Left
  and Right; Down; Up on a non-empty and on an empty history; and a key with no
  branch. Up with a history cursor below -1 and Down with a selection below -1
  are not stated, since the console invariant `Wf` rules both out.
- Console.SaveLoadRoundTrip: a file is modelled as its sequence of lines, so
  the round trip holds for every history. In .NET, an entry holding a line
  break would be written by `WriteLine` and read back by `ReadLine` as two
  lines. Commands come from a one-line `GUI.TextField`
  (Base/Console.cs:205), but the model does not exclude such an entry.
- Console.Rem: only the range of the result is stated, not its exact value.
- StringHelper.GetSubStrings: the contract states what a group cannot
  contain. The exact groups are stated only for the one-group shape
  (`Tokenizer.OneGroup`) and for texts with at most one quote.
