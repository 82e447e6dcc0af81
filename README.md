# UImGui console core, modelled in Dafny

This project models the core of a developer console for Unity that is drawn with Dear ImGui. The console keeps:

- a registry of **commands**: a dictionary from a key to a command. Each command `name` is registered beside a help entry under the key `help <name>`;
- a registry of **scripts**: named files of command lines;
- two **autocomplete** ternary search trees, one for command names and one for variable and script names;
- a **command history** ring buffer;
- the list of **console items**: typed, prefixed text entries shown in the window.

An entered line follows this path:

1. It is echoed as a Log entry.
2. It is pushed to the history unless it is blank.
3. It is split on spaces. The dictionary key is the first token. For `help`, `set` and `get`, the key is instead the whole line, rejoined and trimmed.
4. The command found under the key runs. An exception in its handler becomes an Error entry that names the command.

The built-in `help` command lists fixed lines and then the help of every other command, in dictionary order. It skips keys that start with `set`, `get` or `help`. A key shorter than four characters, other than `set` and `get`, makes the listing throw (a command named `cls` does), so `help` then logs a range error.

Modules, one per source file:

- `TernaryTree` (tst.dfy): the ternary search tree as a value. It holds the specification functions (`Has`, `Insert`, `Remove`, `Suggestions`, `PartialSuggestions`, and `SearchAsWritten`, which is the walk as the source writes it) and the lemmas that state what they promise.
- `AutoComplete` (autocomplete.dfy): the autocomplete tree as a class that updates its nodes in place. Nodes live in an arena of node records linked by index. Each method is proved against the function of the same name in `TernaryTree`.
- `History` (history.dfy): the ring buffer as a class over an array. The unsigned `record - 1` of the source wraps explicitly when the record is 0.
- `Items` (items.dfy): `ItemType`, `ConsoleItem` and the `ItemLog` class.
- `Commands` (command.dfy): a command, its help text and `Invoke`. A handler is modelled by the outcome it has on each input.
- `Dispatch` (dispatch.dfy): the response to one line, as functions of the command map and its enumeration order, with lemmas about each kind of line.
- `Console` (console.dfy): the `ConsoleSystem` class, with its registry invariant and the methods that register, unregister and run. It is proved against `Dispatch`.
- `Text` (text.dfy): `Split`, `Join` and `Trim` on strings, as the .NET string methods behave on strings whose characters all lie in the Basic Multilingual Plane (U+0000 to U+FFFF, surrogates excluded); see "Left out".

## Model

| member | source | states |
|---|---|---|
| TernaryTree.InsertHas | Runtime/AutoComplete.cs:90-128 | after inserting a non-empty word, exactly the old words and that word are stored |
| TernaryTree.InsertWithin | Runtime/AutoComplete.cs:96-127 | insertion keeps the search-tree ordering of less/greater subtrees |
| TernaryTree.InsertNodeCount | Runtime/AutoComplete.cs:98-102 | insertion adds exactly the nodes missing along the word's path, and no others |
| TernaryTree.HasNothingMissing | Runtime/AutoComplete.cs:96-127 | inserting a word already stored creates no node |
| TernaryTree.RemoveHas | Runtime/AutoComplete.cs:301-344 | after removing a word, exactly the old words other than it are stored |
| TernaryTree.RemoveAbsent | Runtime/AutoComplete.cs:301-344 | removing a word that is not stored changes nothing and prunes nothing |
| TernaryTree.RemovePrunable | Runtime/AutoComplete.cs:306-313 | a subtree reported prunable is one childless, unmarked node that stores no word |
| TernaryTree.RemoveWithin | Runtime/AutoComplete.cs:301-344 | removal keeps the search-tree ordering |
| TernaryTree.RemoveNodeCount | Runtime/AutoComplete.cs:334-338 | removal never adds nodes |
| TernaryTree.SuggestionsAuxSorted | Runtime/AutoComplete.cs:266-293 | the in-order walk gives strictly increasing strings, each of which extends the buffer |
| TernaryTree.SuggestionsAuxHas | Runtime/AutoComplete.cs:266-293 | the walk collects exactly the buffer extended by each word stored below |
| TernaryTree.LocateHas | Runtime/AutoComplete.cs:144-170 | the node the prefix walk stops on is marked exactly when the prefix is stored, and longer words below it are exactly the words extending the prefix |
| TernaryTree.SuggestionsSpec | Runtime/AutoComplete.cs:144-180 | the suggestions are sorted and are exactly the stored words that strictly extend the prefix, and are empty when the prefix itself is stored |
| TernaryTree.ExtensionCompatible | Runtime/AutoComplete.cs:221-236 | the partial completion never commits to a character that some word below lacks |
| TernaryTree.PartialSuggestionsSpec | Runtime/AutoComplete.cs:188-258 | the completed prefix extends the prefix, the options equal the plain suggestions, and every option is compatible with the completion |
| TernaryTree.SearchAsWrittenSpec | Runtime/AutoComplete.cs:54-84 | the search as written reads past the end of the word exactly when the word is empty on a non-empty tree, or ends on an unmarked node with a middle child; otherwise it answers membership |
| TernaryTree.SearchReadsPastEnd | Runtime/AutoComplete.cs:62 | with only "help" stored, searching "he" reads past the end of the word although the answer is false |
| AutoComplete.AutoComplete.constructor | Runtime/AutoComplete.cs:39 | a new tree stores nothing and counts zero nodes and words |
| AutoComplete.AutoComplete.FromItems | Runtime/AutoComplete.cs:41-47 | the tree holds the items inserted in turn, with exactly as many nodes as the tree has |
| AutoComplete.AutoComplete.SearchAsWritten | Runtime/AutoComplete.cs:54-84 | the pointer walk gives what the search function gives: found, not found, or a read past the end |
| AutoComplete.AutoComplete.Search | Runtime/AutoComplete.cs:54-84 | the guarded search answers exactly whether the word is stored |
| AutoComplete.AutoComplete.Insert | Runtime/AutoComplete.cs:90-128 | the tree becomes the insertion of the word; Count grows by one unless the word was already marked; Size grows by the nodes created. The loop's pieces are the helper methods Allocate (a new node where the pointer is null, lines 98-102), SetWord (marking the last node, lines 111-118) and Step (one turn of the walk, lines 104-126) |
| AutoComplete.AutoComplete.Remove | Runtime/AutoComplete.cs:134-137 | the tree becomes the removal of the word; Size and Count stay |
| AutoComplete.AutoComplete.RemoveAux | Runtime/AutoComplete.cs:301-344 | each recursive step unmarks or prunes the subtree under the link as the removal function does, and leaves the rest of the arena alone |
| AutoComplete.AutoComplete.SuggestionsAux | Runtime/AutoComplete.cs:266-293 | the options list grows by the in-order walk of the subtree |
| AutoComplete.AutoComplete.Suggestions | Runtime/AutoComplete.cs:144-180 | the options list grows by the sorted suggestions for the prefix |
| AutoComplete.AutoComplete.Complete | Runtime/AutoComplete.cs:221-236 | the prefix grows by the chain of single middle children below the located node |
| AutoComplete.AutoComplete.SuggestionsPartial | Runtime/AutoComplete.cs:201-258 | the prefix is completed only when asked, and the options grow by the suggestions for the original prefix |
| AutoComplete.AutoComplete.PartialSuggestions | Runtime/AutoComplete.cs:188-193 | returns the partially completed prefix and the suggestions |
| History.CommandHistory.constructor | Runtime/CommandHistory.cs:15-20 | a history of the given capacity that holds no line |
| History.CommandHistory.Size | Runtime/CommandHistory.cs:9 | the size is the smaller of the lines written and the capacity |
| History.CommandHistory.At | Runtime/CommandHistory.cs:13 | indexing gives the slot's line inside the capacity and a range failure outside it |
| History.CommandHistory.PushBack | Runtime/CommandHistory.cs:22-25 | the line is written to the slot its position selects, and the last `capacity` lines all stay readable |
| History.CommandHistory.NewIndex | Runtime/CommandHistory.cs:27-30 | the newest slot is always inside the buffer, including after the unsigned wrap at record 0 |
| History.CommandHistory.GetNew | Runtime/CommandHistory.cs:32-35 | once a line has been written, gives the line written last |
| History.CommandHistory.OldIndex | Runtime/CommandHistory.cs:37-47 | the oldest slot is 0 until the buffer wraps, and is always the slot of the oldest retained line |
| History.CommandHistory.GetOld | Runtime/CommandHistory.cs:49-52 | once a line has been written, gives the oldest line still retained |
| History.CommandHistory.Clear | Runtime/CommandHistory.cs:54-57 | the history is empty again and the slots keep their contents |
| History.CommandHistory.RetainedAt | Runtime/CommandHistory.cs:37-52 | the k-th retained line sits k slots after the oldest slot, modulo the capacity |
| History.CommandHistory.NewAfterOld | Runtime/CommandHistory.cs:27-47 | the newest slot is `Size - 1` slots after the oldest one, modulo the capacity |
| Items.ConsoleItem.Get | Runtime/ConsoleItem.cs:41-58 | the shown text is the kind's prefix ("> ", a tab, "\t[WARNING]: ", "[ERROR]: " or nothing for Info) followed by the data, so the data can be read back after the prefix; an entry of kind None shows nothing |
| Items.ConsoleItem.Append | Runtime/ConsoleItem.cs:35-39 | appending keeps the kind and extends the data by the text |
| Items.GetAppend | Runtime/ConsoleItem.cs:35-58 | showing an appended entry shows the old entry followed by the appended text |
| Items.GetInjective | Runtime/ConsoleItem.cs:41-58 | for one visible kind, the shown texts are equal exactly when the data are |
| Items.ItemLog.constructor | Runtime/ConsoleItem.cs:64 | the log starts empty |
| Items.ItemLog.Clear | Runtime/ConsoleItem.cs:66-69 | the log is empty afterwards |
| Items.ItemLog.Log | Runtime/ConsoleItem.cs:71-75 | one blank entry of the kind is added at the end |
| Items.ItemLog.AppendAsWritten | Runtime/ConsoleItem.cs:77-81 | the stored entries are left as they were |
| Items.ItemLog.Append | Runtime/ConsoleItem.cs:77-81 | the stored last entry grows by the text and the others stay |
| Items.AppendLast | Runtime/ConsoleItem.cs:77-81 | only the last entry changes; its kind stays and its data grow by the text |
| Items.AppendLost | Runtime/ConsoleItem.cs:77-81 | the as-written append differs from the intended one on every non-empty text |
| Console.RegisteredArguments | Runtime/ConsoleSystem.cs:194-202 | a registered command counts the argument names it was registered with, and its help entry, registered with none, counts 0 |
| Commands.HelpShape | Runtime/Command.cs:64-67 | the help text is the name, a space, the separator line, the description and two line breaks, so the description can be read back |
| Commands.HelpDistinguishes | Runtime/Command.cs:64-67 | two commands of one name have equal help exactly when their descriptions are equal |
| Commands.InvokeShows | Runtime/Command.cs:48-62 | Invoke shows an entry exactly when the handler threw; that entry is an Error entry made of the command name, ": " and the message |
| Commands.InvokeKeepsMessage | Runtime/Command.cs:55-59 | different failure messages give different entries |
| Text.Split | Runtime/ConsoleSystem.cs:323 | splitting gives at least one piece, exactly one when the separator is absent, and no piece contains it |
| Text.JoinSplit | Runtime/ConsoleSystem.cs:339 | joining the pieces of a split gives back the string |
| Text.SplitJoin | Runtime/ConsoleSystem.cs:323 | splitting a join of separator-free pieces gives back the pieces |
| Text.TrimStart | Runtime/ConsoleSystem.cs:358 | the result is a suffix that starts with a non-white character, and only white space was dropped |
| Text.TrimEnd | Runtime/ConsoleSystem.cs:358 | the result is a prefix that ends with a non-white character, and only white space was dropped |
| Text.TrimEnds | Runtime/ConsoleSystem.cs:358 | a trimmed string is empty or has non-white characters at both ends |
| Text.TrimEmpty | Runtime/ConsoleSystem.cs:319 | trimming gives the empty string exactly when the string is all white space |
| Text.TrimKeeps | Runtime/ConsoleSystem.cs:358 | trimming leaves a string with non-white ends unchanged |
| Dispatch.ShownKeys | Runtime/ConsoleSystem.cs:81-92 | the listed keys are exactly the keys that pass the set/get/help filter, each from the dictionary, and never more than the dictionary holds |
| Dispatch.ListingOutcome | Runtime/ConsoleSystem.cs:81-92 | the help listing ends normally exactly when every key is long enough for its tests, and otherwise fails with the range message |
| Dispatch.ListingShows | Runtime/ConsoleSystem.cs:81-92 | a listing that ends normally logs the help of exactly the shown keys, in dictionary order |
| Dispatch.ArgumentsAfterSpace | Runtime/ConsoleSystem.cs:369 | the handler receives the text after the first space verbatim, or nothing when there is no space |
| Dispatch.DispatchKeyWhole | Runtime/ConsoleSystem.cs:329-358 | a `help` line and a spaced `set`/`get` line are looked up under the whole line trimmed; `set` or `get` alone has no key; other lines use their first token trimmed |
| Dispatch.HelpDispatch | Runtime/ConsoleSystem.cs:336-340 | the line `help` is looked up under `help` and its handler receives nothing |
| Dispatch.HelpKeyDispatch | Runtime/ConsoleSystem.cs:336-358 | a `help <name>` line is looked up under itself |
| Dispatch.EchoedShape | Runtime/ConsoleSystem.cs:120-129 | an empty line adds nothing; any other line is echoed first, and a blank line adds only the echo |
| Dispatch.RespondRefused | Runtime/ConsoleSystem.cs:343-364 | a missing key, or `set`/`get` without a name, adds exactly one Error entry with the matching message |
| Dispatch.RespondUser | Runtime/ConsoleSystem.cs:366-379 | a program handler receives the text after the first space; nothing more is shown when it returns, and one Error entry when it throws |
| Dispatch.RespondHelp | Runtime/ConsoleSystem.cs:73-93 | `help` shows the fixed lines, the help of every shown command, and an Error entry when a short key stopped the listing |
| Dispatch.RespondHelpFor | Runtime/ConsoleSystem.cs:196-202 | `help <name>` shows that command's help text and nothing else |
| Dispatch.ScriptPushes | Runtime/ConsoleSystem.cs:157-160 | a script run pushes at most one line per script line, and only lines of the script that are not blank |
| Console.Reloaded | Runtime/ConsoleSystem.cs:143-154 | a script with lines is kept as it is; an empty one is loaded, and a failed load gives exactly one Error entry |
| Console.Without | Runtime/ConsoleSystem.cs:252-253 | the enumeration order loses exactly the removed keys |
| Console.WithoutDistinct | Runtime/ConsoleSystem.cs:252-253 | removing keys keeps the order free of repeats |
| Console.RegistryListed | Runtime/ConsoleSystem.cs:81 | every key the dictionary enumerates is registered |
| Console.RegistryAdd | Runtime/ConsoleSystem.cs:194-202 | registering a name without spaces and its help entry keeps the registry invariant |
| Console.RegistryRemove | Runtime/ConsoleSystem.cs:247-254 | removing a name and its help entry keeps the registry invariant |
| Console.RegistryRemoveSpaced | Runtime/ConsoleSystem.cs:267-272 | removing the `set`/`get` keys of a variable keeps the registry invariant |
| Console.BuiltinWords | Runtime/ConsoleSystem.cs:96-97 | after the constructor, the command tree holds exactly help, set and get |
| Console.ConsoleSystem.constructor | Runtime/ConsoleSystem.cs:64-98 | a console with only `help` and `help help` registered, help/set/get in the command tree, help in the variable tree, and empty items, scripts and history |
| Console.ConsoleSystem.RegisterBuiltins | Runtime/ConsoleSystem.cs:73-97 | the constructor's registrations on the empty console |
| Console.ConsoleSystem.Log | Runtime/ConsoleSystem.cs:100-103 | one entry of the kind and message is added at the end |
| Console.ConsoleSystem.RegisterCommand | Runtime/ConsoleSystem.cs:170-203 | a duplicate or a spaced name throws and changes nothing; an empty name logs an error; otherwise the command and its help entry are added, the command counting the argument names given and the help entry none, and the name enters both trees |
| Console.ConsoleSystem.UnregisterCommand | Runtime/ConsoleSystem.cs:238-255 | when both the name and its help key are registered, both are removed from the map and the name leaves both trees; otherwise nothing changes |
| Console.ConsoleSystem.UnregisterVariable | Runtime/ConsoleSystem.cs:257-273 | when both the `set` and the `get` key are registered, both go and the name leaves the variable tree; otherwise nothing changes |
| Console.ConsoleSystem.DropVariable | Runtime/ConsoleSystem.cs:269-271 | the two keys leave the map and the name leaves the variable tree |
| Console.ConsoleSystem.RegisterScript | Runtime/ConsoleSystem.cs:221-232 | a duplicate name or a failed load throws and changes nothing; otherwise the loaded script is added and its name enters the variable tree |
| Console.ConsoleSystem.UnregisterScript | Runtime/ConsoleSystem.cs:279-291 | a registered script is removed together with its name in the variable tree; otherwise nothing changes |
| Console.ConsoleSystem.ListCommands | Runtime/ConsoleSystem.cs:76-92 | the loop adds the fixed lines and the listing's entries, and ends as the listing does |
| Console.ConsoleSystem.Call | Runtime/Command.cs:69-76 | running a handler adds what it logs and returns how it ended |
| Console.ConsoleSystem.ResolveKey | Runtime/ConsoleSystem.cs:329-358 | the key computed from the tokens is the line's dispatch key |
| Console.ConsoleSystem.Dispatch | Runtime/ConsoleSystem.cs:360-379 | the entries added are the response to the line |
| Console.ConsoleSystem.ParseCommandLine | Runtime/ConsoleSystem.cs:316-380 | a blank line changes nothing; any other line is pushed to the history and its response is added |
| Console.ConsoleSystem.RunCommand | Runtime/ConsoleSystem.cs:120-129 | the echo and the response are added, and a non-blank line is pushed to the history |
| Console.ConsoleSystem.RunScript | Runtime/ConsoleSystem.cs:131-161 | a missing script gives one Error entry; otherwise the start entry, any load failure, and the entries of every script line in order are added, and the non-blank lines are pushed |
| Console.ConsoleSystem.RunLines | Runtime/ConsoleSystem.cs:157-160 | running the lines in turn adds their entries in order and pushes their non-blank lines |

## Left out

- Time stamps of console items (`DateTime.Now`): the clock is not modelled.
- Drawing the window with Dear ImGui, the Unity command builder and the `CommandsManager` that loads commands from assemblies: these are not part of this model.
- `RegisterVariable` and `RegisterVariableAux`: the source leaves both as stubs. Their effect on the `registerCommandSuggestion` flag is not modelled either. The model always inserts registered names into the trees, which is what the flag's value is outside a failed `RegisterVariableAux`.
- Script file reading: `Script.Load` is replaced by a `LoadResult` parameter holding the lines or the failure message. `Script.Reload` and `Script.Unload` are not used by the console and are left out. The source never creates `Script.Data`, so a load from a file would fail on a null list. The model gives the script the lines it loads instead.
- Dictionary enumeration order is the `order` sequence: insertion order, with removed keys dropped. .NET may reuse the slot of a removed key for a later insertion, and that reordering is not modelled.
- Handlers supplied by the program are modelled as pure functions from their input to an outcome. A handler that itself changes the console is not modelled.
- AutoComplete.AutoComplete.Remove: requires a non-empty word. For the empty word the source reads `word[0]` on a non-empty tree and throws, and does nothing on an empty tree. The console only removes non-empty names.
- AutoComplete.AutoComplete.Suggestions: requires a non-empty prefix. For the empty prefix the source reads `prefix[0]` on a non-empty tree and throws, and adds nothing on an empty tree.
- AutoComplete.AutoComplete.SuggestionsPartial: requires a non-empty prefix, for the same reason as `Suggestions`.
- AutoComplete.AutoComplete.PartialSuggestions: requires a non-empty prefix, for the same reason as `Suggestions`.
- History.CommandHistory.constructor: requires a positive capacity. With capacity 0 every use of the source's buffer divides by zero. The console always uses 100.
- History.CommandHistory: `record` is unbounded, so the 32-bit wrap of `record++` after 2^32 lines is not modelled. Only the wrap of `record - 1` at 0 is. Slots never written read as the empty string, where the source holds null.
- Strings are sequences of Unicode scalar values, where .NET strings are sequences of UTF-16 code units. For characters outside the Basic Multilingual Plane (U+10000 and above), string lengths, slices such as the help listing's `Key[..3]` and `Key[..4]`, the tree's node counts, the order of suggestions and the points where a partial completion may stop all differ from the source: .NET stores such a character as two surrogate code units, one tree node each. For strings within the Basic Multilingual Plane the two agree.
- AutoComplete.AutoComplete: `Size` and `Count` are unbounded, so 32-bit overflow is not modelled.
- Items.ItemLog.Append: requires a non-empty log. On an empty list the source's `Items[^1]` throws an out-of-range exception, and that error path is not modelled.
- Items.ItemLog.AppendAsWritten: requires a non-empty log, for the same reason as `Append`.
- Items.ItemLog.constructor: the source never creates the `Items` list, so every use of a fresh `ItemLog` would fail on null. The model starts from an empty list.
- Console.ConsoleSystem.RegisterCommand: an exception is returned as a `Status` value rather than thrown.
- Exception messages of the .NET runtime (a range read, a missing dictionary key, a null handler) are modelled as fixed strings.

## Findings

| source | as written | input that shows it | evidently intended | confidence | as-written member | corrected member |
|---|---|---|---|---|---|---|
| Runtime/AutoComplete.cs:60-81 | the search loop reads `word[index]` at every node and never checks that `index` is still inside the word | a tree holding only "help", searched for "he": the walk reaches the node for 'e', moves to its middle child and reads `word[2]` | answer false, because "he" is not stored | not executed | TernaryTree.SearchReadsPastEnd | AutoComplete.AutoComplete.Search |
| Runtime/ConsoleItem.cs:77-81 | `Items[^1].Append(data)` calls `Append` on a copy of the struct that the list returns, so the stored entry is never extended | a log holding one Log entry "a", then `Append("b")`: the entry still shows "\ta" | the last entry shows "\tab" | not executed | Items.AppendLost | Items.ItemLog.Append |
