# ShellConfigManager, modelled in Dafny

ShellConfigManager is a macOS application that lists the environment
variables set in a user's bash, zsh and fish configuration files and lets
the user add, edit and delete them. This project models the core of that
application and proves properties of the model:

- the **parser**, which turns a configuration file's text into one record
  per `NAME=value` line (optionally `export`ed). It strips quotes and
  splits off inline comments (`parser.dfy`);
- the **editor**, which appends, inserts, deletes and replaces lines of a
  configuration file and renders an item back to a line of text
  (`editor.dfy`). `roundtrip.dfy` proves what the parser makes of the line
  the editor writes for a variable;
- the **records**: an item (`EnvVariable`) with its derived properties, a
  file (`ConfigFile`) with its display path, and a shell (`model.dfy`);
- the **manager service**. It finds each shell's files under the home
  directory, parses them and sorts them: existing files first, then by
  name. It also answers queries over all variables (`manager.dfy`). The
  search and the sorted list of distinct names live in `search.dfy`;
- the **view models** behind the variable list (search filtering and
  counts) and the shell sidebar (which shells are expanded)
  (`viewmodels.dfy`);
- the **add and edit sheets**: when a sheet may be submitted and which
  item it builds (`sheets.dfy`).

`text.dfy` holds the string helpers the source takes from its standard
library: trimming spaces and tabs, prefix and suffix tests, substring
search, ASCII case mapping, splitting and joining on a character,
character-code order and substring replacement.

The file system is a value in this model:

- a `FileRead` is what reading a file gave: its text, or "not found", "not
  readable" or "not valid UTF-8";
- a `WriteAccess` is what writing will do;
- the manager sees the disk as a map from path to file.

The home directory is a parameter. Shell identities (UUIDs in the source)
are natural numbers handed out by a counter in the manager.

Lines are split on `'\n'`, in both the parser and the editor. Whitespace
means space and tab. Letters and case mapping are ASCII.

The source's `EnvVariable` has no field for the kind of item, though the
editor and the sheets use one (`item.type`). The model adds a six-case
`ItemKind` as the last field of `EnvVariable`. The parser gives every
record the kind `EnvironmentVariable`.

## Model

| member | source | states |
|---|---|---|
| `Text.JoinSplit` | ShellConfigManager/Services/ConfigFileEditor.swift:35-42 | Joining the `'\n'`-split lines of a text with `'\n'` gives the text back exactly, so an edit that leaves a line alone leaves its text alone |
| `Text.SplitJoinParts` | ShellConfigManager/Services/ConfigFileEditor.swift:42 | Splitting the join of at least one line, none holding `'\n'`, gives those lines back |
| `Text.TrimSpec` | ShellConfigManager/Services/ConfigFileParser.swift:31 | The trimmed text has no space or tab at either end, and it is empty exactly when the text is all spaces and tabs |
| `Model.EnvVariableDefaults` | ShellConfigManager/Models/EnvVariable.swift:35-43 | An item built from name, value and line number has no comment, is exported, is not conditional and has an empty raw line (and is a plain variable) |
| `Model.IsPathValueByChars` | ShellConfigManager/Models/EnvVariable.swift:15-17 | A value looks like a path iff it holds `/` and it starts with `/` or `~` or holds `:` |
| `Model.IsPathVariableIsSuffixTest` | ShellConfigManager/Models/EnvVariable.swift:20-22 | The PATH-variable test is exactly "the upper-cased name ends with PATH"; the `== "PATH"` test adds nothing |
| `Model.PathComponents` | ShellConfigManager/Models/EnvVariable.swift:25-28 | The parts are absent iff the item is not a PATH variable; no part is empty or holds `:` |
| `Model.PathComponentsJoin` | ShellConfigManager/Models/EnvVariable.swift:27 | For a PATH variable whose value has no leading, trailing or doubled `:`, joining the parts with `:` gives the value back |
| `Model.ContainsVariableRefsIsDollar` | ShellConfigManager/Models/EnvVariable.swift:31-33 | The value references a variable iff it holds `$`; the `${` test adds nothing |
| `Model.ConfigFileNames` | ShellConfigManager/Models/Shell.swift:19-28 | Every shell probes at least one file name; no name is empty or holds `/` |
| `Model.ConfigFileDefaults` | ShellConfigManager/Models/ConfigFile.swift:29-36 | A file built from path and shell has no variables and no date, exists, and has no parse error |
| `Model.LastComponent` | ShellConfigManager/Models/ConfigFile.swift:13-15 | The file name holds no `/`, ends the path, and is the whole path when the path has no `/` |
| `Model.LastComponentAfterSlash` | ShellConfigManager/Models/ConfigFile.swift:14 | The file name of `dir + "/" + name` is `name` when `name` has no `/` |
| `Model.DisplayPath` | ShellConfigManager/Models/ConfigFile.swift:21-27 | A path under home shows as `~` followed by the rest of the path (length `|path| - |home| + 1`); any other path shows unchanged |
| `Model.DisplayPathIsCharacterPrefix` | ShellConfigManager/Models/ConfigFile.swift:23 | The home test is on characters, not path components: home `/Users/a` shows `/Users/ab/x` as `~b/x` |
| `Parser.RemoveQuotes` | ShellConfigManager/Services/ConfigFileParser.swift:98-117 | A value wrapped in neither double nor single quotes is returned unchanged |
| `Parser.UnescapeWithoutBackslash` | ShellConfigManager/Services/ConfigFileParser.swift:104-108 | The four unescapes change nothing in a text without a backslash |
| `Parser.RemoveQuotesDouble` | ShellConfigManager/Services/ConfigFileParser.swift:102-109 | A double-quoted value without backslashes, not single-quoted inside, loses exactly its quotes |
| `Parser.RemoveQuotesSingle` | ShellConfigManager/Services/ConfigFileParser.swift:112-114 | A single-quoted value loses exactly its quotes, with no unescaping |
| `Text.ReplaceJoin` | ShellConfigManager/Services/ConfigFileParser.swift:105-108 | `replacingOccurrences`: parts free of the pattern's first character, separated by the pattern, come out separated by the replacement; every occurrence is replaced and the text between is kept |
| `Parser.UnescapeEscape` | ShellConfigManager/Services/ConfigFileParser.swift:104-108 | Each of `\"`, `\$`, `\n`, `\t` after backslash-free text becomes `"`, `$`, newline, tab, and unescaping carries on after it |
| `Parser.UnescapeBackslashBeforeN` | ShellConfigManager/Services/ConfigFileParser.swift:104-108 | Because the four replacements run in turn and an escaped backslash is not recognised, a backslash, a backslash and `n` become a backslash and a newline, and unescaping carries on after them |
| `Parser.RemoveQuotesUnescapes` | ShellConfigManager/Services/ConfigFileParser.swift:101-114 | A double-quoted value loses its quotes and is unescaped, unless the result is single-quoted |
| `Parser.RemoveQuotesEscape` | ShellConfigManager/Services/ConfigFileParser.swift:101-114 | A double-quoted value holding one escape in backslash-free text loses its quotes and has the escape replaced by its character |
| `Parser.RemoveQuotesNested` | ShellConfigManager/Services/ConfigFileParser.swift:101-114 | The single-quote check runs on the result of the double-quote check, so `"'x'"` becomes `x` |
| `Parser.ExtractCommentSpec` | ShellConfigManager/Services/ConfigFileParser.swift:120-138 | With no `#` nothing changes. A split happens only at the first `#` with an even number of quotes before it. The value is then the trimmed text before it, holding no `#`. The comment is the trimmed text after it, or absent when that is empty |
| `Parser.ExtractCommentOddQuotes` | ShellConfigManager/Services/ConfigFileParser.swift:126-137 | With an odd number of quotes before the first `#`, the value is unchanged and no comment is found, whatever follows |
| `Parser.ExtractCommentSplits` | ShellConfigManager/Services/ConfigFileParser.swift:130-135 | With an even number of quotes before the first `#`, value and comment are the trimmed halves, and an empty comment is absent |
| `Parser.ExtractCommentQuotedHash` | ShellConfigManager/Services/ConfigFileParser.swift:122-137 | `"a#b" # note` yields no comment at all: one quote precedes the first `#` |
| `Parser.ParseLineSpec` | ShellConfigManager/Services/ConfigFileParser.swift:48-95 | A record has the given line number and raw line. Its name starts with a letter or `_`, holds no `=` and is trimmed. `isExport` holds iff the line starts with `export `. `isConditional` holds iff the rest starts with `if `, `case `, `while ` or `for `. No `=` after `export ` means no record |
| `Parser.ParseLineFirstEquals` | ShellConfigManager/Services/ConfigFileParser.swift:65-94 | Only the first `=` splits: the name is the trimmed text before it, and the value comes from the trimmed text after it, unquoted and with its comment split off |
| `Parser.ParseLineRejectsName` | ShellConfigManager/Services/ConfigFileParser.swift:74-78 | A name whose first character is not a letter or `_` gives no record |
| `Parser.ParseLineRejectsDigitStart` | ShellConfigManager/Services/ConfigFileParser.swift:75-77 | `1X=5` gives no record |
| `Parser.ParseLineExportWithoutAssignment` | ShellConfigManager/Services/ConfigFileParser.swift:66-68 | `export FOO` gives no record |
| `Parser.ParseLineAliasIsVariable` | ShellConfigManager/Services/ConfigFileParser.swift:71-94 | `alias NAME='cmd'` reads as a variable named `alias NAME` with value `cmd`, since only the name's first character is checked |
| `Parser.LineRecords` | ShellConfigManager/Services/ConfigFileParser.swift:29-41 | A line gives at most one record, only when its trimmed text is neither empty nor a `#` line. The record is the parsed trimmed line, with this line number and the untrimmed line as raw line |
| `Parser.LineRecordsCases` | ShellConfigManager/Services/ConfigFileParser.swift:34-41 | A skipped line gives nothing; any other line gives what parsing it gives |
| `Parser.ParseFile` | ShellConfigManager/Services/ConfigFileParser.swift:7-45 | A missing, unreadable or undecodable file gives no records and its message. Any text gives no error and the records of its lines in order |
| `Parser.CollectFromOwnLine` | ShellConfigManager/Services/ConfigFileParser.swift:29-42 | Every collected record carries a line number within the file, that line as its raw line, and is what that line gives |
| `Parser.CollectIncreasing` | ShellConfigManager/Services/ConfigFileParser.swift:29-42 | Collected line numbers strictly increase |
| `Parser.CollectComplete` | ShellConfigManager/Services/ConfigFileParser.swift:39-41 | The record of every line that gives one is collected |
| `Parser.LineRecordsNumbersByLine` | ShellConfigManager/Services/ConfigFileParser.swift:30 | Each line gives at most one record, numbered by that line |
| `Parser.ParseLinesIncreasing` | ShellConfigManager/Services/ConfigFileParser.swift:29-42 | The parsed records' line numbers lie between 1 and the number of lines, and strictly increase |
| `Parser.ParseLinesThenEmpty` | ShellConfigManager/Services/ConfigFileParser.swift:29-42 | Lines followed by one more line and an empty last part give the earlier records, then that line's records |
| `Parser.ParseLinesComplete` | ShellConfigManager/Services/ConfigFileParser.swift:39-40 | No line that gives a record is missed |
| `Editor.ErrorDescription` | ShellConfigManager/Services/ConfigFileEditor.swift:254-271 | Each fixed error has a non-empty message; `unknown` shows its own message |
| `Editor.ErrorDescriptionsDistinct` | ShellConfigManager/Services/ConfigFileEditor.swift:256-267 | The six fixed messages are pairwise different |
| `Editor.ReadFailure` | ShellConfigManager/Services/ConfigFileEditor.swift:194-210 | A missing file is `fileNotFound`, an unreadable one `permissionDenied`, an undecodable one `readError` |
| `Editor.WriteFile` | ShellConfigManager/Services/ConfigFileEditor.swift:212-224 | The content is written iff the file is writable and the write succeeds. Otherwise the result is `permissionDenied` or `writeError` |
| `Editor.GenerateLine` | ShellConfigManager/Services/ConfigFileEditor.swift:161-192 | The line is the item's text by kind, followed by `  # comment` exactly when the comment is present and non-empty |
| `Editor.GenerateLineOneLine` | ShellConfigManager/Services/ConfigFileEditor.swift:164-189 | Every kind except function renders without a newline when its fields have none |
| `Editor.GenerateLineFunction` | ShellConfigManager/Services/ConfigFileEditor.swift:174-175 | A function renders as three lines: `name() {`, the placeholder body, and `}` carrying the comment |
| `Editor.InsertAt` | ShellConfigManager/Services/ConfigFileEditor.swift:40 | The list grows by one, the new line sits at the index, earlier lines keep their places and later ones move down by one |
| `Editor.RemoveAt` | ShellConfigManager/Services/ConfigFileEditor.swift:62 | The list shrinks by one, earlier lines keep their places and later ones move up by one |
| `Editor.RemoveAtInsertAt` | ShellConfigManager/Services/ConfigFileEditor.swift:40 | Removing the line just inserted gives the list back |
| `Editor.AppendLine` | ShellConfigManager/Services/ConfigFileEditor.swift:17-21 | The result starts with the old text and ends with the line and `"\n"`. One `"\n"` is added between them, at the old text's end, exactly when the text is non-empty and lacks a final newline; nothing else is added |
| `Editor.AppendLineLines` | ShellConfigManager/Services/ConfigFileEditor.swift:13-21 | Read back as lines, an append keeps every earlier line in order, then the new line, then the empty part after the final newline |
| `Editor.AppendAfterNewline` | ShellConfigManager/Services/ConfigFileEditor.swift:17 | Text after a final newline splits into the earlier lines followed by the new text's lines |
| `Editor.AddConfigItem` | ShellConfigManager/Services/ConfigFileEditor.swift:11-30 | A failed read reports its error; otherwise the appended text is what is written |
| `Editor.InsertConfigItem` | ShellConfigManager/Services/ConfigFileEditor.swift:32-51 | A failed read reports its error. Otherwise the line is inserted at `min(lineNumber, count)` and the joined lines are written |
| `Editor.DeleteConfigItem` | ShellConfigManager/Services/ConfigFileEditor.swift:53-73 | A number outside 1..count is `invalidLineNumber` and nothing is written. Otherwise exactly line `lineNumber` is removed |
| `Editor.UpdateConfigItem` | ShellConfigManager/Services/ConfigFileEditor.swift:75-95 | Same bounds check and failure as delete. Otherwise only line `lineNumber` is replaced |
| `Editor.InsertReadBack` | ShellConfigManager/Services/ConfigFileEditor.swift:35-42 | The text written by an insert reads back as exactly the inserted line list |
| `Editor.DeleteReadBack` | ShellConfigManager/Services/ConfigFileEditor.swift:56-64 | The text written by a delete reads back as exactly the remaining lines (the empty text when none remain) |
| `Editor.UpdateReadBack` | ShellConfigManager/Services/ConfigFileEditor.swift:78-86 | The text written by an update reads back with the same number of lines, differing only at the replaced one |
| `Editor.InsertDescending` | ShellConfigManager/Services/ConfigFileEditor.swift:102 | Inserting into a non-increasing list keeps it non-increasing and adds exactly the new number |
| `Editor.SortDescending` | ShellConfigManager/Services/ConfigFileEditor.swift:102 | The numbers sorted largest first: non-increasing and a permutation of the input |
| `Editor.DeleteLine` | ShellConfigManager/Services/ConfigFileEditor.swift:105-108 | One loop step removes line `n` when it is within the current count, and skips it otherwise |
| `Editor.DeleteMultipleItems` | ShellConfigManager/Services/ConfigFileEditor.swift:97-120 | A failed read reports its error. Otherwise the written lines are those left after processing the numbers largest first, skipping any out of range |
| `Editor.RemoveThenWithout` | ShellConfigManager/Services/ConfigFileEditor.swift:108 | Removing line `d`, then lines all numbered below `d`, removes them all together |
| `Editor.DeleteDecreasing` | ShellConfigManager/Services/ConfigFileEditor.swift:104-109 | Strictly decreasing in-range numbers remove exactly their lines |
| `Editor.DeleteMultipleDistinct` | ShellConfigManager/Services/ConfigFileEditor.swift:102-109 | Distinct in-range numbers, in any order, remove exactly those lines |
| `Editor.DeleteOutOfRange` | ShellConfigManager/Services/ConfigFileEditor.swift:105-107 | Numbers none of which is in range change nothing |
| `Editor.DeleteMultipleOutOfRange` | ShellConfigManager/Services/ConfigFileEditor.swift:102-109 | Out-of-range numbers, in any order, leave the lines as they were |
| `Editor.DeleteMultipleDuplicate` | ShellConfigManager/Services/ConfigFileEditor.swift:102-109 | Duplicates are not removed: `[2, 2]` on three lines deletes two lines |
| `RoundTrip.AssignmentLine` | ShellConfigManager/Services/ConfigFileParser.swift:53-57 | A rendered assignment is already trimmed and not skipped, and it starts with `export ` exactly when the item is exported |
| `RoundTrip.QuotedValue` | ShellConfigManager/Services/ConfigFileParser.swift:102-114 | A value written in double quotes, without backslash, `#` or single-quote wrapping, is unquoted back to itself with no comment |
| `RoundTrip.CommentSplit` | ShellConfigManager/Services/ConfigFileParser.swift:130-134 | After a quoted value without inner quotes, `  # comment` is split off; the value keeps its quotes |
| `RoundTrip.RoundTripVariable` | ShellConfigManager/Services/ConfigFileEditor.swift:165-169 | A variable without a comment, with a plain name and a value free of `\` and `#`, renders as a text that, parsed as one line, gives back the same name, value and export flag |
| `RoundTrip.AddedVariableReadsBack` | ShellConfigManager/Services/ConfigFileEditor.swift:17-21 | A variable as above whose name and value hold no newline, appended to any file, is read back by the file parser as the last record, numbered after the file's earlier lines, with the same name, value and export flag |
| `RoundTrip.AddedCommentedVariableReadsBack` | ShellConfigManager/Services/ConfigFileEditor.swift:17-21 | The same for a variable with a comment: it comes back last, its value still in double quotes and its comment kept |
| `RoundTrip.RoundTripVariableWithComment` | ShellConfigManager/Services/ConfigFileEditor.swift:165-189 | With a comment, the same line parses back with its comment, but its value still wrapped in double quotes |
| `Search.Filter` | ShellConfigManager/Services/ShellConfigManager.swift:128-134 | The result keeps order, every kept item matches, every matching item is kept, and nothing is dropped iff all match |
| `Search.FilterCounts` | ShellConfigManager/Services/ShellConfigManager.swift:128-134 | Every matching item is kept as many times as it occurs, and no other item is kept |
| `Search.SearchItems` | ShellConfigManager/Services/ShellConfigManager.swift:126-134 | An empty query returns the list unchanged. Otherwise the result is the order-preserving sublist of items whose lower-cased name, value or comment holds the lower-cased query, each kept as many times as it occurs |
| `Search.SearchDropsSomething` | ShellConfigManager/ViewModels/EnvVariableViewModel.swift:69-71 | The search result is shorter iff the query is non-empty and some item fails to match |
| `Search.SearchIdempotent` | ShellConfigManager/Services/ShellConfigManager.swift:128-134 | Searching the result again with the same query changes nothing |
| `Search.FilterAllMatch` | ShellConfigManager/Services/ShellConfigManager.swift:130-134 | Filtering a list whose items all match returns it unchanged |
| `Search.InsertName` | ShellConfigManager/Services/ShellConfigManager.swift:140-141 | Inserting a name into a strictly ascending list keeps it strictly ascending and adds exactly that name |
| `Search.SortedUnique` | ShellConfigManager/Services/ShellConfigManager.swift:138-142 | The distinct names, strictly ascending, with the same members as the input |
| `Search.StrictlyAscendingDistinct` | ShellConfigManager/Services/ShellConfigManager.swift:140-141 | A strictly ascending list holds no name twice |
| `Search.Names` | ShellConfigManager/Services/ShellConfigManager.swift:140 | The names of the items, position by position |
| `Manager.ReadAt` | ShellConfigManager/Services/ConfigFileParser.swift:11-13 | Reading reports "not found" exactly when the path is not on disk |
| `Manager.ConstructPathSpec` | ShellConfigManager/Services/ShellConfigManager.swift:88-96 | A constructed path lies under `home + "/"` and its file name is the probed name |
| `Manager.ConstructedDisplayPath` | ShellConfigManager/Services/ShellConfigManager.swift:90-95 | A constructed path shows as `~/.config/fish/NAME` for fish and `~/NAME` otherwise |
| `Manager.LoadEach` | ShellConfigManager/Services/ShellConfigManager.swift:50-76 | One record per probed name |
| `Manager.LoadEachAt` | ShellConfigManager/Services/ShellConfigManager.swift:51-74 | The record at each position is the one loaded for the name there: parsed from its path, present iff the path is on disk |
| `Manager.LoadEachNames` | ShellConfigManager/Services/ShellConfigManager.swift:51-52 | Each loaded record's file name is the name it was loaded for |
| `Manager.BeforeAsymmetric` | ShellConfigManager/Services/ShellConfigManager.swift:79-84 | The sort's order is asymmetric |
| `Manager.NotBeforeTransitive` | ShellConfigManager/Services/ShellConfigManager.swift:79-84 | "Not sorting before" is transitive |
| `Manager.InsertByPriorityPermutes` | ShellConfigManager/Services/ShellConfigManager.swift:79 | One insertion step adds exactly the inserted file |
| `Manager.InsertByPriorityMembers` | ShellConfigManager/Services/ShellConfigManager.swift:79 | One insertion step adds nothing but the inserted file |
| `Manager.ConsSorted` | ShellConfigManager/Services/ShellConfigManager.swift:79-84 | A sorted list stays sorted under a head that no element sorts before |
| `Manager.TailSorted` | ShellConfigManager/Services/ShellConfigManager.swift:79-84 | The tail of a sorted list is sorted |
| `Manager.FrontSorted` | ShellConfigManager/Services/ShellConfigManager.swift:79-84 | A file goes in front of a sorted list whose head does not sort before it |
| `Manager.InsertByPrioritySorted` | ShellConfigManager/Services/ShellConfigManager.swift:79-84 | Insertion keeps a list sorted by priority |
| `Manager.SortByPriorityPermutes` | ShellConfigManager/Services/ShellConfigManager.swift:79 | Sorting keeps exactly the same files |
| `Manager.SortByPrioritySorted` | ShellConfigManager/Services/ShellConfigManager.swift:79-84 | The sorted list has no file followed by one that sorts before it |
| `Manager.PrioritySortedGroups` | ShellConfigManager/Services/ShellConfigManager.swift:80-83 | In a sorted list every existing file precedes every missing one, and within each group names do not descend |
| `Manager.SortByPrioritySpec` | ShellConfigManager/Services/ShellConfigManager.swift:79-84 | The sorted files are a permutation of the input. Existing files come before missing ones, and within each group no name is followed by a smaller one |
| `Manager.ConfigFileNamesDistinct` | ShellConfigManager/Models/Shell.swift:19-28 | No shell probes the same name twice |
| `Manager.ShellFilesNonEmpty` | ShellConfigManager/Services/ShellConfigManager.swift:29-41 | Every shell lists as many files as it probes names, at least one |
| `Manager.DistinctByName` | ShellConfigManager/Services/ShellConfigManager.swift:50-76 | Records with pairwise different file names each occur once |
| `Manager.TwiceCounted` | ShellConfigManager/Services/ShellConfigManager.swift:79 | A record at two positions occurs at least twice |
| `Manager.ReorderedStrictly` | ShellConfigManager/Services/ShellConfigManager.swift:79-84 | Sorting records with distinct names makes the names strictly ascend within each group |
| `Manager.OnePerName` | ShellConfigManager/Services/ShellConfigManager.swift:47-85 | A sorted reordering of one record per distinct name holds each name once and no other, strictly ascending within each group |
| `Manager.ShellFilesOnePerName` | ShellConfigManager/Services/ShellConfigManager.swift:47-85 | A shell lists exactly one file per probed name, no name twice, and names strictly ascend among existing and among missing files |
| `Manager.LoadedShellsAre` | ShellConfigManager/Services/ShellConfigManager.swift:29-39 | The loaded shells are bash, zsh and fish, in that order, with consecutive ids and their sorted files |
| `Manager.KeepNonEmpty` | ShellConfigManager/Services/ShellConfigManager.swift:41 | Only shells listing some file are kept, and none is dropped when all list one |
| `Manager.KeepNonEmptyThree` | ShellConfigManager/Services/ShellConfigManager.swift:41 | Three shells that each list a file are all kept |
| `Manager.AllVariablesMember` | ShellConfigManager/Services/ShellConfigManager.swift:104-114 | An item is among all variables iff some existing file of some shell holds it |
| `Manager.ExistingVariablesMember` | ShellConfigManager/Services/ShellConfigManager.swift:108-110 | An item is among one shell's variables iff some existing file of it holds it |
| `Manager.ExistingVariablesCount` | ShellConfigManager/Services/ShellConfigManager.swift:108-110 | One shell's variables number the sum of its existing files' counts |
| `Manager.FileVariableCountSnoc` | ShellConfigManager/Services/ShellConfigManager.swift:108-110 | The file-by-file count of a list with one more file adds that file's count if it exists |
| `Manager.VariableCountSnoc` | ShellConfigManager/Services/ShellConfigManager.swift:107-111 | The shell-by-shell count of a list with one more shell adds that shell's count |
| `Manager.AllVariablesCount` | ShellConfigManager/Services/ShellConfigManager.swift:145-147 | All variables number the sum, over shells and their existing files, of the files' counts |
| `Manager.ShellConfigManager.constructor` | ShellConfigManager/Services/ShellConfigManager.swift:13-15 | Building the service loads all three shells |
| `Manager.ShellConfigManager.LoadConfigs` | ShellConfigManager/Services/ShellConfigManager.swift:23-44 | The shells become the filtered list of bash, zsh and fish with their sorted files. The filter drops nothing, and loading ends not loading |
| `Manager.ShellConfigManager.LoadFile` | ShellConfigManager/Services/ShellConfigManager.swift:51-73 | The record for one name: the constructed path, the parse result of reading it, present and dated exactly when the path is on disk |
| `Manager.ShellConfigManager.LoadConfigsForShell` | ShellConfigManager/Services/ShellConfigManager.swift:47-85 | The shell's files are one record per probed name, sorted by priority, and there is at least one |
| `Manager.ShellConfigManager.Refresh` | ShellConfigManager/Services/ShellConfigManager.swift:99-101 | Refreshing reloads the shells from the disk as it now is |
| `Manager.ShellConfigManager.GetAllVariables` | ShellConfigManager/Services/ShellConfigManager.swift:104-114 | The variables of existing files, in shell order then file order, as many as the count over all files |
| `Manager.ShellConfigManager.SearchVariables` | ShellConfigManager/Services/ShellConfigManager.swift:117-135 | The search over the given file's variables, or over all variables when no file is given |
| `Manager.ShellConfigManager.GetUniqueVariableNames` | ShellConfigManager/Services/ShellConfigManager.swift:138-142 | Strictly ascending, and a name is in it iff some variable among all variables has it |
| `Manager.ShellConfigManager.GetTotalVariableCount` | ShellConfigManager/Services/ShellConfigManager.swift:145-147 | The number of all variables, equal to the file-by-file count |
| `ViewModels.EnvVariableViewModel.constructor` | ShellConfigManager/ViewModels/EnvVariableViewModel.swift:6-11 | The list opens empty, with no search, nothing selected and no file |
| `ViewModels.EnvVariableViewModel.SetConfigFile` | ShellConfigManager/ViewModels/EnvVariableViewModel.swift:25-29 | The items become the file's variables, or none when there is no file. They are refiltered with the unchanged search text |
| `ViewModels.EnvVariableViewModel.LoadAllVariables` | ShellConfigManager/ViewModels/EnvVariableViewModel.swift:32-35 | The items become all the service's variables, refiltered with the current search text |
| `ViewModels.EnvVariableViewModel.FilterVariables` | ShellConfigManager/ViewModels/EnvVariableViewModel.swift:38-51 | The shown items become the search result for the query, which is all items for an empty query. Nothing else changes |
| `ViewModels.EnvVariableViewModel.ClearSearch` | ShellConfigManager/ViewModels/EnvVariableViewModel.swift:54-56 | The search text becomes empty and no other field changes |
| `ViewModels.EnvVariableViewModel.CountWithinTotal` | ShellConfigManager/ViewModels/EnvVariableViewModel.swift:59-66 | While the shown items are a sublist of the loaded ones, no more are shown than loaded |
| `ViewModels.EnvVariableViewModel.IsFilteredMeans` | ShellConfigManager/ViewModels/EnvVariableViewModel.swift:69-71 | Once the shown items follow the search text, the list is filtered iff the text is non-empty and some item fails to match |
| `ViewModels.ExpandableIdsMember` | ShellConfigManager/ViewModels/ShellListViewModel.swift:27-31 | An id is expanded automatically iff some shell with that id has an existing file |
| `ViewModels.Toggled` | ShellConfigManager/ViewModels/ShellListViewModel.swift:36-42 | Toggling flips the id's membership and leaves every other id as it was |
| `ViewModels.ToggleTwice` | ShellConfigManager/ViewModels/ShellListViewModel.swift:36-42 | Toggling the same id twice restores the set |
| `ViewModels.ExistingCountZero` | ShellConfigManager/ViewModels/ShellListViewModel.swift:56 | A list counts no existing file iff none of its files exists |
| `ViewModels.ExistingFileCountZero` | ShellConfigManager/ViewModels/ShellListViewModel.swift:55-57 | The shells count no existing file iff no shell has one |
| `ViewModels.ShellListViewModel.constructor` | ShellConfigManager/ViewModels/ShellListViewModel.swift:6-8 | The sidebar opens with no shells, no selection and nothing expanded |
| `ViewModels.ShellListViewModel.ShellsPublished` | ShellConfigManager/ViewModels/ShellListViewModel.swift:17-21 | New shells from the service are shown, and the shells with an existing file are added to the expanded set |
| `ViewModels.ShellListViewModel.AutoExpandShells` | ShellConfigManager/ViewModels/ShellListViewModel.swift:26-33 | The expanded set gains the id of each shell with an existing file and loses none |
| `ViewModels.ShellListViewModel.ToggleExpansion` | ShellConfigManager/ViewModels/ShellListViewModel.swift:36-47 | The shell's id is toggled, every other id kept, and `IsExpanded` for that shell flips |
| `ViewModels.ShellListViewModel.SelectConfigFile` | ShellConfigManager/ViewModels/ShellListViewModel.swift:50-52 | The selection becomes the file and nothing else changes |
| `ViewModels.ShellListViewModel.TotalConfigFileCount` | ShellConfigManager/ViewModels/ShellListViewModel.swift:55-57 | The summed count of existing files is zero iff no shown shell has an existing file |
| `Sheets.IsValidMeans` | ShellConfigManager/Views/AddConfigItemSheet.swift:78-86 | A sheet (add or edit: both sheets share the rule) may be submitted iff the name has a non-blank character and, for a source line, the value does too |
| `Sheets.AddSheetInitialInvalid` | ShellConfigManager/Views/AddConfigItemSheet.swift:7-11 | The add sheet opens as an exported plain variable with empty fields, and that cannot be submitted |
| `Sheets.TrimmedComment` | ShellConfigManager/Views/AddConfigItemSheet.swift:94 | The stored comment is absent iff the field is all blanks, and is otherwise the trimmed field, non-empty |
| `Sheets.BuildItem` | ShellConfigManager/Views/AddConfigItemSheet.swift:89-97 | The built item's name and value are the trimmed fields and its comment the trimmed comment or none; it has the chosen kind and export flag, the given line, an empty raw line and is not conditional |
| `Sheets.BuildFromPadded` | ShellConfigManager/Views/AddConfigItemSheet.swift:89-97 | Spaces and tabs around the name, value and comment fields do not reach the item: it holds exactly the texts between them |
| `Sheets.AddItem` | ShellConfigManager/Views/AddConfigItemSheet.swift:88-97 | The added item has the trimmed name and value, the trimmed comment or none, line 0 and no raw line; a valid sheet gives it a name (and a source line a value) |
| `Sheets.EditSheetInitial` | ShellConfigManager/Views/EditConfigItemSheet.swift:14-23 | The edit sheet copies kind, name, value and export flag; a missing comment shows as an empty field |
| `Sheets.SaveChanges` | ShellConfigManager/Views/EditConfigItemSheet.swift:108-121 | The saved item has the trimmed name and value and the trimmed comment or none, keeps the original's line number, with an empty raw line, and a valid sheet gives it a name |
| `Sheets.SaveUnedited` | ShellConfigManager/Views/EditConfigItemSheet.swift:109-116 | Saving without edits keeps kind, export flag, line number and a missing comment. An already-normalised item comes back unchanged except for its raw line and conditional flag |
| `Sheets.SaveTwice` | ShellConfigManager/Views/EditConfigItemSheet.swift:109-116 | A saved item, opened and saved again without edits, is unchanged |

## Left out

- File system I/O is an input, not an effect:
  - existence, readability, UTF-8 decoding and writability are given as `FileRead`, `WriteAccess` or the disk map;
  - modification dates are abstract integers, and attributes are read only from the disk map.
- `createConfigFile`, `deleteConfigFile`, `fileExists` and `createBackup` (ConfigFileEditor.swift:122-159, 226-242) only create, remove, probe or copy files; they do no line logic.
- `directoryPath` and tilde expansion use `NSString` path handling, which is not part of this model. `fileName` is modelled by `LastComponent`, for paths without a trailing `/`.
- The `unknown(localizedDescription)` catch-all in the editor cannot be reached from the modelled read and write, which throw only `ConfigEditError`. It appears only in `ErrorDescription`.
- The parser splits on `.newlines`, which also breaks at `\r` and other line separators. Both the parser and the editor are modelled splitting on `'\n'` only.
- Trimming is of spaces and tabs, not all Unicode whitespace. `isLetter`, `lowercased` and `uppercased` are ASCII.
- String order, used to sort file names and variable names, is character-code order rather than Swift's Unicode comparison.
- Swift's `sorted` is not guaranteed stable. The model sorts by insertion. Within one shell the file names are distinct, so the order is the same.
- UUID identities and id-based equality and hashing are left out. Records compare by value, and shell ids are counter values.
- `ShellConfigManager.shared` is a singleton built with the user's home directory. Here the service is built from a home directory and a disk.
- The Combine debounce and the `receive(on:)` scheduling are left out:
  - `FilterVariables` is what the search subscription runs;
  - `ShellsPublished` is what the shells subscription runs.
- `ShellListViewModel.refresh` forwards to the service's `Refresh` and is not modelled separately.
- `selectedVariable` is a field that no modelled operation assigns.
- `copyName` and `copyValue` write to the clipboard.
- `viewModel.addVariable`, `viewModel.updateVariable` and `currentConfigPath` are called by the sheets, but no body for them exists in the source. The model stops at the item each sheet builds.
- All SwiftUI views, label tables and icons are left out. So are `pathColor` (which reads the disk) and the `Shell` display name and icon.
- `Editor.InsertConfigItem`: requires a non-negative line number when the file was read, because the source's `insert` traps on a negative index.
- `Parser.ParseFile`: records get the kind `EnvironmentVariable`. The kind type is not defined in the source, and the parser never sets one.

## Behaviour worth knowing

- Comment extraction counts quotes only before the first `#`. In `"a#b" # real comment` that count is odd, so nothing is split and the whole text stays the value (`Parser.ExtractCommentQuotedHash`).
- Only assignments are parsed:
  - an `alias` line reads as a variable named `alias NAME` (`Parser.ParseLineAliasIsVariable`);
  - `source` and `export NAME` lines give no record;
  - a variable written with a comment comes back with its value still in double quotes (`RoundTrip.RoundTripVariableWithComment`).
- The comment at ShellConfigManager/Services/ShellConfigManager.swift:40 says shells with no existing config files are filtered out. The code at line 41 tests `configFiles.isEmpty`, which never holds because every shell lists at least one file record, so no shell is dropped (`Manager.KeepNonEmptyThree`).
- A variable whose name or value holds a newline renders as more than one line, and the file parser, which splits on `'\n'` first, does not read it back; the file-level read-back lemmas exclude that case.
