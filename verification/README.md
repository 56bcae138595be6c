# SCIM core logic in Dafny

A model of the state and search code of the SCIM input method library, with proofs. Each module stands
for one source file or one part of it. Code that changes fields step by step is written as classes and
methods with loops; every such method is proved against a function or predicate, and the theorems are
proved about those.

| module | models |
|---|---|
| `ComposeKey`, `ComposeRuns` | the Compose key engine, and what it does over whole runs of key events |
| `ConvCompose` | the generator of the engine's table |
| `ConfigText`, `GlobalConfig`, `ConfigProcesses` | the configuration file's text, one process's repository, and any number of processes sharing the file |
| `KeyString`, `Layout` | printing and parsing key events, and mapping them between keyboard layouts |
| `Hotkey`, `FrontEndHotkey`, `IMEngineHotkey` | the hotkey matchers and how they are saved and loaded |
| `Backend` | the factory repository and cycling through the factories of a language |
| `FilterManager` | the filters bound to IMEngines |
| `Search`, `Lex`, `Strings`, `StringList`, `Numbers`, `ConfigBase`, `KeyEvents`, `Common` | what these share: the library's binary searches, orders, string lists, number formats, the config object, key events |

The main results:

- The Compose engine's binary search is a prefix search, and the engine refines an automaton that only
  asks for membership (`ComposeKey.PrefixSearch`, `ComposeKey.ComposeKeyInstance.ProcessKeyEvent`,
  `ComposeRuns.Feed`). An entry can be committed at all exactly when no other entry is a beginning of it
  and none of its keys is an ignored modifier (`ComposeRuns.Committable`).
- The generated table is one the engine can run on exactly when five keys tell all entries apart and no
  entry is empty (`ConvCompose.GeneratedTable`).
- In every interleaving of any number of processes the shared configuration file holds, at each key, the
  change of the latest flush that had one for the key (`ConfigProcesses.MultiProcessMerge`), and each
  process reads its pending change or what it took over when it last read the file
  (`ConfigProcesses.ProcessReads`), so what one process flushed another one reads
  (`ConfigProcesses.FlushedIsRead`). Reading back what was written gives the same entries exactly when all
  are storable (`ConfigText.PrintParse`), and the reading loop ends exactly when every line fits its buffer
  (`ConfigText.ReadingEnds`).
- Printed keys are parsed back exactly when their code is neither 0 nor VoidSymbol
  (`KeyString.KeyRoundTrip`); from that, the exact conditions under which any FrontEnd hotkeys survive
  saving and loading (`FrontEndHotkey.SaveLoad`), loaded ones are a fixpoint of it
  (`FrontEndHotkey.LoadSaveLoad`), and IMEngine hotkeys survive it (`IMEngineHotkey.SaveLoad`).
- Next and previous walk a cycle of the language's factories and undo each other
  (`Backend.CycleReturns`, `Backend.CycleVisitsAll`, `Backend.CycleVisitsOnce`, `Backend.NextAndPreviousUndo`).
- The filter settings refine a map from uuids to filter lists (`FilterManager.BindingsRefineMap`).
- Mapping a key to another layout and back gives it again exactly under a condition on the two layouts'
  tables, the doubled pair of the Japanese ones included (`Layout.MapThereAndBack`,
  `Layout.JapaneseShiftReturns`).

## Where the code differs from what it says

- The comment at src/scim_compose_key.cpp:234-236 says that a key that does not match is forwarded only
  when it is the first. A key behind pending ones is forwarded too when no entry with the same first key
  sorts above what was typed: exactly then the comment is wrong (`ComposeRuns.CommentRule`), as for a "z"
  behind the dead horn (`ComposeRuns.CommentRuleFails`). The model has the code's rule.
- `scim_string_to_key` (src/scim_event.cpp:301) compares the name the search found with "VoidSymbol", not
  the name it was given. The key names have no "VoidSymbol", so that key is printed but never parsed from
  its name. It can be loaded from its code "0xffffff", and then it is lost by saving
  (`FrontEndHotkey.VoidSymbolIsLost`).
- An IMEngine matcher without uuids is not saved at all (src/scim_hotkey.cpp:201). The setup saves a fresh
  matcher made of the hotkeys that are left (modules/SetupUI/scim_imengine_setup.cpp:805-817), so when the
  last one is removed all the old ones come back (`IMEngineHotkey.EmptiedComesBack`, and a configuration
  with one hotkey in `IMEngineHotkey.EmptiedSample`).
- A FrontEnd action that lost all its keys keeps its old or default list (src/scim_hotkey.cpp:381-384), so
  when all hotkeys are removed all come back (`FrontEndHotkey.EmptiedComesBack`): a configured one in
  `FrontEndHotkey.EmptiedSample`, the default "Control+space" in `FrontEndHotkey.DefaultComesBack`.
  `FrontEndHotkey.SaveLoad` says exactly when such a list changes what is loaded.
- The Japanese Shift tables list the tilde twice, so a shifted US "+" comes back as ")"
  (`Layout.JapaneseShiftLosesPlus`); `Layout.JapaneseShiftReturns` says which keys do come back.
- `flush` writes " = " between key and value, so rewriting a line "k=v" makes it longer by two characters.
  A file whose lines fit the reader's buffer may stop fitting it, and then the reading loop never ends:
  the stream has failed, and only its end is asked for (src/scim_global_config.cpp:103-104,
  `GlobalConfig.FlushOutgrowsBuffer`). `GlobalConfig.FlushedFits` says exactly when it still fits.

## Premises

- The tables are parameters. The Compose table is strictly ascending with zeros only as padding; the key
  names are sorted by code and by name, each name by code is also found by name, no name looks like a
  hexadecimal number and none is "VoidSymbol"; each mask name stands for one bit. `KeyString.SAMPLE_TABLES`
  and `Layout.UK` show tables of the source that meet them.
- The tables of a layout are converse: sorted, with an inverse that lists each code once
  (`Layout.Converse`). Of the source's tables only the Japanese ones under Shift list a code twice.
- The theorems about runs of processes start with a file to read, and with processes that have read it and
  changed nothing (`ConfigProcesses.Initial`); the lines of the file fit the reader's buffer with " = ", and
  what is flushed has a storable key and a value without newline and NUL and fits it too (`GoodEvents`).
  A value may have blanks around it, and is read without them; a value changed again before the flush may be
  anything. `GlobalConfig.FlushedFits` and `ConfigText.PrintParse` show for a flush what these are needed for.
- `istream::getline` is modelled as section 31.7.5.4 ([istream.unformatted]) of the C++23
  standard has it: a line longer than the
  buffer is cut and sets the fail bit, and a stream that failed gives nothing more.
- The uuids of IMEngines are not empty, have no comma and are not "List" (`IMEngineHotkey.GoodUuids`,
  `FilterManager.GoodOps`); filter uuids are not empty and have no comma (`FilterManager.GoodFilters`). A
  comma would split a uuid of a list, and "List" is the name of the list's own entry.
- A 16-bit modifier mask is the set of its bits; the source only tests, joins and intersects masks.
- `long` has 64 bits. Strings are sequences of characters, compared by character value.
- The order in which a container passes its entries and the order `std::sort` gives to ties are left
  open: results hold for every such order.

## Model

| member | source | states |
|---|---|---|
| Search.LowerBound | src/scim_compose_key.cpp:218-221 | on a range whose elements below the key come first, the halving search stops at the element a linear scan stops at |
| Search.BinarySearch | src/scim_compose_key.cpp:197-199 | the search in the ascending ignore list finds a code exactly when it is listed |
| Lex.Trichotomy | src/scim_compose_key.cpp:51-57 | of two key arrays of one length exactly one is below the other, or they are equal |
| Lex.Transitive | src/scim_compose_key.cpp:51-57 | the key order is transitive |
| Lex.Squeezed | src/scim_compose_key.cpp:51-57 | what sorts between two arrays with the same first k keys has those keys too |
| Lex.TruncationMonotone | src/conv_compose.cpp:31-56 | cutting two ordered arrays to their first k keys leaves them ordered or equal |
| ComposeKey.PrefixSearch | src/scim_compose_key.cpp:218-241 | the search position has the typed keys as a prefix exactly when some entry has; it is the typed entry exactly when there is one; and, when nothing matches, it shares the first key exactly when some entry above the buffer does |
| ComposeKey.Rejected | src/scim_compose_key.cpp:223-241 | a scan that stops at a differing key, or a search that finds nothing, means the automaton rejects, with the code's result |
| ComposeKey.Matched | src/scim_compose_key.cpp:229-251 | a scan that passes all pending keys means a commit of that entry when it ends there, and waiting otherwise |
| ComposeKey.IgnoredEvent | src/scim_compose_key.cpp:195-203 | a release, a key with Control or Alt down and the sixteen modifier codes change nothing and are not taken in |
| ComposeKey.TakenEvent | src/scim_compose_key.cpp:205-216 | any other key is looked up behind the pending ones, alone when five are pending; a code of 0 adds nothing |
| ComposeKey.DecidedBy | src/scim_compose_key.cpp:223-251 | a complete entry is committed, a proper beginning of one waits, anything else drops the pending keys |
| ComposeKey.ComposeKeyInstance.constructor | src/scim_compose_key.cpp:179-186 | a new engine is valid with nothing pending |
| ComposeKey.ComposeKeyInstance.Reset | src/scim_compose_key.cpp:279-284 | clears the pending keys |
| ComposeKey.ComposeKeyInstance.AppendCode | src/scim_compose_key.cpp:205-216 | the code goes behind the pending keys, which are dropped first when five are pending; slots 5 to 7 stay zero |
| ComposeKey.ComposeKeyInstance.CompareWith | src/scim_compose_key.cpp:229-241 | the scan finds the first pending key that differs from the entry, or that none does |
| ComposeKey.ComposeKeyInstance.MatchBuffer | src/scim_compose_key.cpp:218-251 | commit, waiting or rejection are those decided by membership in the table |
| ComposeKey.ComposeKeyInstance.ProcessKeyEvent | src/scim_compose_key.cpp:192-252 | for each key event the pending keys, the committed text and the returned result are those of the reference automaton |
| ComposeRuns.Feed | src/scim_compose_key.cpp:192-252 | over any list of key events the engine's pending keys and results are those of the automaton's run, and its text is longer by the characters of the entries committed, in order |
| ComposeRuns.ReachableStates | src/scim_compose_key.cpp:205-251 | in every reachable state nothing is pending or a proper beginning, of one to four keys, of an entry, no beginning of which is an entry; the buffer is never full |
| ComposeRuns.CommitsAreUnshadowed | src/scim_compose_key.cpp:229-249 | in no run is an entry committed that has another entry as a proper beginning |
| ComposeRuns.ShadowedBySource | src/scim_compose_key_data.h:2378-2379 | with these two rows in the table, the second is never committed |
| ComposeRuns.PendingWasTyped | src/scim_compose_key.cpp:205-249 | the pending keys are the last ones typed, and an entry is committed only right behind its own keys |
| ComposeRuns.TypingCommits | src/scim_compose_key.cpp:195-251 | typing an unshadowed entry, with any ignored events in between, commits exactly it at its last key and takes in every key |
| ComposeRuns.Committable | src/scim_compose_key.cpp:195-249 | some run commits the entry if and only if it is unshadowed and has no ignored code |
| ComposeRuns.RejectedFirstKey | src/scim_compose_key.cpp:234-241 | a key rejected while nothing is pending is forwarded |
| ComposeRuns.CommentRule | src/scim_compose_key.cpp:234-241 | a rejected key is treated as the comment says, forwarded when it is the first and taken in otherwise, if and only if it is the first or some entry with the same first key sorts above what was typed |
| ComposeRuns.CommentRuleFails | src/scim_compose_key_data.h:2308-2311 | with these rows, "z" behind the dead horn drops it and is forwarded, against the comment |
| ComposeRuns.CommentRuleHolds | src/scim_compose_key_data.h:2308-2311 | and "T" behind it is taken in, as the comment says |
| ConvCompose.EncodeKeys | src/conv_compose.cpp:192-209 | a line's keys are the codes of its first eight key names, then zeros; it is dropped if and only if one of these names is no key, and what is kept has zeros only behind its keys |
| ConvCompose.Unique | src/conv_compose.cpp:221 | of an ascending list a strictly ascending one stays, with the same key arrays, each with its first entry |
| ConvCompose.Generate | src/conv_compose.cpp:219-259 | the table has the first five keys and the character of the first sorted entry of each distinct key array, in ascending order |
| ConvCompose.PrintedAscends | src/conv_compose.cpp:239-253 | of two printed entries the earlier is below the later under the engine's order unless their keys are equal |
| ConvCompose.GeneratedTable | src/conv_compose.cpp:219-253 | the engine can run on the printed table if and only if five keys tell the entries apart and none is empty |
| ConvCompose.ShortLinesGenerate | src/conv_compose.cpp:219-253 | lines of one to five keys always give such a table |
| StringList.SplitStringList | src/scim_utility.cpp:363-389 | the loop lists the pieces of the recursive split, and counts them |
| StringList.CombineStringList | src/scim_utility.cpp:391-401 | the loop joins the pieces |
| StringList.SplitJoin | src/scim_utility.cpp:363-401 | splitting a joined list of delimiter-free pieces gives it back, less an empty last piece |
| StringList.RoundTrip | src/scim_utility.cpp:363-401 | split after combine is the identity if and only if no piece has the delimiter and the last is not empty |
| Strings.SortedUniqueAscending | src/scim_hotkey.cpp:184-185 | sorting and uniquing leaves each string once, ascending |
| Strings.StrLessMeans | src/scim_event.cpp:86-100 | a string is below another exactly when it is a proper beginning of it or has the smaller character where they first differ |
| Numbers.DecimalRoundTrip | src/scim_global_config.cpp:313-323 | every 32-bit int printed in decimal is read back, with no comma in its text |
| Numbers.HexRoundTrip | src/scim_event.cpp:196-200 | every 32-bit code printed in padded hexadecimal is read back |
| Numbers.StrtolSamples | src/scim_global_config.cpp:195 | `strtol` takes off spaces, a sign and "0x", and stops at the first other character |
| Numbers.StrtolSticks | src/scim_global_config.cpp:195 | values beyond `long` stick at its ends |
| ConfigText.StorableLine | src/scim_global_config.cpp:67-124 | the line written for a storable key and value is read as that key and value, empty values and "=" in values included |
| ConfigText.WrittenLine | src/scim_global_config.cpp:67-124 | for any value without NUL it is read as the key and the value without the blanks around it |
| ConfigText.TightLine | src/scim_global_config.cpp:67-124 | a line without blanks around its "=" is read as that key and value too |
| ConfigText.LineMeans | src/scim_global_config.cpp:67-124 | whatever blanks stand around, the key ends at the first blank or "=" and the value is what stands behind the first "=" |
| ConfigText.LineIsSkipped | src/scim_global_config.cpp:106-115 | empty lines, comments, lines without "=" and lines that begin with it give no entry |
| ConfigText.NulEndsLine | src/scim_global_config.cpp:105 | what stands behind a NUL is not read |
| ConfigText.LastLineWins | src/scim_global_config.cpp:117-119 | of several lines for one key the last one counts |
| ConfigText.PrintedLines | src/scim_global_config.cpp:426-430 | the file written has a line "key = value" for each entry, in the order they are passed |
| ConfigText.ParsedIsStorable | src/scim_global_config.cpp:103-119 | whatever is read from a line is storable |
| ConfigText.ParseIsStorable | src/scim_global_config.cpp:98-126 | a file is read into storable entries, whoever wrote it |
| ConfigText.PrintParse | src/scim_global_config.cpp:426-430 | reading what flush wrote gives the same entries if and only if all are storable, in whatever order they were written |
| ConfigText.PrintParseTrims | src/scim_global_config.cpp:426-430 | values without newline and NUL are read back without the blanks around them |
| ConfigText.PrintFits | src/scim_global_config.cpp:101-104 | the written file fits the reader's buffer if and only if each entry does with its " = " |
| ConfigText.ReadingEnds | src/scim_global_config.cpp:103-125 | the reading loop comes to the end of the file if and only if every line fits the buffer; then it has the entries of all lines, after at most one pass for each character and one more |
| GlobalConfig.FlushedFits | src/scim_global_config.cpp:411-433 | after a flush the file fits the buffer if and only if each merged entry, changed or not, does with its " = " |
| GlobalConfig.FlushOutgrowsBuffer | src/scim_global_config.cpp:426-430 | a file with the line "k=" and 9997 characters behind it can be read; after a flush of another key reading it never ends |
| GlobalConfig.GlobalConfigRepository.TakeLine | src/scim_global_config.cpp:104 | the scan takes the characters up to the newline, the end of the file or the end of the buffer, and sets the stream's bits accordingly; a failed stream gives nothing |
| GlobalConfig.GlobalConfigRepository.ParseNext | src/scim_global_config.cpp:103-125 | one pass puts the entry of the line taken, if it has one |
| GlobalConfig.GlobalConfigRepository.ParseConfig | src/scim_global_config.cpp:98-126 | on the files on which it ends, the reading loop gives the entries of all lines, later ones over earlier ones |
| GlobalConfig.GlobalConfigRepository.InitializeConfig | src/scim_global_config.cpp:128-158 | both layers are read anew, and one readable file is enough to be initialized |
| GlobalConfig.GlobalConfigRepository.FindValue | src/scim_global_config.cpp:160-178 | the user's value before the system's, none when uninitialized |
| GlobalConfig.GlobalConfigRepository.ReadString | src/scim_global_config.cpp:160-178 | the value found or the default |
| GlobalConfig.GlobalConfigRepository.ReadInt | src/scim_global_config.cpp:180-199 | the value found as an int, or the default when it is missing or empty |
| GlobalConfig.GlobalConfigRepository.ReadBool | src/scim_global_config.cpp:201-224 | the value found as a bool, or the default when it is none |
| GlobalConfig.GlobalConfigRepository.ReadStringList | src/scim_global_config.cpp:247-269 | the pieces of the value found, or the default when it is missing or empty |
| GlobalConfig.GlobalConfigRepository.ReadIntList | src/scim_global_config.cpp:271-299 | the ints of the pieces of the value found, or the default when it is missing or empty |
| GlobalConfig.GlobalConfigRepository.WriteString | src/scim_global_config.cpp:301-310 | an initialized repository holds and logs the value; an empty key changes nothing |
| GlobalConfig.GlobalConfigRepository.WriteInt | src/scim_global_config.cpp:312-323 | writes the decimal text |
| GlobalConfig.GlobalConfigRepository.WriteBool | src/scim_global_config.cpp:325-334 | writes "true" or "false" |
| GlobalConfig.GlobalConfigRepository.WriteStringList | src/scim_global_config.cpp:349-358 | writes the joined strings |
| GlobalConfig.GlobalConfigRepository.WriteIntList | src/scim_global_config.cpp:360-375 | writes the joined decimal texts |
| GlobalConfig.GlobalConfigRepository.ResetKey | src/scim_global_config.cpp:377-386 | removes the user's value and logs the erasure |
| GlobalConfig.GlobalConfigRepository.ApplyLog | src/scim_global_config.cpp:416-422 | the loop puts exactly the logged changes over what was read, in any order |
| GlobalConfig.GlobalConfigRepository.PrintEntries | src/scim_global_config.cpp:427-430 | the text lists each entry once |
| GlobalConfig.GlobalConfigRepository.Flush | src/scim_global_config.cpp:388-436 | the whole new state, file and result for each way a flush can end |
| GlobalConfig.LogStaysConsistent | src/scim_global_config.cpp:301-436 | a key logged "updated" stays in the user's layer and one logged "erased" out of it, through every write, reset and flush |
| GlobalConfig.FlushReports | src/scim_global_config.cpp:388-436 | a flush succeeds exactly when there is nothing to do or the file could be written, drops the changes only then, and without a usable directory changes nothing |
| GlobalConfig.UserBeforeSystem | src/scim_global_config.cpp:160-178 | the user's value is found before the system's |
| GlobalConfig.MergedAt | src/scim_global_config.cpp:411-422 | after a flush each logged key has the process's own value or is gone, and each other key the file's: no default is ever inserted |
| GlobalConfig.FlushKeepsReads | src/scim_global_config.cpp:388-436 | reads of logged keys agree before and after a flush when the system file is unchanged |
| GlobalConfig.RetryMergesTheSame | src/scim_global_config.cpp:424-435 | after a flush that could not open its output, the next one merges the same changes |
| GlobalConfig.IntRoundTrip | src/scim_global_config.cpp:180-199 | an int written is the int read |
| GlobalConfig.IntListRoundTrip | src/scim_global_config.cpp:271-299 | a list of ints written is the list read, and an empty one reads as the default |
| GlobalConfig.StringListRoundTrip | src/scim_global_config.cpp:247-269 | a list of strings written is the list read if and only if it can be joined and split, or is written as "" and equals the default |
| GlobalConfig.BoolRoundTrip | src/scim_global_config.cpp:201-224 | a bool written is the bool read |
| GlobalConfig.BoolSpellings | src/scim_global_config.cpp:201-224 | four spellings are read as true, four as false, any other value as the default |
| GlobalConfig.IntIsCut | src/scim_global_config.cpp:180-199 | an int read differs from `strtol`'s by a multiple of 2^32; without a text it is the default |
| GlobalConfig.IntListText | src/scim_global_config.cpp:360-374 | ints are written in decimal with commas between them |
| ConfigProcesses.FlushStep | src/scim_global_config.cpp:411-433 | a successful flush changes the file at the logged keys and nowhere else |
| ConfigProcesses.LogStep | src/scim_global_config.cpp:301-436 | each step keeps a process's log equal to its changes since its last flush |
| ConfigProcesses.RunKeepsInv | src/scim_global_config.cpp:301-436 | both hold in every state of every run from an initial state with good entries (`Initial`, `GoodEvents`) |
| ConfigProcesses.MultiProcessMerge | src/scim_global_config.cpp:388-436 | in every interleaving of starts, writes, resets, flushes and failed flushes the file holds at each key the change of the latest flush that had one, without blanks around the value, and otherwise its initial value, a file that is not there yet having none; and it can still be read. Under `Initial` and `GoodEvents` |
| ConfigProcesses.OnlyLoggedKeysChange | src/scim_global_config.cpp:388-436 | the file changes at a key only in a flush of a process with a pending change for it. Under `Initial` and `GoodEvents` |
| ConfigProcesses.ProcessReads | src/scim_global_config.cpp:160-178 | in every state of every run a process reads at a key its pending change, or what it took over when it last read the user's file (at its start, or in a flush with changes, even a failed one): its flushed change or what the file had; or else what the system file has. Under `Initial` and `GoodEvents` |
| ConfigProcesses.FlushedIsRead | src/scim_global_config.cpp:160-436 | a value flushed by one process, less the blanks around it, is what any process reads that reads its files before the next flush with a change for the key |
| ConfigProcesses.FlushedIntsAreRead | src/scim_global_config.cpp:271-387 | so a list of ints written by one process is the list read by another, and an empty one reads as the default |
| ConfigProcesses.NothingIsSaved | src/scim_global_config.cpp:143-157 | when neither file is there, no run makes one |
| KeyString.GetMaskString | src/scim_event.cpp:174-182 | the loop prints the mask's names, skipping names whose bit an earlier one has |
| KeyString.GetCodeString | src/scim_event.cpp:184-200 | the code's first name, or its padded hexadecimal form |
| KeyString.GetKeyString | src/scim_event.cpp:166-210 | mask names and code name, joined by "+" |
| KeyString.NamedCodeText | src/scim_event.cpp:186-194 | a code with names is printed as the first of them |
| KeyString.UnnamedCodeText | src/scim_event.cpp:184-200 | any other code is printed as "0x" and four or six digits, VoidSymbol as such and 0 as nothing |
| KeyString.MaskNamesInOrder | src/scim_event.cpp:174-182 | mask names are printed in the order of the table, exactly those with a bit of the mask that no name before them has |
| KeyString.ChordText | src/scim_event.cpp:202-209 | modifiers and key are joined by "+", the key last |
| KeyString.ControlSpaceText | src/scim_keyevent_data.h:3459-3471 | with the source's mask names Control and space are printed "Control+space", and four modifiers in the order of their bits |
| KeyString.ApplyPiece | src/scim_event.cpp:280-304 | one piece is read as a mask name, a key name or a hexadecimal code; the source looks behind the table exactly for a piece that is none of these and sorts above every key name |
| KeyString.UnnamedPiece | src/scim_event.cpp:297-304 | a piece that is no name is a code when it has six characters or more and begins with "0x" or "0X", and nothing otherwise |
| KeyString.PrintedIsInTable | src/scim_event.cpp:301 | parsing a printed key does not look behind the table, except perhaps for the name "VoidSymbol" |
| KeyString.ParseKey | src/scim_event.cpp:268-307 | the pieces are read in order, and a key without a code is none |
| KeyString.PrintKeyList | src/scim_event.cpp:309-322 | the printed keys joined by commas, keys that print as "" left out |
| KeyString.ParseKeyList | src/scim_event.cpp:324-338 | the keys of the pieces, pieces that are no key left out |
| KeyString.ParsePrintedMasks | src/scim_event.cpp:174-182 | parsing the printed mask names puts back exactly the named bits of the mask, although names for a bit already named are skipped |
| KeyString.KeyRoundTrip | src/scim_event.cpp:268-307 | parsing a printed key gives its code and the named bits of its mask when the code is neither 0 nor VoidSymbol, and no key otherwise |
| KeyString.KeyListRoundTrip | src/scim_event.cpp:309-338 | parsing any printed list gives its keys that survive, in order |
| KeyString.HexKeyList | src/scim_event.cpp:299-300 | a code in hexadecimal is read as the key of that code, VoidSymbol's included |
| KeyString.ChordIsRead | src/scim_event.cpp:268-307 | modifiers in any order before and behind a key's name are read as the code of the key with all their bits |
| KeyString.ParsedKeysAreNamed | src/scim_event.cpp:268-338 | a parsed key has a code and only named bits |
| KeyString.MaskNamesAreGood | src/scim_keyevent_data.h:3459-3471 | the mask names of the source stand for single bits and can be told from other pieces |
| KeyString.SampleTablesAreWellFormed | src/scim_keyevent_data.h:825-838 | tables with two names for one code meet the premises |
| Layout.RemapKeycode | src/scim_event.cpp:212-223 | the search gives the second part of the first pair for the code, or the code |
| Layout.MapEvent | src/scim_event.cpp:225-259 | the event is mapped through US by the tables for its state of Shift and CapsLock, or kept |
| Layout.KeptOrMapped | src/scim_event.cpp:228-233 | an event is kept exactly when a layout is 0 or above 38, both are the same or the code has more than 16 bits; else it gets the new layout and keeps its mask |
| Layout.MapPlain | src/scim_event.cpp:238-241 | without Shift and CapsLock by the plain tables |
| Layout.MapUnderCapsLock | src/scim_event.cpp:242-245 | with CapsLock alone by the CapsLock tables |
| Layout.MapUnderShift | src/scim_event.cpp:246-249 | with Shift alone by the Shift tables |
| Layout.MapUnderBoth | src/scim_event.cpp:250-253 | with both by the tables for both |
| Layout.GermanYIsZ | src/scim_keyboard_layout_data.h:1827-1867 | on a German keyboard "y" and "z" have changed places, and under CapsLock "Y" and "Z", each in its own tables |
| Layout.ToUSAndBack | src/scim_event.cpp:212-223 | with converse tables, to US and back is the identity on a code if and only if the layout's table lists it or the inverse does not |
| Layout.FromUSAndBack | src/scim_event.cpp:212-223 | from US and back is the identity on a code if and only if it is listed by the inverse and by the first pair of some key, or by neither table |
| Layout.FourRemaps | src/scim_event.cpp:237-254 | from one layout to another and back returns the code exactly when both halves do, or when another US code that comes back happens to lead to it |
| Layout.StrictTables | src/scim_event.cpp:237-254 | with tables that list each code once, that happens only when the second layout has no key for the US code and its own key of that code leads back |
| Layout.MapThereAndBack | src/scim_event.cpp:225-259 | the condition of `FourRemaps` for events, in all four states of Shift and CapsLock and with tables that list a code twice; events that cannot be mapped are kept |
| Layout.MapThereAndBackStrict | src/scim_event.cpp:225-259 | with tables that list each code once, an event comes back if and only if the second layout returns its US code and its own returns its code, or the second has no key for the US code but its own key of that code is the typed code on US, for which the first has no key |
| Layout.MapFromUSAndBack | src/scim_event.cpp:225-259 | an event of US comes back from another layout if and only if `FromUSAndBack`'s condition holds of its code |
| Layout.MapToUSAndBack | src/scim_event.cpp:225-259 | an event of another layout comes back from US if and only if `ToUSAndBack`'s condition holds of its code |
| Layout.UKTablesAreConverse | src/scim_keyboard_layout_data.h:3977-4025 | the tables of the UK layout are converse and list each code once, in all four states |
| Layout.JapaneseShiftIsConverse | src/scim_keyboard_layout_data.h:2459-2525 | the Japanese Shift tables are converse, but list a code twice |
| Layout.JapaneseShiftReturns | src/scim_keyboard_layout_data.h:2459-2525 | under Shift, exactly five codes of US do not come back from the Japanese layout ("+" and four that only its own table lists), and exactly five of its codes do not come back from US |
| Layout.JapaneseShiftLosesPlus | src/scim_keyboard_layout_data.h:2459-2525 | a shifted "+" of US becomes "~" on the Japanese layout, and that becomes ")" on US |
| Hotkey.BindAllAt | src/scim_hotkey.cpp:77-84 | after adding a list of keys each non-empty one has the id and no other key changed |
| KeyEvents.BitsTell | src/scim_event.h:51-74 | bit 15 tells a release, bit 2 Control and bit 3 Alt; only the code 0 without a mask is empty |
| Hotkey.HotkeyMatcher.AddHotkey | src/scim_hotkey.cpp:70-75 | binds a non-empty key |
| Hotkey.HotkeyMatcher.AddHotkeys | src/scim_hotkey.cpp:77-84 | binds all non-empty keys of the list |
| Hotkey.HotkeyMatcher.GetAllHotkeys | src/scim_hotkey.cpp:86-98 | lists each bound key once, with its id |
| Hotkey.HotkeyMatcher.FindHotkeys | src/scim_hotkey.cpp:100-110 | lists each key bound to the id once |
| Hotkey.HotkeyMatcher.PushKeyEvent | src/scim_hotkey.cpp:112-126 | a bound key matches, a bound release only right behind an event of its code |
| Hotkey.HotkeyMatcher.Clear | src/scim_hotkey.cpp:136-141 | forgets keys and match |
| FrontEndHotkey.FrontEndHotkeyMatcher.LoadHotkeys | src/scim_hotkey.cpp:357-371 | the hotkeys of the configuration, the last action loaded first; none without a valid configuration |
| FrontEndHotkey.FrontEndHotkeyMatcher.SaveHotkeys | src/scim_hotkey.cpp:373-385 | each action that has keys gets them as its text, the others keep theirs |
| FrontEndHotkey.FrontEndHotkeyMatcher.AddHotkey | src/scim_hotkey.cpp:387-393 | binds a key to an action from 1 to 6 |
| FrontEndHotkey.SourceSettingsAreGood | src/scim_hotkey.cpp:317-339 | the six configuration entries of the source are different ones |
| FrontEndHotkey.EntriesOfSource | src/scim_hotkey.cpp:317-327 | a key listed in the entry of an action alone selects that action, for each of the six |
| FrontEndHotkey.DefaultActions | src/scim_hotkey.cpp:329-341 | without a configuration Control+space is the trigger, and Control+Alt with Down, Up and Right select the next factory, the previous one and the menu |
| FrontEndHotkey.LoadedAction | src/scim_hotkey.cpp:366-370 | loading binds each key to the smallest action whose list has it |
| FrontEndHotkey.SavedElsewhere | src/scim_hotkey.cpp:373-385 | saving changes no other entry |
| FrontEndHotkey.SavedList | src/scim_hotkey.cpp:373-385 | after saving, an action with keys lists them other than VoidSymbol, and an action without keys its old or default list |
| FrontEndHotkey.SaveLoad | src/scim_hotkey.cpp:357-385 | loading what was saved from any matcher gives its hotkeys if and only if each is bound to an action from 1 to 6 and is printed and parsed as itself, and each key in the old or default list of an action without keys is bound to an earlier action |
| FrontEndHotkey.LoadSaveLoad | src/scim_hotkey.cpp:357-385 | loading what was saved from a load gives the same hotkeys if and only if none is on VoidSymbol |
| FrontEndHotkey.VoidSymbolIsLost | src/scim_hotkey.cpp:357-385 | with "0xffffff" as the list of the first action, VoidSymbol is bound to it by loading, and no longer after saving and loading |
| FrontEndHotkey.EmptiedComesBack | src/scim_hotkey.cpp:381-384 | saving no hotkeys leaves the configuration as it is, so loading gives the old ones |
| FrontEndHotkey.EmptiedSample | src/scim_hotkey.cpp:381-384 | with "a" listed for the first action, "a" comes back after it was removed and saved |
| FrontEndHotkey.DefaultComesBack | src/scim_hotkey.cpp:329-341 | without a configuration the removed default "Control+space" comes back |
| IMEngineHotkey.IMEngineHotkeyMatcher.constructor | src/scim_hotkey.cpp:163-166 | a new matcher is valid and empty |
| IMEngineHotkey.IMEngineHotkeyMatcher.Clear | src/scim_hotkey.cpp:286-291 | empties it |
| IMEngineHotkey.IMEngineHotkeyMatcher.LoadHotkeys | src/scim_hotkey.cpp:173-196 | each listed uuid with keys gets the next index; the matcher is valid |
| IMEngineHotkey.IMEngineHotkeyMatcher.SaveOne | src/scim_hotkey.cpp:208-211 | writes the keys of one uuid, if there are any |
| IMEngineHotkey.IMEngineHotkeyMatcher.SaveHotkeys | src/scim_hotkey.cpp:198-215 | writes the keys of each uuid that has some and the list of these uuids; without uuids nothing |
| IMEngineHotkey.IMEngineHotkeyMatcher.EnsureUuid | src/scim_hotkey.cpp:222-230 | the index of the uuid, put behind the others when it is new |
| IMEngineHotkey.IMEngineHotkeyMatcher.AddHotkey | src/scim_hotkey.cpp:217-233 | the key selects the uuid, all other keys what they selected; every index stays in range and the uuids distinct |
| IMEngineHotkey.IMEngineHotkeyMatcher.AddHotkeys | src/scim_hotkey.cpp:235-251 | the same for a list of keys |
| IMEngineHotkey.IMEngineHotkeyMatcher.GetAllHotkeys | src/scim_hotkey.cpp:265-278 | each key once with the uuid it selects, every lookup in range |
| IMEngineHotkey.IMEngineHotkeyMatcher.PushKeyEvent | src/scim_hotkey.cpp:293-297 | a match points to the uuid of the key pushed |
| IMEngineHotkey.IMEngineHotkeyMatcher.GetMatchResult | src/scim_hotkey.cpp:305-314 | the uuid of the match, or "" |
| IMEngineHotkey.Loaded | src/scim_hotkey.cpp:187-195 | loading binds each key to the last listed uuid whose list has it |
| IMEngineHotkey.LoadedUuids | src/scim_hotkey.cpp:187-195 | exactly the listed uuids with a key get an index |
| IMEngineHotkey.LargestWins | src/scim_hotkey.cpp:173-196 | a key listed for several uuids selects the largest of them |
| IMEngineHotkey.SavedConfig | src/scim_hotkey.cpp:198-215 | what was saved lists exactly the kept uuids, and for each its keys that survive |
| IMEngineHotkey.KeptInOrder | src/scim_hotkey.cpp:207-214 | the uuids are saved in the order the matcher has them |
| IMEngineHotkey.SaveLoad | src/scim_hotkey.cpp:173-215 | for a matcher with uuids that satisfy `GoodUuids`, saving and loading into a fresh one gives the same uuid for each key, ids renumbered and keyless uuids gone, if and only if every bound key is printed and parsed as itself; for a matcher without uuids, if and only if no listed uuid of the old configuration has a key |
| IMEngineHotkey.EmptiedComesBack | src/scim_hotkey.cpp:198-215 | after saving hotkeys that survive and then an emptied matcher, loading gives the hotkeys again |
| IMEngineHotkey.EmptiedSample | src/scim_hotkey.cpp:201 | such a configuration: "a" stays bound to the uuid "u" |
| Backend.BackEnd.AddFactory | src/scim_backend.cpp:294-306 | the first factory under a non-empty uuid is registered, later ones are not |
| Backend.BackEnd.GetFactoriesForEncoding | src/scim_backend.cpp:149-164 | lists exactly the factories valid for the encoding, or all for the encoding "", each once; languages never descend, nor names within a language |
| Backend.BackEnd.GetNextFactory | src/scim_backend.cpp:237-262 | one place on in the cycle of the language, or a fallback |
| Backend.BackEnd.GetPreviousFactory | src/scim_backend.cpp:264-292 | one place back in the cycle of the language, or a fallback |
| Backend.WalkNext | src/scim_backend.cpp:245-258 | the loops with early return find the next place of the cycle |
| Backend.NextBehind | src/scim_backend.cpp:250-253 | the inner loop finds the first factory of the language behind the current one |
| Backend.WalkPrevious | src/scim_backend.cpp:272-288 | the loops find the previous place of the cycle |
| Backend.PreviousBefore | src/scim_backend.cpp:279-282 | the inner loop finds the last factory of the language before the current one |
| Backend.StepFromPlace | src/scim_backend.cpp:237-292 | from a place of the cycle next leads one place on and previous one back |
| Backend.StepInAnyLanguage | src/scim_backend.cpp:245-292 | with the language "" next and previous walk the whole list and go round at its ends |
| Backend.NextInLanguage | src/scim_backend.cpp:245-258 | next is the first factory of the language behind the current one, or else the first of all of the language |
| Backend.PreviousInLanguage | src/scim_backend.cpp:272-288 | previous is the last one before it, or else the last of all of the language |
| Backend.StepWithoutLanguage | src/scim_backend.cpp:257-287 | without any factory of the language next is the first one listed and previous the last |
| Backend.CycleReturns | src/scim_backend.cpp:237-262 | m calls of next lead back to the start |
| Backend.CycleVisitsAll | src/scim_backend.cpp:237-262 | they come to every factory of the language |
| Backend.CycleVisitsOnce | src/scim_backend.cpp:237-262 | and to none twice |
| Backend.NextAndPreviousUndo | src/scim_backend.cpp:237-292 | previous undoes next and next undoes previous on the factories of the language |
| Backend.EntersCycle | src/scim_backend.cpp:237-292 | from a listed factory of another language one step enters the cycle, the two steps at neighbours; without any factory of the language it goes to an end of the list |
| Backend.UnlistedHasNone | src/scim_backend.cpp:237-292 | there is no next and no previous exactly when the current factory is not listed |
| FilterManager.UsableAre | src/scim_filter_manager.cpp:207-210 | the filters kept are distinct and exactly the known ones of the list |
| FilterManager.UsableInOrder | src/scim_filter_manager.cpp:207-210 | they stand in the order of their first occurrences |
| FilterManager.FilterManager.GetFilterInfo | src/scim_filter_manager.cpp:121-134 | finds exactly the offered filters |
| FilterManager.FilterManager.SelectFilters | src/scim_filter_manager.cpp:207-210 | the loop keeps the known filters, each once |
| FilterManager.FilterManager.SetFiltersForIMEngine | src/scim_filter_manager.cpp:199-228 | the configuration after setting the filters of a uuid |
| FilterManager.FilterManager.GetFiltersForIMEngine | src/scim_filter_manager.cpp:175-197 | the filters stored for a listed uuid |
| FilterManager.FilterManager.ClearAllFilterSettings | src/scim_filter_manager.cpp:161-173 | erases the list and the entries it names |
| FilterManager.FilterManager.GetFilteredIMEngines | src/scim_filter_manager.cpp:230-235 | the listed uuids |
| FilterManager.SetRepresents | src/scim_filter_manager.cpp:199-228 | setting rebinds the uuid in the map the configuration stands for, and no other |
| FilterManager.ClearRepresents | src/scim_filter_manager.cpp:161-173 | clearing empties that map |
| FilterManager.GetRepresents | src/scim_filter_manager.cpp:175-197 | getting reads it |
| FilterManager.FiltersAreRead | src/scim_filter_manager.cpp:175-197 | a uuid that is not in the list has no filters, and one that is the known ones of its entry |
| FilterManager.ListKeepsOrder | src/scim_filter_manager.cpp:199-228 | a uuid bound for the first time goes behind the others, one bound again stays where it is, and one without filters is taken out |
| FilterManager.BindingsRefineMap | src/scim_filter_manager.cpp:161-235 | after any calls of set and clear, get returns for each uuid the known filters of the list last set, and the filtered IMEngines are exactly the uuids with such a filter, each once. Under `GoodFilters` and `GoodOps` |
| FilterManager.OtherEntriesStay | src/scim_filter_manager.cpp:161-228 | no call touches an entry outside the filter settings |

## Left out

- Sockets, the helper agent and manager, modules, signals, windows, localized texts and debug output: input and output or foreign calls.
- Double-valued configuration entries (src/scim_global_config.cpp:226-245, 336-347): printing with `%lf` loses digits, so there is no round trip.
- Opening and locking files: a file is its text or absent, whether the directory is usable and the file can be written are inputs, and a flush is one step for the other processes.
- GlobalConfig.GlobalConfigRepository.ParseConfig: asks for lines that fit the reader's buffer, because a method here must end; on any other file the loop never does (`ConfigText.ReadingEnds`).
- KeyString.ApplyPiece: for a piece above every key name the source looks at the entry behind the table (src/scim_event.cpp:301), which has no defined value; the model tells when that happens and leaves the key as it is. NUL characters inside key strings are not modelled.
- KeyString.KeyRoundTrip: with a 32-bit `long` a code above 0x7fffffff without a name would be read as 0x7fffffff; the model has a 64-bit `long`.
- Hotkey.HotkeyMatcher.AddHotkeys: the keyboard layout a bound key carries along is not modelled, since comparing keys ignores it.
- FilterManager.FilterManager.GetFiltersForIMEngine: the configuration object is there; the source also handles a missing one. Loading the filter modules and attaching filters to factories are not modelled.
- ConvCompose.EncodeKeys: starts from the key names of a line; cutting the line of a Compose file into names and a character (src/conv_compose.cpp:165-189) and the column layout of the output are not modelled.
- ConfigProcesses.MultiProcessMerge: asks that keys flushed are storable, that values flushed have no newline and no NUL, and that both fit the reader's buffer (`GoodEvents`, `GoodFile`); what the file holds after a run that flushed others depends on the order in which the container passes them.
- ConfigProcesses.RunKeepsInv: has the same premises.
- ConfigProcesses.OnlyLoggedKeysChange: has the same premises.
- ConfigProcesses.ProcessReads: has the same premises.
- ConfigProcesses.FlushedIsRead: has the same premises.
- ConfigProcesses.FlushedIntsAreRead: has the same premises.
- IMEngineHotkey.SaveLoad: asks for uuids that are not empty, have no comma and are not "List".
- Backend.BackEnd.GetNextFactory: a factory's validity for an encoding is a set of encodings. The default factory, the locales and the loading of factories are not modelled.
- The Compose table, the key names and the layout tables as a whole: they are parameters, with a few rows taken as constants.
- ASCII and Unicode values of keys, layout names, and looking up hotkeys by uuid: they would only add easy members.
