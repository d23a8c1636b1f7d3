# Verified model of tdnf's package history and its companions

This project models five parts of tdnf in Dafny and proves what they are for. Operations that change state
are classes and methods with loops, proved against functions; what the repository promises is then proved about these
functions.

**The package history (`History*.dfy`, `SortedIds.dfy`).** The history database is a log: baseline transactions carry
SET items, delta transactions ADD and REMOVE items, and two append-only dictionaries number the NEVRAs and the package
names. `HistoryTables` holds the tables and the reference meaning of a replay; `HistoryDatabase` the statements, which
may fail, counting the failures; `HistoryContext` the class for `struct history_ctx`; `HistoryFlags` the
log of "auto installed" flags; `HistoryRuns` all runs of all operations; `HistoryUndo` rollback, undo and redo;
`HistoryTransaction` the order of sync, rpm run, record and flag steps around a transaction, and the queues of a history
command; `HistorySearch` these queues with the search of `Nevra`; `HistoryMark` marking by hand. An rpm database snapshot is
a sequence of distinct NEVRAs with a cookie, and equal cookies mean equal snapshots (the parameter `snap`).

Points where the model had to look twice:

- A dictionary INSERT that fails in its step is not noticed (history/history.c:413-418): its id is then 0. COMMIT is not
  checked either; a lost COMMIT is modelled as the rows of the transaction being gone. `SuccessIsReadable` says that a
  success leaves a readable history exactly if neither happened, `LostInsertExample` gives a case, and
  `UpdateReadable` is the exact condition for one update.
- The comment at history/history.c:1126-1128 reads in the opposite direction to the code: history_get_delta_range
  returns what turns the state at trans_id1 into the state at trans_id0, and client/api.c:2160-2167 relies on that.
- The question in history/history.c:779, whether ordering flags by id or by trans_id matters, is answered: they agree on
  the row read by id, and ordering by trans_id alone is decided by the data exactly if the last transaction that wrote the
  name wrote it once (`OrderByTransDecides`).
- Row ids are contiguous: AUTOINCREMENT is rolled back together with the rows. history_get_flags_delta gives null where
  there is no table of names yet.
- A SELECT that fails while its rows are stepped through is not modelled as a step. The source takes it for the end of the
  rows everywhere: a replay then ends early without an error (history/history.c:497, 532), which changes nothing exactly if the
  rows left out would not have (`CutReplay`); a dictionary entry is not found and entered a second time
  (history/history.c:389); history_sync takes the store for a fresh one.
- TDNFHistoryResolve reads the number of flags to change also where history_get_flags_delta has given null
  (client/api.c:2289-2293): a command that changes no package then fails exactly if no flag was ever set
  (`NeedActionExact`); the first rollback after the first sync is such a command (`NullDeltaExample`).
- history_update_state and history_record_state are only called on a context that history_sync has just been through, or
  inside it. For any other context `UpdateExact` and `RecordExact` say when they record the right thing.
- TDNFMark adds its transaction through a context that was opened and not synced (client/api.c:2494-2497). That
  transaction reuses the last cookie, so it replays to the packages of that cookie, and not to what is installed if rpm
  has changed this meanwhile: `AddStandsFor` is the exact condition and `StaleMarkExample` a run. The next sync records
  the difference. TDNFMark also ignores a failure of this step and then changes the flags of the transaction before.

**The llconf tree (`Ini*.dfy`, `Conf*.dfy`, `Cnf*.dfy`).** `CnfTree` is a tree as a value, `CnfNodes` the nodes linked by
first_child, next and parent on the heap; a ghost shape and `Holds` tie the two. On this stand the walk, the order, the
clone, the recursive ini parser and printer, and reading, setting and deleting entries by path. `IniFormat` holds what
parsing and printing compute. Points where the code does not do what one would expect:

- Reading an ini file dereferences a missing line if the file ends inside a nested group, or inside a group whose brace
  is followed by a comment. `Parse` is None there; `IniEnds` says for which files, by going once through the lines and
  counting braces, and gives a file of three lines (`UnclosedExample`).
- A comment behind an opening brace makes the parser store the line it arrived at, the closing one, as a comment
  (`StrayCommentExample`); nodes whose name begins with a dot are printed at the top level only as raw lines; a header
  without ']' keeps its line break in the name; a reserved node without a value prints "(null)" as the GNU C library
  does. So parse, print, parse is not always parse: `IniExact` proves for exactly which trees it is.
- `IniLayout` and `IniWritten` do not start from printed files: whatever spacing a file is laid out in, each kind of line
  is read as what it says (`TextShape`: there are no other lines), and so is the file (`FileRead`).

**Solver job policy (`Goal*.dfy`).** The install-only limit, protected packages, and the loop with at most one retry
around an arbitrary solver.

**The JSON builder (`Json*.dfy`).** The growing buffer of jsondump, and a reader after RFC 8259 (sections 2 to 7) as the
independent reference: integers only, no white space, no surrogate pairs, none of which jsondump prints.

**Strings (`Nevra.dfy`, `Quote.dfy`).** Taking NEVRA strings apart, and quoting.

## Model

| member | source | states |
|---|---|---|
| `SortedIds.DiffArrays` | history/history.c:159-206 | the merge writes, inside its two buffers, the elements only in the first and only in the second list |
| `SortedIds.DiffIsSetDifference` | history/history.c:159-206 | on strictly sorted lists these are the two set differences, sorted and disjoint |
| `HistoryTables.StateAtFormula` | history/history.c:484-591 | in well-formed tables every recorded transaction replays: a baseline to its SET items, a delta to its predecessor without its REMOVE and with its ADD items |
| `HistoryTables.StateAtInRange` | history/history.c:484-591 | replays stay inside the dictionary |
| `HistoryTables.CutReplay` | history/history.c:484-549 | a replay that ends before its last rows gives the same exactly if each row left out adds what is there or removes what is not |
| `HistoryTables.ReplayAppendOnly` | history/history.c:553-643 | appending dictionary entries, transactions and their items changes no earlier replay |
| `HistoryDatabase.Database.PlayTransaction` | history/history.c:553-591 | rewinding to the nearest baseline and folding deltas over the byte map computes the reference replay, with its failures |
| `HistoryDatabase.Database.GetDictEntry` | history/history.c:372-424 | at most one new entry, the right id, and id 0 or the caller's value where an insert was lost |
| `HistoryDatabase.Database.UpdateRpms` | history/history.c:598-643 | the ids of the snapshot, sorted, and a dictionary that only grows |
| `HistoryDatabase.Database.ReadDelta` | history/history.c:438-480 | both lists fit the buffers sized by the dictionary; in well-formed tables the capacity check never fires |
| `HistoryDatabase.RoomForRow` | history/history.c:438-480 | before every row there is room for one more id in either list |
| `HistoryDatabase.ReadDeltaMeans` | history/history.c:438-480 | the lists are sorted and hold exactly the added (or set) and the removed ids |
| `HistoryDatabase.Database.StringMap` | history/history.c:323-363 | the map is the whole dictionary, whatever its size |
| `HistoryDatabase.NevraMapInverts` | history/history.c:1200-1209 | history_get_nevra and the dictionary are inverse, and undefined exactly outside 1..n |
| `HistoryContext.GetIdsFromMap` | history/history.c:1029-1051 | the byte map as a sorted list of exactly its members |
| `HistoryContext.HistoryCtx.SetState` | history/history.c:1212-1236 | installed ids become the replay of the transaction, or nothing changes |
| `HistoryContext.HistoryCtx.UpdateState` | history/history.c:1413-1481 | all or nothing: the appended delta transaction of AfterUpdate, or tables (but for dictionary entries), ids, cookie and transaction id as before |
| `HistoryContext.HistoryCtx.RecordState` | history/history.c:1241-1280 | all or nothing: a new baseline with the context's ids, or no row at all |
| `HistoryContext.HistoryCtx.AddTransaction` | history/history.c:1390-1407 | an empty delta transaction, or nothing; it fails on a database without transactions |
| `HistoryContext.HistoryCtx.Sync` | history/history.c:1484-1557 | first baseline, unchanged cookie, or a recorded difference, each with its failures |
| `HistoryContext.HistoryCtx.GetDelta` | history/history.c:1083-1124 | what turns the installed ids into the replay of a transaction |
| `HistoryContext.HistoryCtx.GetDeltaRange` | history/history.c:1129-1184 | what turns the state at the second transaction into the state at the first |
| `HistoryContext.HistoryCtx.GetAutoFlag` | history/history.c:865-875 | the flag as of the context's transaction |
| `HistoryContext.HistoryCtx.SetAutoFlag` | history/history.c:845-863 | at most one new entry, only if the value changes |
| `HistoryContext.HistoryCtx.RestoreAutoFlags` | history/history.c:878-910 | the writes of restoring, complete if it succeeds, otherwise those of the first names |
| `HistoryContext.HistoryCtx.ReplayAutoFlags` | history/history.c:913-952 | the writes of replaying, likewise |
| `HistoryContext.HistoryCtx.GetFlagsDelta` | history/history.c:964-1016 | the flags delta, null without a table of names |
| `HistoryState.SnapshotIds` | history/history.c:598-643 | the ids of a snapshot are strictly sorted, in range, and stand for exactly its packages |
| `HistoryState.UpdateReplays` | history/history.c:1413-1481 | what the new transaction replays to for any ids of the context: the newest state without the ids only the context has, and with those only the snapshot has |
| `HistoryState.UpdateRecords` | history/history.c:1413-1481 | the new transaction replays to the new ids, these stand for the snapshot, and all older replays stay |
| `HistoryState.UpdateReadable` | history/history.c:372-424 | the new transaction can be replayed exactly if no dictionary insert of an installed package was lost |
| `HistoryState.SyncRow` | history/history.c:1241-1557 | the row that a sync adds: the cookie found, and "(set)" as a baseline or "(unknown)" as a change |
| `HistoryState.UpdateRow` | history/history.c:1390-1481 | the row that an update or an added transaction writes |
| `HistoryState.RecordRecords` | history/history.c:1241-1280 | a new baseline replays to the ids of the context, older replays stay |
| `HistoryState.AddTransactionRecords` | history/history.c:1390-1407 | the empty transaction replays to its predecessor's set, whatever the ids of the context are |
| `HistoryRuns.StepKeeps` | history/history.c:1390-1557 | every operation, failing noticeably or not, keeps the invariant and all replays; a context that describes the newest transaction goes on doing so, and a successful sync makes it do so |
| `HistoryRuns.SuccessIsReadable` | history/history.c:1413-1557 | a reported success leaves the context at a readable newest transaction, which it describes if it was synced before or is now, exactly if no COMMIT and no dictionary insert was lost |
| `HistoryRuns.LostInsertExample` | history/history.c:1484-1557 | the very first sync can succeed and leave a baseline that does not replay |
| `HistoryRuns.AddStandsFor` | history/history.c:1390-1407 | an added transaction stands for the packages of the rpm database exactly if these are the packages of the cookie it reuses |
| `HistoryRuns.StaleMarkExample` | client/api.c:2491-2516 | rpm removes a package, TDNFMark marks another: a run whose last transaction still has the removed one |
| `HistoryRuns.UpdateExact` | history/history.c:1413-1481 | on any context an update records the snapshot exactly if the ids of the context that the snapshot has are in the newest state, and this has nothing that neither of the two has |
| `HistoryRuns.RecordExact` | history/history.c:1241-1280 | a baseline recorded over other transactions is right exactly if the ids of the context are the newest state |
| `HistoryRuns.RunsKeepInvariant` | history/history.c:1559-1601 | the invariant in every state of every run, from an empty database on |
| `HistoryRuns.RunsKeepReplays` | history/history.c:484-591 | in every later state of every run a recorded transaction replays, to the same ids, standing for exactly the packages of the cookie it was recorded with |
| `HistoryRuns.RunsStaySynced` | history/history.c:1484-1557 | from a successful sync on the ids of the context are the replay of its transaction, the newest one |
| `HistoryRuns.RunsKeepEarlierFlags` | history/history.c:773-807 | in every run, flags as of a transaction before the newest never change |
| `HistoryFlags.SuccessiveEntriesDiffer` | history/history.c:810-863 | successive entries of a name differ, and its first one is not 0 |
| `HistoryFlags.SetFlagRecords` | history/history.c:749-770 | a write keeps the log in order and alternating, gives the name its value, and changes no other name's flag and no earlier reading; assumes that no dictionary insert was lost, which `SetFlagTakes` shows to be needed |
| `HistoryFlags.SetFlagTakes` | history/history.c:749-770 | a reported write that changes the flag takes effect exactly if the name is in the dictionary, that is, if its insert was not lost |
| `HistoryFlags.OrderByTransDecides` | history/history.c:773-807 | ordering by trans_id alone reads the same value as ordering by id exactly if the last writing transaction wrote the name once |
| `HistoryFlags.RestoreReads` | history/history.c:878-910 | afterwards every name's flag is its flag as of the given transaction |
| `HistoryFlags.ReplayReads` | history/history.c:913-952 | exactly the names whose flag differs between the two transactions get their value at the second one |
| `HistoryFlags.ReplayFromNowIsRestore` | history/history.c:878-952 | replaying from the current transaction is restoring |
| `HistoryFlags.DeltaIsWhatReplayWrites` | history/history.c:964-1016 | the flags delta lists exactly the entries that replaying then writes, in order |
| `HistoryUndo.DeltaTurns` | history/history.c:1083-1184 | applying a delta reaches the wanted set, and swapping its lists reverses it |
| `HistoryUndo.SwappedRangeSwapsDelta` | history/history.c:1129-1184 | swapping the transactions swaps added and removed |
| `HistoryUndo.UndoThenRedo` | client/api.c:2067-2321 | undo then redo is the identity on exactly the installed sets that agree with the end of the range on what it changed |
| `HistoryUndo.RecordingReaches` | history/history.c:1413-1481 | recording what an rpm transaction left gives a transaction that replays to the wanted ids |
| `HistoryUndo.RollbackIsExact` | client/api.c:2067-2321 | carrying out a rollback and recording it gives a transaction with the replay of the one rolled back to |
| `HistoryUndo.UndoRedoOnRecord` | client/api.c:2067-2321 | for a range that ends anywhere: after recorded undo and redo the newest transaction replays to what was there before exactly if that agreed with the end of the range on what the range changed; undo at the end of the range puts the state before it on record |
| `HistoryUndo.CommandLands` | client/rpmtrans.c:253-358 | after a history command the newest transaction replays to the ids aimed at |
| `HistoryTransaction.MarkAutoInstalled` | client/goal.c:708-771 | every installed package gets its flag: 1 for those nobody asked for, 0 for the others unless only auto installed ones are marked; all other names keep theirs |
| `HistoryTransaction.RunTransactionWithHistory` | client/rpmtrans.c:148-184 | sync, run, record: on success the transaction of the new snapshot is on record |
| `HistoryTransaction.ExecHistoryTransaction` | client/rpmtrans.c:253-358 | on success the history is good, at its head, stands for the packages left, and every name has the flag the command calls for, also for targets that are not there yet |
| `HistoryTransaction.HistoryResolve` | client/api.c:2067-2180 | refused exactly are rollbacks to nothing and ranges that begin with the base set or end before they begin; otherwise, without failing statements, the package and flag delta of the command |
| `HistoryTransaction.BeyondIsNewest` | history/history.c:553-591 | a target beyond the newest transaction replays to the newest state |
| `HistoryTransaction.ResolvedListed` | client/api.c:2154-2168 | the flag delta lists exactly the names whose flag carrying out the command changes, with their new flags |
| `HistoryTransaction.FlagsComeOut` | client/rpmtrans.c:324-336 | rollback gives every name the flag of its target, undo of the newest transactions the flag from before them, redo from there the flag of the end of the range |
| `HistoryTransaction.DeltaComesOut` | client/api.c:2154-2168 | the package delta reaches the target of a rollback, undo from the end of a range the state before it, redo from there the end of it |
| `HistoryTransaction.KeysBegin` | client/api.c:2203 | keys are the NEVRAs that begin with gpg-pubkey- |
| `HistoryTransaction.FillQueues` | client/api.c:2180-2300 | the install, erase and missing lists for a delta; fails exactly if some id is unknown or, unless it is a key, one of the searches made for it fails |
| `HistoryTransaction.InstallsExact` | client/api.c:2198-2245 | what is queued for installation is exactly the first solvable on offer of each added id that is no key and not installed |
| `HistoryTransaction.MissingExact` | client/api.c:2198-2245 | what is reported as missing are exactly the added names that are no keys and not on offer |
| `HistoryTransaction.ErasesExact` | client/api.c:2247-2263 | what is queued to be erased are exactly the installed solvables of the removed ids that are no keys |
| `HistoryTransaction.QueuesReach` | client/api.c:2198-2263 | with both queues carried out, a package that is no key is installed exactly if its id is among the ids after the delta, and not one that was reported as missing without being installed |
| `HistorySearch.SearchQueuesReach` | solv/simplequery.c:61-135 | the same with the real search, for every NEVRA that can be taken apart and whose installed solvables have parts of the usual form |
| `HistorySearch.CanQueueExactly` | solv/simplequery.c:96-135 | with the real search the queues can be filled exactly if every NEVRA that is no key can be taken apart |
| `HistorySearch.SearchFindsAll` | solv/simplequery.c:61-135 | it finds all installed solvables of a NEVRA that can be taken apart exactly if all of these have parts of the usual form |
| `HistoryMark.Mark` | client/api.c:2451-2540 | a new transaction with the packages of the one before and the flags set; if adding it fails, the flags of the newest one are set; on a store without transactions nothing but an error |
| `HistoryTransaction.NeedActionExact` | client/api.c:2141-2293 | a null flags delta is read exactly if no package changes and no flag was ever set; otherwise nothing is to be done exactly if no package changes and carrying out the command would give every name the flag it has |
| `HistoryTransaction.NullDeltaExample` | client/api.c:2289-2293 | the first sync and a rollback to the only transaction: the null delta is read |
| `HistoryTransaction.EveryAdditionAccountedFor` | client/api.c:2180-2300 | every added package is a key, missing, installed already, or queued |
| `CnfNodes.AppendNode` | llconf/nodes.c:194-202 | exactly the links that appending changes |
| `CnfNodes.AppendHolds` | llconf/nodes.c:194-202 | these links make the appended tree the last child |
| `CnfNodes.InsertNodeBefore` | llconf/nodes.c:208-217 | exactly the links that inserting changes |
| `CnfNodes.InsertHolds` | llconf/nodes.c:208-217 | these links put the tree in front of the given child |
| `CnfNodes.UnlinkNode` | llconf/nodes.c:224-231 | exactly the link that unlinking changes |
| `CnfNodes.RemoveHolds` | llconf/nodes.c:224-231 | this takes the child out and leaves the child's own tree whole |
| `CnfWalk.WalkStep` | llconf/nodes.c:348-360 | from any node of a tree to the next one in preorder, null after the last |
| `CnfWalk.Walk` | llconf/nodes.c:348-360 | stepping from the root visits every node exactly once, in preorder, and ends |
| `CnfCompare.CompareCnfTree` | llconf/nodes.c:282-310 | computes the order below |
| `CnfCompare.CompareAntisymmetric` | llconf/nodes.c:282-310 | comparing the other way round changes the sign, and 0 means equal trees and nothing else |
| `CnfCompare.CompareTransitive` | llconf/nodes.c:282-310 | the order is transitive |
| `CnfCompare.StrCmpIs` | llconf/nodes.c:77-109 | strings are ordered by the first character that differs, a shorter one first |
| `CnfCompare.CompareDecides` | llconf/nodes.c:96-310 | names decide first (2), then values, a missing one being the smallest (1), then the first children that differ, a missing one being the smallest (3) |
| `CnfCompare.CloneTree` | llconf/nodes.c:256-268 | a tree of new nodes with the same content, which compares 0 with the original |
| `CnfCompare.ComparesZero` | llconf/nodes.c:282-310 | two trees compare 0 exactly if they hold the same |
| `IniText.SplitJoin` | llconf/lines.c:69-83 | a file of proper lines is read as these lines |
| `IniReader.ReadConfLines` | llconf/lines.c:69-83 | reading splits a text behind every line break |
| `IniReader.ReadSubLine` | llconf/ini.c:64-125 | the cursor loops of a line inside a group read what `SubLineOf` says |
| `IniReader.ReadSecLine` | llconf/ini.c:138-195 | the same for a line of a section and `SecLineOf` |
| `IniReader.ReadTopLine` | llconf/ini.c:221-251 | the same at the top level and `TopLineOf` |
| `IniLayout.SecValueLine` | llconf/ini.c:153-170 | "name=value" in a section, in any spacing, is that name and that value up to the end of the line |
| `IniLayout.SubValueLine` | llconf/ini.c:84-110 | the same inside a group, where white space behind the value does not count |
| `IniLayout.BraceLine` | llconf/ini.c:84-117 | "name={" begins a group, which is open unless a closing brace comes next; in a section a comment character there makes it a stray one |
| `IniLayout.CommentLine` | llconf/ini.c:64-195 | comments are kept with the white space in front of them |
| `IniLayout.BlankLine` | llconf/ini.c:64-251 | blank lines at every level |
| `IniLayout.ClosingLine` | llconf/ini.c:64-72 | a closing brace ends a group, whatever follows it |
| `IniLayout.HeadLine` | llconf/ini.c:138-238 | a header ends a section, and its name goes up to the bracket |
| `IniLayout.TopTextLine` | llconf/ini.c:221-251 | everything else at the top level is kept as a comment |
| `IniLayout.JunkLine` | llconf/ini.c:118-195 | a line whose first word no '=' follows is kept as it is |
| `IniLayout.TextShape` | llconf/ini.c:60-195 | every line is of one of these shapes |
| `IniParser.ParseSubsection` | llconf/ini.c:60-128 | the recursive parser builds the nodes of a group, to any depth, and arrives at the line where `ParseSub` stops; fails exactly where `ParseSub` has no result |
| `IniEnds.SubEnds` | llconf/ini.c:60-128 | parse_ini_subsection fails exactly if the lines end with a group opened inside and not closed, by a count of opening and closing lines; otherwise it stops at the line that closes its own group, or at the end of the file |
| `IniParser.ParseSectionLines` | llconf/ini.c:131-205 | the nodes of a section up to the next header |
| `IniEnds.SectionEnds` | llconf/ini.c:131-205 | parse_ini_section fails exactly if the file ends in it inside two groups, or inside one with a comment behind its brace; otherwise it stops at a header or at the end of the file |
| `IniParser.ParseIni` | llconf/ini.c:207-255 | the tree of nodes holds the parse of the text |
| `IniWritten.MembersRead` | llconf/ini.c:60-128 | lines laid out in any spacing, with groups to any depth, are read as the nodes they say |
| `IniWritten.EntriesRead` | llconf/ini.c:131-205 | the same for a section |
| `IniWritten.FileRead` | llconf/ini.c:207-255 | the same for a whole file: its parse is the tree of what it says |
| `IniWritten.EnabledExample` | etc/tdnf/pluginconf.d/tdnfmetalink.conf:1-2 | the parse of this file |
| `IniEnds.ParseFails` | llconf/ini.c:207-255 | parse_ini fails exactly if one pass over the lines, which looks at headers and braces only, ends inside two groups or inside one with a comment behind its brace |
| `IniEnds.UnclosedExample` | llconf/ini.c:60-128 | a file of three lines that fails, with an inner group that is not closed |
| `ConfLines.AppendConfLine` | llconf/lines.c:58-67 | a new last line, and the list begins as before |
| `IniPrinter.UnparseSubsection` | llconf/ini.c:258-292 | the lines of a group are appended, to any depth |
| `IniPrinter.UnparseIni` | llconf/ini.c:294-339 | the text written is the printed form of the tree |
| `IniPrinted.PrintedExample` | llconf/ini.c:258-339 | the printed lines of a tree with comments, a blank line and nested groups |
| `IniPrinted.NullPrinted` | llconf/ini.c:300-315 | what nodes without a value print where one is expected |
| `IniPrinted.IndentIs` | llconf/ini.c:266-269 | eight blanks a level, at most 255 |
| `IniFormat.GroupRoundTrip` | llconf/ini.c:60-128 | a printed group is read back up to its closing line, to any depth |
| `IniExact.RoundTripExact` | llconf/ini.c:207-339 | parsing what was printed gives back a tree exactly if it is well-formed |
| `IniReparse.ParsedIsOkIffTidy` | llconf/ini.c:59-255 | a parsed tree is well-formed exactly if it is tidy, which looks at names, raw comments and values only |
| `IniExact.ReparseExact` | llconf/ini.c:59-339 | parse, print, parse gives the same as parse exactly for the texts that parse to a tidy tree |
| `IniReparse.StrayCommentExample` | llconf/ini.c:181-187 | a comment behind '{' becomes a comment node that is lost when the file is printed and read again |
| `CnfPaths.MatchesExact` | llconf/entry.c:99-200 | cnf_find_entry finds exactly the nodes whose names spell the path |
| `CnfPaths.MatchesInOrder` | llconf/entry.c:99-200 | in preorder, none twice |
| `CnfPaths.MatchesFirst` | llconf/entry.c:99-200 | where only the first is wanted, the places without an earlier sibling of the same name |
| `CnfPaths.ComponentsJoined` | llconf/entry.c:99-150 | a path is its names with slashes in between; a slash at the end does not count |
| `CnfPaths.FirstMatch` | llconf/entry.c:99-216 | the search for the first one finds the first of all |
| `CnfPaths.FirstIsEarliest` | llconf/entry.c:99-216 | the first place is the earliest in preorder of all that the names spell, and there is none exactly if there are none |
| `CnfEntry.FindEntries` | llconf/entry.c:99-200 | the recursive search on the heap appends these nodes |
| `CnfEntry.GetNode` | llconf/entry.c:409-424 | the first node of the path, null if there is none |
| `CnfEntry.GetEntry` | llconf/entry.c:381-399 | the value that the path reads |
| `CnfEntry.AddBranch` | llconf/entry.c:241-293 | the tree with the missing nodes of the path made, and the last of them |
| `CnfEntry.SetEntry` | llconf/entry.c:352-372 | the tree after setting, or the error and nothing changed |
| `CnfEntry.SetPathFails` | llconf/entry.c:352-372 | "." is the root; setting fails exactly if the path leads nowhere and no entry is made, never for the empty path |
| `CnfSetting.MergeReads` | llconf/entry.c:241-293 | what every path reads after a merge: the value, nothing on the new nodes on the way, else as before |
| `CnfSetting.GetAfterSet` | llconf/entry.c:352-399 | on every tree the path then reads the value set |
| `CnfSetting.SetsFirst` | llconf/entry.c:352-372 | setting an entry that is there changes the value of the first one and nothing else |
| `CnfSetting.MergeKeepsPlaces` | llconf/entry.c:241-293 | making entries moves no node and changes no value but that of the entry |
| `CnfSetting.SetExistingKeepsOthers` | llconf/entry.c:352-372 | setting an entry that is there changes no other path |
| `CnfSetting.SetNewKeepsOthers` | llconf/entry.c:241-293 | making an entry changes no other path exactly if no node made on the way takes the place of one with a value |
| `CnfSetting.UniqueKeepsOthers` | llconf/entry.c:352-399 | with unique siblings every other path reads as before |
| `CnfSetting.SetKeepsUnique` | llconf/entry.c:241-293 | setting keeps siblings unique |
| `CnfSetting.HiddenValueExample` | llconf/entry.c:241-293 | with two siblings of one name, a value gets hidden |
| `CnfEntry.PathsAfterSet` | llconf/entry.c:352-399 | the same for paths as text, with "." and a slash at the end |
| `CnfDelBranch.DelBranch` | llconf/entry.c:305-339 | the tree after deleting, with the empty nodes above it if wanted, or the error and nothing changed |
| `CnfDelBranch.DeletesFirst` | llconf/entry.c:305-339 | deleting takes out the first node the path leads to, and fails exactly if there is none |
| `CnfDelBranch.PruneMeans` | llconf/entry.c:313-330 | unlinking the empty parents one by one on the way up deletes what the recursive meaning says |
| `CnfDeleting.DeleteReads` | llconf/entry.c:305-339 | with unique siblings, paths that begin with the topmost deleted node lead nowhere, all others read as before |
| `CnfDeleting.DeleteUndoesSet` | llconf/entry.c:305-372 | deleting a path right after it was made gives back the tree exactly if it was attached to the root or to a node that had children |
| `GoalLimit.CheckInstallOnlyLimit` | client/goal.c:1026-1126 | the limit error exactly if for some name the installed packages and those installed newly are more than the limit and those erased; and the erase jobs added |
| `GoalLimit.PickedForName` | client/goal.c:1094-1114 | the erase jobs of a name are the first of its packages left, the excess for every time it is configured or all there are |
| `GoalLimit.PickedAreSpare` | client/goal.c:1094-1114 | all erase jobs are for different installed packages of exceeding names that the transaction leaves |
| `GoalLimit.RetryWithin` | client/goal.c:1026-1126 | erasing what was asked for suffices exactly if no exceeding name installs more than the limit, also for names configured repeatedly |
| `GoalLimit.RetryJobs` | client/goal.c:1026-1126 | with distinct names an exceeding name gets min(excess, left) erase jobs |
| `GoalLimit.TallyOnRetry` | client/goal.c:1026-1126 | how many packages there are then, also for names configured repeatedly |
| `GoalLimit.ConfiguredTwiceExample` | client/goal.c:1026-1126 | a name that is configured twice loses twice the excess |
| `Goal.AddProtectPkgs` | client/goal.c:1214-1301 | fails exactly if a protected package is erased directly without being added again; otherwise the old jobs and one solvable job for every installed package, user installed for the protected and allow uninstall for all others |
| `Goal.CheckProtectPkgs` | client/goal.c:1304-1363 | fails exactly if a step obsoletes or erases a protected package, in either of the two modes asked for |
| `Goal.Solv` | client/goal.c:283-405 | whatever the solver does: no call exactly if a protected package is to be erased directly, a second one exactly if the first transaction is over the limit, success exactly for a transaction that keeps protected packages and limits, and which outcome each error comes from |
| `Goal.RetrySucceeds` | client/goal.c:365-405 | with a solver that does what it is asked, the retry succeeds exactly if no package erased is protected and no exceeding name installs more than the limit |
| `JsonDump.JsonDump.Realloc` | jsondump/jsondump.c:106-119 | the text stays, the wanted characters and the NUL fit, and the buffer grows by these and 256 more only if it has to |
| `JsonDump.JsonDump.Print` | jsondump/jsondump.c:218-225 | snprintf into the rest of the buffer, with truncation |
| `JsonDump.JsonDump.AddRaw` | jsondump/jsondump.c:196-226 | nothing is cut off, every write is inside the buffer, and the text goes on where the closing bracket was |
| `JsonDump.JsonDump.MapAddString` | jsondump/jsondump.c:233-249 | the buffer is the text of the map with one more member, null for a missing string |
| `JsonDump.JsonDump.MapAddInt` | jsondump/jsondump.c:251-267 | the same with a number |
| `JsonDump.JsonDump.MapAddChild` | jsondump/jsondump.c:299-302 | the same with another buffer's value, which is left alone |
| `JsonDump.JsonDump.ListAddString` | jsondump/jsondump.c:350-367 | the buffer is the text of the list with one more item |
| `JsonDump.JsonDump.ListAddChild` | jsondump/jsondump.c:417-420 | the same with another buffer's value |
| `JsonDump.OneMoreMember` | jsondump/jsondump.c:196-226 | rewinding over the bracket and printing a member gives the text of the longer map, whatever its members end in |
| `JsonDump.OneMoreItem` | jsondump/jsondump.c:317-347 | the same for lists |
| `JsonDump.JsonifyString` | jsondump/jsondump.c:128-179 | the worst-case buffer suffices |
| `JsonText.ReadJsonified` | jsondump/jsondump.c:128-179 | unescaping undoes jsonify_string for every string; RFC 8259 reads it exactly if no other control character is in it |
| `JsonText.EscapesAre` | jsondump/jsondump.c:128-179 | escaped are exactly the quote, the backslash and five control characters, with the short escapes of RFC 8259 |
| `JsonText.KeyExact` | jsondump/jsondump.c:209-226 | a key that is printed as it is reads back exactly if it needs no escaping |
| `JsonReadBack.DecimalFits` | jsondump/jsondump.c:251-267 | numbers of 64 bits fit the buffer of 22 characters |
| `JsonReadBack.ReadBackExact` | jsondump/jsondump.c:193-420 | the text of a value, nested to any depth, is JSON text for this value exactly if its keys and strings are clean |
| `Nevra.SplitInPlace` | solv/simplequery.c:28-55 | cuts the buffer into name, EVR and architecture, or the code of the scan that failed |
| `Nevra.SplitExact` | solv/simplequery.c:28-55 | a string is taken apart into three parts exactly if it is made of them and they are of the usual form |
| `Nevra.SplitFails` | solv/simplequery.c:28-55 | which of the three error codes a string gives that cannot be taken apart |
| `Nevra.FindByNevra` | solv/simplequery.c:61-135 | the search for solvables by a NEVRA string |
| `Nevra.FoundExactly` | solv/simplequery.c:61-135 | it finds exactly the (not) installed solvables with this NEVRA whose parts are of the usual form |
| `Nevra.SplitEvrInPlace` | solv/tdnfpackage.c:1627-1728 | cuts a copy into epoch, version and release; error for an empty string |
| `Nevra.SplitEvrExact` | solv/tdnfpackage.c:1657-1705 | an EVR with one dash gives back its parts exactly under conditions on empty parts and colons |
| `Nevra.SplitEvrIs` | solv/tdnfpackage.c:1657-1705 | the parts of any string, by its last colon and its last dash behind that |
| `Nevra.EvrPlaces` | solv/tdnfpackage.c:1657-1705 | every string has such places |
| `Nevra.NevraRoundTrip` | solv/tdnfpackage.c:1657-1705 | both splits recover name, epoch, version, release and architecture exactly if these are of the usual form |
| `Quote.QuoteString` | llconf/strutils.c:145-175 | the quoted copy and its NUL fill exactly the size computed |
| `Quote.EscapedEach` | llconf/strutils.c:145-175 | every quote gets a backslash, every other character stays |
| `Quote.UnquoteString` | llconf/strutils.c:178-198 | what unquoting makes, inside its buffer |
| `Quote.UnescapedPair` | llconf/strutils.c:178-198 | a backslash in front of a quote is left out |
| `Quote.UnescapedOther` | llconf/strutils.c:178-198 | and no other one is |
| `Quote.UnquotedSides` | llconf/strutils.c:178-198 | a quote at either side goes |
| `Quote.UnquoteQuoted` | llconf/strutils.c:145-198 | unquoting undoes quoting exactly on strings that do not end in a backslash, and otherwise loses it |

## Left out

- CnfEntry.FindEntries: paths with a backslash, '[' or '=' are left out; the source compares a "=value" with the node's name, so that syntax has no meaning to prove.
- CnfEntry.GetNode: paths with a backslash, '[' or '=' are left out, as for CnfEntry.FindEntries.
- CnfEntry.GetEntry: paths with a backslash, '[' or '=' are left out, as for CnfEntry.FindEntries.
- CnfEntry.SetEntry: paths with a backslash, '[' or '=' are left out, as for CnfEntry.FindEntries.
- CnfEntry.AddBranch: paths with a backslash, '[' or '=' are left out; only do_merge is modelled, the one way cnf_set_entry calls it, the other way makes a new branch without looking.
- CnfDelBranch.DelBranch: paths with a backslash, '[' or '=' are left out; the path "." is not modelled, because unlink_node dereferences the missing parent of a root; freeing the deleted nodes is left out.
- IniReader.ReadSecLine: the comment character is ASCII and not NUL; with a NUL the source adds a comment after every leaf, and above 127 the comparison depends on whether char is signed.
- IniParser.ParseIni: a text has no NUL in it; the list of lines is walked by position, and line and name buffers are unbounded where the source has 256 or 1024 characters.
- IniPrinter.UnparseIni: the buffer of 1024 characters for a line is unbounded.
- Nevra.SplitInPlace: the empty string is left out, because the source then reads in front of the buffer.
- Nevra.FindByNevra: the empty string is left out for the same reason.
- JsonDump.JsonDump.Realloc: sizes are unbounded, so overflow of unsigned int is not modelled, and allocation does not fail.
- JsonDump.JsonDump.MapAddChild: a buffer is not added to itself, and a child is complete, that is, started.
- JsonDump.JsonDump.ListAddChild: a buffer is not added to itself, and a child is complete, that is, started.
- HistoryRuns.RunsKeepReplays: assumes what SuccessIsReadable shows to be needed, that no COMMIT and no dictionary insert is lost unnoticed.
- HistoryDatabase.Database.GetDictEntry: a SELECT that fails in its step, after which the source enters the entry a second time, is left out.
- HistoryDatabase.Database.PlayTransaction: a SELECT that fails in its step, and so ends the rows early, is left out; see CutReplay.
- HistoryContext.HistoryCtx.UpdateState: the cookie of the context is known, as after history_sync; the source passes a null one to strcmp.
- Goal.Solv: the solver, its flags and problem reports are one arbitrary function of the jobs and the number of earlier calls; everything after the loop is left out.
- SQLite, librpm and libsolv are statements that may fail, snapshots and oracles; one process and one context use the history at a time.
- Timestamps, command lines as data, history_get_transactions and its listing: plain copying.
- strip_cnftree, cnfnode_path, find_node, compare_cnftree_children and dump_nodes: would only add easy members.
- Path normalisation, repository globs, min-version filters, package locks, the lock file, options, size formatting, printing, error strings and memory management.
