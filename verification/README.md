# A verified model of xconfwebconfig's core

xconfwebconfig answers set-top boxes' requests for firmware and settings. This project models, in
Dafny, the parts of it whose correctness cannot be read off one function body: the change-log
cache synchronisation, the distributed lock, the rule engine, percentage rollouts, chunked rows,
the change-log ring, the two caches of a server, rule matching and feature merging.

Code that works step by step in the repository is imperative here (classes with the same fields,
methods with loops and invariants) and is proved against specification functions; what the
repository promises is then proved about those functions.

| file | what it models |
|---|---|
| Common.dfy | options, the byte-wise text order, decimal numbers, Go's sorting |
| Rules.dfy | rule trees, evaluators, `Evaluate` and the meaning of compound rules |
| RuleBuilders.dfy | `Copy`, `Not`, `AndRules`, `OrRules` |
| RuleFlatten.dfy | the three flattenings of a rule tree |
| FixedArgs.dfy | list equality that sorts and compacts in place |
| RuleEquality.dfy | order-insensitive equality of rules |
| Locks.dfy | the lock table as a state machine, and the client's code over it |
| TimeWindow.dfy | time UUIDs and the log rows a window reads |
| ChangeLog.dfy | change-log records and what applying them does |
| SyncProtocol.dfy | one server's refresh cycle among all other events, over any run |
| RefreshTask.dfy | the tick's code, and that it is a run of that protocol |
| AppCache.dfy | the row cache and the derived values of one server |
| Chunks.dfy | compressed rows stored in numbered parts |
| LogRing.dfy | the five-slot ring of configuration change logs |
| Rollout.dfy | percentage ranges, running sums, RANGE conditions |
| Matching.dfy | matching of firmware rules by template priority |
| Features.dfy | merging of features and the hash of the result |

## Assumptions

- One clock. Stamping a log record and appending it is one step; writing the database and the
  writer's own cache is one step; `Refresh` of a key is one atomic reload. A tick's own steps may
  be interleaved with everything else, but time passes between taking the tick's time and the
  first read of that tick (`until < clock` for `Load`, `last < clock` for `RefreshNext` and
  `Finish` of a full refresh).
- Precaching loads every cached table whole, nothing is written elsewhere between it and the first
  stamp, and a log record is appended
  only for a key that is not itself a quoted text.
- Log rows are read whole (`LoadIsComplete`). The driver's iterator hides a failed page, and
  `SilentReadFailureLosesUpdate` shows that an update is then lost for good.
- The no-lost-update theorems speak of well-formed foreign records (`Relevant`) of cached tables. A
  record whose `ValidCacheSize` is zero is skipped by the code; it is what deleting a table's only
  row logs, and `LastRowDeleteIsLost` shows the consequence. A TRUNCATE record ends the loop
  (`TruncateHidesTheRest`); in `SyncProtocol` no server writes one.
- The cache library is not part of this model. When a reload finds nothing it either drops the entry
  it had or keeps it (`keepsOld`). The theorems hold for both, provided that a library that keeps
  entries has none for a row whose reload finds nothing (`LeavesNothingOld`);
  `DroppingLeavesNothingOld` shows that one that drops them needs no such assumption, and
  `KeptEntriesStayStale` what happens without it. `Get` reports an error for a key with no value.
- Leaf evaluators are any deterministic function of the condition and the context that sees a list
  argument only as a set. Copying dereferences every condition's free argument (`Evaluable`),
  evaluation that of the conditions it reaches (`Panics`); rule matching and feature rules are
  modelled for searches that evaluate no rule into such a panic (`SearchedSafely`, `NonePanics`).
  The copy of a missing fixed argument is a missing one.
- A conditional write or deletion on the lock table takes effect, if at all, before its call
  returns, with or without an error.
- A lock owner's release ends every grant that owner has on the name.
- JSON, snappy, siphash, number parsing, case folding and the digest are arbitrary functions.

Where comments in the code and the code differ, the code is followed: `FixedArg.Equals` says that
it sorts copies and in fact sorts the arguments' own arrays; `GetXconfCompressedDataRaw` calls the
columns beyond the count extra data although with more than ten columns it can drop current ones
(`StaleFirstExactly`).

## Model

| member | source | states |
|---|---|---|
| `Rules.RuleProcessor.Evaluate` | rulesengine/rule_processor.go:71-99 | For every rule: the loop with its two short cuts gives the conjunction, over the AND-separated groups, of the disjunction inside each group, then the negation flag, a group followed by another relation being discarded; a leaf gives the test of the evaluator found for it, negated if asked; it panics exactly when it reaches a condition without a free argument |
| `Rules.OneGroup` | rulesengine/rule_processor.go:71-99 | Parts joined by OR throughout hold exactly when one of them does |
| `Rules.AndSplits` | rulesengine/rule_processor.go:71-99 | A list split at an AND holds exactly when both sides hold |
| `Rules.OtherDiscards` | rulesengine/rule_processor.go:71-99 | What precedes the first other relation, with no AND before it, does not count; these three cases decide every list |
| `Rules.SecondPartPassedOver` | rulesengine/rule_processor.go:71-99 | Of two parts, a panic in the second shows unless it is passed over: after a true part when joined by OR, after a false one by AND |
| `Rules.RuleProcessor.EvaluateWithNegation` | rulesengine/rule_processor.go:148-160 | False when no evaluator is found, and otherwise that evaluator's test on the condition and the context, flipped exactly when negated |
| `Rules.RuleProcessor.GetEvaluatorFinds` | rulesengine/rule_processor.go:162-172 | The list gives the first evaluator of that type and operation, the map the last one added under type, `_` and operation, and none only when there is none |
| `Rules.ViewShows` | rulesengine/fixed_arg.go:171-187 | An evaluator sees the free argument, the operation, and the list's elements, else the text, else the number, else nothing |
| `Rules.RuleProcessor.AddEvaluators` | rulesengine/rule_processor.go:48-55 | The lookup map stays the map of the whole evaluator list |
| `Rules.RuleProcessor.GetEvaluatorOK` | rulesengine/rule_processor.go:174-203 | True exactly for the rules all of whose leaves have their arguments (EXISTS needs no fixed one) and an evaluator |
| `RuleBuilders.JudgedRulesNegate` | rulesengine/rule_processor.go:174-203 | Such a rule is evaluated without a panic, and Not negates it and each of its parts, EXISTS conditions without a fixed argument included |
| `Rules.LookupsAgree` | rulesengine/rule_processor.go:162-172 | The map lookup and the list scan find the same evaluator when everything filed under the joined key is one evaluator of that very type and operation |
| `Rules.EvaluableNeverPanics` | rulesengine/rule_processor.go:71-99 | It never does when all conditions have one |
| `RuleBuilders.CopyMeaning` | rulesengine/rule_utils.go:94-111 | The copy of a rule evaluates as the rule, in every context |
| `RuleBuilders.CopyKeeps` | rulesengine/rule_utils.go:94-111 | It keeps negation, relation and condition, has the copies of the parts in their order, and an ID of its own |
| `RuleBuilders.NotNegates` | rulesengine/rule_utils.go:143-147 | Not gives the opposite value exactly when the rule is compound or its leaf has an evaluator |
| `RuleBuilders.AddedMeaning` | rulesengine/rule_utils.go:311-329 | The value of a rule with one part added, for both relations and every base |
| `RuleBuilders.AndRulesIsConjunction` | rulesengine/rule_utils.go:303-305 | AndRules is conjunction with every added rule exactly for simple bases and un-negated bases with parts |
| `RuleBuilders.OrRulesIsDisjunction` | rulesengine/rule_utils.go:307-309 | OrRules is disjunction with every added rule exactly when the base is un-negated and none of its AND-followed groups is false, or negated and one of them is |
| `RuleBuilders.OrRulesWithoutAnd` | rulesengine/rule_utils.go:307-329 | In particular for an un-negated base without AND after its first part |
| `RuleBuilders.OrRulesExactly` | rulesengine/rule_utils.go:307-329 | For an un-negated compound of leaves, OrRules is disjunction for all evaluators, contexts and added rules exactly when no part after the first is joined by AND |
| `RuleFlatten.FlattenRule` | rulesengine/rule_utils.go:331-347 | The queue terminates and gives the tree's condition-bearing nodes level by level |
| `RuleFlatten.ToConditionValues` | rulesengine/rule_utils.go:355-371 | The same nodes' conditions in the same order |
| `RuleFlatten.ToConditions` | rulesengine/rule_utils.go:435-462 | The same again through references; a nil rule has none |
| `RuleFlatten.QueueIsLevelOrder` | rulesengine/rule_utils.go:331-347 | Emptying a queue of trees equals listing generation after generation |
| `RuleFlatten.LevelOrderIsComplete` | rulesengine/rule_utils.go:331-371 | Level order has each condition of the tree exactly once: it is, as a multiset, the recursive traversal |
| `RuleFlatten.LevelOrderMembers` | rulesengine/rule_utils.go:331-371 | What is listed are exactly the nodes of the tree that have a condition |
| `RuleFlatten.LevelByLevel` | rulesengine/rule_utils.go:331-371 | First those of the given nodes in their order, then those one level down, and so on |
| `FixedArgs.RemoveDuplicates` | rulesengine/fixed_arg.go:242-253 | The compaction leaves one element of each run in front and the rest of the array as it was |
| `FixedArgs.SetsDecide` | rulesengine/fixed_arg.go:217-240 | Sorted and compacted, two lists are the same sequence exactly when they have the same elements |
| `FixedArgs.EqualLists` | rulesengine/fixed_arg.go:217-240 | For two separate arrays: true exactly when they have the same set of texts, and both arrays keep their sets |
| `FixedArgs.EqualSharedList` | rulesengine/fixed_arg.go:217-240 | For one array behind both arguments: true exactly when there are no surplus copies, or only of the greatest element |
| `FixedArgs.CompactedTwice` | rulesengine/fixed_arg.go:217-253 | Compacting a sorted list a second time finds as many runs exactly under that condition |
| `RuleEquality.FixedArgEqualsIsView` | rulesengine/fixed_arg.go:217-240 | Arguments are equal exactly when no evaluator can tell them apart |
| `RuleEquality.FixedArgEqualsExactly` | rulesengine/fixed_arg.go:171-240 | Lists are equal as sets, texts and numbers by themselves, and nothing equals a value of another kind |
| `RuleEquality.EqualMeansSameKey` | rulesengine/rule_utils.go:227-275 | Equality of leaves is equality of complete keys, and so can be counted |
| `RuleEquality.EqualLeavesExactly` | rulesengine/rule_utils.go:227-275 | Leaves are equal exactly when negation, relation, argument name, operation and value agree and neither argument nor the operation is missing; the argument's type is not compared |
| `RuleEquality.IntersectionOfNonCompoundRules` | rulesengine/rule_utils.go:193-211 | Greedy matching of equally long lists takes every rule exactly when the lists are equal as multisets |
| `RuleEquality.EqualRegardingTheOrder` | rulesengine/rule_utils.go:213-225 | True exactly when the lists agree place by place |
| `RuleEquality.EqualComplexRules` | rulesengine/rule_utils.go:163-191 | True exactly for the rules that the specification of equality relates; a nil rule equals a nil or an empty one and nothing else |
| `RuleEquality.UniformRulesCompareAsBags` | rulesengine/rule_utils.go:163-211 | With one relation throughout, equality is equality of the parts' multisets in any order, whatever the first one's relation |
| `RuleEquality.MixedRulesCompareInOrder` | rulesengine/rule_utils.go:163-225 | With mixed relations on either side, or a single condition, equality is equality place by place, for all rules |
| `RuleEquality.EqualRulesEvaluateAlike` | rulesengine/rule_utils.go:163-275 | One-level rules found equal, with AND or OR after the first part and free-argument names that determine types, evaluate alike in a context exactly when the negation around them is the same |
| `RuleEquality.NegationIsNotCompared` | rulesengine/rule_utils.go:163-191 | Every compound of complete leaves is found equal to its own negation, which contradicts it in every context |
| `RuleEquality.EqualToItself` | rulesengine/rule_utils.go:163-275 | A rule equals itself exactly when it is empty or each of its conditions is complete |
| `RuleEquality.EqualityIgnoresNesting` | rulesengine/rule_utils.go:163-275 | For every rule, all evaluators and every context: a rule that is found equal to itself is also found equal to an un-negated, evaluable rule, its conditions two levels down, that contradicts it; any other rule is found equal to nothing |
| `Locks.MutualExclusion` | db/cassandra_client.go:956-1012 | From any table, in no interleaving of insert, expiry check, update, release and clock steps, with answers lost after or before the write, do two owners hold one lock |
| `Locks.StatementEffects` | db/cassandra_client.go:956-993 | What each statement of a call does to the row, the call and the grants, whichever way its answer goes |
| `Locks.StepKeepsInv` | db/cassandra_client.go:956-1012 | Every step keeps each running grant backed by the row |
| `Locks.ReleaseRemovesOwnRowOnly` | db/cassandra_client.go:995-1012 | A release removes exactly the releaser's own row, or nothing when it is not applied, and ends exactly the releaser's hold |
| `Locks.HolderIsUndisturbed` | db/cassandra_client.go:956-1012 | While a lock is held no step but the holder's own release touches its row |
| `Locks.GrantExcludesOthers` | db/cassandra_client.go:956-1012 | Until a grant runs out, and unless its owner releases it, nobody else holds the lock in any run |
| `Locks.AloneAcquiresExactlyWhenExpired` | db/cassandra_client.go:956-993 | Undisturbed and told the outcomes, a call is granted the lock exactly when there is no row or its expiry lies in an earlier millisecond |
| `Locks.Client.AcquireLock` | db/cassandra_client.go:956-993 | Whatever others do in between and whichever answers are lost, the table goes through exactly this call's statements from the first on, with the others' events between them; success comes only with the row written as this owner's and the grant in force until the start plus the time to live |
| `Locks.Client.Lock` | db/cassandra_client.go:1074-1102 | A blank owner changes nothing; otherwise complete calls are made one after the other, with the sleeps between them, all failing but the last when it succeeds, and retries + 1 of them when none does; undisturbed and told the outcomes, it succeeds exactly when at one of the attempts there is no row or its expiry lies in an earlier millisecond |
| `Locks.UndisturbedLock` | db/cassandra_client.go:1074-1102 | Any such sequence of calls, left alone, ends with the lock exactly in that case |
| `Locks.Client.Unlock` | db/cassandra_client.go:1104-1116 | A blank owner changes nothing; otherwise the release is made, and reported exactly when the owner's own row is known to be deleted |
| `TimeWindow.TimestampOfFields` | util/util.go:89-121 | The UUID's fields hold the interval count's low 60 bits, and version 1 |
| `TimeWindow.ClockSeqOfFields` | util/util.go:89-121 | And the variant, the clock sequence's low 14 bits and the node |
| `TimeWindow.EpochOffsetInDays` | util/util.go:91 | The offset is the days from 15 October 1582 to 1 January 1970 (section 4.1.4 of RFC 4122) |
| `TimeWindow.UuidDecodes` | util/util.go:89-121 | The fields decode to the time exactly while the count fits into 60 bits (section 4.1.4 of RFC 4122) |
| `TimeWindow.UuidIncreases` | util/util.go:89-121 | In that range later times have greater time UUIDs |
| `TimeWindow.RowsToRead` | db/cache_manager.go:539-558 | The loop asks for the first window's row, from the start time on, and for every later row up to the last window's |
| `TimeWindow.WindowCoverage` | db/cache_manager.go:539-573 | A stamp after the start millisecond and up to the end lies in a row that is read and passes its bound |
| `TimeWindow.RowsToReadShow` | db/cache_manager.go:539-573 | The ranges the loop builds return exactly those records, under the names their writers gave them, and those stamped at the bound itself whose clock sequence and node sort after it |
| `TimeWindow.NodeIsIrrelevant` | db/cassandra_client.go:604-648 | Unless the stamps are equal, which server wrote a column name does not matter for the bound |
| `ChangeLog.CacheManager.ApplyChanges` | db/cache_manager.go:590-671 | On every exit, the cache is that of the records applied one by one, with the tables found too small reloaded; derived values go for the changed tables when the list is finished, and for the tables reloaded |
| `ChangeLog.CacheManager.ApplyOne` | db/cache_manager.go:600-661 | One record, in every case: passed over, stopped at, or taken, with the row loaded or dropped, the table noted when it is too small, and the loop ended by a truncation or a row that cannot be loaded |
| `ChangeLog.UnquoteExactly` | db/cache_manager.go:602-606 | One pair of double quotes around a key is taken off, and nothing else |
| `ChangeLog.EndedExactly` | db/cache_manager.go:599-668 | The loop comes to the end of its list exactly when it succeeds without meeting a truncation |
| `ChangeLog.ChangedExactly` | db/cache_manager.go:653-668 | And then the derived values invalidated are those of the tables of the records not passed over |
| `ChangeLog.CacheManager.RefreshTable` | db/cache_dao.go:311-351 | A reload drops the table and puts back the database's rows, or leaves it empty when the read fails |
| `ChangeLog.CacheManager.RefreshTables` | db/cache_manager.go:803-811 | Reloading tables in any order gives one and the same cache |
| `ChangeLog.CacheManager.RefreshAll` | db/cache_manager.go:455-483 | Every cached table is reloaded whatever becomes of the others, and exactly the unreadable ones are collected |
| `ChangeLog.TouchedAreNeverStale` | db/cache_manager.go:590-671 | After a success no key named by a record is stale, in whatever order the records came |
| `ChangeLog.OrdersAgree` | db/cache_manager.go:575-588 | Two orders of the same records can disagree about a key only in having it |
| `ChangeLog.LastRecordDecides` | db/cache_manager.go:590-671 | A key ends as its last record says |
| `ChangeLog.LastWriteLastGivesDatabase` | db/cache_manager.go:590-671 | When the last record agrees with the database the key ends exactly as in the database |
| `ChangeLog.SmallTablesAreReloaded` | db/cache_manager.go:594-597 | A table that some record found too small is among those reloaded, wherever the loop ends |
| `ChangeLog.ReloadedTablesMirror` | db/cache_dao.go:311-351 | A reloaded table mirrors the database or is empty; other tables are as before |
| `ChangeLog.RecordTakesEffectExactly` | db/cache_manager.go:608-611 | A foreign record leaves its key absent or current exactly when it is well formed or the key was so before |
| `ChangeLog.SyncKeepsDerivedExactly` | db/cache_manager.go:590-671 | Whatever list, reads and reloads: all derived values that were right and are not invalidated are right after the sync exactly when each table whose name begins with no invalidated name has the rows it had |
| `ChangeLog.EndedSyncKeepsDerived` | db/cache_manager.go:664-668 | So a sync that comes to the end of its records leaves every derived value that of the rows cached, whichever reloads fail |
| `ChangeLog.StoppedSyncLeavesDerivedStale` | db/cache_manager.go:624-652 | One that stops early need not: after an update is taken and a record of an uncached table stops the loop, the values derived from the updated table stay and are outdated |
| `SyncProtocol.NoLostUpdate` | db/cache_manager.go:60-124 | Over any run, with attempts left and no cycle under way: every relevant record of a cached table stamped up to the last refresh has been taken in, by itself or by a reload of its table; the cache knows no older write of its row; a row whose last write it is is cached or was dropped since; and the attempts stay between 0 and max(retries, 1) |
| `SyncProtocol.CachedRowsAreCurrent` | db/cache_manager.go:60-124 | Then a cached row is the database's row when its last write is local or covered by the last stamp |
| `SyncProtocol.CoveredRowsAreCached` | db/cache_manager.go:60-124 | And a database row of a cached table whose last write is local or covered is cached exactly when it was not dropped, by a failed read or by a delete applied to a row written again, after it was last loaded or written |
| `SyncProtocol.BenignRunsCacheEverything` | db/cache_manager.go:60-124 | So when reads succeed and no delete is applied to a row written again, every covered row is cached as the database has it |
| `SyncProtocol.StepKeepsInv` | db/cache_manager.go:60-124 | Every event, local or remote, successful or failing, keeps the invariant behind it |
| `SyncProtocol.RunKeepsInv` | db/cache_manager.go:60-124 | So does every run |
| `RefreshTask.CacheRefreshTask.DoSyncChanges` | db/cache_manager.go:60-88 | A tick's effect on cache, stamp and attempts, field by field: a load that fails costs an attempt and changes nothing else, a failed sync never advances the stamp, a full refresh advances it and gives back one attempt only when no table failed |
| `RefreshTask.SyncIsARun` | db/cache_manager.go:76-87 | The tick's sync ends where the protocol's run of its steps ends |
| `RefreshTask.FailedLoadIsARun` | db/cache_manager.go:76-87 | A tick whose rows cannot be loaded ends where the protocol's failing load ends |
| `RefreshTask.FullRefreshIsARun` | db/cache_manager.go:66-75 | So does the tick's full refresh |
| `RefreshTask.SilentReadFailureLosesUpdate` | db/cassandra_client.go:638-648 | When a row read ends early unnoticed, the sync succeeds and an update never arrives |
| `RefreshTask.LastRowDeleteIsLost` | db/cache_manager.go:608-611 | Deleting a table's only row elsewhere never reaches this cache, although its record is read |
| `RefreshTask.FailedReloadEmptiesTable` | db/cache_manager.go:594-597 | When the reload of a too-small table fails, the sync still succeeds with the stamp advanced, and no row of the table is cached |
| `RefreshTask.CoveredTableCanBeMissing` | db/cache_manager.go:803-811 | That happens from any start: a covered row, and its table, end up missing |
| `RefreshTask.LateDeleteDropsOwnRow` | db/cache_manager.go:614-648 | A foreign delete applied after the row was written again here drops it, and the server's own record does not bring it back |
| `RefreshTask.OwnRowCanBeMissing` | db/cache_manager.go:614-648 | That happens from any start in which the table has another row |
| `AppCache.Server.SetOne` | db/cache_dao.go:150-197 | The database row is written, both caches follow, and nothing moves when the database refuses; what is right stays right, also while rows are missing, and a write to the lists' table makes all derived values right |
| `AppCache.Server.DeleteOne` | db/cache_dao.go:199-221 | The same for deletion; the size logged is one less than the table had |
| `AppCache.Server.RefreshAll` | db/cache_dao.go:311-351 | While no cached row is wrong: a failing refresh leaves the table empty and the derived values in place, and a later one that succeeds brings back the table, and the whole cache if nothing else was missing |
| `AppCache.Server.GetOne` | db/cache_dao.go:70-91 | A cached read gives the database's row and keeps the cache right |
| `AppCache.Server.GetGenericNamedListSetByType` | shared/generic_namespaced_List.go:283-306 | A derived value that is there is returned; otherwise the union over the cached lists is computed and kept, which is the union over the database's current lists, and leaves the derived values right, exactly when no member is missing from the cached lists |
| `AppCache.FailedRefreshHidesMembers` | shared/generic_namespaced_List.go:283-306 | From every server with the whole table cached: asked for while a failed refresh has left the table empty, the union stays without a member even when that member's row is cached again |
| `AppCache.Server.ApplicationCacheDeleteAll` | db/cache_manager.go:850-864 | Exactly the derived values whose key starts with the table's name go |
| `AppCache.SurvivorsAreRight` | db/cache_manager.go:850-876 | What survives an invalidation is still right after a change to that table |
| `AppCache.PrefixCoversTable` | db/cache_manager.go:874-876 | Every derived key of a table starts with its name |
| `Chunks.Split` | db/compressing_data_dao.go:181-193 | The chunks put together are the data; none is empty and all but the last are full |
| `Chunks.SetXconfCompressedData` | db/cassandra_client.go:764-795 | A write leaves the count, the new parts, and the stale parts of longer writes |
| `Chunks.GetXconfCompressedData` | db/cassandra_client.go:798-855 | For any row: the parts below the count put together, and an error exactly when the count or one of them is missing |
| `Chunks.RowReadsBack` | db/cassandra_client.go:764-855 | A row reads back as the chunks last written, whatever stale parts follow |
| `Chunks.ReadIsExact` | db/cassandra_client.go:798-855 | Any row reads as its parts in the order of their numbers, and fails exactly when the count or a part below it is missing |
| `Chunks.CompressedTable.SetOne` | db/compressing_data_dao.go:82-95 | The table refines a map: the key holds the new data, other keys theirs |
| `Chunks.CompressedTable.GetOne` | db/compressing_data_dao.go:55-79 | Exactly the last data written for the key, after any sequence of writes |
| `Chunks.CompressedTable.GetAllAsMap` | db/compressing_data_dao.go:134-165 | The bulk read has each key with a part, and is right for it exactly when no stale part's name sorts before a current one's |
| `Chunks.GetXconfCompressedDataRaw` | db/cassandra_client.go:892-954 | Of each key the scan keeps the cells that come while fewer than the count are kept |
| `Chunks.GetAllXconfCompressedDataAsMap` | db/cassandra_client.go:858-880 | They are put together by number, a missing one adding nothing |
| `Chunks.ScanKeepsFirst` | db/cassandra_client.go:915-938 | In a scan by text order the kept parts are those whose names come first |
| `Chunks.BulkReadAgrees` | db/cassandra_client.go:858-954 | The bulk read gives a row's last data exactly when no stale part's name comes before a current one's |
| `Chunks.StaleFirstExactly` | db/cassandra_client.go:858-954 | For all numbers of current and written parts: no stale part's name comes before a current one's exactly when nothing is stale, or at most two parts are current, or the current ones reach into the last ten numbers below a power of ten that the stale ones do not pass |
| `LogRing.GetCurrentId` | shared/estbfirmware/config_change_logs.go:203-241 | Slot 5 for an empty range; otherwise, of a newest log's number, the one below, or 5 after 1, or an error when it cannot be read |
| `LogRing.AtoiReads` | shared/estbfirmware/config_change_logs.go:229-234 | A 64-bit number written into a column name is read back from it |
| `LogRing.RangeSkipsLast` | shared/estbfirmware/config_change_logs.go:203-209 | The last configuration's column is never in the range read |
| `LogRing.RangeSkipsOthers` | shared/estbfirmware/config_change_logs.go:203-209 | Another host's column is in it only if that host's name continues this one's |
| `LogRing.ContinuedNameInterferes` | shared/estbfirmware/config_change_logs.go:225-234 | No column of a host whose name continues this one's has a number that can be read, and it is in the range exactly when the continuation begins with 0 to 5 |
| `LogRing.NextColumnIsRightExactly` | shared/estbfirmware/config_change_logs.go:203-241 | On a ring with any times, every column the choice allows is the next log's slot exactly when the last log is later than the other stored ones |
| `LogRing.NextColumnIsFreeOrOldest` | shared/estbfirmware/config_change_logs.go:219-241 | That slot is free while fewer than five logs were written, and then holds the oldest of the last five |
| `LogRing.RingWrite` | shared/estbfirmware/config_change_logs.go:191-201 | Writing there keeps exactly the last five logs in the slots, whatever the new log's time |
| `LogRing.RingsStore` | shared/estbfirmware/config_change_logs.go:191-201 | With several hosts none of whose names continues another's, every host's ring is kept |
| `LogRing.DeviceLogs.SetConfigChangeLog` | shared/estbfirmware/config_change_logs.go:191-201 | On any row the log goes to the column after a newest log's, or is refused when that has no number; on rings, when the host's last log is later than its other stored ones, it takes the next slot and all rings stay |
| `LogRing.DeviceLogs.GetConfigChangeLogsOnly` | shared/estbfirmware/config_change_logs.go:163-181 | All stored change logs by time, latest first: on rings the last five of every host, and for one host with increasing times its last five newest first |
| `LogRing.DeviceLogs.SetLastConfigLog` | shared/estbfirmware/config_change_logs.go:183-189 | The last configuration is kept beside the ring |
| `LogRing.DeviceLogs.GetLastConfigLog` | shared/estbfirmware/config_change_logs.go:151-161 | The last configuration log set, or none, whatever the ring went through |
| `LogRing.ListingIsNewestFirstExactly` | shared/estbfirmware/config_change_logs.go:163-181 | Every order by time is the order written, newest first, exactly when the stored times increase |
| `Rollout.ConvertIntoPercentRange` | shared/estbfirmware/estb_converters.go:310-335 | The loop computes the specified ranges, in thousandths |
| `Rollout.ConvertedEach` | shared/estbfirmware/estb_converters.go:323-328 | Entry by entry: one with both ends set is kept, any other runs from the end reached so far over its percentage, and the end reached moves by the entry's width |
| `Rollout.Round3IsNearest` | shared/estbfirmware/estb_converters.go:324-325 | Rounding is to the nearest thousandth |
| `Rollout.ConvertedKeepsTheRest` | shared/estbfirmware/estb_converters.go:314-332 | It changes nothing but the ranges |
| `Rollout.ConvertIsIdempotent` | shared/estbfirmware/estb_converters.go:310-335 | Converting again changes nothing, for every list |
| `Rollout.ConvertedIsAdjacent` | shared/estbfirmware/estb_converters.go:323-328 | From unset ranges the result is adjacent, whatever the percentages |
| `Rollout.ConvertedSums` | shared/estbfirmware/estb_converters.go:323-328 | Percentages in thousandths give exactly the sums before and with each entry |
| `Rollout.RolloutIsUnique` | dataapi/estbfirmware/estb_firmware_rule_eval.go:389-417 | Each source is taken by at most one converted entry, and by one exactly when its hash is positive and fits the last bound |
| `Rollout.FullRolloutTakesAll` | dataapi/estbfirmware/estb_firmware_rule_eval.go:389-417 | When thousandths add up to 100 a source gets an entry exactly when its hash is positive |
| `Rollout.OrderDoesNotMatter` | dataapi/estbfirmware/estb_firmware_rule_eval.go:389-417 | Permuting the converted entries does not change the entry chosen |
| `Rollout.FormsAgree` | dataapi/estbfirmware/estb_firmware_rule_eval.go:389-417 | The range form and the running-sum form choose the same entry exactly unless the hash is 0 and some percentage is positive |
| `Rollout.SlotSize` | rulesengine/rule_utils.go:84-92 | Between two percentages lie exactly as many of the 2^64 hashes as the floors of their limits differ by |
| `Rollout.EntryGetsItsShare` | dataapi/estbfirmware/estb_firmware_rule_eval.go:389-417 | So every converted entry gets its percentage of all hashes, to within one |
| `Rollout.ChooseEntry` | dataapi/estbfirmware/estb_firmware_rule_eval.go:389-417 | The loop returns the first entry that offers itself: by its own range, or without one by the running sum of the percentages without a range |
| `Rollout.EstbFirmwareRuleBase.ExtractConfigFromAction` | dataapi/estbfirmware/estb_firmware_rule_eval.go:347-431 | The configuration, the source label and the filters in every case: minimum check failed, account missing, entry paused, entry chosen by the hash of the account or of the MAC, none chosen |
| `Rollout.ExtractAnyPresentConfig` | dataapi/estbfirmware/estb_firmware_rule_eval.go:323-332 | The first entry that is not paused, or the action's own configuration |
| `Rollout.RangeIsExactly` | rulesengine/rule_processor_factory.go:91-111 | A RANGE text holds exactly when it is two numbers around its only hyphen, the first not negative, the second positive, and the source fits the second but not the first |
| `Rollout.RangeArgIsSlot` | rulesengine/rule_processor_factory.go:91-111 | A RANGE condition on `low-high` holds exactly above low and within high |
| `Rollout.AdjacentRangeRulesPartition` | rulesengine/rule_processor_factory.go:91-111 | RANGE conditions over successive bounds: no source fits two, and one fits exactly those between the outer bounds |
| `Matching.Matcher.FindMatchedRules` | dataapi/estbfirmware/estb_firmware_rule_eval.go:184-257 | When no rule it reaches panics. Exhaustive: template after template, of each open one exactly the active rules that hold, each as often as it is listed, the sized types by number of conditions and the others in list order; single: the head of the same list, found in the last template visited; and the bypassed types and sorted lists left behind |
| `Matching.Matcher.FindMatchedRule` | dataapi/estbfirmware/estb_firmware_rule_eval.go:170-181 | The head of the exhaustive search |
| `Matching.Matcher.VisitTemplate` | dataapi/estbfirmware/estb_firmware_rule_eval.go:191-253 | A template's filters count before its own type is tested; its rules are sorted in place, and all that pass are found, or the first of them |
| `Matching.Matcher.GetSortedTemplate` | dataapi/estbfirmware/estb_firmware_rule_eval.go:260-300 | The action type's templates, by their priority numbers up or down |
| `Matching.HeadIsBest` | dataapi/estbfirmware/estb_firmware_rule_eval.go:170-257 | The head is active and matches, its template is open, no earlier open template has a match, and for the two sized types no match there has more conditions |
| `Matching.EmptyMeansNoMatch` | dataapi/estbfirmware/estb_firmware_rule_eval.go:184-257 | The search is empty only when no open template has a match |
| `Matching.BypassedIsUnion` | dataapi/estbfirmware/estb_firmware_rule_eval.go:195-205 | A type is bypassed exactly when the caller or some visited template, open or not, names it |
| `Matching.ListsArePermuted` | dataapi/estbfirmware/estb_firmware_rule_eval.go:334-345 | Sorting in place loses no rule of any list |
| `Matching.VisitedAreSorted` | dataapi/estbfirmware/estb_firmware_rule_eval.go:334-345 | A visited list of the sized types is left with more conditions before fewer |
| `Features.AddFeaturesToResult` | dataapi/featurecontrol/feature_rule_eval.go:70-92 | The map keeps, for each name, the first ID that is found, has the name and can be copied; nothing already there changes, and nothing comes in otherwise |
| `Features.MergeIsUnique` | dataapi/featurecontrol/feature_rule_eval.go:70-92 | There is only one such map |
| `Features.FeatureIdsConcat` | dataapi/featurecontrol/feature_rule_eval.go:50-66 | The IDs merged are the rules' own, rule after rule |
| `Features.FeatureControlRuleBase.ProcessFeatureRules` | dataapi/featurecontrol/feature_rule_eval.go:94-103 | Exactly the rules of the application that hold, each as often as it is in the table, the lower priority number first and ties in table order |
| `Features.FeatureControlRuleBase.Eval` | dataapi/featurecontrol/feature_rule_eval.go:50-66 | The responses list, in some order, the merge of the concatenated IDs of those rules |
| `Features.CalculateHash` | dataapi/featurecontrol/feature_rule_eval.go:105-117 | The digest of the responses' texts by instance between brackets |
| `Features.HashedText` | dataapi/featurecontrol/feature_rule_eval.go:105-117 | That is, by the byte order of the instance names, ties in their order |
| `Features.OrderFreeExactly` | dataapi/featurecontrol/feature_rule_eval.go:105-117 | For every list of responses the hashed text is the same for all its orders exactly when the texts of any two responses with one instance commute |
| `Features.MapOrderFreeExactly` | dataapi/featurecontrol/feature_rule_eval.go:50-117 | The order in which the feature map is ranged over does not show in the hashed text exactly when that holds of the responses of its features |
| `Features.HashIgnoresMapOrder` | dataapi/featurecontrol/feature_rule_eval.go:50-117 | So with distinct instances the hash is the same for every order of the feature map |
| `Sorting.StableSortIsStable` | shared/rfc/feature.go:545-547 | The stable sort keeps the order of ties |
| `Sorting.StableSortPlaces` | shared/rfc/feature.go:545-547 | It lists the same places in that order, ties by place |

## Left out

- HTTP handlers, routers, middleware, metrics, tracing, logging, connectors, SAT, tagging, protobuf: input and output plumbing.
- Cassandra sessions and query text: tables are maps, lightweight transactions and logged batches are atomic steps.
- JSON, snappy, siphash, SHA-256, RIPEMD, AES, regular expressions: arbitrary functions.
- The cache library's eviction, expiry and asynchronous refresh, and column TTLs: rows stay until they are written or deleted.
- Floating-point rounding in percentages: percentages are reals, rounded to thousandths where the code rounds.
- VOID PERCENT rules, the download-location pick, `FitsPercentByAccountId`, `BaseTimeEvaluator`: random, stubbed or unimplemented.
- `LockRow`, `UnlockRow` (only names are composed) and the attempt count in the text of Lock's error.
- `ForceSyncChanges` beside the ticker: both run the modelled tick, one at a time.
- 32-bit wrap-around of the attempts counter, which the proved bound excludes.
- The application cache of sorted templates and sorted feature rules: `AppCache` models the named-list values, `ChangeLog` derived values in general, and the sorts are computed each time.
- A changed key that is a single quotation mark, on which the code panics, and log records whose operation is empty or unknown.
- Go's slice-capacity sharing in `AddCompoundPart`: rules are values.
- Context enrichment, penetration metrics, change approval, `CompareRules`, MAC and IP normalisation, bean getters: only easy members.
- RuleEquality.EqualComplexRules: compares list arguments as sets without rewriting them; `FixedArgs` models the rewriting, which keeps the sets as long as two lists do not share an array.
- Matching.Matcher.FindMatchedRules: the sort's order of ties is any fixed function of the list, and the lists are values reassigned to the map, not arrays shared between requests.
- Writes to the lock table that take effect after their call has returned.
- Locks.Client.Lock: the owner is blank when it has no character but spaces; other white space is not modelled.
- Chunks.CompressedTable.GetAllAsMap: scans one state of the table; writes during a scan are not modelled.
- Rollout.EstbFirmwareRuleBase.ExtractConfigFromAction: nil and empty entry lists are one case.
