# FeedHandler CE: verified cores

A model in Dafny of the stateful cores of a market-data line handler, and proofs of what they promise over
whole runs. `dafny verify dfyconfig.toml` checks all of it.

- **Arbitration** of the two redundant Arca lines. `Arbitration.dfy` states the rule on sets of sequence
  numbers, `FeedGroup.dfy` is the implementation with its bitmap window, proved to take the same step, and
  `ArbitrationRuns.dfy` and `FeedRuns.dfy` reason about every interleaving: what is published at most once,
  where every number goes, and how the statistics balance; `ArbitrationCounts.dfy` counts them from the packets.
- **Gap-fill list.** `GapRanges.dfy` treats it as a sequence of ranges, `GapAccounts.dfy` adds up its time
  stamps and losses over runs, `GapLinks.dfy` has it as linked nodes in an arena, and `GapList.dfy` is the list
  over its pool (`MemoryPool.dfy`).
- **Hash table and orders.** `HashBuckets.dfy` and `HashTable.dfy` refine a finite map, `HashRuns.dfy` follows
  it over runs, `OrderTable.dfy` puts orders in it, and `EdgeOrders.dfy` follows the shares of DirectEdge
  orders.
- **Service manager.** `ServiceStates.dfy` has the flags of one service, `ServiceManager.dfy` all services,
  groups and connections under any run of events, `ServiceLives.dfy` what lasts over a run, and
  `RestartTimer.dfy` the daily restart.
- **FAST decoders.** `FastFields.dfy`, `FastDecode.dfy`, `FastDecoders.dfy`, `FastEffects.dfy` and
  `FastPackets.dfy` cover the transactional decoder, the optimised one that works in place, what that leaves
  behind on errors, and the packet loop. `FastMessages.dfy` is the sender's side: messages by their named
  fields with an encoder, which both decoders invert, and `FastStreams.dfy` has messages that are refused and
  packets that leave out what earlier messages supply.
- **Smaller cores.** `JenkinsHash.dfy` with known values in `JenkinsValues.dfy`, `CommandPrefix.dfy` and
  `DecimalText.dfy`. `Basics.dfy` holds the status
  codes and machine integers that the models share.

Where the code does not meet what it is for, the model follows the code and gives the exact condition:

- A packet exactly at the window end, ahead of both counters by less than half a window, makes
  `need_2_publish` mark published numbers as missing (`ArbitrationRuns.AtMostOnceExactly`,
  `FeedRuns.ReopeningRun`). A window rebuilt at its end also leaves the gap statistics unbalanced, unless it is
  as large as what was missing (`ArbitrationRuns.BalancedExactly`).
- A report of loss can include published numbers, or leave out lost ones (`ArbitrationRuns.DeclaredExactly`,
  `ArbitrationRuns.JumpReport`, `ArbitrationRuns.RewindowReport`, `FeedRuns.WrongReports`).
- A gap wider than the window is skipped without any record or report of loss (`FeedGroups.FeedGroup.FirstGap`,
  `FeedRuns.WideGapRun`).
- The missing lookup can index the word after the bitmap (`FeedGroups.FeedGroup.PastWindowExactly`,
  `FeedRuns.ReceivePastWindow`). That word is the field `feed_time`, which is never set, so the lookup then
  answers no.
- A full gap list of one range is lost by a push (`GapLists.GapList.Push`, `GapLists.LosesOnlyRange`); a
  deletion that reuses the head returns the size of the wrong range and keeps the wrong time stamp
  (`GapAccounts.AccountedExactly`, `GapAccounts.StampedExactly`, `GapAccounts.WrongSplit`). Its
  comment promises -1 for a number that is not there; it returns 0.
- A restart time set at that very second waits for the 32-bit counter to wrap (`RestartTimers.RestartsOnTime`).
- An operator's stop of a service with a restart pending starts it again (`ServiceStates.AdminStopSticks`,
  `ServiceStates.AdminStopUndone`).
- A respawn service of an enabled group that has neither a statistics period nor a restart time is never
  respawned, because the group is not on the timer list (`ServiceLives.RespawnsIfConfigured`).
- The optimised decoder refuses one-byte presence maps (`FastDecode.DecodersAgree`) and keeps the effects of
  refused messages, unless they have none (`FastEffects.RefusedAlikeExactly`, `FastDecode.OptimisedLosesTable`).
- Abbreviations are made unique with regard to case and looked up without, so that names in mixed case can be
  ambiguous (`CommandPrefix.AmbiguousExactly`, `CommandPrefix.MixedCaseAmbiguous`).
- Ten-character numbers read back only below 3,000,000,000 (`DecimalText.RoundTripExactly`).

## Model

| member | source | states |
|---|---|---|
| Arbitration.Step | feeds/arca/common/seq_handling.c:160-295 | every packet keeps the invariant of the rule (missing numbers lie in the window and below the larger expected counter, the window is closed when nothing is missing), and the larger counter moves exactly to one past a packet at or beyond it |
| ArbitrationRuns.GapBalances | feeds/arca/common/seq_handling.c:37-151 | how many numbers are missing after each way of passing a gap: in sequence, late join, jump past the window, recorded, too wide, extended, rebuilt window |
| ArbitrationRuns.StepPartitions | feeds/arca/common/seq_handling.c:160-295 | one packet keeps "every number below the larger counter is exactly one of published, missing, dropped from the window while missing, skipped" if and only if it does not reopen the window over published numbers |
| ArbitrationRuns.StepBalances | feeds/arca/common/seq_handling.c:37-151 | one packet keeps `missing_message_range` equal to recovered + missing + unrecoverable + too wide, with the exact exception (a rebuilt window of a different size) |
| ArbitrationRuns.RunPartitions | feeds/arca/common/seq_handling.c:160-295 | over every interleaving of the two feeds without a reopening, every number below the larger counter has exactly one of these four fates |
| ArbitrationRuns.PartitionedExactly | feeds/arca/common/seq_handling.c:160-295 | the same at every point of a run, if and only if no packet of it reopens the window |
| ArbitrationRuns.JumpReport | feeds/arca/common/seq_handling.c:231-253 | what a packet past the window declares lost includes every missing number, and is exactly these if and only if their count spans the lowest missing to the highest recorded number |
| ArbitrationRuns.RewindowReport | feeds/arca/common/seq_handling.c:133-150 | what a packet at the window end declares lost is as many numbers as are missing, and exactly these if and only if none lies further up |
| ArbitrationRuns.StepDeclares | feeds/arca/common/seq_handling.c:133-253 | one packet keeps the numbers declared lost equal to those dropped if and only if its report is exact |
| ArbitrationRuns.DeclaredExactly | feeds/arca/common/seq_handling.c:160-295 | throughout a run every number below the larger counter is exactly one of published, missing, declared lost and skipped, if and only if no packet reopens the window and every report of loss is exact |
| ArbitrationRuns.BalancedExactly | feeds/arca/common/seq_handling.c:37-151 | the gap statistics balance at every point of a run if and only if no packet rebuilds the window to a size other than what was missing and is missing now |
| ArbitrationRuns.PublishedBook | feeds/arca/common/seq_handling.c:160-295 | the book of published numbers holds exactly the numbers of the packets for which the rule returned 1 |
| ArbitrationRuns.PublishedOnce | feeds/arca/common/seq_handling.c:160-295 | two published packets of a clean run never carry the same number |
| ArbitrationRuns.CleanRunRepeatsNothing | feeds/arca/common/seq_handling.c:160-295 | a clean run followed by any one packet publishes no number twice |
| ArbitrationRuns.ReopeningForgets | feeds/arca/common/seq_handling.c:133-150 | a packet at the window end less than half a window ahead puts the published number just below the counters back among the missing |
| ArbitrationRuns.AtMostOnceExactly | feeds/arca/common/seq_handling.c:160-295 | after a clean run, packet p leaves every next packet unable to repeat a publication if and only if p does not reopen the window: the exact condition of at-most-once |
| ArbitrationCounts.GapCounted | feeds/arca/common/seq_handling.c:160-295 | exactly when a packet is a counted gap, a jump past the window or a late join, and which of the four kinds of gap it is, from its number, the counters and the window alone |
| ArbitrationCounts.StepCounts | feeds/arca/common/seq_handling.c:37-253 | what one packet adds to each of the six statistics, from its number, the counters and the missing numbers alone |
| ArbitrationCounts.StatsExactly | feeds/arca/common/seq_handling.c:37-253 | over every run the gaps, their numbers, the jumps past the window, the numbers given up and the losses of sequence are the counts of such packets, and sequence was restored as often as it was lost, but for the time it is lost now |
| ArbitrationCounts.StepCounters | feeds/arca/common/seq_handling.c:160-295 | the other feed's counter is untouched; its own moves past the packet if the group is in sequence or the packet is published, and else only from 0 to the packet |
| FeedGroups.FeedGroup.constructor | feeds/arca/common/fh_feed_group.c:72-98 | a new feed group is the initial state of the rule |
| FeedGroups.FeedGroup.InitMissing | feeds/arca/common/fh_feed_group.h:274-282 | the window is empty afterwards, whatever it held |
| FeedGroups.FeedGroup.LookupDecides | feeds/arca/common/fh_feed_group.h:332-357 | out of sequence, the bitmap lookup is membership in the set of missing numbers |
| FeedGroups.FeedGroup.PastWindowExactly | feeds/arca/common/fh_feed_group.h:332-357 | the lookup indexes one word past the bitmap for exactly one number, and only once the lowest missing number has left the base |
| FeedGroups.FeedGroup.AddSequencesToMissing | feeds/arca/common/fh_feed_group.c:103-144 | adding a range adds exactly those numbers to the set that bitmap, base, count, lowest and highest describe; a range starting at 0 is refused and changes nothing |
| FeedGroups.FeedGroup.SetRange | feeds/arca/common/fh_feed_group.c:103-144 | the bit loop adds exactly the interval and no bit outside the window |
| FeedGroups.FeedGroup.RemoveSequence | feeds/arca/common/fh_feed_group.h:373-420 | removing a number removes it from the set, keeps count its size and lowest its minimum, and returns to in sequence exactly when the set is empty |
| FeedGroups.FeedGroup.FindLowest | feeds/arca/common/fh_feed_group.h:373-420 | the search loop finds the minimum of the remaining missing numbers |
| FeedGroups.FeedGroup.FirstGap | feeds/arca/common/seq_handling.c:37-102 | a gap in sequence records exactly its numbers and leaves sequence, unless it is wider than the window: then nothing is recorded; the loss branch is not reached |
| FeedGroups.FeedGroup.SecondGap | feeds/arca/common/seq_handling.c:106-151 | a gap out of sequence extends the set by exactly its numbers; at the window end the set becomes the last half window, and as many numbers are declared lost as were missing, from the lowest on |
| FeedGroups.FeedGroup.AbandonWindow | feeds/arca/common/seq_handling.c:231-253 | a packet past the window declares every number from the lowest missing to the highest recorded one lost, counts the missing ones as unrecoverable, and restores sequence |
| FeedGroups.FeedGroup.NeedToPublish | feeds/arca/common/seq_handling.c:160-295 | the bitmap implementation refines the set rule: same new state, 1 is returned exactly when the number is at or beyond both counters or missing, and the same numbers are declared lost |
| FeedRuns.Receive | feeds/arca/common/seq_handling.c:160-295 | a new feed group fed any interleaving returns 1 exactly where the rule publishes, declares lost what the rule does, ends in the state of the rule, and on a clean run never returns 1 twice for one number |
| FeedRuns.ReopeningRun | feeds/arca/common/seq_handling.c:133-150 | a concrete clean run after which the packet at the window end reopens the window and unbalances the statistics |
| FeedRuns.WrongReports | feeds/arca/common/seq_handling.c:133-253 | after 1, 3 and 5 a packet past the window declares the published 3 lost, and a packet at its end, which reopens nothing, leaves 4 dropped and unreported |
| FeedRuns.WideGapRun | feeds/arca/common/seq_handling.c:55-93 | a concrete packet beyond a whole window: all between is skipped, unrecorded and unreported |
| FeedRuns.PastWindowRun | feeds/arca/common/seq_handling.c:160-295 | a concrete run after which the window has moved off its lowest number and the counters are past its end |
| FeedRuns.ReceivePastWindow | feeds/arca/common/fh_feed_group.h:332-357 | a feed group that received that run reads past its bitmap to look up the number at the window end |
| MemoryPool.Mpool.constructor | common/fh_mpool.c:121-158 | a new pool has one block, all of it free |
| MemoryPool.Mpool.Grow | common/fh_mpool.c:68-112 | growing adds one block of free chunks and keeps free and handed-out chunks a partition of all chunks |
| MemoryPool.Mpool.Get | common/fh_mpool.c:203-256 | a chunk handed out was not in use; none is handed out exactly when none is free and the pool cannot grow; chunks are conserved |
| MemoryPool.Mpool.Put | common/fh_mpool.c:263-293 | a returned chunk goes to the head of the free list; chunks are conserved |
| GapRanges.PushKeepsOrder | feeds/shared/gap_mgmt/fh_shr_gap_fill.h:80-123 | an increasing push keeps the list sorted, disjoint and non-empty |
| GapRanges.DelKeepsOrder | feeds/shared/gap_mgmt/fh_shr_gap_fill.h:161-285 | every branch of a deletion keeps the list sorted, disjoint and non-empty |
| GapRanges.PushCovers | feeds/shared/gap_mgmt/fh_shr_gap_fill.h:80-123 | after a push exactly the old numbers, the new ones, and not those of an evicted head are covered |
| GapRanges.DelCovers | feeds/shared/gap_mgmt/fh_shr_gap_fill.h:161-285 | after a deletion exactly the old numbers but the deleted one and those given up are covered |
| GapRanges.HandedBackExactly | feeds/shared/gap_mgmt/fh_shr_gap_fill.h:161-285 | the node handed back holds the numbers of the range after the deleted one, or else those before it, or there is none |
| GapRanges.FlushCovers | feeds/shared/gap_mgmt/fh_shr_gap_fill.h:287-316 | after a flush exactly the numbers outside the expired prefix are covered |
| GapRanges.PushKeepsStamps | feeds/shared/gap_mgmt/fh_shr_gap_fill.h:80-123 | a push at the current time keeps the list oldest first |
| GapRanges.DelKeepsStampsExactly | feeds/shared/gap_mgmt/fh_shr_gap_fill.h:161-285 | a deletion keeps the list oldest first if and only if it does not reuse a head of another time stamp for the right part |
| GapRanges.FlushRemovesExpired | feeds/shared/gap_mgmt/fh_shr_gap_fill.h:287-316 | a flush removes exactly the expired ranges, whatever the time, if and only if the list is oldest first |
| GapRanges.PushConserves | feeds/shared/gap_mgmt/fh_shr_gap_fill.h:80-123 | the numbers of the list and the evicted head account for the pushed range |
| GapRanges.DelConserves | feeds/shared/gap_mgmt/fh_shr_gap_fill.h:161-285 | numbers are conserved by a deletion, and the value returned is the number given up if and only if it does not reuse a head of a size other than the split range |
| GapRanges.FlushConserves | feeds/shared/gap_mgmt/fh_shr_gap_fill.h:287-316 | a flush loses exactly the total of the expired prefix |
| GapRanges.RunKeepsList | feeds/shared/gap_mgmt/fh_shr_gap_fill.h:80-316 | over every increasing run of pushes, arrivals and flushes the list is sorted, disjoint, non-empty, and covers exactly the numbers pushed and not filled, evicted or expired |
| GapRanges.FateIsFinal | feeds/shared/gap_mgmt/fh_shr_gap_fill.h:80-316 | a number filled, evicted or expired never goes missing again |
| GapAccounts.StampedExactly | feeds/shared/gap_mgmt/fh_shr_gap_fill.h:80-316 | over every run whose times never decrease the list is oldest first throughout if and only if no arrival reuses a head of another time stamp |
| GapAccounts.SweepsExactly | feeds/shared/gap_mgmt/fh_shr_gap_fill.h:287-316 | throughout such a run a flush, whatever its time, removes exactly the expired ranges, under the same exact condition |
| GapAccounts.StepAccounts | feeds/shared/gap_mgmt/fh_shr_gap_fill.h:80-316 | one call keeps pushed = listed + filled + returned if and only if it does not split into a head of another size |
| GapAccounts.AccountedExactly | feeds/shared/gap_mgmt/fh_shr_gap_fill.h:80-316 | over every run the numbers pushed are those listed, filled and returned as lost, throughout, if and only if no split reuses a head of another size |
| GapAccounts.WrongSplit | feeds/shared/gap_mgmt/fh_shr_gap_fill.h:186-216 | a concrete run of two gaps and an arrival that returns 5 where 1 number is lost and leaves the list out of order of time |
| GapLinks.AppendLinked | feeds/shared/gap_mgmt/fh_shr_gap_fill.h:80-123 | linking a node at the tail keeps next a chain from head to tail and prev its inverse for every node but the head |
| GapLinks.InsertLinked | feeds/shared/gap_mgmt/fh_shr_gap_fill.h:161-285 | linking a node behind another keeps the doubly linked list |
| GapLinks.UnlinkedLinked | feeds/shared/gap_mgmt/fh_shr_gap_fill.h:161-285 | taking a node out keeps the doubly linked list |
| GapLists.GapList.constructor | feeds/shared/gap_mgmt/fh_shr_gap_fill.c:33-54 | a new list is empty and its pool holds max nodes and cannot grow |
| GapLists.GapList.PoolFollowsList | feeds/shared/gap_mgmt/fh_shr_gap_fill.c:33-54 | the nodes in use are those of the list, at most max, and the pool is exhausted exactly when the list is full |
| GapLists.GapList.Push | feeds/shared/gap_mgmt/fh_shr_gap_fill.h:80-123 | the linked push does what the push on ranges does and returns the size of an evicted head; the list stays well formed if and only if it was not full or max is at least 2 |
| GapLists.GapList.PushNewNode | feeds/shared/gap_mgmt/fh_shr_gap_fill.h:80-123 | a list that is not full always gets a node: the -1 return is not reached |
| GapLists.GapList.Find | feeds/shared/gap_mgmt/fh_shr_gap_fill.h:132-147 | the node of the first range that holds the number, or null |
| GapLists.GapList.SplitWithNewNode | feeds/shared/gap_mgmt/fh_shr_gap_fill.h:218-251 | splitting a range of a list with room takes a node from the pool, which has one: the -1 return is not reached |
| GapLists.GapList.SplitReusingHead | feeds/shared/gap_mgmt/fh_shr_gap_fill.h:161-285 | splitting a range of a full list reuses the head node, returns the size of the split range and keeps the head's time stamp |
| GapLists.GapList.Del | feeds/shared/gap_mgmt/fh_shr_gap_fill.h:161-285 | the linked deletion does what the deletion on ranges does, with the value it returns and the node it hands back: the right part of a split, the node itself if a part is left, null otherwise; a number outside the range changes nothing and returns 0 |
| GapLists.GapList.Flush | feeds/shared/gap_mgmt/fh_shr_gap_fill.h:287-316 | the linked flush drops exactly the expired prefix and returns its total |
| GapLists.Replay | feeds/shared/gap_mgmt/fh_shr_gap_fill.h:80-316 | a linked list of at least two ranges driven through any run holds exactly the ranges of the run, so with increasing gaps it covers exactly the numbers still missing; its calls return what the account of the run says |
| GapLists.LosesOnlyRange | feeds/shared/gap_mgmt/fh_shr_gap_fill.h:80-123 | two pushes into a list of one leave it without a head |
| HashTables.NPower | common/fh_htable.c:38-50 | the least power of two that is at least n |
| HashTables.HTable.constructor | common/fh_htable.c:60-112 | a new table is the empty map, with a pool of the configured number of elements |
| HashTables.HTable.CountsKeys | common/fh_htable.c:195-299 | `ht_count` is the number of keys of the map |
| HashTables.HTable.Lookup | common/fh_htable.c:306-333 | the element of the key, or null, for any hash function |
| HashTables.HTable.Get | common/fh_htable.c:340-356 | get is lookup in the map |
| HashTables.HTable.Grow | common/fh_htable.c:137-188 | growing doubles the table and puts every element, once, into the bucket of its hash value, with its back reference |
| HashTables.HTable.GrowIndexed | common/fh_htable.c:137-188 | growing keeps the map |
| HashTables.HTable.Put | common/fh_htable.c:195-299 | put is map insertion; a key already present changes nothing, an exhausted pool is the only error, and the buckets double exactly when the table would be more than 80% full and the allocation succeeds |
| HashTables.HTable.Delete | common/fh_htable.c:363-392 | delete is map removal, returns the removed value and keeps the buckets |
| HashRuns.LoadedExactly | common/fh_htable.c:260-280 | over every run of puts, gets and deletes a growing table is at most 80% full after each call if and only if every growth that is due succeeds |
| HashRuns.FixedStaysLoaded | common/fh_htable.c:60-112 | a table that may not grow never holds more than its pool and stays at most half full |
| HashRuns.Apply | common/fh_htable.c:195-392 | one call on the table is one step of the map, with the status and value the map gives |
| HashRuns.Replay | common/fh_htable.c:60-392 | a new table driven through any run is the finite map of the run, answers every call as that map does, and is at most 80% full if every growth that is due succeeds |
| OrderTables.OrderTable.constructor | feeds/shared/lookup_tables/fh_shr_lkp_order.c:61-99 | a new order table is empty, its two pools of the configured size |
| OrderTables.OrderTable.PoolsInStep | feeds/shared/lookup_tables/fh_shr_lkp_order.c:61-177 | in every valid table the table count, the hash count and both in-use counts are equal, so one pool is exhausted exactly when the other is |
| OrderTables.OrderTable.Get | feeds/shared/lookup_tables/fh_shr_lkp_order.c:104-109 | the entry of the key, or null |
| OrderTables.OrderTable.Add | feeds/shared/lookup_tables/fh_shr_lkp_order.c:114-151 | an order is added exactly when there is room and its key is new; the unchecked error of the hash table cannot occur |
| OrderTables.OrderTable.Del | feeds/shared/lookup_tables/fh_shr_lkp_order.c:156-177 | exactly the entry of the key is removed |
| EdgeOrders.SharesConserved | feeds/directedge/common/fh_edge_parse.c:182-393 | over every run, for every reference, accepted adds equal the shares stored plus accepted executions and cancels |
| EdgeOrders.StoredWhileOpen | feeds/directedge/common/fh_edge_parse.c:182-393 | with positive adds an order is stored exactly while it has shares left, and has positive shares |
| EdgeOrders.NeverOverfull | feeds/directedge/common/fh_edge_parse.c:212-228 | the table never holds more orders than its size |
| EdgeOrders.AddStores | feeds/directedge/common/fh_edge_parse.c:182-228 | an add of a new reference with room stores exactly its price, side, stock and shares and leaves all other orders; any other add changes nothing |
| EdgeOrders.ReductionLowers | feeds/directedge/common/fh_edge_parse.c:284-379 | an executed or canceled message lowers a stored order of more shares by exactly its shares, removes one of as many, and changes nothing otherwise |
| EdgeOrders.SharesAreNet | feeds/directedge/common/fh_edge_parse.c:182-393 | over every run in which no add repeats a stored reference or finds the table full and no reduction exceeds what is stored, the shares stored are all adds less all executions and cancels, summed from the messages |
| EdgeOrders.HandleAdd | feeds/directedge/common/fh_edge_parse.c:212-228 | an add message changes the order table as the run model says |
| EdgeOrders.HandleReduction | feeds/directedge/common/fh_edge_parse.c:284-379 | an executed or canceled message takes its shares from a stored order that has them, and removes it exactly at zero |
| EdgeOrders.Replay | feeds/directedge/common/fh_edge_parse.c:182-393 | a new table driven through any run of messages holds exactly the book of the run, in which shares are conserved |
| RestartTimers.RestartsOnTime | mgmt/fhmgr/fh_mgmt_service.c:137-172 | the n-th timer call after the restart time is set restarts the group if and only if that second of the day is the restart time; set at the restart time itself, it is silent until the 32-bit counter wraps |
| RestartTimers.RestartTimer.SetRestartTime | mgmt/fhmgr/fh_mgmt_service.c:137-172 | the counter set for a restart time at a second of the day |
| RestartTimers.RestartTimer.Tick | mgmt/fhmgr/fh_mgmt_service.c:1655-1667 | one timer call advances the counter and restarts exactly at the deadline |
| RestartTimers.RunTimer | mgmt/fhmgr/fh_mgmt_service.c:1655-1667 | over any number of seconds the timer restarts exactly when it is due, also when it was set at the restart time itself |
| ServiceStates.Created | mgmt/fhmgr/fh_mgmt_service.c:325-415 | a new service is consistent: exactly one of enabled and disabled, at most one life-cycle state, stopping only while running, a pending restart only while not stopped |
| ServiceStates.Added | mgmt/fhmgr/fh_mgmt_service.c:254-285 | adding to a disabled group disables the service and keeps it consistent |
| ServiceStates.Start | mgmt/fhmgr/fh_mgmt_service.c:974-1022 | start keeps the flags consistent and changes them only from stopped to started |
| ServiceStates.Stop | mgmt/fhmgr/fh_mgmt_service.c:1029-1086 | stop and administrative stop keep the flags consistent and never stop by themselves |
| ServiceStates.Restart | mgmt/fhmgr/fh_mgmt_service.c:1094-1116 | restart keeps the flags consistent |
| ServiceStates.Disable | mgmt/fhmgr/fh_mgmt_service.c:1146-1174 | disable keeps the flags consistent and disables unless the group already is disabled |
| ServiceStates.Enable | mgmt/fhmgr/fh_mgmt_service.c:1181-1204 | enable keeps the flags consistent, does nothing in a disabled group and enables otherwise |
| ServiceStates.Attach | mgmt/fhmgr/fh_mgmt_service.c:1211-1234 | attaching makes exactly a started or stopped service running |
| ServiceStates.Detach | mgmt/fhmgr/fh_mgmt_service.c:1241-1274 | a detached service is not running, has no restart pending, and is administratively stopped exactly if that was asked for |
| ServiceStates.Monitor | mgmt/fhmgr/fh_mgmt_service.c:1564-1584 | the respawn monitor keeps the flags consistent and neither enables nor attaches |
| ServiceStates.RestartBringsBack | mgmt/fhmgr/fh_mgmt_service.c:1094-1274 | restarting a running service and losing its connection leaves it started, if it is enabled and its command succeeds |
| ServiceStates.AdminStopSticks | mgmt/fhmgr/fh_mgmt_service.c:1060-1274 | the stop of a running service by its operator outlasts the loss of its connection if and only if no restart is pending, or starting is refused or fails |
| ServiceStates.AdminStopUndone | mgmt/fhmgr/fh_mgmt_service.c:1094-1274 | a service restarted before it registered is started again by its operator's stop |
| ServiceStates.MonitorRespectsOperator | mgmt/fhmgr/fh_mgmt_service.c:1564-1584 | once stopped by its operator a service is neither started by the monitor nor attached; a respawn service that stopped otherwise is started |
| ServiceStates.CreatedExactly | mgmt/fhmgr/fh_mgmt_service.c:254-415 | which flags a new service has, and what adding it to a group changes |
| ServiceStates.StartExactly | mgmt/fhmgr/fh_mgmt_service.c:974-1022 | exactly when start starts the service, what else it changes (nothing), and exactly when it fails |
| ServiceStates.StopExactly | mgmt/fhmgr/fh_mgmt_service.c:1029-1086 | exactly when a stop marks the service, what else it changes (nothing), and exactly when it fails |
| ServiceStates.RestartExactly | mgmt/fhmgr/fh_mgmt_service.c:1094-1116 | a stopped service is started; any other has a restart pending, and a running one is told to stop, exactly if it can be reached |
| ServiceStates.DisableExactly | mgmt/fhmgr/fh_mgmt_service.c:1146-1174 | a service of an enabled group is disabled, and told to stop if it was enabled and running and can be reached; nothing else changes |
| ServiceStates.EnableExactly | mgmt/fhmgr/fh_mgmt_service.c:1181-1204 | a service of an enabled group is enabled, and started exactly if it was disabled and stopped, is not of the wait kind and its command succeeds; exactly when it fails |
| ServiceStates.AttachExactly | mgmt/fhmgr/fh_mgmt_service.c:1211-1234 | the service is running and neither started nor stopped; nothing else changes |
| ServiceStates.DetachExactly | mgmt/fhmgr/fh_mgmt_service.c:1241-1274 | exactly whether the service is then started, stopped by its operator or stopped otherwise |
| ServiceStates.MonitorExactly | mgmt/fhmgr/fh_mgmt_service.c:1564-1584 | the monitor starts exactly the enabled respawn services that stopped by themselves |
| ServiceStates.DisableTakesDown | mgmt/fhmgr/fh_mgmt_service.c:1146-1274 | disabling a running enabled service marks it as stopping exactly if it can be reached, and once its connection is lost it is stopped and disabled, even with a restart pending |
| ServiceManagers.LinkIsOneToOne | mgmt/fhmgr/fh_mgmt_service.c:1211-1274 | in a linked state no two connections serve one service and no two services share one |
| ServiceManagers.Command | mgmt/fhmgr/fh_mgmt_service.c:719-781 | every control command keeps the flags consistent, never changes running, and never enables a service of a disabled group |
| ServiceManagers.TickFlags | mgmt/fhmgr/fh_mgmt_service.c:1630-1669 | a second of the timers keeps the flags consistent and changes neither running nor disabled |
| ServiceManagers.TickExactly | mgmt/fhmgr/fh_mgmt_service.c:1564-1669 | what a second does to a running, a stopped and a started service, by what is due for its group |
| ServiceManagers.GroupRestartsOnTime | mgmt/fhmgr/fh_mgmt_service.c:1630-1669 | the timers of an enabled group restart its services exactly if it has a restart time and that is due |
| ServiceManagers.Manager.AddGroup | mgmt/fhmgr/fh_mgmt_service.c:179-247 | a new group has timers exactly if it is enabled and has statistics or a restart time |
| ServiceManagers.Manager.AddService | mgmt/fhmgr/fh_mgmt_service.c:254-285 | the added service has the flags of the state machine; everything stays valid |
| ServiceManagers.Manager.Lookup | mgmt/fhmgr/fh_mgmt_service.c:927-948 | the first service of that name in group order, or none if no service has it |
| ServiceManagers.Manager.StartService | mgmt/fhmgr/fh_mgmt_service.c:974-1022 | start in place, with its status; running services and their connections stay linked |
| ServiceManagers.Manager.StopService | mgmt/fhmgr/fh_mgmt_service.c:1029-1086 | stop in place, with its status; whenever it sends there is a connection to send on |
| ServiceManagers.Manager.RestartService | mgmt/fhmgr/fh_mgmt_service.c:1094-1116 | restart in place, with its status |
| ServiceManagers.Manager.DisableService | mgmt/fhmgr/fh_mgmt_service.c:1146-1174 | disable in place; the assertion that a disabled group's service is disabled holds |
| ServiceManagers.Manager.EnableService | mgmt/fhmgr/fh_mgmt_service.c:1181-1204 | enable in place, with its status |
| ServiceManagers.Manager.ControlGroup | mgmt/fhmgr/fh_mgmt_service.c:800-833 | the command reaches the command-line services of the group in order, up to and including the first that fails, and no other service |
| ServiceManagers.Manager.ControlAll | mgmt/fhmgr/fh_mgmt_service.c:853-871 | the same, group after group |
| ServiceManagers.Manager.NewConn | mgmt/fhmgr/fh_mgmt_conn.c:58-85 | a new connection has no client type and no service |
| ServiceManagers.Manager.AttachConn | mgmt/fhmgr/fh_mgmt_service.c:1211-1234 | service and connection point to each other afterwards; refused for a service neither started nor stopped |
| ServiceManagers.Manager.DetachConn | mgmt/fhmgr/fh_mgmt_service.c:1241-1274 | detaching the service of a connection always succeeds and undoes both pointers |
| ServiceManagers.Manager.FreeConn | mgmt/fhmgr/fh_mgmt_conn.c:92-117 | closing a connection detaches exactly its service; the assertion on the detach holds |
| ServiceManagers.Manager.Register | mgmt/fhmgr/fh_mgmt_conn.c:159-224 | a registration succeeds for a client, or for the first service of its name if that can be attached; the services change only by that attachment; every failure leaves a state from which closing the connection restores the invariant |
| ServiceManagers.Manager.Dispatch | mgmt/fhmgr/fh_mgmt_conn.c:279-311 | what each kind of connection does with its input, with its status; the service pointer handed on is not null |
| ServiceManagers.Manager.Process | mgmt/fhmgr/fh_mgmt_conn.c:366-383 | whatever a connection delivers, the invariant holds afterwards, other connections are untouched, and every service is as it was, or was given the command that addresses it, or lost this connection, or was attached as the first of the registered name; commands that nobody refuses are obeyed, registrations that can succeed do, and a service's connection is closed |
| ServiceManagers.Manager.MonitorGroup | mgmt/fhmgr/fh_mgmt_service.c:1564-1584 | when respawn is due exactly the stopped respawn services of the group are started |
| ServiceManagers.Manager.RestartGroup | mgmt/fhmgr/fh_mgmt_service.c:1310-1317 | every service of the group, and no other, is restarted |
| ServiceManagers.Manager.Tick | mgmt/fhmgr/fh_mgmt_service.c:1630-1669 | one second: each group's counters advance and each service sees its group's monitor and then its restart |
| ServiceManagers.Handle | mgmt/fhmgr/fh_mgmt_conn.c:318-402 | one event moves every service only as that event may, and every group as its timers do |
| ServiceManagers.Run | mgmt/fhmgr/fh_mgmt_conn.c:318-402 | any sequence of configuration, connections, registrations, disconnections, commands and timer calls keeps flags consistent, running services linked one-to-one to connections, and passes every assertion |
| ServiceLives.OperatorStopLasts | mgmt/fhmgr/fh_mgmt_service.c:974-1274 | a service its operator stopped stays stopped over any run without a start, restart or enable command or a group restart |
| ServiceLives.WakingStarts | mgmt/fhmgr/fh_mgmt_service.c:974-1116 | those events do start it again when its command succeeds; enabling an enabled service does not |
| ServiceLives.DisabledGroupStartsNothing | mgmt/fhmgr/fh_mgmt_service.c:1146-1204 | in a disabled group no event ever starts a service |
| ServiceLives.DisabledNeverStarts | mgmt/fhmgr/fh_mgmt_service.c:974-1274 | over any run without an enable command a disabled service is not started |
| ServiceLives.DisabledStandsStill | mgmt/fhmgr/fh_mgmt_service.c:974-1274 | if it is down and no process registers as it, nothing in such a run changes it at all |
| ServiceLives.RespawnIsPeriodic | mgmt/fhmgr/fh_mgmt_service.c:1564-1584 | the respawn of an enabled group with timers is due every period and one second |
| ServiceLives.RespawnsOnTime | mgmt/fhmgr/fh_mgmt_service.c:1564-1584 | counted from the creation of the group: at every (period + 1)-th timer call |
| ServiceLives.UntimedStandsStill | mgmt/fhmgr/fh_mgmt_service.c:1630-1687 | the services of a group without timers never change by the passing of time |
| ServiceLives.RespawnedInTime | mgmt/fhmgr/fh_mgmt_service.c:1564-1584 | a stopped respawn service of an enabled group is started by the next respawn of the group, its starts succeeding, if and only if the group has timers, and otherwise never |
| ServiceLives.RespawnsIfConfigured | mgmt/fhmgr/fh_mgmt_service.c:1674-1687 | in terms of the configuration: if and only if the enabled group has statistics or a restart time |
| ServiceLives.LostAndRespawned | mgmt/fhmgr/fh_mgmt_service.c:1241-1274 | the same for one that loses its connection without an operator's stop |
| ServiceLives.RunLife | mgmt/fhmgr/fh_mgmt_conn.c:318-402 | over any run of the manager the flags of a service are a life of what happened to it, so an operator's stop lasts until a client's start, restart or enable command may reach the service or a timer call falls on the restart time of its group, and a disabled service is not started until an enable command may reach it |
| ServiceLives.LetSecondsPass | mgmt/fhmgr/fh_mgmt_service.c:1630-1669 | n timer calls of the manager, starts and sends succeeding, do to each service what n seconds of its group do |
| ServiceLives.RespawnByTimers | mgmt/fhmgr/fh_mgmt_service.c:1564-1584 | in the manager the timer calls up to the next respawn start a stopped respawn service of an enabled group if and only if the group has timers |
| ServiceLives.DisableForGood | mgmt/fhmgr/fh_mgmt_service.c:1146-1274 | in the manager a running service that is disabled is told to stop exactly if it can be reached, is down and disabled once its connection is lost, and is not started over any run until an enable command may reach it |
| FastFields.StoreRoundTrip | feeds/arca/codec/AB_FastDecode.c:106-160 | the integer stored in a field's union reads back, and the bytes beyond it are kept |
| FastFields.StopAt | feeds/arca/codec/AB_FastDecode.c:106-160 | the position of the first byte with the stop bit |
| FastFields.ReadNumber | feeds/arca/codec/AB_FastDecode.c:106-160 | the digit loop computes the base-128 value up to the stop byte modulo 2^32, or reports that there is none |
| FastFields.ReadText | feeds/arca/codec/AB_FastDecode.c:286-346 | the character loop copies the string up to the stop byte, with its stop bit cleared |
| FastDecoders.DecodeInt | feeds/arca/codec/AB_FastDecode.c:106-160 | an integer field: presence, copy and increment, storing, and every error |
| FastDecoders.DecodeText | feeds/arca/codec/AB_FastDecode.c:286-346 | a string field: presence, copy, storing unless too long, and every error |
| FastDecoders.NarrowingCommutes | feeds/arca/codec/newFastDecode.c:177-214 | cutting an integer before or after the conversion to network order gives the same bytes |
| FastDecoders.PmapLen | feeds/arca/codec/AB_FastDecode.c:75-93 | the length of the presence map up to its stop byte, at most n |
| FastDecoders.CopyPmap | feeds/arca/codec/newFastDecode.c:78-103 | a stop byte that is the last of n is copied, an earlier one is not |
| FastDecoders.ValidateOriginal | feeds/arca/codec/AB_FastDecode.c:406-430 | accepts exactly a map of one or two bytes, ended by a stop bit, that has the message type |
| FastDecoders.ValidateOptimised | feeds/arca/codec/newFastDecode.c:335-360 | accepts exactly the two-byte maps among those |
| FastDecode.LayoutSplits | feeds/arca/codec/newFastDecode.c:428-622 | the common first fields and the rest make up the original's field list for types 100 to 103 |
| FastDecode.FieldsAppend | feeds/arca/codec/newFastDecode.c:428-622 | decoding two lists of fields in turn is decoding their concatenation |
| FastDecode.Original | feeds/arca/codec/AB_FastDecode.c:444-989 | a refused message leaves the table unchanged; a decoded one uses between 2 and all of the bytes; the table stays well formed |
| FastDecode.Optimised | feeds/arca/codec/newFastDecode.c:377-794 | a decoded message uses between 3 and all of the bytes; the table stays well formed |
| FastDecode.DecodersAgree | feeds/arca/codec/newFastDecode.c:377-794 | the two decoders return the same if and only if the presence map does not have one byte, and then leave the same table unless the message is refused |
| FastDecode.DecodingIsLocal | feeds/arca/codec/AB_FastDecode.c:444-989 | a decoded message depends only on the bytes it uses |
| FastDecode.OptimisedLosesTable | feeds/arca/codec/newFastDecode.c:386-396 | a concrete message that both refuse, after which the original's table is unchanged and the optimised decoder's is not |
| FastEffects.QuietExactly | feeds/arca/codec/newFastDecode.c:115-281 | a decoded field leaves its entry as it was if and only if it is absent and copied, or present and not kept or already stored; for a string also if too long with an invalid entry |
| FastEffects.FieldsQuiet | feeds/arca/codec/newFastDecode.c:377-794 | fields leave the table as it was if and only if each that is decoded before one fails is quiet |
| FastEffects.OptimisedKeepsTable | feeds/arca/codec/newFastDecode.c:377-794 | the optimised decoder leaves the caller's table as it was exactly on such a message |
| FastEffects.RefusedAlikeExactly | feeds/arca/codec/newFastDecode.c:386-396 | a refused message leaves both decoders with the same table if and only if it is quiet |
| FastDecoders.DecodeOriginal | feeds/arca/codec/AB_FastDecode.c:444-989 | decoding on a copy of the table, stored back on success, refines the specification |
| FastDecoders.DecodeOptimised | feeds/arca/codec/newFastDecode.c:377-794 | decoding in place, common fields first, refines the specification |
| FastDecoders.DecodeBoth | feeds/arca/codec/newFastDecode.c:377-794 | run on equal tables, the two return the same exactly when the map does not have one byte, leave the same table if not refused, and the original restores its table if refused |
| FastPackets.PacketsAgree | feeds/arca/common/rcv_feed_packets.c:210-231 | over a whole packet the decoders agree on every message, the ending and the final table exactly when all presence maps reached have two bytes |
| FastPackets.PacketUsesItsBytes | feeds/arca/common/rcv_feed_packets.c:210-231 | a packet decoded to its end is used up exactly, at two bytes or more a message |
| FastPackets.DecodePacket | feeds/arca/common/rcv_feed_packets.c:210-231 | the loop ends, decodes message after message until the bytes are used up, and does so for any positive number of announced bodies, since the count never advances |
| FastPackets.EncodedRoundTrip | feeds/arca/codec/AB_FastDecode.c:106-160 | every 32-bit value in stop-bit encoding decodes to itself, uses exactly its bytes and is stored |
| FastPackets.OmittedAfterEncoded | feeds/arca/codec/AB_FastDecode.c:106-160 | left out of the next message, the field repeats (copy) or counts on by one modulo 2^32 (increment) |
| FastMessages.FieldDelivered | feeds/arca/codec/AB_FastDecode.c:106-346 | a field that is sent is delivered with its bytes most significant first and kept; one that is not is delivered so exactly if the table holds it |
| FastMessages.MapAnnounces | feeds/arca/codec/AB_FastDecode.c:75-93 | the bits of the presence map, written by weight, announce exactly the fields sent |
| FastMessages.MessageRoundTrip | feeds/arca/codec/AB_FastDecode.c:444-989 | for every message of every type, given by its named fields, every choice of the fields sent and whatever follows: both decoders return exactly these fields, in order and of their widths, and use exactly the bytes of the encoding, if and only if the table holds each field left out; the table is then the sender's |
| FastMessages.ShortRoundTrip | feeds/arca/codec/AB_FastDecode.c:444-989 | the same of the original with a presence map of one byte, which the optimised decoder refuses |
| FastMessages.DecodeEncoded | feeds/arca/codec/newFastDecode.c:377-794 | both decoders run on an encoded message return it, exactly under that condition, and leave the sender's table |
| FastStreams.CutOffIncomplete | feeds/arca/codec/AB_FastDecode.c:444-989 | an encoded message cut off anywhere is refused by both decoders as incomplete |
| FastStreams.InvalidHeaderExactly | feeds/arca/codec/AB_FastDecode.c:406-430 | exactly which bytes each decoder refuses for their header |
| FastStreams.UnknownFallsBack | feeds/arca/codec/AB_FastDecode.c:970-978 | a message of any other type is left to the default branch, with its type read and the offset behind it (from which that branch skips as many bytes again before its own decoding) |
| FastStreams.UnsuppliedInvalid | feeds/arca/codec/AB_FastDecode.c:106-346 | a message whose first field neither sent nor held has nothing in the table to stand for it is refused by both for its state |
| FastStreams.CompressedRoundTrip | feeds/arca/common/rcv_feed_packets.c:210-231 | a packet of any messages, each without the fields that the ones before it supply, is returned by both packet loops message by message with all its fields |
| FastStreams.DeliveredWhole | feeds/arca/common/rcv_feed_packets.c:210-231 | each of these messages has its type and all its fields |
| FastStreams.DecodeCompressed | feeds/arca/common/rcv_feed_packets.c:210-231 | the packet loop run on such a packet, from the table of a new packet |
| FastStreams.InitialTableHoldsNothing | feeds/arca/codec/AB_Fast.h:109-125 | the operators of a new packet: none for the type and field 13, increment for the sequence number, copy for the others; and no field is held |
| FastStreams.NextMessageIsShort | feeds/arca/codec/AB_FastDecode.c:106-346 | after a message, the same with the next sequence number needs nothing but its type and field 13 |
| FastStreams.KnownAdd | feeds/arca/codec/AB_FastDecode.c:480-564 | an add message byte for byte |
| FastStreams.KnownDelete | feeds/arca/codec/AB_FastDecode.c:654-719 | a delete message byte for byte |
| FastStreams.KnownImbalance | feeds/arca/codec/AB_FastDecode.c:721-812 | an imbalance message byte for byte |
| JenkinsHash.MixReverses | common/missing/jhash.h:26-37 | mixing has an inverse: no information is lost |
| JenkinsHash.MixInPlace | common/missing/jhash.h:26-37 | the nine assignments with their shifts, one after the other, are the mixing that the hashes use |
| JenkinsHash.MixAssignments | common/missing/jhash.h:26-37 | the same as an equation: what the nine assignments compute |
| JenkinsHash.ShiftsOnBits | common/missing/jhash.h:26-37 | the shifts by n move every bit of a word n places, and zeros in |
| JenkinsHash.XorWordOnBits | common/missing/jhash.h:26-37 | exclusive or, bit by bit |
| JenkinsHash.Jhash | common/missing/jhash.h:46-84 | the byte loop and its final switch add the key as zero-padded little-endian words, the length in the low byte of the last |
| JenkinsHash.Jhash2 | common/missing/jhash.h:90-115 | the word loop and its final switch |
| JenkinsHash.RoundsAgree | common/missing/jhash.h:46-115 | whole rounds over the memory of words are rounds over the words |
| JenkinsHash.HashesAgree | common/missing/jhash.h:46-115 | the byte hash of the memory of any array of words is its word hash, for every length and initial value |
| JenkinsValues.OneWordHash | common/missing/jhash.h:90-115 | jhash2 of the one word 1, initial value 0, is 0xfa8bd2a8 |
| JenkinsValues.FourWordsHash | common/missing/jhash.h:90-115 | jhash2 of the words 1 to 4, initial value 5, is 0xc0ab5960 |
| JenkinsValues.ElevenBytesHash | common/missing/jhash.h:46-84 | jhash of the bytes 1 to 11, initial value 0, is 0x95de59c9 |
| JenkinsValues.KnownHashes | common/missing/jhash.h:46-115 | the two procedures return these values |
| CommandPrefix.MatchesOne | mgmt/cli/fh_cli_cmd.c:397-406 | in a level of distinct lower-case names no word matches two commands |
| CommandPrefix.MatchesExactly | mgmt/cli/fh_cli_cmd.c:397-406 | a word matches exactly if it begins the name, in either case, and is long enough or all of it |
| CommandPrefix.AmbiguousExactly | mgmt/cli/fh_cli_cmd.c:397-406 | some word matches two commands, of names in any case, if and only if both names reach as far as both lengths and agree so far but for case |
| CommandPrefix.PlainUnambiguous | mgmt/cli/fh_cli_cmd.c:53-83 | with lower-case names, sound lengths make a level unambiguous if and only if the names are distinct |
| CommandPrefix.MixedCaseAmbiguous | mgmt/cli/fh_cli_cmd.c:53-83 | two distinct names in mixed case whose computed lengths let one word match both |
| CommandPrefix.FullNameMatches | mgmt/cli/fh_cli_cmd.c:397-406 | a full name matches its own command, and any other of the same name: names must be distinct |
| CommandPrefix.Level.UniqueLength | mgmt/cli/fh_cli_cmd.c:53-83 | the least length without a clash, or one past the name |
| CommandPrefix.Level.Build | mgmt/cli/fh_cli_cmd.c:53-83 | every length is sound and the shortest possible |
| CommandPrefix.Level.Register | mgmt/cli/fh_cli_cmd.c:90-134 | the new command is at the head and all lengths are sound and shortest |
| CommandPrefix.Level.Unregister | mgmt/cli/fh_cli_cmd.c:141-164 | lengths left as they are stay sound |
| CommandPrefix.Level.Find | mgmt/cli/fh_cli_cmd.c:397-406 | the first sibling that matches, or none; in an unambiguous level the only one |
| CommandPrefix.Replay | mgmt/cli/fh_cli_cmd.c:53-164 | any run of registrations of new lower-case names and of removals leaves an unambiguous level |
| DecimalText.Print | feeds/directedge/common/fh_edge_login.c:49-174 | ten characters: the decimal digits right-justified and padded with spaces; past ten places the first character takes the rest modulo 256 |
| DecimalText.PrintedAt | feeds/directedge/common/fh_edge_login.c:49-174 | each of the ten characters: the decimal digit of its place, or a space where the number has none; in the first, whatever is left, modulo 256 |
| DecimalText.Read | feeds/directedge/common/fh_edge_login.c:191-205 | the sum of the places up to the first space, each product a 32-bit int, modulo 2^64 |
| DecimalText.SumOfPlaces | feeds/directedge/common/fh_edge_login.c:191-205 | up to nine places the sum is the decimal value |
| DecimalText.RoundTripExactly | feeds/directedge/common/fh_edge_login.c:49-205 | for every 64-bit value, what is printed reads back if and only if it is below 3,000,000,000 |
| DecimalText.MisreadExactly | feeds/directedge/common/fh_edge_login.c:191-205 | what a number of ten places reads back as: from 3,000,000,000 on less 2^32, from 7,000,000,000 on less 2^33, modulo 2^64 |
| DecimalText.OneCharacterRead | feeds/directedge/common/fh_edge_login.c:191-205 | a character counts as it is, digit or not, as a signed char |
| DecimalText.PrintAndRead | feeds/directedge/common/fh_edge_login.c:49-205 | the same of the two procedures run one after the other |

## Left out

- FeedGroups.FeedGroup.NeedToPublish: sequence numbers stay below 2^31 minus the window, so 32-bit wrap-around is not modelled; the reset messages that would bring the numbers back are not part of this model.
- FeedRuns.Receive: sequence numbers stay below the same limit.
- FeedGroups.FeedGroup.AddSequencesToMissing: stated for a non-empty range that fits the window, which is all that its callers pass.
- FeedGroups.FeedGroup.RemoveSequence: stated for a number that is missing or outside the window, as its one caller ensures.
- A word of the bitmap is the set of its one bits; its layout in memory is not modelled. Statistics counters do not wrap.
- MemoryPool.Mpool.constructor: a failing allocation, after which no pool exists, is not modelled; the same holds of the other constructors.
- GapLists.GapList.Push: requires a non-empty range and a list that may hold one.
- HashTables.HTable.Put: a growth past 2^30 buckets is taken to fail.
- HashTables.NPower: stated up to 2^30, beyond which the doubled int overflows.
- HashTables.HTable.constructor: the bucket index is a remainder by a power of two instead of a mask, keys are values of any type with any hash function instead of memory of a given length, and more than 2^30 buckets are never allocated.
- EdgeOrders.HandleAdd: the digits and prices of a message are already parsed, and what is sent on to subscribers is not modelled.
- ServiceManagers.Manager.AddGroup: groups are those of the configuration; statistics reports and their timer are not modelled, nor the limit of 32 services a group.
- ServiceManagers.Run: what system(), sends, receives and accepts return is given by the events; a signal that ends the manager is not modelled.
- FastDecode.Original: the field values are delivered as a list of byte strings; their places in the message structure, padding, and strings that overflow their place are not modelled, nor the generic fallback for unknown message types (`DecodeBitmap`).
- FastDecode.Optimised: leaves out the same.
- FastMessages.MessageRoundTrip: requires the well-formed table that the optimised decoder does.
- FastPackets.DecodePacket: a message of unknown type ends the loop, since its fallback decoding is not modelled.
- FastDecoders.DecodeBoth: requires the well-formed table that the optimised decoder does.
- FastDecoders.DecodeOptimised: requires a table whose entries carry their own field numbers, since unlike the original it does not check.
- FastDecoders.OriginalFields: the unrolled sequence of one block per field is a loop over the field list of the message type.
- DecimalText.PrintPlaces: the ten unrolled branches share one recursive method; a 32-bit product that overflows wraps around.
- CommandPrefix.MatchesOne: states one match per word for lower-case names; for others CommandPrefix.AmbiguousExactly says when.
- CommandPrefix.Replay: registers lower-case names only, since others can be ambiguous.
- CommandPrefix.Level.Build: one level of the command tree; the levels below are rebuilt the same way, and help, modes and filters are not modelled.
- JenkinsHash.Jhash: registers are numbers below 2^32 with their operators written out.
- Sockets, select loops, multicast, TCP retries, threads and mutexes, terminal handling and CLI output.
- Plugins, logging, profiling, system monitoring and configuration loading.
- Message parsing and building other than what is listed, the administration protocol and `ABFastEncode`.
