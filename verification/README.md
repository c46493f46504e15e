# Verification of the DPDK pipeline control plane and the traffic generator

A Dafny model of three parts of the repository, with proofs:

* **The control plane of `processing/dpdk_pipeline`.** A main thread owns pipelines, tables and a
  shadow list of rules; data-plane threads own slot arrays of running pipelines and poll message
  rings. Every control operation exists twice, as a direct call on a stopped thread and as a message
  to a running one. The model has both, and a step system in which every enqueue, dequeue and
  handler of main and data-plane threads may interleave in any order.
* **The rule language of the same program.** Lexical readers, tokeniser, match and action parsers,
  rule printer, rule-file reader, and the framer of the command connection.
* **The arithmetic of `processing/moongen_src`.** The software rate limiter, the histogram and
  MoonSniff's latency table.

The modules, in the order in which they build on each other:

| file | content |
|---|---|
| `Prelude`, `Rules` | C integer widths, rules, matches, actions |
| `RuleList` | the shadow rule list as an object, and as an insertion-ordered map |
| `MatchConvert`, `Checks` | parameter checks, conversion to the low-level match, what a table can tell apart |
| `Tables`, `EntryData`, `TableApi` | one table from both sides; what an add writes; the operations as functions and as methods on objects |
| `Threads`, `Scheduler` | slot arrays and control pass of a data-plane thread; its polling over whole runs |
| `Control`, `ControlInv` | every call on the direct and the message path; what every call keeps |
| `CallEffects` | which calls are accepted, and what each call leaves behind, read off the state |
| `ControlApi` | the methods on table objects and the handler of a thread's queue are those transitions |
| `Messages`, `MessageRuns` | the step system of threads, rings and blocks; what holds in every run |
| `KnownTables` | in every run a running pipeline works with the contexts of the tables it was enabled with |
| `PendingCalls` | polling and rings together: a pending call ends at the deadline of its ring |
| `Lexer`, `RuleParser`, `RuleSyntax` | readers, parsers, and the parsers against the documented grammar |
| `RuleShow`, `ShownText`, `RuleFile`, `RuleReload` | printer, what it prints where, file reader, and what a printed table loads as |
| `Framing` | lines out of a byte stream |
| `RateLimiter`, `RateLimiterEnds` | filler frames and their ledger; for which sizes the filler loop ends |
| `OnlineStats`, `Histogram`, `MoonSniff` | statistics of the traffic generator |

Code that changes things in place is modelled by classes and loops (`RuleList.Table`,
`TableApi.LowTableObject`, `Threads.ThreadData`, `Framing.Conn`, `RateLimiter.Limiter`,
`Histogram.Hist`, `MoonSniff.Sniffer`, and the loops of the lexer and of the file reader); each
method is tied to a function on values, and the lemmas are about those functions.

Foreign code enters as follows. The low-level table is a map from keys to entries, with the parameters
it was created with, which decide what it can tell apart: an ACL table the fields, an LPM table the
prefix, a hash table the masked first bytes of the key. Its adds and deletes may fail without effect
and its bulk add is all or nothing; the outcome is an argument of the operation, so every statement
holds for all outcomes. `rte_table_action_apply`, the IPv6 half
of `inet_pton`, the clock and the time stamp counter are arguments too. Rings are bounded queues.

## What was found

* An ACL delete drops the priority, and an ACL, LPM or hash table keys on less than the whole match,
  while the shadow list compares the whole match. An add, bulk add or delete keeps the two sides in
  agreement exactly when no other shadow rule has the same table key (`Tables.AddKeepsAgreementIff`,
  `Tables.DeleteKeepsAgreementIff`, `Tables.BulkKeepsAgreementIff`), and two checked matches share a
  key exactly when they differ only in an ACL priority, in LPM host bits, or in bits of a hash key past
  the key size or outside the key mask (`MatchConvert.SameKeyIffAlias`). Any such pair leaves two rules
  in the list and one entry in the table (`ControlInv.AliasesBreakAgreement`; two ACL priorities in
  `ControlInv.PriorityAliasBreaksAgreement`, a key of 8 and a key of 10 bytes in a table with key size 8
  in `ControlInv.HashAliasBreaksAgreement`).
* A printed rule is taken in again exactly when its match is an array match or a hash match in a table
  with an even key size, and its action has no meter, no VLAN, QinQ or QinQ-PPPoE encapsulation and
  no IPv6 NAT (`RuleShow.RuleReadsBack`). All key sizes with which a table can be created, 8 to 64 in
  steps of 8, are even. A hash match comes back as itself exactly when its key is zero from the key size
  on (`RuleShow.CutKeyIsSameIff`): `hash raw` takes up to 256 bytes for any table, and a longer key is
  printed cut to the key size and loads, without complaint, as a different match
  (`RuleShow.LongKeyComesBackCut`). For whole tables see `RuleReload.CreatedTableReloads`.
* Nothing separates the depth of a printed access rule from what follows it, so that different rules can
  be printed alike (`ShownText.AclTextIsAmbiguous`).
* A comment longer than the line buffer is skipped only as far as the buffer reaches; its rest is read as
  a line of its own (`RuleReload.LongCommentIsCut`).
* A running pipeline knows exactly the tables that it had when it was enabled
  (`KnownTables.EnabledTablesStayKnown`); a table added later is used with whatever context its slot holds.
* The grammar in the comments of `cli.c` requires the `fwd` section; the parser does not.
* A delay longer than 1537 bytes, up to 2 MiB, unbalances the rate limiter's ledger, because the
  remainder is added to the target again (`RateLimiter.LedgerBalancesIff`); for all delays the ledger is
  off by exactly that, modulo 2^32 (`RateLimiter.OffByWhatIsAddedAgain`), and balances exactly when
  wrap-arounds of the target lose as much (`RateLimiter.LedgerBalancesWhen`).
* The filler loop of the rate limiter ends for all accumulators and delays exactly when the minimum
  size is at most 1537, or odd and at most 2000, or above 2000 and not 1028 modulo 2048; with any other
  minimum size a delay of one byte keeps a fresh limiter going for ever
  (`RateLimiterEnds.LoopEndsIff`).
* A comment in `moonsniff.cpp` says that latencies below the threshold are ignored; the code
  reports and counts them, and the model follows the code.
* With a timer period of zero a serviced pipeline is due again at once
  (`Scheduler.ZeroPeriodStaysDue`).

## Model

| member | source | states |
|---|---|---|
| `RuleList.Table.Find` | processing/dpdk_pipeline/pipeline.c:1733-1744 | the search returns the position of the first rule with the match, or the end of the list |
| `RuleList.Table.Add` | processing/dpdk_pipeline/pipeline.c:1746-1760 | the insert-after-and-remove of an add is the put of the ordered map, the default rule is untouched |
| `RuleList.Table.AddBulk` | processing/dpdk_pipeline/pipeline.c:1762-1787 | moves the first n rules of the list, one put after the other, and leaves the others in the list |
| `RuleList.Table.Delete` | processing/dpdk_pipeline/pipeline.c:1789-1801 | a delete is the remove of the ordered map |
| `RuleList.PutRefinesMap` | processing/dpdk_pipeline/pipeline.c:1746-1760 | no two rules with the same match ever; an existing match is replaced at its old position, a new one goes last; lookups see exactly the new rule |
| `RuleList.RemoveRefinesMap` | processing/dpdk_pipeline/pipeline.c:1789-1801 | a delete removes that key from the map and no other |
| `RuleList.RemoveKeepsOrder` | processing/dpdk_pipeline/pipeline.c:1789-1801 | the rules that stay are distinct and in the same order |
| `MatchConvert.PrefixSplit` | processing/dpdk_pipeline/thread.c:2303-2348 | for every address, rule address and depth 0 to 128 the 128-bit prefix test holds iff the four 32-bit tests under the split depth hold |
| `MatchConvert.AclConvertKeepsMeaning` | processing/dpdk_pipeline/thread.c:2350-2610 | the converted fields accept exactly the packets that the rule means, for IPv4 and IPv6, for adds and for deletes |
| `MatchConvert.AclAddCarriesPriority` | processing/dpdk_pipeline/thread.c:2350-2388 | the add form of an access rule carries the priority of the rule as a signed 32-bit number, and one category |
| `MatchConvert.ConvertKeepsSelection` | processing/dpdk_pipeline/thread.c:2611-2656 | a converted array, hash or LPM rule selects the index, the key or the addresses that the rule means |
| `MatchConvert.BitAndBits` | processing/dpdk_pipeline/pipeline.c:1588-1591 | masking a key byte keeps exactly the bits that are set in key and mask |
| `MatchConvert.SameKeyIffAlias` | processing/dpdk_pipeline/thread.c:2350-2656 | two checked matches get the same key in a table iff they are equal but for ACL priority, LPM host bits, or hash key bits past the key size or outside the key mask |
| `MatchConvert.DeleteFindsWhatAddMade` | processing/dpdk_pipeline/thread.c:2389-2415 | the delete form of a match has the key of its add form although the priority is dropped |
| `Checks.CheckedConverts` | processing/dpdk_pipeline/thread.c:1022-1091 | a match that passes the check converts, for an add and for a delete |
| `Checks.KeySizes` | processing/dpdk_pipeline/pipeline.c:1555-1640 | a hash table can be created with the eight key sizes 8 to 64, an LPM table with 4 and 16 |
| `CallEffects.MatchIsAcceptedIff` | processing/dpdk_pipeline/thread.c:1022-1091 | a match is accepted by a table of its type and IP version iff no prefix is longer than an address |
| `CallEffects.InRangeMatches` | processing/dpdk_pipeline/thread.c:1053-1084 | every array and hash match is accepted by its table, an LPM match iff its depth is in range, and none by a stub table |
| `CallEffects.ActionIsRefusedIff` | processing/dpdk_pipeline/thread.c:1093-1183 | an action is refused iff its mask is not that of the profile, it forwards to a port or table that does not exist, or a section goes against the profile; a default action iff it is not forwarding alone, or forwards nowhere |
| `CallEffects.TableCallIsAcceptedIff` | processing/dpdk_pipeline/thread.c:1325-1356 | a table call is accepted iff pipeline and table exist and no rule in it is refused; an empty bulk list is not |
| `CallEffects.ThreadCallIsAcceptedIff` | processing/dpdk_pipeline/thread.c:266-279 | an enable is accepted iff the thread may be used and the pipeline is off and has ports and a table; a disable iff the pipeline is on in this thread; disabling what is off is a success without effect |
| `EntryData.ConvertIsWritten` | processing/dpdk_pipeline/thread.c:2658-2780 | the data of an entry is one apply after the other for the sections of the action, in the order fwd, lb, mtr, tm, encap, nat, ttl, stats, time, tag, decap, up to the first that fails |
| `EntryData.WrittenListsSections` | processing/dpdk_pipeline/thread.c:2658-2780 | when every apply leaves a mark, the entry holds the marks of exactly the sections of the action, once each, in that order, all with the context of the table |
| `EntryData.AddWrites` | processing/dpdk_pipeline/thread.c:1360-1408 | an add takes effect iff the match converts, no apply fails and the table accepts the entry; then the entry under the key of the match has that data and the returned handle, and nothing else changes in the table |
| `EntryData.LowAddWrites` | processing/dpdk_pipeline/thread.c:2789-2834 | the same of the data-plane half |
| `EntryData.BulkWrites` | processing/dpdk_pipeline/thread.c:1210-1323 | a bulk add takes effect iff all matches and actions convert and the table accepts at least one entry, or every one with bulk support; the rules up to the first that is refused are written with their data and handles, in order, and nothing else changes in the table |
| `Tables.AddKeepsAgreementIff` | processing/dpdk_pipeline/thread.c:1325-1438 | a successful add keeps shadow list and low-level table in agreement iff the list has no alias of the match; a failed one changes nothing |
| `Tables.DeleteKeepsAgreementIff` | processing/dpdk_pipeline/thread.c:1654-1720 | a delete that the low-level table carries out keeps agreement iff the list has no alias of the match; a failed one changes nothing |
| `Tables.BulkKeepsAgreementIff` | processing/dpdk_pipeline/thread.c:1562-1652 | a bulk add, of either kind, keeps agreement iff the rules that went in alias nothing; a failed one changes nothing |
| `Tables.DefaultKeepsAgreement` | processing/dpdk_pipeline/thread.c:1440-1536 | adding and deleting the default rule keep agreement whatever the table answers |
| `Tables.BulkIsRepeatedAdd` | processing/dpdk_pipeline/thread.c:1210-1323 | without bulk support a bulk add is single adds up to the first failure: same table, same list, same handles; it fails iff nothing went in, and added plus not added is the list length |
| `Tables.BulkAllOrNothing` | processing/dpdk_pipeline/thread.c:1270-1280 | with bulk support all rules go in, as by single adds, or none does |
| `Tables.SinglesKeepAgreementIff` | processing/dpdk_pipeline/thread.c:1325-1438 | repeated adds keep agreement iff the rules added alias nothing, duplicates in the list included |
| `TableApi.ConvertRules` | processing/dpdk_pipeline/thread.c:1256-1268 | the conversion loop yields all keys and entries in order, each entry with the data of the eleven steps, or fails iff some match or action does not convert |
| `TableApi.TableRuleAddBulkLl` | processing/dpdk_pipeline/thread.c:1210-1323 | the low-level table after the call, the number that went in, and handles written back for exactly those rules |
| `TableApi.RuleAddStopped` | processing/dpdk_pipeline/thread.c:1360-1408 | the direct add leaves the pair of list and table that its effect function says; the new entry has the data of the eleven steps, and the add succeeds iff match and action convert and the table accepts |
| `TableApi.RuleAddBulkStopped` | processing/dpdk_pipeline/thread.c:1602-1619 | the direct bulk add leaves that pair and reports added and freed rules |
| `TableApi.RuleDeleteStopped` | processing/dpdk_pipeline/thread.c:1678-1696 | the direct delete leaves that pair |
| `TableApi.DefaultAddStopped` | processing/dpdk_pipeline/thread.c:1471-1507 | the direct default add leaves that pair |
| `TableApi.DefaultDeleteStopped` | processing/dpdk_pipeline/thread.c:1743-1752 | the direct default delete leaves that pair |
| `TableApi.HandleRuleAdd` | processing/dpdk_pipeline/thread.c:2789-2834 | the data-plane half of an add changes the low-level table as the direct path does; the new entry has the data of the eleven steps |
| `TableApi.HandleRuleDelete` | processing/dpdk_pipeline/thread.c:2906-2929 | the data-plane half of a delete changes the low-level table as the direct path does |
| `TableApi.HandleRuleAddBulk` | processing/dpdk_pipeline/thread.c:2873-2904 | the data-plane half of a bulk add: table, count, and handles written into the list of the caller, or no rules at all |
| `TableApi.HandleDefaultAdd` | processing/dpdk_pipeline/thread.c:2836-2871 | the data-plane half of a default add replaces the default entry, or changes nothing |
| `TableApi.HandleDefaultDelete` | processing/dpdk_pipeline/thread.c:2931-2943 | the data-plane half of a default delete removes the default entry, or changes nothing |
| `Threads.ThreadData.constructor` | processing/dpdk_pipeline/thread.c:146-152 | a fresh thread has no slots and its deadline one period ahead |
| `Threads.ThreadData.CopyTableData` | processing/dpdk_pipeline/thread.c:290-292 | the copy loop overwrites the first contexts of one slot and nothing else |
| `Threads.ThreadData.Enable` | processing/dpdk_pipeline/thread.c:281-301 | fills the slot behind the last live one with ring pair, period and the contexts of all tables, or fails without effect when all 256 are taken |
| `Threads.ThreadData.Disable` | processing/dpdk_pipeline/thread.c:492-527 | the last live slot moves into the hole of the first match; reports whether there was one |
| `Threads.ThreadData.ThreadMsgHandle` | processing/dpdk_pipeline/thread.c:529-556 | the requests of the queue are carried out in order |
| `Threads.ThreadData.ScanSlots` | processing/dpdk_pipeline/thread.c:3186-3201 | drains exactly the pipelines that are due, in order, moves their deadlines, and returns the earliest deadline |
| `Threads.ThreadData.Control` | processing/dpdk_pipeline/thread.c:3178-3218 | one control check changes the thread as the pass function says and drains the due pipelines, or nothing when skipped |
| `Scheduler.StepIsControlPass` | processing/dpdk_pipeline/thread.c:3178-3218 | the steps of a run change the thread exactly as the control check does |
| `Scheduler.RunKeepsInv` | processing/dpdk_pipeline/thread.c:3162-3222 | in every run the cached minimum is at most the thread's deadline and that of every pipeline seen by the last pass, and every slot's deadline is its last service plus its period |
| `Scheduler.SkipIsSound` | processing/dpdk_pipeline/thread.c:3180-3184 | when a pass is skipped, nothing that the last pass saw is due, nor is the thread's own queue |
| `Scheduler.NewPipelineWaitsForThreadDeadline` | processing/dpdk_pipeline/thread.c:298-301 | a due pipeline that no pass has seen is drained at the latest at the thread's own deadline |
| `Scheduler.PassLeavesNothingDue` | processing/dpdk_pipeline/thread.c:3186-3217 | with positive periods a pass leaves nothing due among what it visited |
| `Scheduler.ZeroPeriodStaysDue` | processing/dpdk_pipeline/thread.c:3192-3197 | a due pipeline stays due after a pass iff its period is zero |
| `Scheduler.ScanLogsServices` | processing/dpdk_pipeline/thread.c:3186-3201 | the log of a run grows for exactly the pipelines that a pass drains, by a service at the time of the pass with the period of the pipeline |
| `Scheduler.ServicesAreAPeriodApart` | processing/dpdk_pipeline/thread.c:3192-3197 | in every run each service of a pipeline comes at least its period after all earlier services and enables, also across disables |
| `Control.ThreadPathsAgree` | processing/dpdk_pipeline/thread.c:256-527 | enable and disable by message give the result and the state that the direct path gives |
| `Control.PathsAgree` | processing/dpdk_pipeline/thread.c:1360-1438 | every call by message gives the result, lists, tables, slots and flags that the direct path gives with the slot's action context, which is the table's own if the table existed at enable |
| `CallEffects.EnableWritesSlot` | processing/dpdk_pipeline/thread.c:256-303 | an accepted enable fails iff all 256 slots are taken; otherwise the new slot has the ring pair of the pipeline, the number of its tables, their contexts, its period rounded down, and its deadline a period ahead; the pipeline is on, and nothing else has changed |
| `CallEffects.EnableKnowsTables` | processing/dpdk_pipeline/thread.c:281-303 | after an enable the slot of the pipeline knows every table of the pipeline with its own action context |
| `CallEffects.EnableByMessageKnowsTables` | processing/dpdk_pipeline/thread.c:456-488 | the same when the enable goes through the message ring |
| `CallEffects.DisableRemovesSlot` | processing/dpdk_pipeline/thread.c:345-404 | an accepted disable removes the slot of the pipeline and no other, the last one moves into its place, and the pipeline is off |
| `CallEffects.CallKeepsKnown` | processing/dpdk_pipeline/thread.c:256-527 | no call changes what the slot of another pipeline knows of its tables |
| `CallEffects.TableCallIsLocal` | processing/dpdk_pipeline/thread.c:1325-1775 | a table call changes rules, default rule and low-level table of its own table and nothing else |
| `CallEffects.AddCallWrites` | processing/dpdk_pipeline/thread.c:1325-1408 | an accepted add succeeds iff the applies and the table do; entry and shadow rule have the returned handle, the entry the data of the eleven steps |
| `CallEffects.BulkCallAdds` | processing/dpdk_pipeline/thread.c:1600-1619 | on an ACL table a bulk add puts in all rules or fails; on every other table it puts in the rules up to the first that is refused, and fails iff that is the first of all |
| `CallEffects.DeleteCallWrites` | processing/dpdk_pipeline/thread.c:1654-1698 | an accepted delete succeeds iff the table carries it out; then the entry of the match and its rule are gone, and nothing else |
| `CallEffects.DefaultAddCallWrites` | processing/dpdk_pipeline/thread.c:1440-1507 | a default add installs an entry that reads as the forwarding decision of the action, port, meta and table told apart, with the returned handle, and records it with an all-zero match |
| `CallEffects.DefaultDeleteCallWrites` | processing/dpdk_pipeline/thread.c:1722-1752 | a default delete removes both default rules, or changes nothing |
| `CallEffects.DefaultHandlerWrites` | processing/dpdk_pipeline/thread.c:2836-2871 | the handler of a running pipeline installs the same default entry |
| `ControlApi.StoppedTableCall` | processing/dpdk_pipeline/thread.c:1360-1408 | the methods of the direct path give the state and the result that the direct transition of the call says |
| `ControlApi.PipelineMsgHandle` | processing/dpdk_pipeline/thread.c:3069-3156 | the handler methods give the state and the response that the handler transition says, for every table request |
| `ControlApi.CompleteTableCall` | processing/dpdk_pipeline/thread.c:1423-1437 | what the main thread does to the shadow list with the response is the completing transition |
| `ControlApi.ThreadHandlerIsRequest` | processing/dpdk_pipeline/thread.c:456-527 | the handler of a thread's queue changes the slots of its thread as the request function of the thread object says, and nothing else |
| `ControlApi.AcceptedEnableMayRun` | processing/dpdk_pipeline/thread.c:256-303 | an accepted enable finds no slot of its pipeline in its thread, which the polling runs take for granted |
| `ControlApi.TakenRequestMayRun` | processing/dpdk_pipeline/thread.c:529-556 | in every run the same holds for the request that a thread has taken from its own queue |
| `ControlInv.CallKeepsSlots` | processing/dpdk_pipeline/thread.c:256-527 | every call keeps slot arrays, `enabled` and `thread_id` in step; a disable always finds its slot, so the exit marked unreachable is |
| `ControlInv.EnabledIffOneSlot` | processing/dpdk_pipeline/thread.c:281-427 | a pipeline is enabled iff it has a slot, and then exactly one, in its own thread, with the same entry in `p[]` |
| `ControlInv.SlotsCountEnabled` | processing/dpdk_pipeline/thread.c:281-427 | the sum of `n_pipelines` is the number of enabled pipelines |
| `ControlInv.CallKeepsAgreement` | processing/dpdk_pipeline/thread.c:1325-1775 | a call without aliases keeps every table of every pipeline in agreement with its shadow list |
| `ControlInv.AliasesBreakAgreement` | processing/dpdk_pipeline/pipeline.c:1733-1744 | any two different checked matches that a table cannot tell apart: adding both leaves two rules in the list and one entry in the table |
| `ControlInv.PriorityAliasBreaksAgreement` | processing/dpdk_pipeline/thread.c:2389-2415 | such a pair: two ACL rules that differ in priority only |
| `ControlInv.HashAliasBreaksAgreement` | processing/dpdk_pipeline/pipeline.c:1555-1591 | such a pair: two raw keys that differ behind the key size of 8 |
| `Messages.StepKeepsInv` | processing/dpdk_pipeline/thread.c:233-254 | every step of main or data-plane threads keeps the invariant of rings, blocks, slots and pending call |
| `Messages.FinishKeepsInv` | processing/dpdk_pipeline/thread.c:1423-1437 | the response that the main thread works on leads to the state of the direct path |
| `MessageRuns.RunKeepsInv` | processing/dpdk_pipeline/thread.c:3069-3156 | the invariant holds in every state of every interleaving |
| `MessageRuns.HeldIsNewest` | processing/dpdk_pipeline/thread.c:738-770 | between calls no block is anywhere; during a call every block that is held is the one just allocated |
| `MessageRuns.OneBlockInOnePlace` | processing/dpdk_pipeline/thread.c:432-454 | a block is never held in two of main thread, request ring, handler and response ring |
| `MessageRuns.BlockIsSomewhere` | processing/dpdk_pipeline/thread.c:432-454 | during a call its block is held somewhere |
| `MessageRuns.EveryBlockFreedOnce` | processing/dpdk_pipeline/thread.c:744-748 | in every run the blocks are freed once each, in the order of their allocation |
| `MessageRuns.EnqueueNeverFull` | processing/dpdk_pipeline/thread.c:750-770 | in every run a ring pair holds at most one block, so no enqueue finds a full ring |
| `MessageRuns.DisableLeavesNoRequest` | processing/dpdk_pipeline/thread.c:345-427 | while a disable is carried out the rings of its pipeline are empty |
| `MessageRuns.PendingCallCanProgress` | processing/dpdk_pipeline/thread.c:3069-3156 | from every state of a pending call a step is possible that brings it closer to its end |
| `PendingCalls.PendingCallEndsAtDeadline` | processing/dpdk_pipeline/thread.c:3171-3219 | a waiting call ends by the first control check of its server thread at or after the deadline of its ring: that pass serves it, the main thread takes the answer, and result and state are those of the direct path |
| `PendingCalls.ReachedWithinPeriod` | processing/dpdk_pipeline/thread.c:3186-3201 | for a pipeline that a pass has seen, that deadline comes within its period |
| `PendingCalls.DeadlinesReach` | processing/dpdk_pipeline/thread.c:298-301 | for any other it comes with the deadlines of the slot and of the thread, because the server has the slot |
| `MessageRuns.SlotsAgreeBetweenCalls` | processing/dpdk_pipeline/thread.c:256-556 | in every run, between calls, slots and flags agree and the counts match |
| `MessageRuns.FinishedCallIsStoppedCall` | processing/dpdk_pipeline/thread.c:1410-1437 | in every run a call that went through the rings ends with the result and the state of the direct path |
| `MessageRuns.TablesAgreeBetweenCalls` | processing/dpdk_pipeline/thread.c:1325-1775 | in every run without aliases, stopped and running mixed, every shadow list mirrors its low-level table between calls |
| `MessageRuns.RingsIffAnswered` | processing/dpdk_pipeline/thread.c:158-186 | an accepted call goes through the rings iff a running thread will poll them: the thread of a thread call, a thread with a slot of the pipeline for a table call |
| `MessageRuns.SetupIs` | processing/dpdk_pipeline/pipeline.c:76-150 | a new pipeline is empty and off; ports and tables are added one at a time, a table without rules on either side |
| `KnownTables.EnabledTablesStayKnown` | processing/dpdk_pipeline/thread.c:290-294 | in every run, from the enable of a pipeline to its disable: exactly the tables that existed at the enable are known to its slot, and every call on one of them works with the own context of the table |
| `Lexer.ParserReadUint64` | processing/dpdk_pipeline/parser.c:80-118 | the character loop computes the reader function, of which the next row says what it reads |
| `Lexer.NumberWithTail` | processing/dpdk_pipeline/parser.c:80-118 | a printed number, with blanks before it and any text behind it: `k` or `K`, `M`, `G` and `T` multiply by 1024 to the power of 1, 2, 3 and 4 modulo 2^64, anything but blanks behind that is an error, and a number from 2^64 on counts as 2^64 - 1 |
| `Lexer.ReadMaxDec` | processing/dpdk_pipeline/parser.c:140-218 | a narrow reader accepts a printed number iff it fits, and returns it |
| `Lexer.NotANumber` | processing/dpdk_pipeline/parser.c:86-88 | a word that does not start with a digit is no number |
| `Lexer.ParseHexString` | processing/dpdk_pipeline/parser.c:260-294 | the check loop and the in-place fill: the destination starts with the bytes, the rest is untouched; on failure nothing is written |
| `Lexer.ParseHexReadsBack` | processing/dpdk_pipeline/parser.c:260-294 | printed bytes are read back iff they fit and their number is even |
| `Lexer.UpperHexString` | processing/dpdk_pipeline/parser.c:24-40 | a string spelled in upper case reads as the same bytes |
| `Lexer.DigitIsLowerCase` | processing/dpdk_pipeline/cli.c:4826-4833 | hexadecimal digits are printed in lower case |
| `Lexer.ReadGroups` | processing/dpdk_pipeline/parser.c:342-353 | the do-while loop reads at most six colon-separated groups up to the end of the string |
| `Lexer.MyEtherAton` | processing/dpdk_pipeline/parser.c:334-375 | the whole reader, both notations |
| `Lexer.EtherAtonReadsBack` | processing/dpdk_pipeline/parser.c:334-375 | both notations of every address are read back as the address |
| `Lexer.EtherAtonOfGroups` | processing/dpdk_pipeline/parser.c:334-375 | any groups of one to four digits between colons: six groups up to ff are the bytes, three groups the bytes two by two, everything else is rejected |
| `Lexer.StrToUlForm` | processing/dpdk_pipeline/parser.c:342-347 | blanks, a sign and `0x` before the digits of a group are skipped, a value from 2^64 on is an error, and a minus negates modulo 2^64 |
| `Lexer.UpperEtherAton` | processing/dpdk_pipeline/parser.c:334-375 | an address spelled in upper case reads as the same address |
| `Lexer.ParseIp4ReadsBack` | processing/dpdk_pipeline/cli.c:4835-4843 | every printed IPv4 address is read back |
| `Lexer.ParseIp4Iff` | processing/dpdk_pipeline/parser.c:377-387 | an IPv4 address is read from its printed form and from no other string |
| `RuleParser.LongAddressIsRefused` | processing/dpdk_pipeline/parser.c:389-399 | an IPv6 address of 46 or more characters is refused, any other is left to `inet_pton` |
| `Lexer.StrTok` | processing/dpdk_pipeline/parser.c:247-249 | one call takes the next maximal run of characters that are no delimiters |
| `Lexer.ParseTokenizeString` | processing/dpdk_pipeline/parser.c:236-258 | the loop yields all tokens, or E2BIG iff there are more than the capacity |
| `Lexer.TokensOfLine` | processing/dpdk_pipeline/parser.c:236-258 | tokenising words printed with spaces gives the words back |
| `Lexer.TokenizeWords` | processing/dpdk_pipeline/parser.c:236-258 | words printed with spaces are split iff the array has room for them, E2BIG if not, and EINVAL for an array of no tokens |
| `Lexer.TokensAppend` | processing/dpdk_pipeline/parser.c:236-258 | tokens of a text that ends in a delimiter do not depend on what follows |
| `RuleParser.ParseBalance` | processing/dpdk_pipeline/cli.c:3232-3255 | the loop reads exactly eight numbers or fails |
| `RuleParser.SectionUses` | processing/dpdk_pipeline/cli.c:3180-3810 | a successful section parser uses at least one token and no more than there are, and sets its own mask bit only |
| `RuleParser.ActionIsLocal` | processing/dpdk_pipeline/cli.c:4200-4391 | an action uses more than one token and no more than there are, and its value depends on those and one token of lookahead only |
| `RuleParser.ActionMaskIsWhatWasRead` | processing/dpdk_pipeline/cli.c:4200-4391 | the mask holds exactly the sections read, at least one, in the fixed order, each at its keyword |
| `RuleSyntax.ReadableIffMade` | processing/dpdk_pipeline/cli.c:3125-3178 | a match and an action are read from some line iff they are in range, and the line of the documented grammar is one |
| `RuleSyntax.ParsedActionIsWritable` | processing/dpdk_pipeline/cli.c:4200-4391 | every action read is zero outside its mask and in range inside |
| `RuleSyntax.ParsedMatchIsMade` | processing/dpdk_pipeline/cli.c:2693-3122 | no syntax sets the protocol mask of an ACL match |
| `RuleSyntax.MatchSyntaxIsRead` | processing/dpdk_pipeline/cli.c:2639-2657 | every match, a hash match with its whole raw key, written as documented is read as that match and uses all its words |
| `RuleSyntax.HashFormIsRead` | processing/dpdk_pipeline/cli.c:2872-3071 | every form of a hash match, raw, five-tuple, address or VLAN tags, is read as its key, or rejected iff it is out of range |
| `RuleSyntax.SectionIsRead` | processing/dpdk_pipeline/cli.c:3180-4198 | every section written as documented is read as written, all encapsulations and meters included |
| `RuleSyntax.LexIsInverse` | processing/dpdk_pipeline/parser.c:80-412 | the lexical readers are inverse to the printers, given an inverse of `inet_pton` for IPv6 |
| `RuleSyntax.TupleKey4Layout` | processing/dpdk_pipeline/cli.c:2665-2673 | an IPv4 five-tuple fills the hash key in network order at the offsets of the packed structure |
| `RuleSyntax.TupleKey6Layout` | processing/dpdk_pipeline/cli.c:2675-2683 | the same for an IPv6 five-tuple |
| `RuleSyntax.QinQKeyLayout` | processing/dpdk_pipeline/cli.c:2658-2663 | the same for a pair of VLAN tags |
| `RuleShow.LexReadsBack` | processing/dpdk_pipeline/cli.c:4826-4858 | the readers take back what the printers print, but for IPv6 addresses and keys of odd length |
| `RuleShow.MatchReadsBack` | processing/dpdk_pipeline/cli.c:4900-4973 | a printed match is taken iff it is an array match or a hash match with an even key size, then with the hash key cut to the key size |
| `RuleShow.CutKeyIsSameIff` | processing/dpdk_pipeline/cli.c:4952-4956 | the cut match is the match itself iff the key is zero from the key size on |
| `RuleShow.LongKeyComesBackCut` | processing/dpdk_pipeline/cli.c:2880-2896 | a raw key of ten bytes is accepted, and shown with key size 8 it is read back as a different match |
| `RuleShow.SectionReadsBack` | processing/dpdk_pipeline/cli.c:4976-5120 | a printed section is read back iff it is a covered one |
| `RuleShow.ChainReadsBack` | processing/dpdk_pipeline/cli.c:4200-4391 | the chain of section parsers reads all printed sections back, or fails or leaves words over at the first uncovered one |
| `RuleShow.RuleReadsBack` | processing/dpdk_pipeline/cli.c:4888-5128 | the words of a printed rule are taken iff match and action are covered, as the rule with its hash key cut and a new time stamp, and are rejected otherwise |
| `RuleFile.TableRuleShow` | processing/dpdk_pipeline/cli.c:4871-5163 | the loop over the list writes one line per rule in list order and the default rule as a comment |
| `ShownText.AclWordsAre` | processing/dpdk_pipeline/cli.c:4906-4945 | which value of an access rule is printed where; an address, its depth and what follows the depth are one word |
| `ShownText.OtherMatchWordsAre` | processing/dpdk_pipeline/cli.c:4947-4973 | the same of array, hash and LPM matches |
| `ShownText.AclTextIsAmbiguous` | processing/dpdk_pipeline/cli.c:4921-4940 | two different access rules are printed alike |
| `ShownText.Ip6TextIs` | processing/dpdk_pipeline/cli.c:4845-4858 | an IPv6 address is printed as groups of two bytes, each with a colon behind it |
| `ShownText.SmallWordsAre` | processing/dpdk_pipeline/cli.c:4976-5160 | the words of the sections of one or two values, the kind of forwarding told apart |
| `ShownText.MeterWordsAre` | processing/dpdk_pipeline/cli.c:5005-5027 | a meter shows exactly the classes of its mask, in order, with profile and policers in green, yellow, red order |
| `ShownText.EncapWordsAre` | processing/dpdk_pipeline/cli.c:5034-5090 | the words of every encapsulation, VLAN tags with the names of their fields |
| `ShownText.MplsWordsAre` | processing/dpdk_pipeline/cli.c:5066-5082 | the words of an MPLS encapsulation, label by label |
| `ShownText.GapsAre` | processing/dpdk_pipeline/cli.c:5066-5141 | a second space stands behind the word that selects the kind of `mpls` and `nat`, and nowhere else |
| `ShownText.DefaultTextIs` | processing/dpdk_pipeline/cli.c:5163-5190 | the comment on the last line shows the forwarding of the default rule, `drop` if there is none |
| `RuleFile.FGets` | processing/dpdk_pipeline/cli.c:6866-6868 | reads up to the newline, at most the given number of characters |
| `RuleFile.CliRuleFileProcess` | processing/dpdk_pipeline/cli.c:6811-6967 | the line loop yields the rules and the line number, or the counts at the first bad line |
| `RuleReload.CutSpells` | processing/dpdk_pipeline/cli.c:5068-5070 | a second space between words does not change the tokens |
| `RuleReload.PlainRuleTakes` | processing/dpdk_pipeline/cli.c:6860-6930 | the line of a rule without meter fits into the reader's line and is taken for the rule, or for an error |
| `RuleReload.MeterRuleTakes` | processing/dpdk_pipeline/cli.c:6860-6930 | the line of a rule with a meter is an error, also when it is too long and read in parts |
| `RuleReload.ShownTableReloads` | processing/dpdk_pipeline/cli.c:4871-5163 | showing a table and loading the file gives all rules in the same order, with hash keys cut and new time stamps, iff all are covered, and otherwise fails at the line of the first that is not |
| `RuleReload.CreatedTableReloads` | processing/dpdk_pipeline/pipeline.c:1555-1591 | every table that can be created, with checked rules: array and hash tables load iff all actions are covered, and then with the same matches iff all keys fit; ACL and LPM tables with a rule fail at line 1 |
| `RuleReload.NoRuleInLine` | processing/dpdk_pipeline/cli.c:6870-6883 | a line that starts with `!`, `#`, `%`, `;`, `//` or `--`, and a blank line, changes neither rules nor outcome, it only counts as a line |
| `RuleReload.LaterByOne` | processing/dpdk_pipeline/cli.c:6860-6930 | with the same time stamps, where reading starts shows in the line number only |
| `RuleReload.LongCommentIsCut` | processing/dpdk_pipeline/cli.c:6866-6872 | of a comment longer than the line buffer only the first part is skipped, the rest is read as a line of its own |
| `RuleReload.TooManyWords` | processing/dpdk_pipeline/cli.c:6874-6880 | a line of more than 256 words is an error unless it is a comment |
| `Framing.Conn.DataEventHandle` | processing/dpdk_pipeline/conn.c:228-262 | the byte loop on the message buffer computes the framing function |
| `Framing.SplitDoesNotMatter` | processing/dpdk_pipeline/conn.c:208-272 | what is handed on depends on the concatenation of the reads of all clients only |
| `Framing.StreamByLines` | processing/dpdk_pipeline/conn.c:229-262 | a stream is framed line by line, the unfinished line keeping its remainder |
| `Framing.LineEventsAre` | processing/dpdk_pipeline/conn.c:229-262 | with limit M a line of length L gives L / (M + 1) notices and delivers its last L % (M + 1) bytes |
| `Framing.PendingFits` | processing/dpdk_pipeline/conn.c:250-252 | the message length never exceeds its limit |
| `RateLimiter.Limiter.GetDelayPktBadCrc` | processing/moongen_src/crc-rate-limiter.c:20-58 | one call updates target and current and returns filler and remaining delay as the call function says |
| `RateLimiter.LedgerModulo` | processing/moongen_src/crc-rate-limiter.c:20-58 | for any delay and minimum size and any number of calls, bytes sent plus target minus current account for everything added, modulo 2^32 |
| `RateLimiter.SmallDelaysBalance` | processing/moongen_src/crc-rate-limiter.c:20-58 | for all delays and minimum sizes up to 1537: requested = sent + target - current and 0 <= target <= current |
| `RateLimiter.LedgerBalancesIff` | processing/moongen_src/crc-rate-limiter.c:33-50 | from a balanced state the ledger balances after a delay iff the delay is at most 1537 |
| `RateLimiter.LedgerBalancesWhen` | processing/moongen_src/crc-rate-limiter.c:24-50 | for every delay, minimum size and state with which the loop ends, the ledger balances iff what the calls behind the first add again is exactly what wrap-arounds of the target lose |
| `RateLimiter.OffByWhatIsAddedAgain` | processing/moongen_src/crc-rate-limiter.c:24-50 | for any delay, minimum size and number of calls the ledger is off, modulo 2^32, by what the calls behind the first added again |
| `RateLimiter.CallShortens` | processing/moongen_src/crc-rate-limiter.c:73-75 | with a minimum size up to 1537 every call shortens the remaining delay |
| `RateLimiterEnds.LoopEndsIff` | processing/moongen_src/crc-rate-limiter.c:20-58 | the inner loop ends for all accumulators and delays iff the minimum size is at most 1537, or odd and at most 2000, or above 2000 and not 1028 modulo 2048 |
| `RateLimiterEnds.BadMinimumNeverEnds` | processing/moongen_src/crc-rate-limiter.c:36-50 | with every other minimum size a fresh limiter never ends: for all delays below an even minimum size up to 2000, and for delays less than 510 past a multiple of 2048 otherwise |
| `RateLimiterEnds.GoodMinimumSends` | processing/moongen_src/crc-rate-limiter.c:61-96 | with a minimum size of the first kind the send loop ends for all packets |
| `RateLimiter.LoopIsRun` | processing/moongen_src/crc-rate-limiter.c:73-86 | a run of calls that has ended is the whole inner loop: same accumulators, same bytes |
| `RateLimiter.Limiter.SendFillers` | processing/moongen_src/crc-rate-limiter.c:73-86 | whenever the inner loop ends, it puts the fillers on buffer and wire in order, keeps the buffer index below 128, and counts them |
| `RateLimiter.Limiter.SendAllPackets` | processing/moongen_src/crc-rate-limiter.c:61-96 | both loops, whenever the inner ones end: the frames on the wire, everything flushed, and the statistics |
| `RateLimiter.WireCarriesPackets` | processing/moongen_src/crc-rate-limiter.c:61-96 | the wire without its fillers is exactly the packets, in order |
| `RateLimiter.StatisticsAccount` | processing/moongen_src/crc-rate-limiter.c:76-81 | counted bytes plus 20 per counted filler are the wire bytes of the fillers, modulo 2^32 |
| `RateLimiter.SendKeepsBalance` | processing/moongen_src/crc-rate-limiter.c:61-96 | with gaps up to 1537, the low 32 bits of the user data of all packets plus target minus current are the wire bytes of the fillers plus target minus current afterwards |
| `RateLimiter.FramesOfOnePacket` | processing/moongen_src/crc-rate-limiter.c:68-92 | a packet with a gap up to 1537 goes out alone if there is no gap or the credit is larger, otherwise behind one filler of the larger of gap and minimum size |
| `RateLimiter.FirstGapIsRun` | processing/moongen_src/crc-rate-limiter.c:68-86 | for any gap whose loop ends, the fillers take the bytes of the calls for the low 32 bits of the user data, and the send goes on from the state behind them |
| `OnlineStats.UpdateIsTwoPass` | processing/moongen_src/histogram.cpp:35-44 | one update keeps count, mean and m2 those of all values, m2 being the squared deviations from the new mean |
| `OnlineStats.UpdateAllIsTwoPass` | processing/moongen_src/histogram.cpp:35-44 | after any sequence of updates the online statistics are the two-pass ones |
| `OnlineStats.FinalizedIsTwoPass` | processing/moongen_src/histogram.cpp:58-64 | the mean is the arithmetic mean and the finalised variance the two-pass sample variance |
| `Histogram.BucketIff` | processing/moongen_src/histogram.cpp:45-53 | which values fall into which bucket, exactly: half a size around each multiple, ties away from zero |
| `Histogram.Hist.Update` | processing/moongen_src/histogram.cpp:35-56 | an update keeps the moments and all bucket counts those of the values so far; false iff the value is negative |
| `Histogram.Hist.Finalize` | processing/moongen_src/histogram.cpp:58-64 | the two-pass sample variance from two values on, zero before |
| `Histogram.Hist.CountsAddUp` | processing/moongen_src/histogram.cpp:53-54 | the stored counts over all stored buckets add up to the number of values, modulo 2^32 |
| `MoonSniff.HitIffLastAdd` | processing/moongen_src/moonsniff.cpp:59-88 | a test is a hit iff the latest operation on its slot was an add of the same identifier with a timestamp other than zero |
| `MoonSniff.HitsAndMisses` | processing/moongen_src/moonsniff.cpp:74-103 | hits plus misses are the tests |
| `MoonSniff.AddsAreHitOnce` | processing/moongen_src/moonsniff.cpp:74-82 | each add is answered by at most one hit, with its own identifier and timestamp |
| `MoonSniff.LatencyOfHit` | processing/moongen_src/moonsniff.cpp:74-96 | the k-th latency is that of the k-th hit: its timestamp minus that of the add it answers, as a plain difference wherever that fits a signed 64-bit number and modulo 2^64 otherwise; no hit is left out |
| `MoonSniff.Sniffer.AddEntry` | processing/moongen_src/moonsniff.cpp:59-65 | the table after an add is that of the longer history |
| `MoonSniff.Sniffer.TestFor` | processing/moongen_src/moonsniff.cpp:74-103 | table, counters and moments after a test are those of the longer history |
| `MoonSniff.Sniffer.FetchStats` | processing/moongen_src/moonsniff.cpp:108-120 | mean and two-pass sample variance of the latencies of all hits, cut to integers; zero without hits, and a variance of zero with one |
| `MoonSniff.TruncateTowardZero` | processing/moongen_src/moonsniff.cpp:115-118 | statistics are cut toward zero |

## Left out

- The raw ACL variant (`ip_version` 2), the `sym_crypto` section and the `vxlan` encapsulation: raw matches share a union with fields that the check reads under another layout, and `sym_crypto` reads the last token of the whole line.
- Meter profiles, DSCP tables, statistics, TTL and time requests, and port enable and disable by message: they use the same rings and change nothing that the invariants speak about.
- Creation of links, queues, mempools, traffic managers and action profiles: named lists around library calls.
- `ThreadData.Control`: does not model the 64-bit wrap of the cycle counter and of deadlines, nor the polling of packets between control checks; times are natural numbers.
- `PendingCalls.PendingCallEndsAtDeadline`: that a running thread comes back to its control check, and how late, is up to the packet loop and the operating system, which are not modelled.
- `Messages.StepKeepsInv`: lets a running thread poll any of its rings at any time, which includes the polling times of `thread_main`; memory ordering inside an rte ring is not modelled.
- `MessageRuns.TablesAgreeBetweenCalls`: asks that a table used while its pipeline runs existed when the pipeline was enabled, because a slot keeps the action contexts of that time (`KnownTables.EnabledTablesStayKnown`).
- `Tables.DeleteKeepsAgreementIff`: an LPM table is taken to compare prefixes, an ACL table fields, and a hash table the masked first bytes; what the rte tables do inside is not part of this model.
- `Tables.AddKeepsAgreementIff`: a low-level add touches its own key only; that an `lru` hash table may drop another entry when a bucket is full is not part of this model.
- `MatchConvert.AclConvertKeepsMeaning`: the bitmask test of the protocol byte is an argument, and a mask field is taken to compare the leading bits.
- `TableApi.TableRuleAddBulkLl`: allocation succeeds, also everywhere else.
- `Lexer.ParseTokenizeString`: a C string is the characters before its NUL; embedded NUL bytes in files and messages are not modelled.
- `RuleReload.ShownTableReloads`: takes `inet_pton` for IPv6 to reject an address that ends in a single colon; failing file operations are not modelled.
- `Framing.Conn.DataEventHandle`: writes to the socket succeed, and the prompt after each read is not among the events.
- `RateLimiter.Limiter.SendAllPackets`: asks that the inner loops end, which `RateLimiterEnds.LoopEndsIff` decides for all delays at once; for the sizes with which some delay never ends, not every such delay is listed.
- `RateLimiter.LedgerBalancesIff`: is stated below 2 MiB, where the 32-bit accumulators cannot wrap and the condition is a test on the delay alone; far above, what is added again may be a multiple of 2^32 and cancel, which `RateLimiter.LedgerBalancesWhen` states without a bound.
- `RateLimiter.Limiter.GetDelayPktBadCrc`: the 16-bit `data_len` and the packet flags are not modelled.
- `Histogram.Hist.Update`: doubles are reals, the count does not wrap at 2^64, and values do not overflow when half a bucket is added.
- `MoonSniff.Sniffer.TestFor`: operations are sequential, the spin locks and concurrent counters are not modelled; doubles are reals.
- `rEnforcer` and `rLearner`, and the other generators: hardware tables that are not in the repository, floating-point training, clocks and random numbers.
