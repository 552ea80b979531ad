# Euclid: a model of its protocols, formats and schedulers

A Dafny model of the parts of Euclid whose correctness is not obvious from reading them: how events are delivered
between instances, where application instances are placed and moved, the archive that is appended to in place, the
encryption of stored objects, timers and cron, and two text formats. Each module follows one source file or one layer
above it; `dafny verify dfyconfig.toml` checks everything.

**Event delivery** (`Deliveries`, `DeliveryProtocol`, `DeliverySteps`, `DeliveryExclusion`, `EventBuses`,
`EventDrain`). Deliveries are documents that are PENDING, CLAIMED or HELD. `DeliveryProtocol` is a step system for any
number of instances and clients: a step touches at most one document, so a statement over many documents can be
interrupted between any two of them, and a pass can be dropped anywhere; `DeliverySteps` spells each step out in the
fields it asks for and sets. `ModuleDeliveryIsNotLost` and `RunCountsAttempts` hold of every run. `ExclusiveDelivery`
holds of every run in which whoever has a delivery in hand is inside its lease and releases of one source do not
overlap; `LateIsShared` and `OverlapIsShared` show, from every state that breaks one of the two, how the delivery
comes to be in two hands. `EventBuses.EventBus` is one instance on its own, method by method; `EventDrain` proves that
its polling ends whatever the handlers answer.

**Subscriber cache and waiters** (`SubscriberCache`, `ChangeWaiters`). Two smaller step systems from the same files:
no lookup after an invalidation answers with a list from before the change, and no receiver sleeps through an envelope
that has been announced.

**Placement** (`Placement`, `Choice`, `Rebalancing`, `Withdrawal`). The choosing loops against functions of the list,
and about those: a rebalancing move lands where it said it would, every sequence of moves ends, and a pool at rest (or
filled by placement alone) cannot be spread better. The load tolerance is not transitive: `LoadCanDrift` shows what
that costs, `PickIsLeastLoaded` and `GiverIsLoaded` bound it, and `PickIsFirstExactly` and `GiverIsFirstExactly` say
exactly when it costs nothing, with loads per core, cross-multiplied densities and names compared byte by byte.

**Archive** (`ZipFormat`, `ZipRoundTrip`, `ZipArchive`, `ZipAppend`, `ZipTorn`, `ZipCrash`, `ZipRuns`, `ZipMeans`,
`ZipStandard`, `ZipFiles`). The Zip64 bytes of the PKWARE APPNOTE (sections 4.3.7, 4.3.12, 4.3.14 to 4.3.16 and
4.5.3), the index, the recovery walk, and the writes of an append, each of which may be the last. `RunReadsBack` is
the law over whole runs of appends and interruptions. An interrupted append does not always leave what the next one
should build on: `ForgedEndRecords` gives the data that misleads it, `NextLayout` and `NextLayoutKept` say exactly
when it does, and `EveryInterruption` and `CrashKeepsArchive` give a check on the bytes after which it never does,
also for an archive that was interrupted before. `ZipStandard` is a reader written from the standard alone, with its
own numbers; `StandardReads` and `AppendedReads` say what it finds in a finished archive, also in the fields Euclid's
own readers skip.

**Object encryption** (`ObjectFormat`, `ObjectRange`, `ObjectCipher`). AES-GCM (NIST SP 800-38D) is an abstract pair
of seal and open with a length law. What is accepted is said in terms of seal itself, offsets and index bytes written
out: of whole objects (`DecryptAcceptsExactly`) and of ranges (`RangeAcceptsExactly`). Range reads, streaming in
pieces of any size, and moving objects between keys.

**Timers** (`Scheduler`, `SchedulerSafety`, `SchedulerStop`, `Calendar`, `Cron`, `CronSearch`, `CronLeap`). The timer
as a machine of callers, dispatcher and firings. Stop() may never return (`StopCanGoUnheard`): the flag is cleared and
the dispatcher notified between its test of the flag and its going to sleep; `StopIsHeard` shows that this is the only
way. The calendar is pinned down by its first day and by the day after each (`CalendarGoesOn`, `WeekGoesOn`). Cron's
search is proved to find the earliest match, and `ThrowsExactlyIf` and `LeapDayThrows` say exactly when it finds none.

**Text** (`CommandLine`, `QueryString`, `CanonicalForm`). Quoting for a child's command line, character by character
and read back by the documented rules of CommandLineToArgvW, and the canonical query string (sections 2.1 and 2.3 of
RFC 3986), byte by byte in `CanonicalForm`.

Calls to the outside are parameters: clocks, IVs, claim tokens, what a find answered, what a handler returned, and the
deflate, CRC and AEAD functions with the laws they are used for. Where a document, a file or a socket can fail, the
step or the result that fails is in the model.

## Model

| member | source | states |
|---|---|---|
| `DeliveryProtocol.StepLosesNothing` | database/src/EventBus.cpp:1126-1324 | no step of any instance, in any state, removes a delivery without cause, late settles included |
| `DeliveryProtocol.RunLosesNothing` | database/src/EventBus.cpp:617-1324 | in every run what is gone was answered, discarded, expired, is in the DLQ, or, for an external subscriber alone, was acknowledged or went with its subscription; what is about to be deleted was answered or is already in the DLQ |
| `DeliveryProtocol.ModuleDeliveryIsNotLost` | database/src/EventBus.cpp:1228-1278 | a module delivery published in a run is still there, or a handler returned true or there was none, or it was discarded, expired, or is in the DLQ |
| `DeliveryProtocol.RunCountsAttempts` | database/src/EventBus.cpp:1172-1181 | in every run attempts is the number of claims, and nothing is in the DLQ that was not claimed five times |
| `DeliveryProtocol.FiveBeforeDlq` | database/src/EventBus.cpp:1253-1263 | in every run what is in the DLQ was claimed at least 5 times |
| `Deliveries.EnvelopeMeans` | database/src/EventBus.cpp:46-57 | a published envelope is pending with 604800 seconds to live for a target that begins with "client:" and 2592000 for any other, or held by its source without an expiry; visible and created now, no attempt yet |
| `Deliveries.ReleaseMeans` | database/src/EventBus.cpp:1085-1095 | a released document is pending, visible now, without a holder, with those seconds to live again, and otherwise unchanged |
| `DeliverySteps.FindMeans` | database/src/EventBus.cpp:1148-1161 | a poll begins exactly with a fresh token and 1 to 200 deliveries for its target, and claims them until its visibility after it began |
| `DeliverySteps.ClaimMeans` | database/src/EventBus.cpp:1168-1181 | a document is claimed exactly if pending, or for a "client:" target claimed and lapsed when the pass began; it then has the token, the lease and one attempt more |
| `DeliverySteps.ReadBackMeans` | database/src/EventBus.cpp:1180-1192 | a pass that won nothing ends; otherwise it hands out exactly the candidates that carry its token |
| `DeliverySteps.HandleMeans` | database/src/EventBus.cpp:1228-1263 | an answer is acknowledged, a failure below 5 attempts is to be put back, one from 5 on is to be moved |
| `DeliverySteps.MoveMeans` | database/src/EventBus.cpp:1304-1324 | a move inserts first and deletes then |
| `DeliverySteps.FailMeans` | database/src/EventBus.cpp:1304-1330 | a move that fails at either call, or a pass that is lost, leaves the document claimed and the DLQ as it is |
| `DeliverySteps.DeleteMeans` | database/src/EventBus.cpp:1266-1272 | what was acknowledged is deleted, one by one, before anything is put back |
| `DeliverySteps.RequeueMeans` | database/src/EventBus.cpp:1273-1279 | what is put back is pending and visible from then, and the pass is over |
| `DeliverySteps.ReapMeans` | database/src/EventBus.cpp:1286-1297 | a document is reaped exactly if claimed and lapsed; only its status changes |
| `DeliverySteps.HoldMeans` | database/src/EventBus.cpp:1047-1057 | a document is held exactly if pending and of the source; it has a holder then and no expiry |
| `DeliverySteps.RemoveMeans` | database/src/EventBus.cpp:617-1045 | what else deletes a document: exactly its discarded target, its expiry, its own subscriber's answer or leaving |
| `DeliverySteps.ReleaseStepMeans` | database/src/EventBus.cpp:1081-1100 | a release reads exactly what its source holds, and gives each document its seconds by its target's prefix |
| `DeliveryExclusion.StepKeepsInv` | database/src/EventBus.cpp:1090-1278 | with hands timely and releases apart, every step keeps: hands disjoint, what is in hand claimed with the pass's token until its lease ends, release pages held, holding consistent |
| `DeliveryExclusion.OnlyOwnRequeue` | database/src/EventBus.cpp:1270-1296 | while leases hold, a document in a pass's hand is changed by nothing but that pass putting it back |
| `DeliveryExclusion.OnlyOwnRelease` | database/src/EventBus.cpp:1080-1097 | a document on a release's page is changed by nothing but that release |
| `DeliveryExclusion.ExclusiveDelivery` | database/src/EventBus.cpp:1145-1192 | over every well-timed run: no delivery in two hands, what is in hand is claimed by it, and HELD exactly when there is a holder and no expiry |
| `DeliveryExclusion.LateIsShared` | database/src/EventBus.cpp:1270-1296 | from every state in which a pass is late with a delivery, a reap and a poll put it in a second hand |
| `DeliveryExclusion.OverlapIsShared` | database/src/EventBus.cpp:1080-1097 | from every state in which two releases have read the same held delivery, two polls come to hold it |
| `EventBuses.EventBus.PollOnce` | database/src/EventBus.cpp:1126-1324 | everything the claim won leaves (answered, or moved to the DLQ at the fifth failure), is pending again one attempt on, or stays claimed where its move failed, in the DLQ as well if only the delete did; nothing else changes; which handlers were called |
| `EventBuses.PassMeans` | database/src/EventBus.cpp:1126-1324 | per document: unchanged unless a pending candidate; deleted if answered; else claimed for 30 seconds, one attempt on, and put back below 5 attempts; from 5 on in the DLQ and gone, or still claimed where insert or delete failed |
| `EventBuses.EventBus.HandleBatch` | database/src/EventBus.cpp:1183-1264 | the loop over what was read back: acknowledged, requeued, inserted in the DLQ and deleted are exactly those that answers, attempts and the two calls of each move say |
| `EventBuses.EventBus.Reap` | database/src/EventBus.cpp:1286-1297 | no lease is left lapsed; a document differs from before only in its status, and only where it was claimed and lapsed, now pending |
| `EventBuses.EventBus.HoldDeliveries` | database/src/EventBus.cpp:1047-1064 | exactly the source's pending documents are held, without expiry and otherwise as they were; the answer is how many they are |
| `EventBuses.EventBus.ReleaseHeld` | database/src/EventBus.cpp:1066-1111 | per document: what the source held is pending, visible now, has no holder and expires in 604800 seconds for a "client:" target and 2592000 otherwise, any other is as it was; terminates over its pages, answers how many they are, and wakes exactly the "client:" targets among them |
| `EventBuses.ReleasedMeans` | database/src/EventBus.cpp:1085-1098 | the same of the documents a release makes |
| `EventBuses.HeldMeans` | database/src/EventBus.cpp:1085-1089 | which documents a source holds, and which external targets are woken |
| `EventBuses.EventBus.UpdateEach` | database/src/EventBus.cpp:1085-1098 | one page, document by document |
| `EventDrain.PassTakesOne` | database/src/EventBus.cpp:1162-1278 | a pass takes at least one attempt from each candidate and none from anything else |
| `EventDrain.PassesAreBounded` | database/src/EventBus.cpp:1126-1279 | non-empty passes plus attempts left at the end are no more than the attempts left at the start, whether moves to the DLQ succeed or not |
| `EventDrain.EmptyMeansDrained` | database/src/EventBus.cpp:1145-1161 | a find comes back empty exactly when nothing is waiting, exactly when no attempts are left |
| `EventDrain.Drained` | database/src/EventBus.cpp:1126-1279 | a module whose deliveries are all pending, and whose moves to the DLQ succeed, has none left once a find comes back empty, whatever its handlers answered |
| `EventDrain.CallsAreBounded` | database/src/EventBus.cpp:1222-1263 | over all passes an event's handler is called no more often than the event has attempts left, five times for a fresh one |
| `EventDrain.HoldThenRelease` | database/src/EventBus.cpp:1047-1111 | releasing after holding gives every pending document back with a new visibility and expiry and leaves all others as they were |
| `SubscriberCache.StepKeeps` | database/src/EventBus.cpp:157-237 | every step keeps cached lists no older than the last invalidated change, and lookups of the present generation too |
| `SubscriberCache.AnswersAreCurrent` | database/src/EventBus.cpp:157-230 | every answer of every run has seen each change invalidated before it asked, and each change made a whole time to live or longer before the call |
| `SubscriberCache.ReadsOwnWrites` | database/src/EventBus.cpp:172-237 | once a run has invalidated a change, a later hit is never on a list without it, and a later miss is owed it |
| `SubscriberCache.AskMeans` | database/src/EventBus.cpp:170-177 | a cached list answers exactly if it is younger than the time to live; otherwise the generation is noted |
| `SubscriberCache.FetchMeans` | database/src/EventBus.cpp:182-214 | reading sees every change made so far |
| `SubscriberCache.StoreMeans` | database/src/EventBus.cpp:221-229 | what was read is answered, and cached under the time of the call only if caching is on and nothing was invalidated since it asked |
| `SubscriberCache.InvalidateMeans` | database/src/EventBus.cpp:232-237 | the one list, or all, goes, and the generation moves on either way |
| `ChangeWaiters.Waiters.constructor` | database/src/ChangeWaiters.cpp:27-28 | no entries |
| `ChangeWaiters.Waiters.Enroll` | database/src/ChangeWaiters.cpp:54-60 | the key's cell has one waiter more, its generation kept; a new key gets a cell nobody had, at generation 0; no two keys share a cell; nothing else changes |
| `ChangeWaiters.Waiters.Release` | database/src/ChangeWaiters.cpp:62-69 | one waiter less, and the key goes with the last; nothing else changes |
| `ChangeWaiters.Waiters.Wake` | database/src/ChangeWaiters.cpp:71-77 | the key's cell moves on one generation, if anybody waits; nothing else changes |
| `ChangeWaiters.StepKeeps` | database/src/ChangeWaiters.cpp:39-77 | every step keeps: waiters share their key's cell, its count is their number, and who has claimed in the present generation could see all that is announced |
| `ChangeWaiters.WaitersShareAnEntry` | database/src/ChangeWaiters.cpp:54-69 | in every interleaving all live waiters on a key share one entry, whose count is their number |
| `ChangeWaiters.NoLostWakeUp` | database/src/EventBus.cpp:848-861 | in every interleaving a sleeping receiver has claimed when the announced envelope was there, or its cell has moved on so that the wait's own test fails |
| `ChangeWaiters.LoopMeans` | database/src/EventBus.cpp:855-860 | the loop notes its cell's generation, then claims, then sleeps exactly if the generation is still the one noted |
| `ChangeWaiters.PublishMeans` | database/src/ChangeWaiters.cpp:71-77 | an envelope is inserted first and announced then, which moves its key's cell on |
| `ChangeWaiters.EnrollMeans` | database/src/ChangeWaiters.cpp:54-60 | the table after an enrolment |
| `ChangeWaiters.LeaveMeans` | database/src/ChangeWaiters.cpp:62-69 | the table after a receiver leaves |
| `Placement.Choose` | main/include/Placement.h:225-263 | the loop settles on `Pick`'s node and answers its name, or nothing if there is none |
| `Placement.PickIsSparsest` | main/include/Placement.h:225-263 | a node is found exactly when one is eligible, and it is eligible and sparsest per core |
| `Placement.PickWithinClass` | main/include/Placement.h:225-263 | the answer is decided within the class of sparsest nodes, by the order of its members alone |
| `Choice.EligibleMeans` | main/include/Placement.h:156-180 | eligible exactly if it accepts work, is among the nodes named if any are, has every label with its value, and with both memories known has room up to the ratio, or up to 1.0 without one |
| `Choice.SatisfiesMeans` | main/include/Placement.h:166-180 | the same without the memory |
| `Choice.DensityMeans` | main/include/Placement.h:210-215 | densities per core, cross-multiplied, at least one core each |
| `Choice.PickIsLeastLoaded` | main/include/Placement.h:247-258 | among the eligible nodes exactly as dense as the answer, none is less loaded per core by more than 0.01 for each node looked at since |
| `Choice.PickIsFirstExactly` | main/include/Placement.h:225-263 | with unique names: every eligible node is behind the answer by density, load per core (beyond 0.01) and name (byte by byte) if and only if some eligible node has all others behind it, which is then the answer |
| `Choice.PickIsFirst` | main/include/Placement.h:225-263 | which is so where loads within 0.01 per core are transitively so among equally dense eligible nodes: the answer is then sparsest, of those least loaded, of those first by name |
| `Placement.ChooseRebalance` | main/include/Placement.h:359-401 | the loop proposes the move `Rebalance` gives, or none |
| `Rebalancing.DonorIsFirst` | main/include/Placement.h:362-387 | the donor holds an instance; it must leave if any holder must, and is otherwise a densest one |
| `Rebalancing.DonorIsDensest` | main/include/Placement.h:362-387 | of the holders that must leave, or of all if none must, the donor is densest, and of those the first by name, byte by byte |
| `Rebalancing.RebalanceMeans` | main/include/Placement.h:388-401 | with unique names a move is proposed exactly if donor and answer differ and the donor must leave or is denser than the answer with one instance more, and it is from the one to the other |
| `Rebalancing.RebalanceLands` | main/include/Placement.h:327-401 | after the withdrawal Choose() answers exactly the move's target, memory freed on the donor included |
| `Rebalancing.MoveKeeps` | main/include/Placement.h:359-401 | a move keeps names, totals and suitability |
| `Rebalancing.MoveDescends` | main/include/Placement.h:327-401 | every move lowers (instances that must leave, potential) lexicographically, both natural numbers |
| `Rebalancing.SettledRunBound` | main/include/Placement.h:327-401 | once nothing must leave, a run of moves is no longer than the potential |
| `Rebalancing.RunBound` | main/include/Placement.h:327-401 | every run of moves is no longer than a number read off its first pool |
| `Rebalancing.PlacingKeepsEven` | main/include/Placement.h:225-263 | without a memory limit a placement keeps every holder, suitable or not, within one instance per core of every suitable node; and holders on suitable nodes there |
| `Rebalancing.RestingIsEven` | main/include/Placement.h:359-401 | where no move is proposed and some node is suitable, the pool is even and nobody is on an unsuitable node |
| `Rebalancing.EvenIsOptimal` | main/include/Placement.h:196-215 | no other distribution of as many instances over suitable nodes has a smaller greatest share per core |
| `Rebalancing.FillingIsEven` | main/include/Placement.h:225-263 | a pool filled by placement alone is even at every size |
| `Withdrawal.ChooseToWithdraw` | main/include/Placement.h:285-317 | the loop settles on `Giver`'s holder and answers its name, or nothing if there is none |
| `Withdrawal.GiverIsLoaded` | main/include/Placement.h:265-317 | one is found exactly when somebody holds an instance; it accepts no work if any holder does not; among those like it none is more loaded per core by more than 0.01 for each holder looked at since |
| `Withdrawal.GiverIsFirstExactly` | main/include/Placement.h:265-317 | with unique names: no holder goes before the one found by work, load per core (beyond 0.01), density and name (byte by byte) if and only if some holder has all others behind it, which is then the one found |
| `Withdrawal.GiverIsFirst` | main/include/Placement.h:265-317 | which is so where closeness of loads is transitive among holders that are alike in accepting work |
| `Withdrawal.LoadCanDrift` | main/include/Placement.h:300-305 | three nodes of which the least loaded gives although the first is more loaded by more than the tolerance |
| `Withdrawal.LastFree` | main/include/Placement.h:430-437 | the last slot that is placed, idle and on the node asked for, or none if there is none |
| `Withdrawal.ChooseSlotToStop` | main/include/Placement.h:428-440 | never a slot with work in hand; on the preferred node if one is idle there; the one placed last |
| `ZipRoundTrip.ReadLocalHeader` | core/src/ArchiveZip.cpp:108-127 | a completed local header is read back as the member it was written for, and where its data is |
| `ZipRoundTrip.ReadCentralHeader` | core/src/ArchiveZip.cpp:129-156 | a directory entry is read back as its name and member, the next one right behind it |
| `ZipRoundTrip.FromDirectoryTrailer` | core/src/ArchiveZip.cpp:158-185 | end records behind a directory lead back to it, whatever lies before |
| `ZipStandard.EndsInOnes` | core/src/ArchiveZip.cpp:176-183 | a finished archive ends in the bytes 50 4b 05 06, four zeros, twelve times ff, two zeros |
| `ZipStandard.DirectoryReads` | core/src/ArchiveZip.cpp:129-185 | a reader of APPNOTE sections 4.3.12 and 4.3.14 to 4.3.16, which takes count, size and offset from the end record unless they are all ones, finds every member's record and no other |
| `ZipStandard.StandardReads` | core/src/ArchiveZip.cpp:108-185 | each record has version 4.5, made on Unix, UTF-8 names, mode 0644, disk 0, and the member's method, time, date, CRC, sizes and offset; the local header there agrees with it, and the data is right behind |
| `ZipStandard.AppendedReads` | core/src/ArchiveZip.cpp:384-433 | after an append of any name of 1 to 65535 bytes such a reader finds one record more, with the request's name, size, CRC, method and times |
| `ZipMeans.LocalMeans` | core/src/ArchiveZip.cpp:204-237 | in any file: when a local header is refused, and which bytes its values come from |
| `ZipMeans.ExtraMeans` | core/src/ArchiveZip.cpp:223-233 | in any header: an extra field that does not fit ends them, one that is not Zip64 is skipped, and a Zip64 one holds the sizes that are all ones, as far as it is long |
| `ZipMeans.OwnSizesStay` | core/src/ArchiveZip.cpp:223-233 | a size the header gives itself is never overridden |
| `ZipMeans.CentralMeans` | core/src/ArchiveZip.cpp:512-536 | in any directory: which bytes an entry's values come from, and where the next one starts |
| `ZipMeans.CentralExtraMeans` | core/src/ArchiveZip.cpp:524-534 | a directory entry's Zip64 field holds size, compressed size and offset, those that are all ones |
| `ZipMeans.OwnWideStays` | core/src/ArchiveZip.cpp:524-534 | a value the entry gives itself is never overridden |
| `ZipMeans.ListMeans` | core/src/ArchiveZip.cpp:506-539 | the list goes entry by entry up to the first place without a signature |
| `ZipMeans.WalkMeans` | core/src/ArchiveZip.cpp:271-284 | the walk takes one member after another from the start while there is one |
| `ZipMeans.ExtractMeans` | core/src/ArchiveZip.cpp:435-504 | in any file: extracted exactly if the header there has the member's compressed size and method, the data unpacks, and the result has its size and CRC |
| `ZipMeans.StoredMeans` | core/src/ArchiveZip.cpp:336-381 | the source goes in as it is under method 0, or deflated under method 8 |
| `ZipArchive.ReadMember` | core/src/ArchiveZip.cpp:204-237 | each member of any file that begins with them is read at its offset, data and all, and they tile the file |
| `ZipArchive.RecoverLists` | core/src/ArchiveZip.cpp:271-284 | the walk lists the members first, and exactly them if and only if nothing behind reads as one |
| `ZipArchive.IndexEqualsWalk` | core/src/ArchiveZip.cpp:248-294 | in a complete archive index and walk give the same directory bytes, count and append offset |
| `ZipArchive.ListExact` | core/src/ArchiveZip.cpp:506-539 | listing gives every name and member in order |
| `ZipAppend.AppendLanding` | core/src/ArchiveZip.cpp:404-431 | the bytes of the file after each of an append's writes |
| `ZipAppend.AppendCompletes` | core/src/ArchiveZip.cpp:384-433 | a finished append leaves a complete archive of the earlier members and the new one |
| `ZipAppend.StopsAtAppend` | core/src/ArchiveZip.cpp:271-294 | the place the next member goes to never reads as a member already |
| `ZipAppend.CrashBeforeHeader` | core/src/ArchiveZip.cpp:404-418 | stopped at any byte before the header rewrite, the walk yields exactly the earlier members |
| `ZipAppend.CrashAfterHeader` | core/src/ArchiveZip.cpp:416-431 | stopped after it, the earlier members and the new one are a prefix of the walk, equal to it if and only if the bytes behind do not read as a member, and always from the fourth directory byte on |
| `ZipTorn.IndexReads` | core/src/ArchiveZip.cpp:248-269 | the index is believed exactly if the file ends in a locator and an end record that lead to a Zip64 end record and a directory |
| `ZipTorn.TornHasNoIndex` | core/src/ArchiveZip.cpp:248-269 | a finished file written over from its directory on has no index, as long as neither the overwritten Zip64 end record nor the locator is spelled again |
| `ZipCrash.NextLayout` | core/src/ArchiveZip.cpp:286-294 | over all interruptions before the header rewrite: the next append always builds on the earlier members if and only if no prefix of placeholder and data, laid over the old bytes, ends in end records |
| `ZipCrash.NextLayoutKept` | core/src/ArchiveZip.cpp:286-294 | from the header rewrite on: it builds on the earlier members and the new one if and only if the end records say so, or there are none and nothing behind reads as a member |
| `ZipCrash.CrashKeepsArchive` | core/src/ArchiveZip.cpp:404-431 | any archive, torn before or not, stopped at any byte of any of the six writes, is one of the right members to the next append, if the bytes just written spell no signature of end records |
| `ZipCrash.EveryInterruption` | core/src/ArchiveZip.cpp:384-433 | the same of a finished archive with a condition on the request and the old file alone: name, data and directory spell no such signature |
| `ZipCrash.StaleEndRecords` | core/src/ArchiveZip.cpp:248-269 | nothing is asked of the bytes while what was written has not covered the old Zip64 end record's signature: its directory is gone and it is refused |
| `ZipAppend.ForgedEndRecords` | core/src/ArchiveZip.cpp:248-294 | data that is itself end records, stopped before the header rewrite, misleads the next append to any count it claims |
| `ZipRuns.ExtractReturnsSource` | core/src/ArchiveZip.cpp:435-504 | a member is extracted as its source, whatever is appended behind it |
| `ZipRuns.RunSound` | core/src/ArchiveZip.cpp:384-433 | every run of appends and interruptions whose bytes spell no signature of end records leaves an archive of exactly the requests kept |
| `ZipRuns.RunReadsBack` | core/src/ArchiveZip.cpp:384-539 | of every such run the list has the kept names, sizes, CRCs and offsets in order, and every source is extracted |
| `ZipRuns.UninterruptedRun` | core/src/ArchiveZip.cpp:384-433 | without interruptions nothing is dropped, nothing is assumed of the data, and the archive is complete |
| `ZipFiles.ScanExtras` | core/src/ArchiveZip.cpp:223-233 | the loop over a local header's extra fields gives the sizes they override |
| `ZipFiles.ScanCentralExtras` | core/src/ArchiveZip.cpp:524-534 | the same over a directory entry's |
| `ZipFiles.ZipFile.constructor` | core/src/ArchiveZip.cpp:397-400 | an archive that does not exist yet is empty |
| `ZipFiles.ZipFile.WriteAt` | core/src/ArchiveZip.cpp:410-412 | a write overwrites in place and extends |
| `ZipFiles.ZipFile.ReadLocalAt` | core/src/ArchiveZip.cpp:204-237 | reads what `ReadLocal` gives for the file |
| `ZipFiles.ZipFile.RecoverLayout` | core/src/ArchiveZip.cpp:271-284 | the loop gives the walk's layout |
| `ZipFiles.ZipFile.CurrentLayout` | core/src/ArchiveZip.cpp:286-294 | index first, walk otherwise |
| `ZipFiles.ZipFile.CopyStored` | core/src/ArchiveZip.cpp:340-351 | chunk by chunk the whole source lands, with its CRC and size |
| `ZipFiles.ZipFile.Append` | core/src/ArchiveZip.cpp:384-433 | the file ends as the six writes leave it, the member answered has the request's values; a name that is empty or longer than 65535 bytes changes nothing |
| `ZipFiles.ZipFile.Extract` | core/src/ArchiveZip.cpp:435-504 | the stored data unpacked, or the error the checks raise |
| `ZipFiles.ZipFile.List` | core/src/ArchiveZip.cpp:506-539 | the entries of the present layout |
| `ObjectFormat.HeaderReadsBack` | core/src/ObjectCipher.cpp:56-80 | a header is read back as its chunk size and length |
| `ObjectFormat.HeaderBytes` | core/src/ObjectCipher.cpp:56-63 | the header byte by byte: "EUCOBJ01", the chunk size in four bytes and the length in eight, least significant first |
| `ObjectFormat.HeaderMeans` | core/src/ObjectCipher.cpp:70-80 | in any file: accepted exactly with 20 bytes, that magic and a chunk size that is not zero; a length with its top bit set is negative |
| `ObjectFormat.FrameBytes` | core/src/ObjectCipher.cpp:50-54 | a frame is its IV and what is sealed with the index in eight bytes, byte k being index / 256^k % 256 |
| `ObjectFormat.ObjectBytes` | core/src/ObjectCipher.cpp:151-162 | of an encrypted object, the header, and at 20 + i * (chunk + 28) the i-th IV and the i-th chunk sealed under it with i as additional data |
| `ObjectFormat.ChunkLength` | core/src/ObjectCipher.cpp:90-95 | every frame but the last is full and the last holds the rest |
| `ObjectFormat.FramesLength` | core/src/ObjectCipher.cpp:97-100 | a frame lies where the offset arithmetic puts it |
| `ObjectFormat.ObjectSize` | core/src/ObjectCipher.cpp:198-205 | a file is as long as its header says it should be, the empty object included |
| `ObjectFormat.DecryptAcceptsExactly` | core/src/ObjectCipher.cpp:164-181 | Decrypt() gives a text if and only if it has the length recorded and for every i the bytes behind the IV at 20 + i * (chunk + 28) are its i-th chunk sealed with additional data i, spelled out in eight bytes |
| `ObjectFormat.DecryptRefuses` | core/src/ObjectCipher.cpp:123-181 | a bad header is refused, so is a negative length, and a key of other than 16 or 32 bytes where there is text; streaming differs only in that a negative length delivers nothing |
| `ObjectFormat.DecryptUndoesEncrypt` | core/src/ObjectCipher.cpp:151-181 | decrypting undoes encrypting, from memory and streamed |
| `ObjectRange.RangeIsPart` | core/src/ObjectCipher.cpp:214-243 | a range read gives the matching part, clipped at the end, and depends on the header and the frames touched alone |
| `ObjectRange.RangeOfObject` | core/src/ObjectCipher.cpp:214-243 | on an encrypted object every range read agrees with the plaintext; an empty one under any key |
| `ObjectRange.RangeAcceptsExactly` | core/src/ObjectCipher.cpp:214-243 | in any file a range read answers bytes if and only if they are that part of a text all of whose chunks in the range are sealed there at their own index, under a supported key |
| `ObjectRange.RangeEdges` | core/src/ObjectCipher.cpp:214-224 | a negative offset is refused, an empty range or one behind the end is nothing |
| `ObjectCipher.Encrypt` | core/src/ObjectCipher.cpp:151-162 | the loop makes the object `ObjectBytes` describes; it fails exactly on a key of other than 16 or 32 bytes with something to encrypt |
| `ObjectCipher.Decrypt` | core/src/ObjectCipher.cpp:164-181 | the loop gives what the format's `Decrypt` gives, errors included; see `DecryptAcceptsExactly` and `DecryptRefuses` |
| `ObjectCipher.DecryptRange` | core/src/ObjectCipher.cpp:214-243 | the loop over the frames touched gives what the range's function gives; see `RangeAcceptsExactly` and `RangeEdges` |
| `ObjectCipher.ObjectEncryptor.constructor` | core/src/ObjectCipher.cpp:266-276 | an empty header, nothing buffered |
| `ObjectCipher.ObjectEncryptor.FlushChunk` | core/src/ObjectCipher.cpp:293-301 | the buffer goes out as the next frame; an unsupported key fails before anything is written |
| `ObjectCipher.ObjectEncryptor.WriteData` | core/src/ObjectCipher.cpp:278-291 | whole chunks are out, less than a chunk is buffered, together what was handed over |
| `ObjectCipher.ObjectEncryptor.Finish` | core/src/ObjectCipher.cpp:303-316 | the file is the one-shot encryption of everything handed over, and its length is answered |
| `ObjectCipher.EncryptPieces` | core/src/ObjectCipher.cpp:266-316 | for every way of cutting the data into writes the file is the one-shot encryption of the whole |
| `ObjectCipher.StreamPlaintext` | core/src/ObjectCipher.cpp:123-147 | the pieces handed to the sink make up the stored text, encrypted or in the clear |
| `ObjectCipher.Transcode` | core/src/ObjectCipher.cpp:245-262 | the target holds the same text under the target key, or in the clear without one; fails exactly if the source does not read or the target key is unsupported and there is text |
| `Scheduler.AdvancedIsNext` | core/src/Scheduler.cpp:201-203 | the next run is after now and none of its instants in between is |
| `Scheduler.AdvancePeriodic` | core/src/Scheduler.cpp:201-203 | the loop comes to that instant: after now, on the grid, and one interval on or the first after now |
| `Scheduler.AdvancedMeans` | core/src/Scheduler.cpp:201-203 | it is a whole number of intervals on, at least one, after now, and no more than one interval after now unless only one on |
| `Scheduler.TakeMeans` | core/src/Scheduler.cpp:138-147 | the dispatcher takes an entry exactly if it is the earliest queued, due, and it is running |
| `Scheduler.WaitMeans` | core/src/Scheduler.cpp:131-142 | it waits for ever on an empty queue and else no longer than until the earliest is due |
| `Scheduler.WakeMeans` | core/src/Scheduler.cpp:108-127 | scheduling, cancelling and stopping put a sleeping dispatcher back to its loop, and what each does to tasks and queue |
| `Scheduler.FireMeans` | core/src/Scheduler.cpp:177-207 | a firing runs exactly if it is not cancelled by then; a task that runs once is gone after it, any other is queued again at its next time, a cancelled one is neither |
| `Scheduler.NextMeans` | core/src/Scheduler.cpp:200-207 | that next time is a periodic task's next instant after now, and any instant after now for cron |
| `Scheduler.StopMeans` | core/src/Scheduler.cpp:36-69 | the dispatcher leaves exactly when the flag is down, Stop() joins it first and ends well exactly with nothing in flight |
| `SchedulerSafety.StepKeeps` | core/src/Scheduler.cpp:108-209 | every step of callers, dispatcher and firings keeps places, counts, stopping and periods consistent |
| `SchedulerSafety.LiveTaskHasOnePlace` | core/src/Scheduler.cpp:108-209 | in every run a live task is not cancelled and has exactly one queue entry, at its next time, or is in the dispatcher's hand |
| `SchedulerSafety.InFlightIsExact` | core/src/Scheduler.cpp:151-175 | the in-flight count of a name is its threads plus the one about to be started |
| `SchedulerSafety.CancelledNeverRuns` | core/src/Scheduler.cpp:119-127 | after Cancel() no firing passes its check, none is dispatched, and its id is not live again |
| `SchedulerSafety.PeriodicRunsNext` | core/src/Scheduler.cpp:200-207 | a periodic task is put back at the least of its instants after now, counted from its first |
| `SchedulerSafety.StoppedIsQuiet` | core/src/Scheduler.cpp:42-69 | after a Stop() that did not time out there is no dispatcher and no thread, and none can come before the next Start() |
| `SchedulerStop.NotifyIsHeard` | core/src/Scheduler.cpp:42-48 | a Stop() is heard exactly if its notification does not fall between the dispatcher's test of the flag and its sleep |
| `SchedulerStop.HeardStays` | core/src/Scheduler.cpp:129-209 | heard stays heard until joined, and each step of the dispatcher is one fewer to go |
| `SchedulerStop.HeardGoesOn` | core/src/Scheduler.cpp:129-209 | a dispatcher that has heard can always take its next step, unless it holds a periodic task without a positive interval; once out it can be joined |
| `SchedulerStop.HeardRun` | core/src/Scheduler.cpp:42-209 | in every run the dispatcher takes at most four more steps after a notification that was heard |
| `SchedulerStop.UnheardRun` | core/src/Scheduler.cpp:42-144 | after one that was not, only a schedule, a cancel, a timed-out wait or a spurious wake-up frees it |
| `SchedulerStop.StopIsHeard` | core/src/Scheduler.cpp:42-144 | in every run, till then: on its way out if and only if the notification was not in between, asleep or about to be if and only if it was |
| `SchedulerStop.StopCanGoUnheard` | core/src/Scheduler.cpp:42-49 | a run in which it is in between, with nothing scheduled to wake the dispatcher |
| `Calendar.DateOf` | core/src/CronExpression.cpp:39-48 | every day number has a valid date with that number |
| `Calendar.DateOfDayNumber` | core/src/CronExpression.cpp:39-48 | every valid date has a day number, and that number's date is it |
| `Calendar.CalendarStarts` | core/src/CronExpression.cpp:39-48 | day 0 is 1 January 1970 |
| `Calendar.CalendarGoesOn` | core/src/CronExpression.cpp:39-48 | the date of the next day number is the next day, by the lengths of the months and the leap years |
| `Calendar.WeekGoesOn` | core/src/CronExpression.cpp:47-47 | day 0 is a Thursday, and each weekday is the one after the day before's, Sunday being 0 |
| `Cron.ParseField` | core/src/CronExpression.cpp:94-127 | refused exactly if a part is out of bounds, backwards or without a positive step; otherwise exactly what some part selects |
| `Cron.ExpandPart` | core/src/CronExpression.cpp:120-122 | exactly every step-th value of the range |
| `Cron.SelectsMeans` | core/src/CronExpression.cpp:100-122 | in numbers, with and without range and step |
| `Cron.SundayMeans` | core/src/CronExpression.cpp:142-146 | Sunday is 0 and 7, and 0 from then on |
| `Cron.ParseExpression` | core/src/CronExpression.cpp:129-150 | five good fields; 7 is Sunday; only a bare star leaves a day field unrestricted |
| `Cron.Next` | core/src/CronExpression.cpp:152-180 | the first minute strictly after an instant (in 60,000,000,000 ns) that matches, or none exactly if none of the next 2,108,160 does; its minute, hour and month are selected, and restricted by weekday alone its day is a selected number of days after a Sunday |
| `Cron.MatchMeans` | core/src/CronExpression.cpp:159-176 | a minute matches exactly if its minute, hour and month are selected and so is its day, by date, by weekday counted from the first Sunday, or by either if both are restricted |
| `CronSearch.ThrowsOnlyIf` | core/src/CronExpression.cpp:158-179 | it throws only if the day of the month is restricted, the weekday is not, and no selected date is in every year |
| `CronSearch.ThrowsExactlyIf` | core/src/CronExpression.cpp:158-179 | and exactly if, besides, no selected 29 February is among the minutes scanned |
| `CronSearch.ImpossibleDatesThrow` | core/src/CronExpression.cpp:158-179 | with no selected date in any year it always throws |
| `CronLeap.LeapDayThrows` | core/src/CronExpression.cpp:158-179 | an expression that only a 29 February matches throws exactly from after the last selected minute of one until fewer minutes than are scanned remain to the first of the next |
| `CronLeap.FoundBetween` | core/src/CronExpression.cpp:158-179 | between leap days four years apart it never throws |
| `CronLeap.GapOf2100` | core/src/CronExpression.cpp:158-179 | and between those of 2096 and 2104 exactly then |
| `CommandLine.QuoteCommandLineArg` | core/src/SystemUtils.cpp:223-263 | the loop quotes as `Quote` does |
| `CommandLine.BuildCommandLine` | core/src/WindowsProcess.cpp:133-137 | the quoted arguments joined by spaces |
| `CommandLine.QuoteMeans` | core/src/SystemUtils.cpp:223-263 | an argument stays as it is exactly if it is not empty and has no space, tab, newline, vertical tab or quote; otherwise it is quoted character by character, a quote behind a backslash and each backslash of a run before a quote or the end doubled |
| `CommandLine.JoinMeans` | core/src/WindowsProcess.cpp:133-137 | one space between each two |
| `CommandLine.ReadQuoted` | core/src/SystemUtils.cpp:223-263 | a quoted argument is read back as itself, and reading stops behind it |
| `CommandLine.JoinReadsBack` | core/src/SystemUtils.cpp:223-263 | every list of arguments is read back as itself |
| `CommandLine.ProgramReadsBack` | core/src/WindowsProcess.cpp:133-137 | with a program name in front, exactly if it has no quote and no backslash before a closing one |
| `QueryString.UriEncode` | core/src/SigV4.cpp:49-63 | the loop encodes as `Encode` does |
| `QueryString.PercentDecode` | core/src/SigV4.cpp:65-77 | the loop decodes as `Decode` does |
| `QueryString.DecodeEncode` | core/src/SigV4.cpp:42-77 | decoding undoes encoding for every byte string |
| `QueryString.SplitAt` | core/src/SigV4.cpp:86-99 | the loop splits as `Split` does |
| `QueryString.SplitJoin` | core/src/SigV4.cpp:86-99 | splitting undoes joining when no part holds the separator |
| `QueryString.ParseParams` | core/src/SigV4.cpp:150-157 | every non-empty part as its name and value, decoded and encoded anew |
| `QueryString.WriteParams` | core/src/SigV4.cpp:160-165 | name=value, joined by ampersands |
| `QueryString.SortedOnce` | core/src/SigV4.cpp:158-158 | any two sorted arrangements of the same parameters are the same |
| `QueryString.SortSorts` | core/src/SigV4.cpp:158-158 | sorted, and the same parameters; `CanonicalForm.CanonicalIsOrdered` says in which order |
| `QueryString.CanonicalizeQueryString` | core/src/SigV4.cpp:147-166 | gives the canonical form that `CanonicalForm` describes byte by byte |
| `QueryString.CanonicalUnordered` | core/src/SigV4.cpp:147-166 | the canonical form is the same for every order of the parameters |
| `QueryString.CanonicalIdempotent` | core/src/SigV4.cpp:147-166 | canonicalising twice changes nothing more |
| `CanonicalForm.EncodeMeans` | core/src/SigV4.cpp:42-63 | letters, digits, hyphen, underscore, full stop and tilde stand for themselves, a slash where asked, every other byte is a percent sign and two upper-case digits |
| `CanonicalForm.DecodeEscape` | core/src/SigV4.cpp:65-77 | a percent sign and two digits of either case are the byte they spell |
| `CanonicalForm.DecodePlain` | core/src/SigV4.cpp:65-77 | everything else is itself, a percent sign without two digits too |
| `CanonicalForm.SplitMeans` | core/src/SigV4.cpp:86-99 | the parts with the separator between them are the text, and no part holds one |
| `CanonicalForm.ParamMeans` | core/src/SigV4.cpp:153-156 | split at the first equals sign, the value empty without one, each half decoded and encoded |
| `CanonicalForm.ParamsMean` | core/src/SigV4.cpp:151-157 | one parameter for each part that is not empty |
| `CanonicalForm.CanonicalMeans` | core/src/SigV4.cpp:158-165 | split at ampersands the canonical form is exactly the query's parameters, each name, equals sign, value |
| `CanonicalForm.CanonicalIsOrdered` | core/src/SigV4.cpp:158-158 | of two neighbours the first name is a prefix of the second or has the smaller byte where they first differ, and for equal names the same of the values |

## Left out

- Integer widths: times, sizes, counts and generations are unbounded. The wrap-around of a 64-bit `dataAt + compressedSize` in a forged local header, overflow of densities, and of the cache and waiter generations are not modelled; the fields written to files are, in their own widths.
- Real arithmetic: loads and memory ratios are reals, so the rounding of doubles in placement is not modelled.
- Libraries: deflate, CRC-32 and AES-GCM are functions with the laws they are used for; zlib's streaming, OpenSSL's errors and running out of memory are not modelled.
- Files: `AppendLock`, flushing and other processes' access to the same archive; writes are ordered and only the last may be cut short, the header rewrite being whole or absent.
- Reading an archive past the end of a directory that is too short for its own entries, and a directory of fewer than four bytes, are the error they end in.
- Database: replication, connection failures other than a pass ending early, and the order among candidates found at the same time. A find answers at one instant, except for the find of a claim, which may answer anything for its target, and that of a release, which reads document by document.
- EventDrain.Drained: assumes that DLQ moves succeed and that no other instance is at work; the protocol's results do not.
- SchedulerSafety.PeriodicRunsNext: the clock does not go back, and Start() is not called while a Stop() is under way. A periodic task whose interval is not positive never leaves the dispatcher's loop, so it has no next step.
- Cron.ParseField: takes the parts of a field, not their text; splitting at commas, `std::stoi`, the names of months and days, and the `@` aliases only rewrite text.
- Cron.ParseExpression: takes five fields as parts, for the same reason.
- Cron.Next: instants before the epoch, where the cast to minutes rounds up.
- ZipCrash.CrashKeepsArchive: the check on the bytes is sufficient, not necessary; the exact conditions are those of `NextLayout` and `NextLayoutKept`.
- Publishing to subscribers (filters, accounts, live pushes), pruning of subscriptions and the change streams that only call a poll sooner.
- Servers, sockets, clients, certificates, tokens, permissions and command-line tools: plumbing around the above, or tables with easy properties.
