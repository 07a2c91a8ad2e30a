# Verified model of the message broker's ledger, topic log and credential codec

The broker keeps three pieces of state that carry real invariants, and this project models and
proves them in Dafny 4.11. Check it with `dafny verify dfyconfig.toml`.

## What is modelled

**The offset ledger** (`OffsetTables`, `TopicManagers`, `SerialLedger`, `LedgerLaws`, `Recreations`,
`TopicViews`, `Interleaving`, `Linearizability`, `Overlaps`, `ConcurrentCreations`). Every topic
number comes from a flat vector of rows keyed by topic, node, partition and kind ("start" or "end").
One allocation is a chain of separately locked steps: a filtered scan, possibly the creation of two
rows, a second search by key, and an overwrite by position. `OffsetTable` and `TopicManager` are classes with the program's loops and
assignments; each method is proved against a function of the table. On those functions the project
proves, for every run:

- the table behaves as a map from topic to counter (`SerialLedger.RunRefines`), with the closed
  form of every number returned (`SerialLedger.KthAllocation`, `SerialLedger.EqualOnlyAfterWrap`);
- why it works (keys stay unique, so the overwrite hits the row that was scanned) and that nothing
  weaker will do (`LedgerLaws.AdvancesIffUnshadowed`);
- with bare creations anywhere in the run, all numbers of a topic are distinct if and only if each of
  its creations was safe when it was made, by two facts that a caller of `createTopic` can look up
  (`Recreations.DistinctIffCreationsSafe`);
- that the ledger is local: what an operation does to a topic depends on that topic's rows alone
  (`TopicViews.ApplyInView`);
- with each lock scope as one atomic step and any number of operations in flight: safety under every
  interleaving (`Interleaving.InterleavingSafety`); linearizability with one operation in flight per
  topic, bare creations included (`Linearizability.InterleavingIsSerial`); and, topic by topic,
  linearizability with any number called at once, as long as no operation begins on the topic while
  another is between its first and last critical sections (`Linearizability.FirstStepsAreSerial`);
- that this is exactly what distinct numbers need: on a topic that only allocations name, the numbers
  are distinct if and only if no scan falls between another allocation's scan and its end
  (`Overlaps.DistinctIffExclusive`);
- when keys stay unique in spite of the gap between the check and the creation
  (`ConcurrentCreations.KeysUniqueIffSingleDecisions`).

**Users and start-up** (`UserTables`, `Startup`, `ConcurrentUsers`). A user insert draws its offset
from the ledger and then appends a row; start-up creates the "__users" topic and an administrator
unless that topic exists. `Startup.SystemRefines` relates any serial run of ledger operations, user
inserts, updates and start-ups to a reference that never looks at the row table.
`ConcurrentUsers.OffsetsArePermuted` takes inserts in flight at once, whose rows arrive in any order.

**The public topic log** (`RecordCodec`, `TopicFiles`, `TopicLogs`, `TopicWindows`,
`TopicRestarts`). Records go to a file that may refuse to open and whose bytes may reach a reader
late; a reader's cache is never refreshed once it holds anything; a window of recent records is kept
in memory; a restart reloads the window newest first and the next number follows the *last* element
of the window. The cache law, the gap-free numbering on disk, the window law and the exact resumption
law are proved over runs of any length; and no message is lost, reordered or changed on its way into
the log and, field by field, back out after a restart.

**Base64 and Basic credentials** (`Base64`, `Rfc4648`, `Credentials`). Encoding and decoding are
modelled as the program computes them, a buffer of pending bits that is cut anew. `Rfc4648` has
section 4 of RFC 4648 in its own terms, Table 1 as printed and arithmetic on bytes, and shares no
function with the code it is compared with. The credential split follows the GET handler, and its
round trip is the one that section 2 of RFC 7617 relies on.

`Sequences` and `Numbers` hold shared facts: searching, filtering, reversal, integer widths.

## Properties the code does not have

Each of these is a theorem about the code as it is, with the exact condition.

- Offsets after a reload. REQUIREMENTS.md:21 asks for an offset that is incremented at every
  insert. Because the reloaded window is newest first, numbering restarts one after the *oldest*
  record loaded: it continues exactly when one record was loaded
  (`TopicWindows.ContinuesIffOneLoaded`). Over whole runs of a fresh topic whose writes succeed,
  offsets on disk stay distinct exactly when every insert that directly follows a restart finds at
  most one record loaded (`TopicRestarts.DistinctIffShortReloads`).
- A record that could not be written still uses up a number and enters the window. Over any run of
  inserts and restarts the disk stays gap-free exactly when every insert that opens the file has
  number 0 or one whose predecessor is on disk (`TopicLogs.DiskHasNoGaps`); in closed form for one
  session (`TopicWindows.SessionSegmentIff`), for a fresh topic (`TopicWindows.FreshSegmentIff`) and
  after a reload, where refused writes and the slip make up for each other
  (`TopicWindows.RightAfterReloadIff`). Record i has offset i after every step exactly when every such
  insert has its position as its number (`TopicRestarts.NumberedIffOpensAtEnd`). The window agrees
  with the end of the log under the conditions in `TopicWindows.FreshWindow` and
  `TopicWindows.ReloadedOffsetsIff`.
- A topic over a file that exists without any record never takes one, whatever is inserted and
  however often it is restarted (`TopicRestarts.NeverTakesRecordsIff`).
- Decoding trims trailing NULs, so it inverts encoding exactly on bytes that do not end in NUL
  (`Base64.RoundTrip`), and credentials survive exactly when in addition the name has no colon
  (`Credentials.CredentialRoundTrip`).
- The second predicate of the resuming search drops the node, so its result is the plain filter
  exactly when no other node has a later row of that topic and kind
  (`OffsetTables.ScanCharacterization`).
- `createTopic` does not look for the topic. A creation followed by allocations keeps the topic's
  numbers distinct exactly when they were distinct before and the creation was safe: no end row of
  the topic is past 0 and, for two or more allocations, none has the partition number
  (`Recreations.DistinctIffSafeToCreate`). With a partition number it had, every later allocation
  returns 1 (`LedgerLaws.RecreatedTopicIsStuck`); with a new one, the numbers start again at 1, so two
  allocations, a creation with a new partition number and one more allocation return 0, 1 and 1
  (`Recreations.NewPartitionRepeats`).
- The guard of a guarded creation is no lock: two that both check first leave duplicate keys
  (`ConcurrentCreations.GuardFailsFromIdle`).
- Overlapping allocations of one topic. Two that scan before either is done can both return the same
  number, on any table (`Overlaps.OverlappingScansCollide`) and in a run from the empty ledger
  (`Overlaps.CollisionIsReached`), and a stale write can take a counter back
  (`Overlaps.StaleWriteLowers`). The exact condition is the one in `Overlaps.DistinctIffExclusive`.

Comments that disagree with the code, where the code was followed: managers/topic_manager.cpp:30
says a new topic returns 1, and it returns 0; the initialisation creates "__users"
(managers/initialization_manager.cpp:16) while user inserts allocate from "__user"
(topics/topic_private/topic_user/topic_private_user_definition.cpp:31); `createTopic` returns false
on success; the handler drops six characters of the header without looking at the scheme.

## Inputs

Clock readings, the configured default partition count (an `int`, narrowed to eight bits when it is
stored), whether the file can be opened for appending (`openable`) and how many bytes the stream has
let through (`flushTo`) are parameters, with no assumption on their values. Offsets are 128 bits wide
and wrap. The node id is a constant: it is read once, when statics are initialised
(managers/topic_manager.cpp:7). A default-constructed "not found" row or user has offset 0 and empty
strings; its other fields are indeterminate and are chosen arbitrarily. Methods that hand out or take
positions as `int` ask for fewer than 2^31 rows.

## Model

| member | source | states |
|---|---|---|
| `OffsetTables.OffsetTable.Insert` | topics/topic_private/topic_offset/topic_private_offset_definition.cpp:21-24 | the row is appended and nothing else changes |
| `OffsetTables.OffsetTable.Update` | topics/topic_private/topic_offset/topic_private_offset_definition.cpp:27-34 | exactly the row at the index is replaced; an index out of range, negative included, changes nothing |
| `OffsetTables.IndexOfKey` | topics/topic_private/topic_offset/topic_private_offset_definition.cpp:38-50 | the index is that of the first row with the key, and -1 if and only if no row has it |
| `OffsetTables.OffsetTable.SearchForIndex` | topics/topic_private/topic_offset/topic_private_offset_definition.cpp:38-50 | the search by a row's four key fields returns that first index |
| `OffsetTables.OffsetTable.SearchByCriteriaTypeReturn` | topics/topic_private/topic_offset/topic_private_offset_definition.cpp:53-69 | the first row with the four fields, or a default-constructed row |
| `OffsetTables.OffsetTable.SearchByCriteria` | topics/topic_private/topic_offset/topic_private_offset_definition.cpp:72-85 | -1 if and only if no row matches, otherwise a matching row with none before it |
| `OffsetTables.OffsetTable.SearchByCriteriaVectorTypeReturn` | topics/topic_private/topic_offset/topic_private_offset_definition.cpp:119-140 | the resuming loop collects the first row of (topic, node, type) and every later row of (topic, type), in order |
| `OffsetTables.OffsetTable.SearchByNameTypeReturn` | topics/topic_private/topic_offset/topic_private_offset_definition.cpp:143-161 | the resuming loop collects exactly the rows of the topic, in order |
| `OffsetTables.ScanCharacterization` | topics/topic_private/topic_offset/topic_private_offset_definition.cpp:125-137 | on any table the result contains the (topic, node, type) rows as a subsequence, and equals them if and only if no other node has a row of that topic and type after the first match |
| `OffsetTables.ScanLast` | managers/topic_manager.cpp:37-38 | the last element of a non-empty scan is the last row of the topic and type in the table |
| `OffsetTables.RescanFindsScannedRow` | managers/topic_manager.cpp:38-44 | with unique keys, searching again by the key of the last match returns the very row it was read from |
| `TopicManagers.TopicManager.CheckTopicExists` | managers/topic_manager.cpp:9-19 | true if and only if some row belongs to the topic |
| `TopicManagers.TopicManager.CreateTopic` | managers/topic_manager.cpp:51-68 | a "start" and an "end" row are appended, field by field: offset 0, the clock, topic and node, and the partition count itself if it is below 256, else a number that differs from it by a multiple of 256; existence is not checked and the answer is false |
| `TopicManagers.CreatedIsFound` | managers/topic_manager.cpp:58-65 | on a table without such an end row, creating a topic with a partition count below 256 makes the search for that topic, node, partition and "end" find the new row |
| `TopicManagers.TopicManager.GetNewestOffsetWithRoundRobin` | managers/topic_manager.cpp:22-48 | the chain of scan, creation, search and overwrite leaves the table and the number of one allocation of the specification that the lemmas below are about |
| `SerialLedger.OtherTopicUntouched` | managers/topic_manager.cpp:22-68 | no operation changes the rows of another topic |
| `SerialLedger.StepRefines` | managers/topic_manager.cpp:22-68 | when a topic's rows are those of its counter, any operation, on this topic or another, leaves them those of the counter after one tick, and on this topic answers as the map of counters does |
| `SerialLedger.OverwriteEnd` | managers/topic_manager.cpp:42-44 | overwriting a topic's end row changes that row of the topic's view and no other topic's view |
| `SerialLedger.TopicRefines` | managers/topic_manager.cpp:22-68 | a topic that is never created bare has a start row at 0 and an end row that holds its counter after every run, whatever other topics see |
| `SerialLedger.RunRefines` | managers/topic_manager.cpp:22-68 | after every guarded run each topic's rows are a start row at 0 and an end row that holds its counter |
| `SerialLedger.ReturnedIsAnswer` | managers/topic_manager.cpp:22-48 | every operation on such a topic returns what the map of counters answers |
| `SerialLedger.CounterClosedForm` | managers/topic_manager.cpp:28-47 | a topic's counter depends only on how many allocations it had and whether its first operation was a creation |
| `SerialLedger.KthAllocation` | managers/topic_manager.cpp:28-47 | the k-th allocation on a topic (from 0) returns k if an allocation created it and k + 1 if a creation did, modulo 2^128, independent of other topics |
| `SerialLedger.EqualOnlyAfterWrap` | managers/topic_manager.cpp:39-47 | two allocations on a topic return equal numbers if and only if they are a multiple of 2^128 allocations apart; up to 2^128 allocations are all distinct |
| `LedgerLaws.KeysStayUnique` | managers/topic_manager.cpp:38-44 | allocation and guarded creation keep keys unique over all serial runs |
| `LedgerLaws.AllocationBumpsScannedRow` | managers/topic_manager.cpp:37-47 | after any guarded run an allocation on an existing topic advances exactly the last end row of the topic by one and returns its new offset |
| `LedgerLaws.AllocationWrites` | managers/topic_manager.cpp:37-47 | on any table, the number follows the last end row while the write lands on the first row with the same key |
| `LedgerLaws.TopicShape` | managers/topic_manager.cpp:51-68 | after any guarded run a topic has no rows, or a start row still at 0 followed by an end row one below its position |
| `LedgerLaws.ApplyKeepsOneNode` | managers/topic_manager.cpp:7-68 | no operation, bare creation included, brings a second node id into the table |
| `LedgerLaws.ScanIsPlainFilter` | topics/topic_private/topic_offset/topic_private_offset_definition.cpp:125-137 | on every table reached with one node id the resuming search is the plain (topic, node, type) filter |
| `LedgerLaws.ShadowPersists` | managers/topic_manager.cpp:38-47 | when an earlier row has the key of a topic's last end row, every operation but a bare creation of the topic leaves both as they were |
| `LedgerLaws.DuplicateKeyFreezesCounter` | managers/topic_manager.cpp:38-57 | from then on every allocation on the topic returns the same number, whatever else runs |
| `LedgerLaws.AdvancesIffUnshadowed` | managers/topic_manager.cpp:38-57 | on any table two allocations in a row give consecutive numbers if and only if no earlier row has the last end row's key, and the same number otherwise |
| `LedgerLaws.CreationShadowsIff` | managers/topic_manager.cpp:51-68 | after any run, a bare creation leaves an earlier row with the key of the new end row if and only if an end row of the topic had the partition number |
| `LedgerLaws.RecreationRepeatsIff` | managers/topic_manager.cpp:51-68 | the two allocations right after a bare creation return equal numbers if and only if it had, and consecutive ones otherwise; repeats of numbers from before the creation are the next rows' subject |
| `LedgerLaws.RecreatedTopicIsStuck` | managers/topic_manager.cpp:38-68 | and then every later allocation on the topic returns 1 until it is created once more |
| `Recreations.AdvancedIffOneGiven` | managers/topic_manager.cpp:22-68 | after any run, bare creations included, an end row of the topic is past 0 if and only if some allocation on it returned 1; otherwise all of them returned 0 |
| `Recreations.NumbersAreReturned` | managers/topic_manager.cpp:22-48 | the list of a topic's numbers, which the next rows speak of, holds what each allocation returned, at its place |
| `Recreations.NumbersAfterCreation` | managers/topic_manager.cpp:38-68 | after any run, a bare creation makes the topic's numbers go on with 1, 2, 3, ..., or with 1 for ever if an end row had the partition number |
| `Recreations.FirstAfterCreationRepeatsIff` | managers/topic_manager.cpp:38-68 | the first allocation after it returns 1 and repeats an earlier number of the topic if and only if an end row of the topic was past 0 |
| `Recreations.DistinctIffSafeToCreate` | managers/topic_manager.cpp:51-68 | after any run, a bare creation and m allocations, the topic's numbers are distinct if and only if those before were and m = 0, or no end row was past 0 and m = 1 or none had the partition number |
| `Recreations.DistinctIffCreationsSafe` | managers/topic_manager.cpp:22-68 | for every run with any number of bare creations, all numbers of a topic are distinct if and only if each of its creations was safe in that sense when it was made |
| `Recreations.NewPartitionRepeats` | managers/topic_manager.cpp:51-68 | two allocations, a creation with a partition number the topic did not have, and one more allocation return 0, 1 and 1 |
| `LedgerLaws.PresentIffMentioned` | managers/topic_manager.cpp:9-19 | after any guarded run a topic exists, and is found by a scan, exactly when an operation named it |
| `LedgerLaws.Conservation` | managers/topic_manager.cpp:28-68 | over any guarded run the end offsets plus the auto-created topics plus 2^128 per wrap equal the allocations; no wrap below 2^128 allocations |
| `TopicViews.ScanInView` | topics/topic_private/topic_offset/topic_private_offset_definition.cpp:119-140 | on a topic whose rows belong to one node the resuming search finds the topic's end rows, wherever they sit in the table |
| `TopicViews.OverwriteInView` | topics/topic_private/topic_offset/topic_private_offset_definition.cpp:27-50 | searching for a key and overwriting there acts on the topic's rows as on a table of those rows alone, and shows on no other topic |
| `TopicViews.ApplyInView` | managers/topic_manager.cpp:22-68 | what a whole operation returns and does to its topic depends on that topic's rows alone, bare creations included |
| `Interleaving.MoveTouchesOwnKey` | topics/topic_private/topic_offset/topic_private_offset_definition.cpp:21-34 | in every safe state a lock-level step keeps every row and key, and changes at most the row whose index the moving operation holds |
| `Interleaving.IndexStable` | topics/topic_private/topic_offset/topic_private_offset_definition.cpp:38-50 | while no row is lost and no key changes, the first index of a key stays the same |
| `Interleaving.ExecKeepsSafe` | managers/topic_manager.cpp:22-68 | every step, a call included, keeps the safety invariant and every row's key |
| `Interleaving.AlwaysSafe` | managers/topic_manager.cpp:22-68 | every state reached by any interleaving of allocations and creations is safe |
| `Interleaving.InterleavingSafety` | managers/topic_manager.cpp:22-68 | under every interleaving an index found still is the first one of its key when it is written to, start rows stay at 0, and no row's offset and no number returned exceeds the allocations begun on its topic |
| `Interleaving.StepsTouchOwnKeyOnly` | topics/topic_private/topic_offset/topic_private_offset_definition.cpp:21-34 | after every interleaving, a step overwrites at most one row, of the moving operation's own topic and key and of type end, and only at its write |
| `Interleaving.RowsAreNeverLost` | topics/topic_private/topic_offset/topic_private_offset_definition.cpp:21-34 | from any point of any interleaving to its end no row disappears or changes its key |
| `Linearizability.MoveRefines` | managers/topic_manager.cpp:22-68 | one lock-level step leaves an operation under way, with its topic's rows as its phase says, or done with the serial answer and the serial rows |
| `Linearizability.MoveKeepsOthers` | managers/topic_manager.cpp:22-68 | in every safe state a step never shows on another topic |
| `Linearizability.OwnMoveKeeps` | managers/topic_manager.cpp:22-68 | a step of an operation keeps the linearization invariant of its topic, for any order the operations are lined up in |
| `Linearizability.PlaceKeeps` | managers/topic_manager.cpp:22-68 | an operation that has not begun may take the next place in the order once the earlier ones on its topic are done |
| `Linearizability.FirstStepsAreSerial` | managers/topic_manager.cpp:22-68 | if no operation on a topic begins between another's first and last critical sections, any number may be called at once and anything may happen on other topics: every finished operation on it returned what the serial run in the order of first critical sections returns, and whenever none is busy its rows are those of that run |
| `Linearizability.InterleavingIsSerial` | managers/topic_manager.cpp:22-68 | with at most one operation in flight per topic, bare creations included, every finished operation returned what the serial run in calling order returns, and every idle topic has the rows of that run |
| `Linearizability.ThreeStepsAreOneOperation` | managers/topic_manager.cpp:22-68 | the lock-level steps of one undisturbed operation compose to the whole operation |
| `Overlaps.NumberIsSettled` | managers/topic_manager.cpp:38-47 | once an allocation has scanned, the number it returns is settled in every continuation |
| `Overlaps.OverlapDrawsSame` | managers/topic_manager.cpp:23-39 | an allocation that scans while another of its topic is between its own scan and its end draws the number that the other drew |
| `Overlaps.OverlapRepeats` | managers/topic_manager.cpp:22-48 | so in every run with such an overlap, on a topic that only allocations name, two allocations have the same number |
| `Overlaps.ExclusiveNumbers` | managers/topic_manager.cpp:22-48 | without overlap the allocation at place k of the scan order has the number that allocation k of the serial run has, finished or not, guarded creations included |
| `Overlaps.ExclusiveIsDistinct` | managers/topic_manager.cpp:22-48 | without overlap up to 2^128 allocations of a topic have distinct numbers, guarded creations included |
| `Overlaps.DistinctIffExclusive` | managers/topic_manager.cpp:22-48 | on a topic that only allocations name, with at most 2^128 of them: the numbers are distinct, and are 0, 1, 2, ... in scan order, if and only if no scan happens while another allocation of the topic is between its scan and its end |
| `Overlaps.OverlappingScansCollide` | managers/topic_manager.cpp:22-48 | any two waiting allocations of a topic can both finish with the same number, on any table: both scan, then each runs to its end |
| `Overlaps.CollisionIsReached` | managers/topic_manager.cpp:22-48 | a run from the empty ledger in which two allocations both return 0 |
| `Overlaps.StaleWriteLowers` | managers/topic_manager.cpp:38-44 | an allocation that scans, lets two others finish, and then writes takes the end row from two above its old offset back to one above |
| `ConcurrentCreations.SingleDecisionsKeepKeysUnique` | managers/topic_manager.cpp:9-68 | under every interleaving without bare creations in which no operation decides to create a topic while another is creating it, keys are unique at every moment |
| `ConcurrentCreations.KeysUniqueIffSingleDecisions` | managers/topic_manager.cpp:9-68 | with one partition number and no bare creation, once no creation is under way keys are unique if and only if no operation decided to create a topic while another was creating it |
| `ConcurrentCreations.GuardedCreationsCollide` | managers/initialization_manager.cpp:16-17 | two guarded creations that both check before either adds a row leave an end row shadowed by an earlier one with its key |
| `ConcurrentCreations.GuardFailsFromIdle` | managers/initialization_manager.cpp:16-17 | a run from the empty ledger that does so |
| `UserTables.UserTable.Insert` | topics/topic_private/topic_user/topic_private_user_definition.cpp:26-42 | one allocation is made on "__user" and a row with that offset and the given fields is appended |
| `UserTables.UserTable.Update` | topics/topic_private/topic_user/topic_private_user_definition.cpp:45-52 | exactly the row at a valid index is replaced |
| `UserTables.PositionOfOffset` | topics/topic_private/topic_user/topic_private_user_definition.cpp:55-66 | the first row with the offset, and -1 if and only if there is none |
| `UserTables.UserTable.SearchByOffset` | topics/topic_private/topic_user/topic_private_user_definition.cpp:55-66 | the search returns that position |
| `UserTables.UserTable.SearchByCriteriaTypeReturn` | topics/topic_private/topic_user/topic_private_user_definition.cpp:69-83 | the first user whose name or whose email matches, or a default-constructed user |
| `UserTables.UserTable.SearchByCriteria` | topics/topic_private/topic_user/topic_private_user_definition.cpp:85-98 | -1 if and only if no name and no email matches, otherwise the first position where one does |
| `UserTables.UserTable.GetAllUsers` | topics/topic_private/topic_user/topic_private_user_definition.cpp:131-135 | all users in order |
| `Startup.InitializationManager.Initialize` | managers/initialization_manager.cpp:12-24 | start-up performs the action of the specification: nothing if "__users" exists, otherwise its creation and the administrator's insert |
| `Startup.SystemRefines` | managers/initialization_manager.cpp:12-24 | over every proper serial run the row table is that of the run's ledger operations, and the users are the expected ones in order, with their positions as offsets |
| `Startup.UserLogCoupling` | topics/topic_private/topic_user/topic_private_user_definition.cpp:26-66 | user row i has offset i, the "__user" end row holds the user count minus one, and searching for offset o is direct indexing |
| `Startup.SearchIsIndexing` | topics/topic_private/topic_user/topic_private_user_definition.cpp:55-66 | when positions are offsets, the linear search returns o if o is below the count and -1 otherwise |
| `Startup.CouplingKeptIffOffsetKept` | topics/topic_private/topic_user/topic_private_user_definition.cpp:45-52 | an update keeps the coupling if and only if it keeps the offset of the row it replaces |
| `Startup.StartUpHappensOnce` | managers/initialization_manager.cpp:16-22 | any number of start-ups together add exactly one user, and "__users" keeps exactly two rows, both at offset 0 |
| `Startup.FirstStartUpAddsAdmin` | managers/initialization_manager.cpp:16-22 | the first start-up appends the administrator at the position it finds; later ones change no user |
| `Startup.AddedUserFields` | topics/topic_private/topic_user/topic_private_user_definition.cpp:26-42 | in every proper run a user insert adds one row, whose offset is its position and whose other fields are those asked for |
| `Startup.SystemConservation` | managers/initialization_manager.cpp:12-24 | over the whole system the end offsets, the auto-created topics and 2^128 per wrap equal the users plus the direct allocations |
| `ConcurrentUsers.OffsetsArePermuted` | topics/topic_private/topic_user/topic_private_user_definition.cpp:26-42 | with user inserts in flight at once whose draws do not overlap and whose rows are pushed in any order: no two users share an offset, every offset is below the number of draws, and once all are through the offsets are exactly 0 up to that number |
| `ConcurrentUsers.OffsetsDistinctIff` | topics/topic_private/topic_user/topic_private_user_definition.cpp:26-42 | once all inserts are through, no two users share an offset if and only if their draws did not overlap |
| `RecordCodec.ReadRecord` | topics/topic_io/topic_io.cpp:35-57 | whatever is read or skipped, the unread bytes get fewer |
| `RecordCodec.EncodingLayout` | topics/topic_public/topic_public_structure.h:41-50 | the bytes of a record: signature, offset, timestamp, keys, headers, flags and value, in the order of `serialize` |
| `RecordCodec.RecordThenRest` | topics/topic_public/topic_public_structure.h:41-50 | reading an encoded record followed by anything gives the record and exactly that rest |
| `RecordCodec.CutRecord` | topics/topic_io/topic_io.cpp:41-45 | a record cut anywhere before its end reads as the end of the stream |
| `RecordCodec.RecordExtends` | topics/topic_io/topic_io.cpp:35-57 | what was read from some bytes does not change when more bytes follow |
| `RecordCodec.DecodeCut` | topics/topic_io/topic_io.cpp:35-57 | decoding the file cut at any byte returns exactly the records that lie wholly before the cut, in order; uncut, all of them |
| `RecordCodec.WholeIsMaximal` | topics/topic_io/topic_io.cpp:35-57 | those records fit before the cut and one more would not |
| `RecordCodec.DecodeAppended` | topics/topic_io/topic_io.cpp:64-76 | decoding after an append returns the earlier records and then the new one |
| `TopicFiles.TopicIO.FileExists` | topics/topic_io/topic_io.cpp:3-19 | true if and only if the file exists |
| `TopicFiles.TopicIO.DecodeStream` | topics/topic_io/topic_io.cpp:34-57 | the reading loop returns the decoding of the bytes and terminates, skips included |
| `TopicFiles.TopicIO.FillVector` | topics/topic_io/topic_io.cpp:22-62 | the cache becomes what is visible in the file, nothing if there is no file |
| `TopicFiles.TopicIO.WriteToDisk` | topics/topic_io/topic_io.cpp:64-76 | the record is appended, opening the file if need be; if it cannot be opened nothing changes |
| `TopicFiles.TopicIO.OpenSharedFile` | topics/topic_io/topic_io.cpp:78-80 | opening for appending creates the file |
| `TopicFiles.TopicIO.CloseSharedFile` | topics/topic_io/topic_io.cpp:82-85 | closing makes every written byte visible |
| `TopicFiles.TopicIO.ReadAllRecords` | topics/topic_io/topic_io.cpp:87-93 | the cache, filled first only if it is empty |
| `TopicFiles.TopicIO.CopyFromHead` | topics/topic_io/topic_io.cpp:104-116 | the counting loop returns the first min(k, size) records in order |
| `TopicFiles.TopicIO.CopyFromTail` | topics/topic_io/topic_io.cpp:128-140 | the counting loop over the reverse iterator returns the last min(k, size) records reversed |
| `TopicFiles.TopicIO.ReadRecordsFromHead` | topics/topic_io/topic_io.cpp:95-117 | exactly min(k, cached) records, record i being cached record i, and the effect on the cache |
| `TopicFiles.TopicIO.ReadRecordsFromTail` | topics/topic_io/topic_io.cpp:119-141 | exactly min(k, cached) records, record i being the i-th cached record from the back, and the effect on the cache |
| `TopicFiles.VisibleIsPrefix` | topics/topic_io/topic_io.cpp:22-62 | what a reader sees is a prefix of what was written, all of it once everything is flushed |
| `TopicFiles.VisibleIsWhole` | topics/topic_io/topic_io.cpp:22-62 | exactly the records that lie wholly within the flushed bytes, and every read of an empty cache fills it with them |
| `TopicFiles.CacheIsFrozenPrefix` | topics/topic_io/topic_io.cpp:64-141 | over any interleaving of writes, flushes and reads the cache is a prefix of the log, and never changes once it holds anything |
| `TopicFiles.PrefixAnswers` | topics/topic_io/topic_io.cpp:87-141 | in any state whose cache is a prefix, all reads answer from one prefix of the log, and tail(n) is head(n) reversed; reading all gives the whole log if and only if that prefix is the log |
| `TopicFiles.ReadsAnswerFromPrefix` | topics/topic_io/topic_io.cpp:64-141 | the same after every run, and that prefix is the old cache if it held anything |
| `TopicFiles.ReadsCounted` | topics/topic_io/topic_io.cpp:87-141 | after every run, element by element: read-all gives the cached records, head(k) the first k of them or all, tail(k) the last k or all backwards |
| `TopicFiles.TailThenHead` | topics/topic_public/topic_public_definition.cpp:43-44 | on a fully visible file a tail read followed by a head read sees the whole log in both |
| `TopicLogs.TopicPublicDefinition.constructor` | topics/topic_public/topic_public_definition.cpp:26-39 | a topic object over a file starts as the loaded state of the specification |
| `TopicLogs.TopicPublicDefinition.InitialLoadBufferFromDisk` | topics/topic_public/topic_public_definition.cpp:41-46 | both buffers are loaded if and only if the file exists |
| `TopicLogs.TopicPublicDefinition.GetAutoIncrementedOffset` | topics/topic_public/topic_public_definition.cpp:9-24 | one after the last element of the window, 0 without a file, an error with a file and an empty window |
| `TopicLogs.TopicPublicDefinition.Insert` | topics/topic_public/topic_public_definition.cpp:48-71 | the whole new state of file, cache and window, with the window updated even when the write is refused; what is stored carries the number, the clock, keys, headers, flags 0 and value; it fails exactly when there is no number |
| `TopicLogs.ConstructorLoads` | topics/topic_public/topic_public_definition.cpp:26-46 | over a closed file the window is the last min(n, bufferSize) records newest first, and the head buffer the first ones in order |
| `TopicLogs.RestartLoads` | topics/topic_public/topic_public_definition.cpp:41-46 | a restart keeps the log and loads the buffers in that way |
| `TopicLogs.LoadedBuffers` | topics/topic_public/topic_public_definition.cpp:41-46 | a loaded topic's window and head buffer have min(n, bufferSize) records each, record k being the k-th from the back and from the front of the log |
| `TopicLogs.InsertStores` | topics/topic_public/topic_public_definition.cpp:50-69 | after an insert that gets a number, the last record of the window, and of the log if the file is open or can be opened, has that number, the clock, the message's keys, headers and value, and flags 0 |
| `TopicLogs.LogHoldsMessages` | topics/topic_public/topic_public_definition.cpp:48-71 | over every run of inserts and restarts the log grows by exactly the messages that were written, field by field, in order |
| `TopicLogs.AppendKeepsSegment` | topics/topic_public/topic_public_definition.cpp:22-23 | one more record keeps the offsets a gap-free initial segment if and only if its offset is 0 or its predecessor is on disk; it then stays at most at its position |
| `TopicLogs.StepKeepsSegment` | topics/topic_public/topic_public_definition.cpp:9-71 | an insert or a restart keeps the disk gap-free if and only if what it writes, if anything, continues the disk in that sense |
| `TopicLogs.DiskHasNoGaps` | topics/topic_public/topic_public_definition.cpp:9-71 | over every sequence of inserts and restarts, refused writes included, the offsets on disk stay a gap-free initial segment if and only if every insert that opens the file has a number that continues the disk; and then the record at position i has offset at most i |
| `TopicLogs.NoGapsWhenWritten` | topics/topic_public/topic_public_definition.cpp:9-71 | that condition holds whenever no write is refused, despite the newest-first reload |
| `TopicLogs.BuffersStayInBounds` | topics/topic_public/topic_public_definition.cpp:41-71 | in every run, failed writes included, neither buffer exceeds bufferSize and the head buffer stays a prefix of the log, which only grows |
| `TopicWindows.Session` | topics/topic_public/topic_public_definition.cpp:48-71 | between two reloads the window is the last bufferSize of the old window followed by the new records, which are numbered consecutively, and the log grows by the records from the first one that could open the file |
| `TopicWindows.FreshWindow` | topics/topic_public/topic_public_definition.cpp:48-71 | in a fresh topic the window is the last bufferSize records accepted and the log those from the first that could open the file, each with its insertion number; the window is the end of the log if and only if the first insert could open the file or bufferSize records have been written since one could |
| `TopicWindows.FreshMessages` | topics/topic_public/topic_public_definition.cpp:48-71 | record i of a fresh topic's log holds, field by field, the message of insert d + i, insert d being the first that could open the file |
| `TopicWindows.FreshWindowMessages` | topics/topic_public/topic_public_definition.cpp:66-70 | the window of a fresh topic holds the last min(n, bufferSize) messages inserted, field by field, in order |
| `TopicWindows.RestartReadsAll` | topics/topic_io/topic_io.cpp:87-93 | after a restart, reading everything returns the log |
| `TopicWindows.RestartGivesBack` | topics/topic_public/topic_public_definition.cpp:41-71 | messages inserted, restarted and read back are those inserted, field by field, from the first that could open the file |
| `TopicWindows.SessionSegmentIff` | topics/topic_io/topic_io.cpp:66-71 | a session over a closed file whose first d writes are refused leaves the disk gap-free if and only if nothing is written, or its number base + d is 0 or has its predecessor on disk |
| `TopicWindows.FreshSegmentIff` | topics/topic_io/topic_io.cpp:66-71 | for a fresh topic: if and only if the first insert could open the file or none could |
| `TopicWindows.ReloadedSession` | topics/topic_public/topic_public_definition.cpp:41-71 | after a reload, refused writes included, the window is the reversed end of the log followed by the new records, cut to bufferSize; once bufferSize records have been written it is the log's suffix in order again |
| `TopicWindows.ReloadedWindowIff` | topics/topic_public/topic_public_definition.cpp:41-71 | with the first write accepted, it is in order if and only if bufferSize records have been inserted or only one was loaded |
| `TopicWindows.ReloadedOffsetsIff` | topics/topic_public/topic_public_definition.cpp:41-71 | with l records loaded, d writes refused and m written after them, the window has the offsets of the end of the log if and only if m >= bufferSize, or d = l - 1 and m + l >= bufferSize, or d = 0 and l = 1 |
| `TopicWindows.Resumption` | topics/topic_public/topic_public_definition.cpp:22-43 | over a log numbered 0..n-1, the m-th insert after a reload gets n - min(n, bufferSize) + 1 + m, refused writes or not, and what reaches the file follows from the first that could open it |
| `TopicWindows.ContinuesIffOneLoaded` | topics/topic_public/topic_public_definition.cpp:22-43 | numbering goes on as in an unbroken session if and only if exactly one record was loaded |
| `TopicWindows.RightAfterReloadIff` | REQUIREMENTS.md:21 | after a reload that loaded l records and d refused writes, if anything is written: offsets on disk are distinct if and only if d >= l - 1, gap-free if and only if d < l, both if and only if d = l - 1 |
| `TopicRestarts.DistinctIffShortReloads` | REQUIREMENTS.md:21 | over every run of inserts and restarts of a fresh topic whose writes succeed, offsets on disk are distinct if and only if every insert directly after a restart finds at most one record loaded; and then record i has offset i |
| `TopicRestarts.NumberedIffOpensAtEnd` | topics/topic_public/topic_public_definition.cpp:9-71 | over every run of inserts and restarts, refused writes included, record i of the disk has offset i after every step if and only if every insert that opens the file has the position of its record as its number |
| `TopicRestarts.BarrenForever` | topics/topic_public/topic_public_definition.cpp:11-19 | a topic whose file exists and from which nothing can be loaded never takes a record, in any run of inserts and restarts |
| `TopicRestarts.NeverTakesRecordsIff` | topics/topic_public/topic_public_definition.cpp:11-19 | a just loaded topic never takes a record if and only if its file exists and holds none, or bufferSize is 0 |
| `Base64.RegroupIsChunk` | communication/http/rest_server.cpp:11-22 | the streaming bit buffer computes the groups of the whole bit string cut at once, zero-filled or with the rest dropped |
| `Base64.GroupCount` | communication/http/rest_server.cpp:19-23 | how many six-bit groups the stream yields, and that they hold the input's bits followed by zeros only |
| `Base64.EncodingShape` | communication/http/rest_server.cpp:19-24 | the encoding has 4·ceil(n/3) characters, and `=` stands at its last 0 to 2 places and nowhere else |
| `Base64.EncodingByQuads` | communication/http/rest_server.cpp:19-24 | the stream computes what cutting each 24-bit number into four does |
| `Rfc4648.CharOfIsTable1` | communication/http/rest_server.cpp:19-22 | the character for each value is the one that Table 1 of RFC 4648 prints |
| `Rfc4648.SextetOfIsTable1` | communication/http/rest_server.cpp:11-13 | a character is read as a value if and only if Table 1 has it there, or it is `=` and the value is 0 |
| `Rfc4648.EncodingIsRfc4648` | communication/http/rest_server.cpp:19-24 | the server's encoding is that of section 4 of RFC 4648, by Table 1 and arithmetic on bytes |
| `Rfc4648.DecodingByBlocks` | communication/http/rest_server.cpp:11-17 | every text whose length is not 1 modulo 4 is refused if and only if a character is neither in Table 1 nor `=`, and is otherwise decoded by blocks of four characters, a last one of two or three, and cut of trailing NULs |
| `Base64.RoundTrip` | communication/http/rest_server.cpp:11-24 | decoding an encoding gives the bytes without trailing NULs, for every byte string, and the bytes themselves if and only if they do not end in NUL |
| `Base64.EncodingIsInjective` | communication/http/rest_server.cpp:19-24 | no two byte strings have the same encoding, trailing NULs or not |
| `Base64.TrimNul` | communication/http/rest_server.cpp:14-16 | a prefix that does not end in NUL, with only NULs cut off |
| `Base64.PaddingDecodesAsA` | communication/http/rest_server.cpp:11-17 | the decoder takes `=` for `A` wherever it stands |
| `Credentials.SplitMeans` | communication/http/rest_server.cpp:58-74 | splitting fails if and only if no byte is ':'; otherwise name, ':' and password are the input, and the name has no ':' |
| `Credentials.SplitOfJoined` | communication/http/rest_server.cpp:58-74 | joined parts are recovered if and only if the name has no colon |
| `Credentials.ParseMeans` | communication/http/rest_server.cpp:53-74 | a header is refused if and only if it is too short, is not base64, or decodes to bytes without a colon; otherwise its parts joined are the decoded bytes |
| `Credentials.CredentialRoundTrip` | communication/http/rest_server.cpp:53-74 | any six-character scheme with the encoded credentials parses back to exactly both parts if and only if the name has no colon and the password does not end in NUL |
| `Credentials.BasicRoundTrip` | communication/http/rest_server.cpp:53-74 | "Basic " and the encoding of name, ':' and password parse to exactly that name and that password, for a name without ':' and a password that does not end in NUL |

## Left out

- LedgerLaws.RecreationRepeatsIff: compares the two allocations after a creation with each other only; `Recreations.DistinctIffSafeToCreate` has the numbers from before it as well.
- ConcurrentUsers.OffsetsArePermuted: is about draws that do not overlap; `ConcurrentUsers.OffsetsDistinctIff` shows that nothing less will do.
- Overlaps.DistinctIffExclusive: names topics that only allocations touch; creations of the topic draw no number, so overlapping ones need not repeat any, and for guarded creations `Overlaps.ExclusiveIsDistinct` gives the one direction that holds.
- Linearizability.InterleavingIsSerial: asks for one operation in flight per topic; with several waiting, `Linearizability.FirstStepsAreSerial` applies, and allocations that overlap repeat a number where a serial run does not, by `Overlaps.DistinctIffExclusive`.
- TopicWindows.ReloadedWindowIff: compares whole records, and so asks that the first write is accepted: after refused writes other records can carry the same offsets. `TopicWindows.ReloadedOffsetsIff` compares offsets without that.
- TopicRestarts.DistinctIffShortReloads: is about runs whose writes succeed; with refused writes `TopicRestarts.NumberedIffOpensAtEnd` has the exact condition for numbers that are positions, and `TopicWindows.RightAfterReloadIff` the one for distinct numbers after one reload.
- RecordCodec.ReadRecord: promises progress for any bytes; what is read is stated by the lemmas on written bytes. Boost's archive format is not part of this model: a signature byte, fixed widths and length prefixes in the field order of `serialize` stand in for it, and what follows a torn record that was appended to is not described.
- RecordCodec.RecordThenRest: holds of that stand-in encoding.
- RecordCodec.EncodingLayout: describes that stand-in encoding.
- RecordCodec.CutRecord: holds of that stand-in encoding.
- RecordCodec.RecordExtends: holds of that stand-in encoding.
- RecordCodec.DecodeCut: holds of that stand-in encoding.
- RecordCodec.WholeIsMaximal: holds of that stand-in encoding.
- RecordCodec.DecodeAppended: holds of that stand-in encoding.
- Startup.SystemRefines: runs are serial (`ConcurrentUsers` has the concurrent inserts); direct ledger operations keep off "__user" and "__users", which only the user table and start-up name in the program, and updates keep offsets, which `Startup.CouplingKeptIffOffsetKept` shows to be exactly what the coupling needs.
- Base64.RoundTrip: Boost's iterators are not part of the repository; that they zero-fill the last output of an encoding, drop leftover bits of a decoding and read `=` as zero bits is taken from the library. Texts of length 1 modulo 4, on which they read past the end, are excluded; an invalid character is an error result.
- TopicFiles.TopicIO.FileExists: a file that exists but cannot be opened for reading and writing is not distinguished from a readable one.
- TopicFiles.TopicIO.ReadRecordsFromTail: negative counts are excluded, as is a negative bufferSize, with which the source would ask for an enormous reserve; one path per reader and one live topic object per file; the file is closed before it is loaded again.
- OffsetTables.OffsetTable.SearchForIndex: tables of 2^31 rows and more, where a position no longer fits an `int`.
- The singleton accessors and their locks, printing and debugging code.
- Loading and saving the configuration, JSON and property trees: the values they yield are inputs.
- The HTTP and TCP servers, routing, replies and futures; the message store, an id counter over a map.
- Checking the credentials after the split: the source does not.
- `replication` and `isrCount`, which the source takes and ignores, and the file name generator, which only throws.
- Replication, partition routing, retention, schemas and file splitting, which are planned but not implemented.
