# Replicated text: a verified model

This project models a peer-to-peer collaborative text editor: its replicated growable
array, the delivery pipeline around it, the wire format, and the way remote operations
move the local cursor. It proves that replicas converge, and exactly when they do.

## The system

Each peer keeps the document as a list of tombstonable nodes. A character has a Lamport
identity (clock, site) and names the character it was typed after; so the characters form
a tree whose root is a sentinel. A new node is placed by a local scan right of its left
neighbour. Operations travel over a network that may reorder, repeat and lose them; an
insert whose left neighbour is missing waits in a pending queue. A joining peer loads
another peer's serialized state and then replays what arrived meanwhile.

## The shape of the model

- `Types`, `PathOrder`, `CanonicalOrder`, `PreOrder`, `Structure`, `Visible`: the pure
  layer. A *content* maps identities to left neighbour, value and tombstone. It has one
  canonical row sequence, which is also the pre-order walk of the tree.
- `Replicas`: what one operation does to a clock and a content, and to the text.
- `Engine`: the engine as a class over linked node objects with an index of node
  references, refining the canonical sequence of its content.
- `Codec`, `Serializer`: the wire format as functions, and the reading and writing loops.
- `Delivery`, `Convergence`, `LateJoin`: pending queue, draining, logs, snapshots.
- `Notifications`, `Cursor`: the notification stream and its consumer.
- `SyncBatch`: which operations a joiner applies after a load, and the clock they leave.
- `Pipelines`: the pipeline class; every region guarded by the mutex is one method.
- `Systems`, `SystemTheorems`: many sites as a transition system, and what all runs keep.
- `Simulation`: each region of the pipeline acts on its peer as a step of that system does.

A 32-bit clock or site is a subset type, so every proof that stores one shows that it
fits; `uint32_t` casts of sizes and counts are written out modulo 2^32.

## Where the documentation promises more than the code does

- A delete whose target is not integrated is dropped, never held back. So the claim that
  peers with the same operations agree (ARCHITECTURE.md:373) holds exactly when the same
  deletes met their targets (`ConvergesIff`).
- Loading a state replaces the old one (src/rga.cpp:3-9). `LoadLosesNothingIff` says
  exactly when nothing is lost, tombstones and values included: when snapshot, queue and
  buffer bring all of it back. A snapshot that contains what the joiner has, as at startup
  (src/p2p-editor.cpp:337-340), always does; a transfer in mid-session
  (src/p2p-editor.cpp:128-151) need not, and a character deleted at the joiner can come back
  (`StaleSnapshotRevives`).
- A load also replaces the clock. The joiner goes on without handing out an identity twice
  exactly when the snapshot's clock, the buffered deletes and the ready inserts of queue and
  buffer take its clock to its own newest insert (`LoadReusesIff`); a snapshot whose clock
  is not behind the joiner's is always safe, and `StaleSnapshotReusesIds` is a run that goes
  wrong. The model's `Load` step asks for this and for nothing more.
- Nothing is drained between a load and the replay of the buffer, so a buffered delete is
  dropped when its target waits in the pending queue (`WaitingTargetIsMissed`).
- A local insert past the end goes to the front; the header says it throws
  (include/rga.h:83). The model follows the code.
- Repeated operations are notified like new ones (src/pipeline.cpp:185-191). Reading the
  notifications of a step as edits gives the new text exactly when the operation is no
  misreported repeat and unblocks no operation that is queued twice (`StepReplays`).
- The clock also ticks for a local delete that fails.

## Model

| member | source | states |
|---|---|---|
| `Types.OrderIsStrictAndTotal` | include/rga.h:24-33 | `CharID` comparison is a strict total order; the greater of two identities is the one with the newer clock, and on equal clocks the one of the larger site |
| `PathOrder.PrecedesTransitive` | ARCHITECTURE.md:371-378 | document order on left-neighbour paths is transitive |
| `PathOrder.PrecedesTotal` | ARCHITECTURE.md:371-378 | any two different paths are ordered, so the order the convergence argument relies on is total |
| `PathOrder.RootUnderMeaning` | src/rga.cpp:96-108 | `RootUnder` is the one child of the target whose subtree holds the identity, and the sentinel exactly when the identity is not strictly below the target |
| `CanonicalOrder.SkippedIsBefore` | src/rga.cpp:127-131 | every node the skip loop passes comes before the new character in the global order |
| `CanonicalOrder.StoppedIsAfter` | src/rga.cpp:127-134 | the node the skip loop stops at comes after the new character in the global order |
| `CanonicalOrder.InsertKeepsCanonical` | src/rga.cpp:123-138 | the local scan of `insertNode` puts the new row at its place in the global order: a canonical sequence stays canonical, for any identity and any left neighbour present |
| `CanonicalOrder.TombstoneKeepsCanonical` | src/rga.cpp:54-59 | marking a node keeps the sequence canonical for the content with that character dead |
| `CanonicalOrder.CanonicalUnique` | ARCHITECTURE.md:371-378 | a content has only one canonical sequence: identities, values, left neighbours and tombstones are all determined |
| `PreOrder.RenderCanonical` | src/rga.cpp:123-138 | the pre-order walk of the left-neighbour tree, siblings in descending identity, is canonical |
| `PreOrder.CanonicalIsPreOrder` | src/rga.cpp:96-138 | a sequence is canonical exactly when it is that pre-order walk |
| `Structure.OrderOnlyGrows` | src/rga.cpp:47-60 | however much is integrated later, the old sequence is the new one restricted to the old identities |
| `Structure.SubtreesContiguous` | src/rga.cpp:123-138 | every row between two rows of a subtree belongs to that subtree |
| `Structure.SubtreesOrdered` | src/rga.cpp:123-138 | of two characters with one left neighbour, the one with the newer clock, or on equal clocks the larger site, stands first with all that hangs below it |
| `Structure.SiblingsInText` | src/rga.cpp:123-138 | the same of the text: both characters are seen at their offsets, and in that order |
| `Structure.RunsNeverInterleave` | src/rga.cpp:123-138 | of two runs typed at one anchor, all of one precedes all of the other; first comes the one whose first character has the newer clock, or on equal clocks the larger site |
| `Visible.PositionsInvert` | src/rga.cpp:70-82 | the identity at a visible position has that offset, and the offset of a visible character leads back to it |
| `Visible.RankCounts` | src/rga.cpp:110-121 | the rank of a row is the number of rows before it that are not tombstoned |
| `Visible.TextSplice` | src/rga.cpp:62-68 | inserting a visible row inserts its value into the text at the row's rank |
| `Visible.TextKill` | src/rga.cpp:62-68 | tombstoning a visible row removes exactly the character at its rank |
| `Replicas.IntegrateGrows` | src/rga.cpp:47-60 | an applicable operation keeps every left-neighbour chain rooted, loses no character, changes no value or left neighbour and revives none |
| `Replicas.RenderInjective` | src/rga.cpp:47-60 | two contents give the same sequence exactly when they are equal |
| `Replicas.EnabledOperationsCommute` | src/rga.cpp:47-60 | two enabled operations give the same sequence and clock in either order exactly when they are not an absent insert with its own delete, nor two different inserts claiming one identity |
| `Replicas.RepeatAtOnce` | include/rga.h:93-96 | applying any operation twice in a row is the same as once, for content and clock |
| `Replicas.RepeatsDoNothingIff` | include/rga.h:93-96 | after any growth a repeat still changes nothing, exactly unless it is a delete that missed its target the first time and finds it now |
| `Replicas.DeleteBeforeInsertIsLost` | src/rga.cpp:54-59 | an insert and its delete leave an empty document in one order and the character in the other |
| `Replicas.InsertSplices` | src/rga.cpp:123-138 | integrating a new character splices exactly one row into the rendered sequence |
| `Replicas.ReportedIs` | src/rga.cpp:110-121 | the offset reported for any operation, new or repeated, is the rank of its character in the sequence just reached, where it is seen if it is visible, and -1 if there is no such character |
| `Replicas.InsertShows` | src/rga.cpp:110-121 | the offset reported for a new character is where it appears among the visible rows |
| `Replicas.DeleteHides` | src/rga.cpp:110-121 | the offset reported for an effective delete is where the character stood, and only it disappears |
| `Replicas.FreshLandsNext` | src/rga.cpp:123-138 | an identity larger than all integrated ones makes the skip loop take no step: the character lands right after its anchor |
| `Replicas.LocalInsertShows` | src/rga.cpp:31-36 | a local insert gets the next clock and an unused identity; its left neighbour is the character seen left of `pos`, the sentinel where there is none; the text gains the character at `pos`, or at the front when `pos` is outside the document |
| `Replicas.LocalDeleteShows` | src/rga.cpp:38-45 | a local delete names the visible character at `pos`, carries the sentinel and value 0 beside it, and removes exactly that character |
| `Engine.CRDTEngine.constructor` | src/rga.cpp:26-29 | a new engine holds the sentinel only, clock 0, and is valid |
| `Engine.CRDTEngine.CanApply` | src/rga.cpp:11-15 | true for every delete and for an insert whose left neighbour is integrated or the sentinel |
| `Engine.CRDTEngine.RootAncestor` | src/rga.cpp:96-108 | terminates and returns the child of `target` above `id`, the sentinel when `id` is not below it or not indexed |
| `Engine.CRDTEngine.FindPlace` | src/rga.cpp:123-134 | the skip loop over the linked list stops where splicing the new row gives the canonical sequence |
| `Engine.CRDTEngine.InsertNode` | src/rga.cpp:123-138 | the list stays canonical and well linked with a matching index, and the content gains exactly the new character |
| `Engine.CRDTEngine.LinkIn` | src/rga.cpp:136-137 | list insertion behind a node splices the row sequence, and the index gains the new node |
| `Engine.CRDTEngine.IndexMirrors` | include/rga.h:142-145 | `index_` maps exactly the identities of `seq_`, each to its own node |
| `Engine.IndexFindsLast` | src/rga.cpp:6-8 | of several nodes with one identity, as a received frame may hold, the last one is indexed, and nothing else is |
| `Engine.CRDTEngine.ApplyRemote` | src/rga.cpp:47-60 | the engine moves to the state the abstract operation gives, stays canonical, and its clock covers every integrated identity |
| `Engine.CRDTEngine.Tombstone` | src/rga.cpp:57-58 | only the marked node's tombstone changes; the sequence stays canonical |
| `Engine.CRDTEngine.VisibleAt` | src/rga.cpp:70-82 | returns the identity at a visible position, the sentinel for any other position |
| `Engine.CRDTEngine.VisibleIter` | src/rga.cpp:84-94 | returns the node shown at a visible position, and the end exactly when there is none |
| `Engine.CRDTEngine.VisibleOffsetOf` | src/rga.cpp:110-121 | returns the number of visible rows before the identity, -1 when absent or the sentinel |
| `Engine.CRDTEngine.GetDocument` | src/rga.cpp:62-68 | returns the values of the visible rows in order |
| `Engine.CRDTEngine.LocalInsert` | src/rga.cpp:31-36 | returns the operation with the next clock, the own site and the character seen left of `pos` as left neighbour (the sentinel where there is none), integrates it, and the text gains the character at `pos`, at the front outside the document |
| `Engine.CRDTEngine.LocalDelete` | src/rga.cpp:38-45 | ticks the clock in every case, fails exactly when `pos` shows no character, and otherwise removes the character seen there and returns its delete |
| `Engine.CRDTEngine.LoadState` | src/rga.cpp:3-9 | takes over clock and sequence of another engine, rebuilds the index, keeps its own site |
| `Engine.CRDTEngine.IsRendered` | src/rga.cpp:123-138 | the sequence of every valid engine is the pre-order walk of its content |
| `Codec.OpRoundTrip` | src/serializer.cpp:79-130 | decoding an encoded operation followed by any bytes gives the operation back, for every 32-bit clock and site and every byte |
| `Codec.OpPrefixRejected` | src/serializer.cpp:96-117 | every strict prefix of an operation frame is rejected |
| `Codec.OpFrameExact` | src/serializer.cpp:79-130 | a byte string is the frame of an operation exactly when it is 23 bytes long, has payload length 18 and a kind byte of 0 or 1, and decodes to that operation |
| `Codec.OpLayout` | src/serializer.cpp:79-94 | the frame byte by byte: type 1, length 18, kind 0 for INSERT and 1 for DELETE, clock in two's complement and site of identity and left neighbour, all big-endian, and the value |
| `Codec.OpReading` | src/serializer.cpp:96-130 | which byte strings are accepted, and from which bytes each field is read: kind 0 is INSERT and any other DELETE |
| `Codec.StateLayout` | src/serializer.cpp:132-161 | the header of a snapshot frame byte by byte: type 2, length, site, clock, node count |
| `Codec.StateRowLayout` | src/serializer.cpp:132-161 | every stored node byte by byte: identity, left neighbour, value, tombstone flag 1 or 0 |
| `Codec.StateReading` | src/serializer.cpp:163-219 | which byte strings are accepted as a snapshot, and from which bytes each field is read: a flag other than 0 is a tombstone |
| `Codec.StatePrefixRejected` | src/serializer.cpp:163-189 | every strict prefix of a snapshot frame that fits the length field is rejected |
| `Codec.StateRoundTrip` | src/serializer.cpp:132-219 | decoding an encoded snapshot restores site, clock and all rows exactly when the payload length fits the 32-bit length field |
| `Serializer.WriteUint32` | src/serializer.cpp:16-21 | appends the four big-endian bytes |
| `Serializer.ReadUint32` | src/serializer.cpp:23-30 | reads four big-endian bytes inside the buffer and advances the offset by four |
| `Serializer.BuildFrame` | src/serializer.cpp:40-53 | type byte, payload length modulo 2^32, payload |
| `Serializer.Encode` | src/serializer.cpp:79-94 | writes type, kind, identity, left neighbour and value at their byte positions: the frame the round trip is about |
| `Serializer.Decode` | src/serializer.cpp:96-130 | for every byte string accepts it or not by type and lengths, and reads each field from its byte position, nothing outside the buffer |
| `Serializer.EncodeState` | src/serializer.cpp:132-161 | walks the list and writes the snapshot frame of the engine, counting nodes modulo 2^32 |
| `Serializer.DecodeState` | src/serializer.cpp:163-219 | accepts exactly the well-framed byte strings, reads nothing outside them, and builds a well-linked engine with the decoded rows and a matching index |
| `Delivery.DrainConserves` | src/pipeline.cpp:149-167 | every pending operation is applied exactly once or still pending |
| `Delivery.PassExtends` | src/pipeline.cpp:155-164 | a scan goes front to back: each operation is met after those queued before it, and applied then or kept in order |
| `Delivery.DrainSettles` | src/pipeline.cpp:149-167 | after draining nothing that is left is applicable |
| `Delivery.DrainLeavesBlocked` | src/pipeline.cpp:149-167 | draining leaves exactly the operations blocked afterwards, in their old order |
| `Delivery.DrainGrows` | src/pipeline.cpp:149-167 | draining loses nothing and never turns the clock back |
| `Delivery.ReceiveExplained` | src/pipeline.cpp:176-192 | a step keeps every processed insert integrated or pending, everything integrated or pending processed, and the queue settled |
| `Delivery.ReceiveKeeps` | src/pipeline.cpp:176-192 | whatever the peer does not drop shows in its state: an insert is integrated or pending, a delete has tombstoned its target; only a delete whose target is absent is dropped |
| `Delivery.ExactReadiness` | src/pipeline.cpp:149-192 | the integrated characters are exactly those whose whole left-neighbour chain was received; exactly the other inserts are pending |
| `Delivery.ExplainedAlike` | src/pipeline.cpp:149-192 | what was received determines what is integrated and what is pending, however it arrived |
| `Delivery.LandedAlike` | src/pipeline.cpp:149-192 | when every received delete has taken effect, what was received determines the whole sequence |
| `Convergence.ProcessedLog` | src/pipeline.cpp:169-192 | after any log, in any order and with duplicates: ready inserts are integrated, blocked ones are pending in arrival order, and exactly the characters with a delete that met its target are tombstoned |
| `Convergence.ConvergesIff` | src/pipeline.cpp:169-192 | two peers that processed the same operations hold the same sequence exactly when the same deletes met their targets; the inserts always agree |
| `Convergence.PeersConverge` | src/pipeline.cpp:169-192 | two peers that processed the same operations, no delete before its target, hold identical sequences; nothing is assumed on the order of inserts |
| `LateJoin.SyncExplained` | src/pipeline.cpp:240-269 | after load, replay and final drain the joiner is explained by the snapshot's operations, its old queue and the buffer, and settled, for any buffer order and any overlap |
| `LateJoin.PresentIs` | src/pipeline.cpp:255-264 | which characters are integrated at each point of the replay, told from the operations alone: until one of the buffer applies, old pending ones stay where they are |
| `LateJoin.SyncOutcome` | src/pipeline.cpp:238-269 | closed form of the state after a sync: what is ready is integrated, and dead exactly when it is dead in the snapshot or a buffered delete met it |
| `LateJoin.LoadLosesNothingIff` | src/rga.cpp:3-9 | a load keeps every character, value, left neighbour and tombstone the joiner had exactly when snapshot, queue and buffer hold each of its inserts with its chain, and each of its tombstones is in the snapshot or comes with a buffered delete that meets its target |
| `LateJoin.DominatingBringsBack` | src/p2p-editor.cpp:337-340 | a snapshot that contains what the joiner has integrated, as at startup, meets that condition whatever waits |
| `LateJoin.StaleSnapshotRevives` | src/p2p-editor.cpp:128-151 | a snapshot that has a character but not yet its delete brings the character back at a joiner that had deleted it |
| `LateJoin.WaitingTargetIsMissed` | src/pipeline.cpp:253-266 | a buffered delete of a character that waits in the pending queue is dropped, although direct delivery of the same operations deletes it |
| `LateJoin.SyncAgreesIff` | src/pipeline.cpp:238-269 | a joiner and a peer that received the same operations directly always agree on the inserts, and on the whole sequence exactly when the same deletes took effect |
| `LateJoin.SnapshotTransfers` | src/serializer.cpp:132-219 | the encoded state of a replica decodes to the same site, clock and rows exactly when its payload fits, and these rows stand for the same content |
| `LateJoin.LateJoinRefinesDelivery` | src/pipeline.cpp:238-269 | a joiner that decodes a server's frame, loads it, replays its buffer and drains holds the inserts of a peer that received all those operations directly in any order, and the same sequence when no delete came before its target |
| `Notifications.BatchRuns` | src/pipeline.cpp:185-191 | the operations of a step's notification list, applied one by one, are the step |
| `Notifications.NotesAt` | src/pipeline.cpp:186-191 | each notification carries its operation and the offset in the state that operation has just reached |
| `Notifications.NoteReplays` | src/pipeline.cpp:185-191 | one notification read as a string edit gives the new text exactly when the operation is not a misreported repeat |
| `Notifications.InsertsReplayIff` | src/pipeline.cpp:185-197 | a batch of inserts of any length replays the text exactly when none of it is misreported |
| `Notifications.StepReplays` | src/pipeline.cpp:185-197 | a step's notifications replay the old document into the new one, for a drain cascade of any length, exactly when before the step the operation is no misreported repeat and unblocks nothing queued twice |
| `Notifications.UnblockedAre` | src/pipeline.cpp:149-167 | a step applies from the queue every copy of what has become ready, and nothing else |
| `Notifications.FaithfulIff` | src/pipeline.cpp:185-191 | no notification of a step is misreported exactly when a check before the step says so |
| `Notifications.QueuedTwiceGarbles` | src/pipeline.cpp:180-191 | an insert received twice before its left neighbour is reported twice when that arrives, and the replayed text is wrong |
| `Cursor.OnRemoteOp` | src/p2p-editor.cpp:159-175 | whatever other threads write and whatever weak exchanges fail on the way, the compare-and-exchange loop amounts to one adjustment of the value it finds last |
| `Cursor.InsertedSide` | src/p2p-editor.cpp:161-165 | a character inserted left of the cursor stays left of it, one inserted at the cursor or behind it stands right of it |
| `Cursor.NoteKeepsCutIff` | src/p2p-editor.cpp:155-176 | one notification keeps the cursor inside the document and every surviving character on its side of it exactly when it is no repeat reported left of the cursor |
| `Cursor.BatchKeepsCut` | src/p2p-editor.cpp:155-176 | folding the callback over a batch keeps the cut when no repeat is reported left of the cursor at its turn |
| `Cursor.StepKeepsCut` | src/pipeline.cpp:185-197 | one step keeps the cut, for a drain cascade of any length, when the operation is no repeat reported left of the cursor and unblocks nothing queued twice |
| `SyncBatch.ReplayTakes` | src/pipeline.cpp:253-267 | what is applied after a load: every buffered delete, and the buffered and queued inserts whose chain is complete, and nothing else |
| `SyncBatch.ClockAfterSync` | src/rga.cpp:3-49 | closed form of the clock after a sync: the larger of the snapshot's clock and one past the clocks of the operations applied |
| `Pipelines.MpscQueue.Pop` | include/pipeline.h:37-45 | takes the front item; once stopped it refuses and leaves the queue |
| `Pipelines.ApplyOne` | src/pipeline.cpp:135-145 | applies one operation and reports the rank of its character in the list just reached, repeats included; -1 when it is not there |
| `Pipelines.ScanPending` | src/pipeline.cpp:155-164 | the inner loop is one pass: what it applies, what it leaves and what it reports, with one check per queued operation |
| `Pipelines.DrainPending` | src/pipeline.cpp:149-167 | the nested loops end in the drained state with its notifications, within n + (n-1) + ... + 1 checks |
| `Pipelines.TriangleIs` | src/pipeline.cpp:153-165 | that bound is n(n+1)/2 |
| `Pipelines.Pipeline.LocalInsert` | src/pipeline.cpp:74-79 | the edit shows at its position, its operation is queued for broadcast, the pending queue is untouched |
| `Pipelines.Pipeline.LocalDelete` | src/pipeline.cpp:81-86 | the character disappears and its delete is queued; an invalid position queues nothing |
| `Pipelines.Pipeline.Deliver` | src/pipeline.cpp:180-192 | outside a transfer an operation is queued, or applied with all it unblocks and reported in order |
| `Pipelines.Pipeline.CrdtStep` | src/pipeline.cpp:169-197 | takes the front operation; during a transfer it only extends the buffer, otherwise it is one delivery step |
| `Pipelines.Pipeline.SerializeState` | src/pipeline.cpp:221-224 | the frame is that of the canonical sequence, and decodes to the engine's site, clock and rows exactly when its payload fits the length field |
| `Pipelines.LoadFrame` | src/pipeline.cpp:238-243 | every decodable frame is loaded as it is, whatever sequence it holds; any other leaves the engine alone |
| `Pipelines.Pipeline.ConsumeState` | src/pipeline.cpp:238-274 | a decodable frame replaces the state, the whole buffer is replayed in arrival order and drained, and the notifications are those of the operations applied; any other frame changes nothing |
| `Systems.InsertIsFresh` | src/rga.cpp:31-36 | in every invariant state a local insert's identity was never used, its left neighbour is older, and nothing pending becomes applicable |
| `Systems.EditKeeps` | src/pipeline.cpp:74-86 | a local edit keeps the system invariant |
| `Systems.DeliverKeeps` | src/pipeline.cpp:169-193 | delivering any sent operation, again or out of order, keeps the system invariant |
| `Systems.LoadKeeps` | src/pipeline.cpp:238-269 | loading any snapshot after which the clock covers the site's own inserts keeps the system invariant |
| `Systems.StepKeepsInv` | src/pipeline.cpp:74-287 | every step of the system keeps it |
| `SystemTheorems.RunsAreSafe` | src/pipeline.cpp:74-287 | in every run insert identities are unique, left neighbours were inserted earlier with a smaller clock, and every clock covers what its site integrated |
| `SystemTheorems.NetworkIs` | src/pipeline.cpp:74-86 | in every run what the network carries is what was edited, and what can be loaded is what was serialized |
| `SystemTheorems.ClocksDoNotOverflow` | src/rga.cpp:31-49 | with fewer than 2^30 local edits no 32-bit clock overflows |
| `SystemTheorems.ReadinessIsExact` | src/pipeline.cpp:149-193 | at every site of every reachable state the integrated inserts are exactly those with a complete chain among the operations its state is built from, the others are pending, nothing pending is applicable, and the dead characters are those with a delete among these operations |
| `SystemTheorems.MissedIs` | src/rga.cpp:54-59 | the deletes a site has dropped are exactly those it processed in some step of the run while their target was absent |
| `SystemTheorems.NothingIsLost` | src/pipeline.cpp:169-193 | in a run without a failed, restarted or lossy transfer at a site, every operation delivered to it is buffered, or is an insert integrated as sent or pending, or a delete whose target is tombstoned or was absent when it was processed |
| `SystemTheorems.StepProcesses` | src/pipeline.cpp:169-193 | how the set of processed operations moves: edits and deliveries add their operation, a load leaves what snapshot, queue and buffer hold and what was missed before |
| `SystemTheorems.StepGrowsIff` | src/rga.cpp:26-60 | a step loses nothing at a site exactly when it is no load there, or one that brings everything back |
| `SystemTheorems.RunGrows` | src/rga.cpp:26-60 | over any run whose loads bring back what the site had, old characters keep their order, values and left neighbours, and no tombstone is undone |
| `SystemTheorems.SitesConverge` | src/pipeline.cpp:169-193 | in every run two sites that processed the same operations hold the same characters in the same order, and the same sequence exactly when the same deletes met their target at both; so when no delete overtook its target on the way to these two |
| `SystemTheorems.TypingNeverInterleaves` | src/rga.cpp:123-138 | runs typed by two sites at one anchor stay apart at every site of every reachable state, the one with the newer first clock, or on equal clocks the larger site, in front |
| `SystemTheorems.EditsShow` | src/rga.cpp:31-45 | in every reachable state a local edit broadcasts an operation that names the character seen at its position (left of it for an insert), and changes exactly that place of the text |
| `SystemTheorems.ServedStateArrives` | src/pipeline.cpp:221-243 | what a site serializes can be loaded by any site at any later time, which then holds all of it, and shows the same text when nothing waited |
| `SystemTheorems.LoadReusesIff` | src/rga.cpp:3-9 | after a load some continuation of local edits hands out a used identity exactly when, as can be told before it, snapshot, queue and buffer do not take the clock to the newest insert of the site |
| `SystemTheorems.FreshSnapshotIsSafe` | src/p2p-editor.cpp:337-340 | a snapshot whose clock is not behind the joiner's newest insert or its clock is safe, and so is any snapshot at a site that has typed nothing |
| `SystemTheorems.StaleSnapshotReusesIds` | src/rga.cpp:3-9 | a run from the start in which a site types, loads the state of a server that has not heard of it, and types again: two characters get one identity |
| `Simulation.Start` | src/pipeline.cpp:74-86 | a new pipeline is a new site of the system |
| `Simulation.OthersDoNotDisturb` | src/pipeline.cpp:74-287 | a step of another site leaves the pipeline the site it was |
| `Simulation.Type` | src/pipeline.cpp:74-79 | a local insert of the pipeline is the insert step of its site, and queues the operation the step sends |
| `Simulation.Erase` | src/pipeline.cpp:81-86 | a local delete is the delete step, and a failing one the step that only ticks the clock |
| `Simulation.Turn` | src/pipeline.cpp:169-193 | a turn of the consumer loop is the delivery step, buffered or not |
| `Simulation.Serve` | src/pipeline.cpp:221-224 | serializing is the serialize step, and the frame is that of the snapshot it adds |
| `Simulation.Begin` | src/pipeline.cpp:229-233 | starting a transfer is the step that clears the buffer and buffers from then on |
| `Simulation.Abandon` | src/pipeline.cpp:279-284 | a failed transfer is the step that drops the buffer |
| `Simulation.Join` | src/pipeline.cpp:238-274 | consuming a frame some site has served is the load step with its snapshot |

## Left out

- ApplyRemote: requires a clock below 2^31-1, because `+ 1` on the largest `int` is undefined in the source; `ClocksDoNotOverflow` shows that runs of fewer than 2^30 edits never get there. The same bound stands on LocalInsert, LocalDelete, Deliver and the drains.
- ApplyRemote: requires the left neighbour of a new insert to be indexed, as the header demands; the exception raised otherwise is not modelled.
- ConsumeState: requires the rows of a decodable frame to be those of an engine that has run, as every frame of `SerializeState` is. The source does not check this; a frame with a cycle of left neighbours would make `rootAncestor` loop during the replay. `DecodeState` and `LoadFrame` are proved for every byte string.
- LoadState: the moved-from engine is not modelled further; nothing uses it.
- OnRemoteOp: the failed exchanges and foreign writes during one callback are a finite list; a callback that is disturbed forever is not modelled.
- Systems.Do: delivery to the incoming queue and its consumption are one step, since the network may reorder anyway; operations reach only the sites of the system.
- Threads, mutexes and condition variables: each guarded region is one atomic step.
- Sockets, timeouts and retries of the snapshot transfer: a transfer delivers a frame or fails.
- `getNodeIDs` and all logging: they only feed log lines.
- Detection of unknown peers, peer membership, cursor broadcast and the cursor message codec: small bookkeeping beside the document.
- Hashing of identities: the index is a mathematical map.
- Random choice of site identifiers: sites are distinct by assumption.
- Eventual delivery: lost operations are never resent, so only agreement of peers that processed the same operations is stated.
- The terminal user interface and the headless script runner.
