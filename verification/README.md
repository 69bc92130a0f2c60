# tailsync in Dafny

A model of tailsync, a peer-to-peer file synchroniser, and proofs about it. `dafny verify dfyconfig.toml` covers every file.

The model follows five parts of the program.

- **Applying remote entries and scanning** (`Lww`, `FileIndex`, `Replica`, `ReplicaSteps`, `Nodes`, `Daemons`, `Mesh`, `Convergence`, `Subsecond`). One path of one node is a slot: its index entry and its file. Every critical section of the daemon is a function on slots. A node is a state machine over these functions, with user edits between them. A transfer may complete at any later time with any bytes of the wanted hash, which includes every interleaving of pending transfers. A mesh is any number of nodes that announce entries over a network that loses, repeats, reorders and relays. The class `Daemon` performs the same steps in place and is proved equal to them.
- **The delta codec** (`Bytes`, `Checksum`, `Records`, `DeltaCodec`, `DeltaMeaning`, `DeltaWire`, `DeltaFormat`, `DeltaTransfer`). The loops of the source, a simple encoder that they refine, both wire formats, and a whole transfer.
- **Peer sessions** (`Rosters`, `RosterRuns`, `SimultaneousDial`, `Sessions`, `RosterTable`, `Managers`). Each lock-protected action of an install, activation, discard, close or callback is one step, and the steps of different goroutines interleave freely. The class `Manager` takes the session and roster objects through the same steps.
- **The notify tracker** (`Notify`) and **the single-flight pull** (`PullFlights`), each as a class and as a state machine over all runs.

Conventions: MD5 (RFC 1321) and SHA-256 (FIPS 180-4) are function parameters, so nothing is assumed about them. Results that need the absence of a collision take it as a hypothesis about the byte strings in play. Times are integers with 0 as the zero time, clocks and peers' replies are parameters, and a file mode is its permission bits. `Key` is (UpdatedAt, Deleted, Hash, Mode, ModTime); the coarse key has the ModTime of a live entry cut to whole seconds.

Some properties that one might expect hold only under a condition. Each has an input or a run at which it fails, and the condition:

- Nodes that the same entries have reached agree on the coarse key, and on the full key exactly where those entries have one latest full key (`SameKnowledgeSameFiles`, `FullKeysAgreeExactly`). The only thing against it is live entries that differ in nothing but a time within one second (`AmbiguityIsSubsecond`), because such winners are ignored (`IgnoredWinners`); every two such times have a run after which the nodes differ (`FullKeysMayDiffer`).
- A stored key never decreases, unless a peer sends a mode that has both permission bits and other bits (`ReceiveGrowsExactly`, `CommitGrowsExactly`), or a reconcile collected an expired tombstone (`KeysNeverDecrease`, and the run in `CollectedTombstonesForget`).
- A scan after a commit finds nothing, unless the remote mode has only bits besides the permissions (`ScanAfterCommit`, `ScanAfterMetaOnly`).
- A local file is safe from peers exactly when its size or time is not the indexed one, so a change of mode alone is not protected (`OnlyUnsyncedIsSafe`).
- A live entry stays in the index, unless the reconcile that buries it outlasts the time tombstones are kept (`LiveEntriesStay`).

## Model

| member | source | states |
|---|---|---|
| `Checksum.WeakChecksum` | internal/delta/delta.go:71-78 | the two wrapping accumulators, packed, are the exact sums modulo 2^16 |
| `Checksum.WeakMeans` | internal/delta/delta.go:71-78 | the low half adds up the bytes and the high half the bytes times their distance from the end, both modulo 2^16 |
| `Checksum.RollSlides` | internal/delta/delta.go:82-88 | rolling a window's checksum gives the checksum of the window moved by one byte, for every window length, under 32-bit wrap-around |
| `DeltaCodec.Sign` | internal/delta/delta.go:91-121 | record k has index k and both checksums of exactly the bytes from k times the block size on, a whole block or what is left, and the records cover the data |
| `DeltaCodec.LowestFromIsLowest` | internal/delta/delta.go:196-214 | the specified match is the one block that matches with no matching block before it, and none only if none matches |
| `DeltaCodec.Candidates` | internal/delta/delta.go:143-147 | a candidate list is strictly increasing and holds only blocks with the given weak sum |
| `DeltaCodec.CandidatesComplete` | internal/delta/delta.go:143-147 | every block with the weak sum is in its candidate list |
| `DeltaCodec.IndexBlocks` | internal/delta/delta.go:143-147 | the map holds the candidate list of every weak sum |
| `DeltaCodec.FindBlock` | internal/delta/delta.go:196-214 | trying the candidates in turn finds the lowest block with both checksums of the window, or correctly none |
| `DeltaCodec.RollingSearch` | internal/delta/delta.go:220-250 | the rolling loop stops at the first position that has a match and finds its lowest block, having kept exactly the bytes it passed as literal |
| `DeltaCodec.LiteralRun` | internal/delta/delta.go:216-251 | after an unmatched byte the literal grows by exactly the unmatched stretch |
| `DeltaCodec.SkipUnmatched` | internal/delta/delta.go:216-251 | a stretch without matches adds its bytes to one literal of the simple encoder's output |
| `DeltaCodec.CopyStep` | internal/delta/delta.go:204-209 | flushing the literal and emitting the copy leaves unchanged what the encoder will have emitted in the end |
| `DeltaCodec.EncodeStep` | internal/delta/delta.go:170-252 | one round of the outer loop leaves unchanged what the encoder will have emitted in the end |
| `DeltaCodec.Encode` | internal/delta/delta.go:129-255 | for every target and every signature the ops are those of the simple encoder that recomputes every checksum; without a usable signature, one literal |
| `DeltaCodec.GreedyIsNaive` | internal/delta/delta.go:143-255 | for the signature of a basis the ops are those of an encoder without checksums, which picks the lowest-numbered block of equal content at each position, absent MD5 collisions |
| `DeltaCodec.NaiveDecodes` | internal/delta/delta.go:129-299 | expanding the ops of that encoder gives back the target, for every basis, target and block size |
| `DeltaMeaning.NaivePickMeans` | internal/delta/delta.go:170-252 | at each position the naive encoder picks a lowest block whose bytes are exactly those ahead, and none only if there is none |
| `DeltaMeaning.OwnSignatureNeedsNoLiteral` | internal/delta/delta.go:129-255 | a file encoded against its own signature is one copy for each block and no literal |
| `DeltaMeaning.CopyMeans` | internal/delta/delta.go:279-287 | a copy yields the bytes of the basis from k times the block size on, a whole block or what is left |
| `DeltaMeaning.AllCopiesAreTheBasis` | internal/delta/delta.go:264-299 | copying all blocks in order gives back the basis |
| `DeltaCodec.GreedyIsBounded` | internal/delta/delta.go:160-253 | no adjacent literals, no empty or unknown op, only existing blocks, and at most 2 * ceil(n / blockSize) + 1 ops, whatever the signature says |
| `DeltaCodec.ApplyOp` | internal/delta/delta.go:276-290 | one op yields its bytes exactly when it is in range |
| `DeltaCodec.ApplyOps` | internal/delta/delta.go:275-295 | the op loop succeeds exactly when every op is in range and the expansion is within the limit |
| `DeltaCodec.Apply` | internal/delta/delta.go:264-299 | decoding succeeds exactly when the declared size is allowed, every op is in range and the expansion has the declared size, and returns the expansion |
| `Records.ReadMany` | internal/delta/delta.go:363-391 | reading a counted list of records accepts exactly the inputs that start with the encoding of such a list, and returns it |
| `DeltaWire.ReadOpIsExact` | internal/delta/delta.go:363-391 | an op that was read is in range and its encoding is what was consumed |
| `DeltaWire.ReadOpInverts` | internal/delta/delta.go:316-325 | reading an encoded op gives back the op and leaves what follows |
| `DeltaWire.MarshalDelta` | internal/delta/delta.go:305-327 | fails exactly on unknown ops, otherwise writes the encoding |
| `DeltaWire.UnmarshalDelta` | internal/delta/delta.go:330-393 | returns d exactly when the input starts with the encoding of a d within the limits: a round trip, and no other input is accepted |
| `DeltaWire.ReadBlockIsExact` | internal/delta/delta.go:436-455 | a block record that was read is in range and its encoding is what was consumed |
| `DeltaWire.MarshalSignature` | internal/delta/delta.go:396-410 | writes the encoding |
| `DeltaWire.UnmarshalSignature` | internal/delta/delta.go:413-457 | returns s exactly when the input starts with the encoding of an s within the limits |
| `DeltaFormat.DeltaLayout` | internal/delta/delta.go:301-313 | the header of a delta byte by byte |
| `DeltaFormat.OpLayout` | internal/delta/delta.go:314-325 | each op of a delta byte by byte |
| `DeltaFormat.SignatureLayout` | internal/delta/delta.go:396-403 | the header of a signature byte by byte |
| `DeltaFormat.BlockLayout` | internal/delta/delta.go:404-408 | each record of a signature byte by byte |
| `DeltaFormat.LimitsMean` | internal/delta/delta.go:34-40 | the limits in numbers |
| `DeltaTransfer.EncodedDeltaFits` | daemon/serve.go:197-248 | for every accepted block size and target up to 64 MiB the encoder's output is within the reader's limits |
| `DeltaTransfer.SignatureFitsWire` | daemon/apply.go:685-733 | the signature of a basis up to 64 MiB is within the reader's limits |
| `DeltaTransfer.ServeDelta` | daemon/serve.go:202-248 | the sender answers exactly the requests with an acceptable block size, with the greedy delta of the signature in the request or the whole file as one literal |
| `DeltaTransfer.PullDelta` | daemon/apply.go:681-734 | sign, send, serve, decode and apply return exactly the sender's file, for all files up to 64 MiB and all accepted block sizes, absent MD5 collisions |
| `DeltaTransfer.PullAndVerifyDelta` | daemon/apply.go:320-356 | so with a sender whose file has the wanted hash the verified pull returns that file, whatever full pulls would answer |
| `Lww.WinsIsBelow` | internal/index/index.go:310-350 | Wins is the lexicographic order on the full key |
| `Lww.WinsMeans` | internal/index/index.go:310-350 | that order spelled out: update time, tombstone over live, hash, mode, modification time |
| `Lww.StringOrder` | internal/index/index.go:329-350 | strings are compared by their first difference, and a prefix is smaller |
| `Lww.BelowIsStrictTotal` | internal/index/index.go:310-350 | that order is irreflexive, transitive and total up to equal keys |
| `Lww.CompareStringsMeans` | internal/index/index.go:329-350 | the string comparison is negative, zero or positive just as the strings are ordered |
| `Lww.CoarseIsMonotone` | daemon/apply.go:626-634 | cutting times to seconds keeps the order |
| `FileIndex.PutAllKeepsLatest` | internal/index/index.go:176-185 | offering entries one after another keeps, for each path, one with the greatest key of all that were offered |
| `FileIndex.ArrivalOrderIsIrrelevant` | internal/index/index.go:176-185 | any order and any repetition of the same entries leave the same paths with the same keys |
| `FileIndex.Index.constructor` | internal/index/index.go:67-72 | a new index is empty |
| `FileIndex.Index.Get` | internal/index/index.go:158-163 | the stored entry, if any |
| `FileIndex.Index.Set` | internal/index/index.go:166-172 | stores the entry and returns the one it replaced |
| `FileIndex.Index.SetIfWins` | internal/index/index.go:176-185 | stores exactly winning or first entries, and reports which |
| `FileIndex.Index.GCTombstones` | internal/index/index.go:258-280 | removes exactly the expired tombstones, in any visiting order, and counts them |
| `FileIndex.Index.Manifest` | internal/index/index.go:287-295 | lists every entry once |
| `Replica.PullAndVerify` | daemon/apply.go:320-356 | the exact outcome by cases: without a delta the full pull alone decides; with one a failed connection is final, right bytes are returned, a refusal leaves it to the full pull, and wrong bytes from either to one more full pull |
| `Replica.Stamp` | internal/scan/scan.go:123-135 | the stamp is at or after both clock and file time, after the previous stamp, and no later than it takes: it is one of the two times or just after the previous stamp |
| `ReplicaSteps.IgnoredWinners` | daemon/apply.go:65-97 | a winning entry is ignored just when live entries differ only in a time that is unset or within the same second |
| `ReplicaSteps.SubsecondTimesStay` | daemon/apply.go:65-97 | entries that differ only below the second are decided to be ignored, in either direction |
| `ReplicaSteps.ReceiveGrows` | daemon/apply.go:239-315 | no outcome of a received entry without a transfer lowers the stored key |
| `ReplicaSteps.ReceiveGrowsExactly` | daemon/apply.go:388-433 | for an entry whose hash some bytes have: no slot with a true hash and a mode read back from a file loses key order by receiving it, exactly when it is refused, a tombstone, or its mode survives being written |
| `ReplicaSteps.CommitGrows` | daemon/apply.go:437-492 | a content commit does not lower the stored key |
| `ReplicaSteps.CommitGrowsExactly` | daemon/apply.go:437-492 | it does so for every slot whose mode was read back from a file, exactly when the mode survives being written or the entry had no update time |
| `ReplicaSteps.ScanGrows` | internal/scan/scan.go:276-287 | applying a scan does not lower the stored key |
| `ReplicaSteps.ScanChangeWins` | internal/scan/scan.go:228-287 | every change a scan reports has a later update time than the entry it replaces and is stored |
| `ReplicaSteps.ScanReports` | internal/scan/scan.go:149-270 | a scan is silent exactly when the index is exact for the path; otherwise it reports the file as it is, or a tombstone of this moment, under the least stamp that is not before the clock or the file's time and is after the last one |
| `ReplicaSteps.ReconcileIsExact` | daemon/reconcile.go:18-46 | afterwards the entry describes the file in size, mode, time and hash, or neither is there, and a further scan reports nothing |
| `ReplicaSteps.ScanAfterCommit` | daemon/apply.go:478-487 | a scan after a commit that wrote reports nothing, exactly when the remote mode is not of non-permission bits only |
| `ReplicaSteps.ScanAfterMetaOnly` | daemon/apply.go:419-432 | the same after a metadata adopt |
| `ReplicaSteps.UnsyncedHoldsBack` | daemon/apply.go:578-593 | with an unscanned file in the way no outcome touches the file, and at most a winning tombstone is recorded |
| `ReplicaSteps.OnlyUnsyncedIsSafe` | daemon/apply.go:578-593 | nothing peers may send touches a file exactly when it is unsynced |
| `ReplicaSteps.DeltaHasBasis` | daemon/apply.go:65-97 | on a settled path a delta is asked for exactly when a winning live entry has other content than the file on disk, its basis |
| `Nodes.CachesAgreeAlways` | internal/scan/scan.go:190-221 | in every reachable state a live entry that matches the file in size and time has the hash of the bytes, whatever peers send |
| `Nodes.StepGrows` | daemon/apply.go:239-315 | a step keeps or raises a path's key exactly unless it collects the path's expired tombstone |
| `Nodes.ModesStayPlain` | daemon/apply.go:599-621 | over every run the modes of live entries are such as are read back from files |
| `Nodes.KeysNeverDecrease` | internal/index/index.go:176-185 | over every run a path's key neither decreases nor vanishes, unless a reconcile in between collected an expired tombstone of the path |
| `Nodes.CollectedTombstonesForget` | internal/index/index.go:258-280 | a run of two steps in which a tombstone is collected and an entry it had beaten brings the file back under a lower key, for every such tombstone and entry |
| `Nodes.LiveEntriesStay` | internal/index/index.go:258-280 | a live entry leaves the index exactly when its file is gone and the reconcile outlasts the time tombstones are kept |
| `Nodes.TombstonesAge` | internal/index/index.go:258-280 | a tombstone is dropped exactly when its deletion, or its last update if no deletion time is known, is longer ago than tombstones are kept |
| `Nodes.UnscannedEditsSurvive` | daemon/apply.go:578-593 | over every interleaving of peers' steps an unscanned file keeps its bytes, and the next reconcile records its hash, later than every entry peers installed meanwhile |
| `Nodes.AnyEditSurvives` | daemon/apply.go:578-593 | the same from the edit on, for every write that leaves another size or time than the index has or a file where it has none |
| `Nodes.RescanIsExact` | daemon/reconcile.go:18-46 | the live index lists exactly the files on disk, the disk is untouched, and a further scan finds nothing on any path |
| `Nodes.StepKeepsSettled` | daemon/apply.go:360-492 | a path whose file is the indexed one stays so through every step but an edit of it |
| `Nodes.IgnoringIsSafe` | daemon/notify.go:271-298 | if a node covers all hints, none of them asks for a transfer, and hearing and fetching them in any order, mix and number changes neither index nor disk |
| `Nodes.AlreadyHaveAllIsExact` | daemon/notify.go:286-298 | the test holds exactly when offering the hints leaves the index unchanged |
| `Mesh.ReceiveMerges` | daemon/apply.go:65-97 | a handled entry leaves the stored entry or one with its own full key, whichever is later to the second |
| `Mesh.CommitMerges` | daemon/apply.go:437-492 | so does a content commit |
| `Mesh.MeshStepKeepsGood` | daemon/apply.go:239-315 | every step of every node, announcement and delivery keeps each entry the maximum of what reached the node |
| `Mesh.EntriesReflectKnowledge` | daemon/apply.go:239-492 | over every run of any number of nodes, with edits, scans and lost, repeated, reordered and relayed announcements, each entry has the full key of one that has reached the node, and its coarse key is the maximum over all that have |
| `Convergence.PullInstalls` | daemon/apply.go:239-492 | unless an unscanned file is in the way a successful pull leaves the later entry and a settled path settled; a winner that is not exempt is adopted in full, a tombstone with the file gone, a live entry with its whole key and a file it describes exactly |
| `Convergence.PullFillsIn` | daemon/apply.go:388-492 | the same for entries that leave fields open: permissions 0644, the time of the write or of the kept file, and the clock |
| `Convergence.StaysSettled` | daemon/apply.go:239-492 | over every run a settled path stays settled until its node's user edits it |
| `Convergence.RescanSettles` | daemon/reconcile.go:18-46 | a scan settles every path |
| `Convergence.SameKnowledgeSameFiles` | daemon/apply.go:239-492 | over every run, nodes that the same entries have reached have equal coarse keys, equal full keys where those entries have one latest key, and both no file or the same bytes, absent a SHA-256 collision, if the path was settled at the start or a scan and not edited since |
| `Convergence.AmbiguityIsSubsecond` | daemon/apply.go:626-634 | two latest entries with different full keys are live and differ only in a time within one second |
| `Convergence.KnowledgeGrows` | internal/index/index.go:176-185 | over every run what has reached a node stays with it |
| `Convergence.ExchangeIsPossible` | daemon/apply.go:137-192 | from any reachable state with settled disks, announcing, hearing and if need be fetching is possible and leaves the receiver settled, knowing exactly what it and the sender knew |
| `Convergence.ExchangeTeaches` | daemon/apply.go:137-192 | the same with any other steps in between: afterwards the receiver knows all the sender knew |
| `Convergence.NothingNew` | internal/scan/scan.go:228-270 | while nobody edits a path, every index stays exact for it and no entry appears that no node knew |
| `Convergence.RelayTeaches` | daemon/apply.go:103-192 | what the first node of any relay of exchanges knew, its last one knows in the end, with any steps in between but edits of the path |
| `Convergence.RelaysConverge` | daemon/apply.go:103-192 | if each node's knowledge reaches each other along some relay, with any steps but edits of the path in between, every node holds the greatest coarse key of all that any node knew, all full keys are equal where that has one latest key, and all have the same bytes or no file |
| `Convergence.RoundConverges` | daemon/apply.go:103-192 | one round over a hub is enough for that |
| `Convergence.QuietMeansAgreed` | daemon/apply.go:239-315 | when no node would change anything on hearing any other's entry, all agree on the entry to the second and, where settled, on the file |
| `Subsecond.FullKeysAgreeExactly` | daemon/apply.go:65-97 | two nodes that the same entries have reached have the same full key in every good mesh if and only if those entries have one latest full key |
| `Subsecond.FullKeysMayDiffer` | daemon/apply.go:626-634 | for every two distinct non-zero times of one second, all bytes and permissions and every clock not before them: a run of two writes, two scans and two deliveries that ends with equal knowledge, equal bytes and different full keys |
| `Daemons.Daemon.DiskUnsynced` | daemon/apply.go:578-593 | tells exactly whether there is a file that the live entry does not describe |
| `Daemons.Daemon.ExecDeleteLive` | daemon/apply.go:360-384 | in place, exactly the slot step, and nothing else changes |
| `Daemons.Daemon.ExecMetaOnly` | daemon/apply.go:388-433 | in place, exactly the slot step, and nothing else changes |
| `Daemons.Daemon.CommitContent` | daemon/apply.go:437-492 | in place, exactly the slot step, and nothing else changes |
| `Daemons.Daemon.ApplyRemote` | daemon/apply.go:239-315 | up to the unlock, exactly the node's Hear step; asks for bytes exactly on a content decision |
| `Daemons.Daemon.FinishRemote` | daemon/apply.go:293-310 | from the transfer on, exactly the node's Fetch step |
| `Daemons.Daemon.Walk` | internal/scan/scan.go:160-226 | one entry for each file, its hash reused or computed |
| `Daemons.Daemon.Scan` | internal/scan/scan.go:149-270 | the change list has one entry for each path whose file and index differ, and no other |
| `Daemons.Daemon.ScanDeletions` | internal/scan/scan.go:253-267 | live entries without a file become tombstones, completing the list |
| `Daemons.Daemon.Apply` | internal/scan/scan.go:276-287 | the index after offering the changes, and exactly those that won when their turn came, in order |
| `Daemons.Daemon.Reconcile` | daemon/reconcile.go:18-46 | scan, apply and collection together are exactly the node's atomic Rescan step, and the hints are the whole scan |
| `Daemons.ScanApplyCollect` | daemon/reconcile.go:18-46 | the three passes over the index amount to deciding each path on its own |
| `Rosters.PreferredIsSmaller` | internal/peer/roster.go:143-145 | both ends name the same dialer, the smaller ID |
| `Rosters.InstallVerdictMeans` | internal/peer/roster.go:111-161 | a first session is accepted whoever dialed it; a session is refused exactly when the entry is open and healthy, unless the smaller ID dialed the new session and the larger the present one |
| `Rosters.DialedMeans` | internal/peer/roster.go:163-168 | whose dial it was, in terms of the string order |
| `Rosters.DecideInboundMeans` | internal/peer/manager.go:204-215 | an inbound handshake goes on exactly if there is no open and healthy session or the remote ID is not the larger |
| `RosterRuns.StepKeepsSound` | internal/peer/manager.go:337-438 | every single action of every goroutine keeps each installed session in the map, closed, or on a list to be closed |
| `RosterRuns.RosterIsSound` | internal/peer/manager.go:337-438 | this holds in every state of every run, and every session is one of this node |
| `RosterRuns.QuietRosterIsExact` | internal/peer/manager.go:337-438 | whenever no install or callback is under way the open sessions are exactly the map entries, one for each peer at most |
| `RosterRuns.PreferredStays` | internal/peer/roster.go:111-161 | over every run a healthy session dialed by the preferred side stays in the map until it fails itself |
| `RosterRuns.LoneConnectionIsKept` | internal/peer/manager.go:337-407 | over every run a connection that is the only one with its peer and does not fail is in the map from its install on, whichever side dialed |
| `RosterRuns.FailedIsReplaced` | internal/peer/roster.go:119-130 | once a session has failed its peer's entry goes to the next session installed |
| `RosterRuns.OnlyOwnEntryIsRemoved` | internal/peer/roster.go:171-183 | an event takes a session out of the map exactly when it is its own callback or discard, or an install for the same peer that replaces it |
| `SimultaneousDial.EndKeepsX` | internal/peer/roster.go:111-168 | at either end every event keeps the connection dialed by the smaller ID in the map from its install on |
| `SimultaneousDial.SmallerIdWins` | internal/peer/manager.go:204-215 | over every interleaving of both ends the smaller ID's connection is never refused and is kept at both, and the other one is closed at both once all is quiet |
| `Sessions.CloseDrains` | internal/peer/session.go:183-224 | over every interleaving the counter is the handlers started and not ended, counted from the events; streams start one exactly before Close begins; all have ended when it has returned; the callback has run exactly if it returned and one was set when it began, and then once |
| `Sessions.EventsTell` | internal/peer/session.go:183-224 | every part of the state is what the events so far say |
| `Sessions.Session.constructor` | internal/peer/session.go:80-100 | a new session is healthy and open |
| `Sessions.Session.MarkUnhealthy` | internal/peer/session.go:165-167 | the session is unhealthy and otherwise unchanged |
| `Sessions.Session.HandlerDone` | internal/peer/session.go:220-223 | in place, exactly the step of the state machine |
| `Sessions.Session.SetOnClose` | internal/peer/session.go:112-116 | in place, exactly the step of the state machine |
| `Sessions.Session.SpawnStreamHandler` | internal/peer/session.go:211-224 | registers a handler exactly if Close has not begun |
| `Sessions.Session.BeginClose` | internal/peer/session.go:183-191 | only the first Close has an effect, and it takes the callback |
| `Sessions.Session.EndClose` | internal/peer/session.go:199-205 | after the wait the callback fires exactly if it was taken |
| `RosterTable.Roster.constructor` | internal/peer/roster.go:36-38 | a new roster is empty |
| `RosterTable.Roster.Get` | internal/peer/roster.go:55-63 | the peer's session unless closed |
| `RosterTable.Roster.Install` | internal/peer/roster.go:111-138 | the verdict on the old entry, the new map, and the session that was displaced |
| `RosterTable.Roster.RemoveIfCurrent` | internal/peer/roster.go:171-183 | removes exactly the session's own entry |
| `RosterTable.Roster.ActivateIfCurrent` | internal/peer/manager.go:383-407 | both checks: success exactly if the session is the open entry, there is no shutdown and it does not die at once; otherwise it is closed and out of the map |
| `RosterTable.Roster.InstallAndActivate` | internal/peer/manager.go:337-357 | success exactly if Install takes an open session and neither shutdown nor death comes; then it is the open entry, else closed and not in the map, and nothing else but a displaced session changes |
| `RosterTable.Roster.Discard` | internal/peer/manager.go:417-421 | the session is closed and not in the map, other entries stay |
| `Managers.Manager.Create` | internal/peer/session.go:80-100 | the objects follow the step of the state machine |
| `Managers.Manager.Install` | internal/peer/manager.go:337-344 | the objects follow the Install step: verdict, map, and what the goroutine has to do next |
| `Managers.Manager.Proceed` | internal/peer/manager.go:337-421 | the next action of an installing goroutine on the objects is the Proceed step |
| `Managers.Manager.Close` | internal/peer/session.go:183-191 | the objects follow the Close step |
| `Managers.Manager.Callback` | internal/peer/manager.go:423-438 | the end of Close and the callback on the objects are the Callback step |
| `Managers.Manager.Sicken` | internal/peer/session.go:165-167 | the objects follow the step |
| `RosterRuns.ProceedIsAction` | internal/peer/manager.go:337-421 | every goroutine step is one locked action and a move to the next phase |
| `Notify.NotifyTracker.constructor` | daemon/notify.go:53-58 | nothing is seen or in flight |
| `Notify.NotifyTracker.Gc` | daemon/notify.go:63-69 | removes exactly the keys seen longer ago than the limit |
| `Notify.NotifyTracker.Claim` | daemon/notify.go:105-123 | one hint for each free key, all of them in flight afterwards |
| `Notify.NotifyTracker.Mark` | daemon/notify.go:130-143 | the keys are seen now and not in flight |
| `Notify.NotifyTracker.Release` | daemon/notify.go:146-155 | the keys are not in flight |
| `Notify.StepKeepsOrder` | daemon/notify.go:165-234 | every claim, mark, release and inbound mark keeps batches disjoint and their keys blocked |
| `Notify.NoDoubleFanOut` | daemon/notify.go:165-234 | over every run no key is in two overlapping batches, and a finished batch leaves none of its keys in flight |
| `Notify.StartTakesTheFree` | daemon/notify.go:105-123 | over every run a batch takes exactly those of its keys that no batch under way has and that were not marked within ten minutes |
| `Notify.StaleMarksAreForgotten` | daemon/notify.go:63-69 | marks older than ten minutes are gone after every claim or mark |
| `Notify.ContentKeyMeans` | daemon/notify.go:29-36 | entries share a content key exactly if path, hash, deletion and update time agree |
| `PullFlights.AtMostOneWorker` | daemon/daemon.go:376-407 | over every run at most one worker is active, and the pending mark is only set while one is |
| `PullFlights.RequestIsRemembered` | daemon/run.go:125-141 | until a batch starts after a request, a worker is about to start one or bound to |
| `PullFlights.EveryRequestIsServed` | daemon/run.go:125-141 | when no worker is left, every request was followed by a batch that started after it |
| `PullFlights.NoIdleBatch` | daemon/run.go:125-141 | over every run each batch that ran, is about to or is bound to has a request of its own |
| `PullFlights.PullFlight.constructor` | daemon/daemon.go:376-380 | neither running nor pending |
| `PullFlights.PullFlight.TryStart` | daemon/daemon.go:384-393 | in place, exactly the request step |
| `PullFlights.PullFlight.Finish` | daemon/daemon.go:397-407 | in place, exactly the end-of-batch step |

## Left out

- QUIC, TLS, tsnet, the Hello exchange, heartbeats as traffic: a connection is its dialer, its health and its closed flag.
- Message framing and the JSON codec of internal/proto; MaxFileBytes checks and the transfer semaphores.
- Path cleaning, reserved directories and irregular files: paths are opaque keys of regular files.
- Atomic file writes, crash windows, loading and saving the index, the periodic save counter.
- Watching, timers, debounce, command line, logging, configuration.
- The mesh trust gate, discovery and backoff: short case analyses.
- Failures of chmod, chtimes, stat, read, write and remove, and the restore attempts that follow them.
- Filesystems that do not keep modes or times exactly.
- User edits inside a critical section of the daemon, and edits that change bytes but leave both size and time as indexed.
- Scan's forced rehash, its hash of a file that changes while it is read, and the labels of its changes.
- Collection of tombstones in the mesh results: `Nodes.CollectedTombstonesForget` shows that they do not hold with it.
- Manager shutdown and Roster.CloseAll: shutting down appears only as a failing check during activation.
- DeltaCodec.Apply: requires blockIndex * blockSize of every copy to fit a signed 64-bit integer; other hand-made deltas are not modelled.
- DeltaCodec.ApplyOps: the same requirement.
- DeltaCodec.ApplyOp: the same requirement.
- Nodes.KeysNeverDecrease: for peers whose modes survive being written where they are written; ReplicaSteps.ReceiveGrowsExactly and ReplicaSteps.CommitGrowsExactly give the exact condition for one step.
- Mesh.EntriesReflectKnowledge: for files with a non-zero time and some permission bit.
- Notify.NoDoubleFanOut: for clocks that do not go back and batches no longer than the ten minutes a key stays seen.
- SimultaneousDial.SmallerIdWins: one connection dialed by each side, of which the smaller ID's does not fail; two connections dialed by the same side are not modelled.
- RosterTable.Roster.InstallAndActivate: no other goroutine but a shutdown and the session's own death interferes; all interleavings are in RosterRuns and Managers.
- RosterTable.Roster.ActivateIfCurrent: the same.
- Convergence.RelaysConverge: takes it that SHA-256 in hexadecimal is never the empty string, and that the exchanged transfers succeed.
