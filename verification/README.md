# A verified model of qcontroller

qcontroller runs QEMU virtual machines on one or more nodes. This project models the parts of it whose correctness
depends on state kept over time, on interleavings, or on byte-level detail, and proves what they promise. It is checked
with

    dafny verify dfyconfig.toml

The model follows the program component by component. Code that changes fields is a class whose methods are proved
against functions of the old state; the laws of those functions are lemmas. Concurrent code is, besides, a step system:
a run is a list of moves (`Runs`), the environment chooses the moves and the answers, and the lemmas hold for every list.

* **Instance store** (`InstanceStore`, `KeyOrder`). One flat key-value store holds records under one prefix and a
  hardware-address index under another. The store is shown to stand for exactly one table of records, and the index to
  be exactly the inverse of the stored addresses, after any operations.
* **Node manager** (`NodeManager`, `VmInfo`, `NodeRuns`, `NodeCalls`, `NodeRemovals`, `NodeReplacements`). State changes
  are a read and a later write. Alone, reconciling brings every record into agreement with the set that QEMU runs, in
  the database and in memory, and no write can be refused. In every interleaving of transactions, each of which may
  fail, stored records keep the fields of some creation. A removal that falls between the read and the write of a state
  change need not last: after any run an instance that is gone stays away from every continuation without a new creation
  if and only if no call is about to write its record back. In the same way a stored record keeps its fields if and only
  if no call is about to write back a record with others; a creation replaces a record that it did not see, or could not
  look up. A call of the run model that nothing interferes with ends as the method does.
* **Event publisher and poll** (`EventPublisher`, `VmManager`). A cache and a bounded queue that drops. Replaying the
  accepted events gives the cached entry of every name whose latest event was not dropped; a poll emits exactly the
  difference between the old view and the new one. When a report repairs a stale view is proved exactly: not when the
  info is cached already, so a dropped update is never resent; and a dropped removal is never repaired by polling,
  because the cache no longer has the name.
* **QEMU service** (`Lifecycle`, `StartGuard`). The lifecycle loop with one watcher per instance, and the single-flight
  guard around the shared temporary download path, with crashes and failures at any step. On which instance a command is
  executed, and which one a force stop kills, is read off the messages alone. Removal messages carry the id only, so the
  table is exact under a discipline on re-registration; a run without it that loses a live instance is given, and the
  table is exact throughout a run if and only if the run has none of two kinds of moves.
* **Subnets** (`Bytes`, `Bits`, `Subnet`). The byte-wise successor and the byte-wise broadcast test are related to
  numbers, and the enumeration yields exactly the usable hosts of an IPv4 subnet (4-byte addresses) for every prefix of
  at least one bit, also at the end of the address space. Without a prefix the loop would not end, which is proved too.
* **Address scan** (`BpfPackets`, `ArpFrames`, `Scanner`). The record walker is the inverse of what a capture device
  writes, on every buffer cut anywhere; the filter program and the frame parser accept the same replies; the scan sends
  one request per host, and its result is what the last reply of each hardware address says. Frames follow RFC 826.
* **Images** (`ImageStore`, `ImageTransfer`, `FileRegistry`, `RemoteManager`, `SharedFile`). Chunking and reassembly in
  both directions, the file-plus-metadata store, the upload that is skipped when the recorded hash is the same, and the
  progress events of a push, with a failure possible at every step. An overwrite that fails in its copy leaves a damaged
  image under the old record, which uploading the old bytes again does not repair; when records stay true and when an
  upload repairs is proved exactly. A download that has the file open while a store overwrites it can succeed with a
  mixture of the two contents: which byte strings it can send, and when they are one of the contents, is proved exactly.
* **Fan-out and merge** (`Broadcast`, `MergeYaml`). If every removal is taken while its subscription is registered, the
  broadcaster never sends on or closes a closed channel; otherwise, and only then, taking the waiting registrations and
  stopping brings it down. Each subscriber gets exactly the events taken while it was registered and had room, and of
  the events sent exactly the first that fit are queued. The overlay of nested maps obeys a law for every path.

Where the code does less than a reader might expect, the model keeps the code and says so:
`Broadcast.OvertakenRemovalCrashes`, `Lifecycle.StaleRemovalDropsLive`, `NodeRuns.RemovalCanBeUndone`,
`NodeReplacements.FailedLookupReplaces`, `NodeReplacements.CreationsCollide`, `NodeReplacements.StaleWriteReplaces`,
`EventPublisher.DroppedUpdateLeavesViewStale`, `EventPublisher.DroppedRemovalLeavesViewStale`,
`FileRegistry.OldBytesAreSkipped`, `SharedFile.OutcomesExactly`, `Subnet.NoPrefixNeverLeaves`, the collision clause of
`FileRegistry.UploadStoresOrCollides` and the size bound in `RemoteManager.EnsureImage` are such places.

Calls to the outside are parameters: generated addresses, answers of QEMU and of the registry, sizes of reads, what a
capture device delivers, which step fails, when a consumer stops. Hash functions are parameters too.

## Model

| member | source | states |
|---|---|---|
| InstanceStore.KeyHasName | src/pkg/controller/db/persistence.go:17-20 | every key is of one kind only and determined by its prefix and name, so records and index entries never mix |
| InstanceStore.SoundPerform | src/pkg/controller/db/persistence.go:72-174 | an update or removal, accepted or not, keeps records complete and hardware addresses unique |
| InstanceStore.SoundAfterAnyOps | src/pkg/controller/db/persistence.go:72-174 | the same for every sequence of operations |
| InstanceStore.AddressReleased | src/pkg/controller/db/persistence.go:72-174 | once an operation changed or removed a record's address, another record may take it |
| InstanceStore.StoreDeterminedByTable | src/pkg/controller/db/persistence.go:72-174 | two stores that stand for the same table are equal: the index is exactly the inverse of the records |
| InstanceStore.TableDeterminedByStore | src/pkg/controller/db/persistence.go:43-70 | a store stands for one table only |
| InstanceStore.IndexDecidesMacFree | src/pkg/controller/db/persistence.go:84-99 | looking an address up in the index decides whether another record has it |
| InstanceStore.RepresentsPut | src/pkg/controller/db/persistence.go:100-131 | writing the record, dropping the old index entry and adding the new one is the accepted update of the table |
| InstanceStore.RepresentsDrop | src/pkg/controller/db/persistence.go:140-174 | deleting the record and its index entry is the removal from the table |
| InstanceStore.Database.Get | src/pkg/controller/db/persistence.go:26-41 | returns the record of the id, or says that there is none |
| InstanceStore.Database.Update | src/pkg/controller/db/persistence.go:72-138 | accepted exactly for complete records with a free address; a refused call changes nothing |
| InstanceStore.Database.Remove | src/pkg/controller/db/persistence.go:140-174 | removes a stopped record with its index entry, refuses others unchanged |
| InstanceStore.Database.List | src/pkg/controller/db/persistence.go:43-70 | every record once, in key order, and nothing of the index |
| InstanceStore.ListingUnique | src/pkg/controller/db/persistence.go:43-70 | there is only one such list |
| InstanceStore.ListingExists | src/pkg/controller/db/persistence.go:43-70 | every table has such a list |
| KeyOrder.PrefixedKeysContiguous | src/pkg/controller/db/persistence.go:49-63 | in key order nothing foreign stands between two keys of a prefix, so the scan may stop at the first key without it |
| KeyOrder.BelowExactly | src/pkg/controller/db/persistence.go:49-63 | one key is below another exactly if it is a proper prefix, or smaller where they first differ |
| NodeManager.StateChangeAccepted | src/pkg/controller/vm/local_manager.go:265-277 | changing the state of a stored record never breaks a constraint |
| NodeManager.LocalNodeManager.SetInstanceState | src/pkg/controller/vm/local_manager.go:265-277 | sets the state of that record alone; writes only when it differs; the write is never rejected |
| NodeManager.LocalNodeManager.ReconcileInstances | src/pkg/controller/vm/local_manager.go:280-298 | the list in memory and the writes to the table both follow the running set; nothing to change, nothing written |
| NodeManager.ReconcileFullList | src/pkg/controller/vm/local_manager.go:280-298 | over a full list the loop's writes are the pointwise agreement with the running set |
| NodeManager.ReconcileRows | src/pkg/controller/vm/local_manager.go:280-298 | over any current list exactly the listed records are brought into agreement |
| NodeManager.ReconciledMeaning | src/pkg/controller/vm/local_manager.go:280-298 | afterwards a record is running exactly when QEMU runs it; other states and fields stay |
| NodeManager.ReconcileIdempotent | src/pkg/controller/vm/local_manager.go:280-298 | a second pass with the same set changes no record |
| NodeManager.ReconciledListing | src/pkg/controller/vm/local_manager.go:182-216 | the reconciled list in memory is the listing of the reconciled table |
| NodeManager.LocalNodeManager.Create | src/pkg/controller/vm/local_manager.go:59-84 | inserts a stopped record under a free id and a free generated address, or changes nothing |
| NodeManager.LocalNodeManager.Start | src/pkg/controller/vm/local_manager.go:86-139 | a stopped instance ends running or stopped again; the request asks for the record's image, hardware, address and user data, and for its network config or, if it has none, for the text that names its address; that text is not stored |
| NodeManager.LaunchExactly | src/pkg/controller/vm/local_manager.go:95-125 | the request sent is the only one that asks for the record's fields |
| NodeManager.LocalNodeManager.Remove | src/pkg/controller/vm/local_manager.go:151-180 | removes stopped records only; an absent one counts as removed |
| NodeManager.LocalNodeManager.BatchEnrichWithRuntime | src/pkg/controller/vm/local_manager.go:239-263 | each info gets the last runtime answer of its name, if there is one |
| NodeManager.LocalNodeManager.Info | src/pkg/controller/vm/local_manager.go:182-216 | one record, or all of them reconciled, reported once each in id order; every info says what its record says, with the last runtime answer of its name if there is one |
| VmInfo.SameInfoExactly | src/pkg/controller/vm/local_manager.go:218-237 | an info says what its record says, and two records give the same one exactly if they agree on all but the node, where a missing address is like an empty one |
| VmInfo.ByNameIsLast | src/pkg/controller/vm/local_manager.go:239-263 | the runtime answer found for a name is the last one that bears it |
| NodeCalls.CreateAlone | src/pkg/controller/vm/local_manager.go:59-84 | in the run model, a creation that nothing interferes with ends as the method does |
| NodeCalls.StartAlone | src/pkg/controller/vm/local_manager.go:86-139 | so does a start, whatever QEMU answers: record, final state and request |
| NodeCalls.StartRefused | src/pkg/controller/vm/local_manager.go:86-93 | a start that finds no stopped record changes nothing |
| NodeCalls.RemoveAlone | src/pkg/controller/vm/local_manager.go:151-180 | so does a removal |
| NodeCalls.ReconcileAlone | src/pkg/controller/vm/local_manager.go:280-298 | and a reconciliation: every record then agrees with what QEMU runs |
| NodeCalls.FailedAlone | src/pkg/controller/vm/local_manager.go:265-277 | where a call goes on when a transaction fails: behind a state change, and nowhere else |
| NodeCalls.CreatedExactly | src/pkg/controller/vm/local_manager.go:59-84 | the records that count as created are those that some creation tried to insert |
| NodeRuns.EveryRun | src/pkg/controller/vm/local_manager.go:59-298 | in every interleaving addresses stay unique, copies in flight and stored records keep created fields, and every launch asks for the fields of a created record |
| NodeRuns.StoredRecordsAreCreated | src/pkg/controller/vm/local_manager.go:59-180 | every stored record equals a created one in all but the state, which is one of three |
| NodeRuns.RevivedExactly | src/pkg/controller/vm/local_manager.go:265-277 | a step brings back an absent id exactly by an accepted insert or by the write-back of a copy read before |
| NodeRuns.RemovedOnlyWhenStopped | src/pkg/controller/vm/local_manager.go:151-180 | a record disappears exactly in a committed removal that finds it stopped |
| NodeRuns.RemovalCanBeUndone | src/pkg/controller/vm/local_manager.go:86-180 | for every record there is a run in which its removal is undone by a start that had read it before |
| NodeRemovals.RemovalLastsExactly | src/pkg/controller/vm/local_manager.go:86-180 | after any run, an absent instance stays away from every continuation that does not create it if and only if no call is about to write its record back |
| NodeRemovals.GoneStays | src/pkg/controller/vm/local_manager.go:265-298 | without such a pending write-back no further moves bring it back or lead to one |
| NodeRemovals.WriteBackCommits | src/pkg/controller/vm/local_manager.go:265-298 | with one there are moves that commit it, also when another record has taken the address meanwhile |
| NodeRemovals.SaneInEveryRun | src/pkg/controller/vm/local_manager.go:265-277 | in every run a call has at most one write-back pending, of a complete record |
| NodeReplacements.ReplacedExactly | src/pkg/controller/vm/local_manager.go:59-84 | a step changes the fields of a stored record exactly by committing an accepted write of other fields under its id |
| NodeReplacements.FieldsLastExactly | src/pkg/controller/vm/local_manager.go:86-180 | after any run a stored record keeps its fields in every continuation that does not create its id if and only if no call is about to write back a record of the id with other fields |
| NodeReplacements.FieldsStay | src/pkg/controller/vm/local_manager.go:265-298 | without such a pending write-back no further moves replace the record or lead to one |
| NodeReplacements.FailedLookupReplaces | src/pkg/controller/vm/local_manager.go:59-84 | a creation whose lookup fails replaces the stored record, whatever its state, exactly if the new one is complete and its address free |
| NodeReplacements.CreationsCollide | src/pkg/controller/vm/local_manager.go:59-84 | for any two records of one id there is a run in which both creations find the id free and the second replaces what the first inserted |
| NodeReplacements.StaleWriteReplaces | src/pkg/controller/vm/local_manager.go:86-180 | for any two records of one id there is a run in which a start brings the removed one back over the one created in its place |
| EventPublisher.EveryRun | src/pkg/events/eventpublisher.go:25-67 | in every interleaving, replaying the accepted events gives the cached entry of every name that has not lost its latest event |
| EventPublisher.LostMeansLatestDropped | src/pkg/events/eventpublisher.go:127-134 | a name has lost its latest event exactly when the latest attempt to publish about it found the queue full |
| EventPublisher.RepairedExactly | src/pkg/events/eventpublisher.go:25-49 | after reporting an info the accepted events show it exactly if they did before, or the cache did not hold it and the queue had room |
| EventPublisher.DroppedUpdateIsNotResent | src/pkg/events/eventpublisher.go:25-49 | reporting a cached info again never changes what the accepted events say about it, so a dropped update stays dropped |
| EventPublisher.DroppedUpdateLeavesViewStale | src/pkg/events/eventpublisher.go:25-49 | for every info a run drops its update, and however often the info is reported again the accepted events never show the instance |
| EventPublisher.RemovedExactly | src/pkg/events/eventpublisher.go:51-67 | after a removal the accepted events show the name gone exactly if they did before or the queue had room |
| EventPublisher.UnconcernedRun | src/pkg/events/eventpublisher.go:25-67 | calls about other names change neither the cache nor what the accepted events say about a name |
| EventPublisher.DroppedRemovalLeavesViewStale | src/pkg/events/eventpublisher.go:51-67 | for every info a run drops its removal: the cache forgets the name, and the accepted events show the instance for ever, unless it is called by name again |
| EventPublisher.Publisher.Publish | src/pkg/events/eventpublisher.go:127-134 | never blocks; the event is queued exactly if there is room |
| EventPublisher.Publisher.VMUpdated | src/pkg/events/eventpublisher.go:25-49 | a step of the run model: a duplicate changes nothing |
| EventPublisher.Publisher.VMRemoved | src/pkg/events/eventpublisher.go:51-67 | a step of the run model: the entry goes and the removal is tried, known name or not |
| EventPublisher.Publisher.GetAll | src/pkg/events/eventpublisher.go:70-78 | every cached info, once |
| VmManager.ReplayDiff | src/pkg/controller/vm/manager.go:146-172 | replaying a difference on the old view gives the new one |
| VmManager.NoDiff | src/pkg/controller/vm/manager.go:146-172 | between equal views the only difference is to emit nothing |
| VmManager.DiffStep | src/pkg/controller/vm/manager.go:158-171 | handling one more name extends a difference by that name's event, if it has one |
| VmManager.AbsentIsNotMentioned | src/pkg/controller/vm/manager.go:158-171 | a poll says nothing about a name that is neither cached nor reported, so it never repairs a dropped removal |
| VmManager.PollMeaning | src/pkg/controller/vm/manager.go:146-172 | a poll's events are none exactly for an unchanged view, replay to the new view, and with room in the queue keep the subscriber's view right |
| VmManager.Manager.Poll | src/pkg/controller/vm/manager.go:146-172 | the cache gets exactly the table's names, each entry says what its record says and is running if and only if QEMU runs it, even if the queue drops; the events are exactly the difference, none if there is none |
| VmManager.PollShows | src/pkg/controller/vm/manager.go:146-172 | the view of the table after a poll has its names, says what its records say, and shows as running what QEMU runs |
| VmManager.Manager.Create | src/pkg/controller/vm/manager.go:57-75 | publishes the requested spec as stopped, exactly when the creation succeeds |
| VmManager.Manager.Remove | src/pkg/controller/vm/manager.go:93-103 | publishes the removal exactly when the node manager removes |
| Lifecycle.LifecycleLoop.Run | src/pkg/protos/process.go:72-160 | the loop's table, cancellations, kills and replies are those of the message-wise model, which the `FromMessages` lemmas read off the messages |
| Lifecycle.LoopSeesMessagesOnly | src/pkg/protos/process.go:72-160 | in every run the loop's state is what its code computes from the messages it received |
| Lifecycle.EveryDisciplinedRun | src/pkg/protos/process.go:72-160 | if ids are re-registered only after their earlier removals, the table holds exactly what is registered, not force-stopped, not removed |
| Lifecycle.BrokenExactly | src/pkg/protos/process.go:72-160 | one step ruins the table exactly by registering a held id or by a late removal that hits a newer instance |
| Lifecycle.ExactThroughout | src/pkg/protos/process.go:72-160 | in every run the table is exact after every move if and only if no move is of these two kinds |
| Lifecycle.LiveInstanceKept | src/pkg/protos/process.go:72-160 | in such runs a live instance leaves the table exactly by a force stop of its id |
| Lifecycle.ReplyMeaning | src/pkg/protos/process.go:104-123 | in such runs a command is executed on the instance of its id that is registered, not force-stopped and not removed, and told "not running" exactly when there is none |
| Lifecycle.OneReplyPerCommand | src/pkg/protos/process.go:104-123 | for every list of messages the i-th reply answers the i-th command taken from the table of that moment; there are no others |
| Lifecycle.CommandsTakenExactly | src/pkg/protos/process.go:104-123 | the commands taken are those received while the loop runs, in order |
| Lifecycle.TableFromMessages | src/pkg/protos/process.go:72-160 | until a shutdown the table holds for an id exactly the instance last registered under it, if no removal or force stop of the id came since |
| Lifecycle.RepliesFromMessages | src/pkg/protos/process.go:104-123 | for every list of messages, a command is executed on exactly that instance, and told "not running" exactly if there is none |
| Lifecycle.EffectsFromMessages | src/pkg/protos/process.go:72-103 | a force stop kills exactly that instance; it, a removal and a shutdown cancel exactly what they take out |
| Lifecycle.ForceStopMeaning | src/pkg/protos/process.go:72-160 | in disciplined runs a force stop kills the one instance of the id that is registered, not force-stopped and not removed |
| Lifecycle.RemovalOnceAndLate | src/pkg/protos/process.go:141-156 | in any run a watcher's removal is taken at most once, and only after the instance has stopped |
| Lifecycle.RemovalIsDelivered | src/pkg/protos/process.go:141-156 | a watcher delivers its removal once the instance stops, also if it gave up monitoring before |
| Lifecycle.StaleRemovalDropsLive | src/pkg/protos/process.go:72-160 | without the discipline, for every id a run drops a live instance from the table |
| StartGuard.GuardedInEveryRun | src/pkg/protos/process.go:166-181 | the starting set is exactly the ids of the callers inside the body, each held by one caller |
| StartGuard.SingleFlight | src/pkg/protos/process.go:166-181 | at most one caller per id is inside the body |
| StartGuard.ReleasedByHolderOnly | src/pkg/protos/process.go:170-181 | an entry goes exactly when its holder leaves or the process dies, never by a rejected caller |
| StartGuard.NoPartialImage | src/pkg/protos/process.go:189-210 | whatever fails or crashes, the image path holds a complete content that the registry served for that instance |
| StartGuard.ServedExactly | src/pkg/images/impl.go:56-100 | a content counts as served for an instance exactly from when the registry serves it to a call for that instance |
| StartGuard.CallAlone | src/pkg/protos/process.go:189-210 | whatever fails in it, a call that nothing interferes with keeps an image that is there, touches only its own two files, and launches only with an image in place |
| StartGuard.CompleteDownload | src/pkg/protos/process.go:189-210 | a download served in full, cut into any chunks, and renamed leaves exactly the served content as the image |
| StartGuard.QemuServer.Download | src/pkg/images/impl.go:56-100 | what is in the file for every failure: creating, requesting, a broken stream, a write, closing |
| StartGuard.QemuServer.Start | src/pkg/protos/process.go:166-264 | the guard is restored on every path; result and files in every case |
| StartGuard.QemuServer.StartBody | src/pkg/protos/process.go:189-210 | an image in place is kept; otherwise download, rename, and cleanup of what failed |
| Bits.FromBitsConcat | src/pkg/utils/network/ip/ip.go:45-52 | a number's leading digits weigh as much as its trailing digits are long |
| Bits.BigEndianBits | src/pkg/utils/network/ip/ip.go:45-52 | reading bytes big-endian is reading all their digits |
| Bits.AndBytesBits | src/pkg/utils/network/ip/ip.go:14-18 | the byte-wise AND is digit-wise over the whole address |
| Bits.OrNotBytesBits | src/pkg/utils/network/ip/ip.go:45-52 | the byte-wise OR with the complement is digit-wise over the whole address |
| Subnet.MaskedValues | src/pkg/utils/network/ip/ip.go:45-52 | masking gives the network number; OR with the complemented mask adds the subnet's size less one, also with host bits set |
| Subnet.ContainsIsRange | src/pkg/utils/network/ip/ip.go:16-17 | an address is contained exactly if it lies between the network address and the last one |
| Subnet.IncrementIsSuccessor | src/pkg/utils/network/ip/ip.go:28-37 | the byte-wise carry is plus one modulo the address space, for any number of bytes |
| Subnet.CloneIP | src/pkg/utils/network/ip/ip.go:39-43 | a fresh copy |
| Subnet.NextIP | src/pkg/utils/network/ip/ip.go:28-37 | a fresh array with the successor; the argument is untouched |
| Subnet.IsBroadcast | src/pkg/utils/network/ip/ip.go:45-52 | compares with the address that has every open bit set |
| Subnet.StandingStep | src/pkg/utils/network/ip/ip.go:17-24 | a step yields the next host, and the step from the broadcast address leaves the subnet even when it wraps to zero |
| Subnet.SubnetHosts | src/pkg/utils/network/ip/ip.go:14-26 | terminates and yields exactly the addresses strictly between network and broadcast, in order, undisturbed by what the consumer does to its copies |
| Subnet.LeavesExactly | src/pkg/utils/network/ip/ip.go:17-24 | the address after the broadcast address is outside exactly when there is a prefix |
| Subnet.NoPrefixNeverLeaves | src/pkg/utils/network/ip/ip.go:17-24 | without a prefix every address is inside, so the loop has no end |
| BpfPackets.WindowsApart | src/pkg/utils/network/arp/bpf_darwin.go:34-65 | frames are non-empty, in bounds, increasing and disjoint, for every buffer |
| BpfPackets.ReadHeader | src/pkg/utils/network/arp/bpf_darwin.go:40-55 | finds a frame exactly if header and frame are complete and neither length is zero |
| BpfPackets.Packets | src/pkg/utils/network/arp/bpf_darwin.go:34-65 | terminates and yields all frames in order, or a prefix that ends where the consumer stops |
| BpfPackets.RecordFound | src/pkg/utils/network/arp/bpf_darwin.go:40-57 | a written record's frame is found exactly if it ends before the cut |
| BpfPackets.ParseCutBuffer | src/pkg/utils/network/arp/bpf_darwin_test.go:15-29 | a buffer of written records cut anywhere parses to exactly the payloads that lie in it completely |
| BpfPackets.ParseEncoded | src/pkg/utils/network/arp/bpf_darwin_test.go:49-71 | the whole buffer parses to all payloads, for any header lengths and paddings |
| ArpFrames.FilterAcceptsReplies | src/pkg/utils/network/arp/bpf_darwin.go:145-152 | the filter keeps a frame exactly with at least 22 bytes, EtherType 0x0806 and operation 2 |
| ArpFrames.ParsesWhatTheFilterKeeps | src/pkg/utils/network/arp/arp.go:58-67 | parsing succeeds exactly on kept frames of at least 42 bytes |
| ArpFrames.ParseARPReply | src/pkg/utils/network/arp/arp.go:58-76 | the sender's addresses, in fresh arrays, exactly for complete replies |
| ArpFrames.BuildARPRequest | src/pkg/utils/network/arp/arp.go:31-52 | the fields of the RFC 826 request: to all, from the source address in both headers, its 4-byte form, zeros for the hardware address asked for, and the target; short and long addresses cut and padded as the copies do |
| ArpFrames.RequestFields | src/pkg/utils/network/arp/arp.go:31-52 | where the fields of a request stand |
| ArpFrames.FieldAt | src/pkg/utils/network/arp/arp.go:35-48 | a copied field holds the bytes that fit into it, and zeros behind them |
| ArpFrames.To4Exactly | src/pkg/utils/network/arp/arp.go:47-49 | the 4-byte form is the address itself or what an IPv4-mapped address maps |
| ArpFrames.RequestIsNoReply | src/pkg/utils/network/arp/arp.go:31-52 | no request passes the filter or parses |
| ArpFrames.AnswerNamesTarget | src/pkg/utils/network/arp/arp.go:31-76 | the answer to a request passes the filter, parses to the answering host and the address asked for, and is addressed to the host that asked |
| Scanner.Connection.Recv | src/pkg/utils/network/arp/conn_darwin.go:62-76 | the frames of what was read, as places in the read buffer |
| Scanner.DeliveredFrames | src/pkg/utils/network/arp/conn_darwin.go:62-76 | a read delivers the frame cut to the buffer, or exactly the captured frames that end in the buffer; a failed or empty read delivers none |
| Scanner.ArrivedInOrder | src/pkg/utils/network/arp/scanner.go:86-125 | what a read delivers follows what arrived before |
| Scanner.ArrivedInRead | src/pkg/utils/network/arp/scanner.go:86-125 | every frame that arrives was delivered by some read |
| Scanner.LastReplyWins | src/pkg/utils/network/arp/scanner.go:99-103 | the last reply from inside the subnet decides a hardware address's entry |
| Scanner.KnownIfNamed | src/pkg/utils/network/arp/scanner.go:99-103 | a hardware address is known exactly if some reply from inside the subnet names it |
| Scanner.AnsweredHostIsFound | src/pkg/utils/network/arp/scanner.go:86-125 | a host whose answer to its request arrives last is found under the address asked for |
| Scanner.TakeReplies | src/pkg/utils/network/arp/scanner.go:99-103 | folds the frames of one read into the hosts, with addresses that no buffer shares |
| Scanner.PickSource | src/pkg/utils/network/arp/scanner.go:65-77 | the first IPv4 address of the interface inside the subnet, if any |
| Scanner.SendAll | src/pkg/utils/network/arp/scanner.go:86-106 | one request per target, in order, with a read after every tenth |
| Scanner.Drain | src/pkg/utils/network/arp/scanner.go:108-125 | every further read is folded in; failed reads change nothing |
| Scanner.Scan | src/pkg/utils/network/arp/scanner.go:45-128 | one request per usable host, reads counted exactly, and the last-reply-wins result of everything that arrived, in arrays that share nothing with the read buffer |
| ImageStore.LocalFilesystemBackend.Store | src/pkg/images/storage/local.go:45-82 | replaces one image and its record; a failure in creating, copying or recording leaves exactly the stated files; when it leaves the images and the records true |
| ImageStore.LocalFilesystemBackend.Retrieve | src/pkg/images/storage/local.go:84-115 | the stored bytes, not found, or a record whose file is gone |
| ImageStore.LocalFilesystemBackend.Remove | src/pkg/images/storage/local.go:117-151 | file and record go and the others stay; what is left for each failure |
| ImageStore.LocalFilesystemBackend.Exists | src/pkg/images/storage/local.go:153-171 | true exactly for recorded ids |
| ImageStore.LocalFilesystemBackend.GetMetadata | src/pkg/images/storage/local.go:174-196 | the record, which is true of the stored bytes while all records are |
| ImageStore.LocalFilesystemBackend.List | src/pkg/images/storage/local.go:198-216 | exactly the recorded ids, ascending |
| ImageStore.StoredFine | src/pkg/images/storage/local.go:45-82 | a completed store replaces that image alone and describes it truly |
| ImageStore.FailedStoreKeepsImages | src/pkg/images/storage/local.go:52-64 | a failed store leaves all images exactly if no file was touched, the id was unknown, or the bytes left are the old ones |
| ImageStore.FailedStoreKeepsIntact | src/pkg/images/storage/local.go:52-64 | a failed store leaves all records true exactly if no file was touched, the id was unknown, or the bytes left fit the old record |
| ImageStore.RemovedImages | src/pkg/images/storage/local.go:117-151 | a removal that gets past its file takes away that image alone, even if its record stays |
| ImageStore.RemovedKeepsIntact | src/pkg/images/storage/local.go:117-151 | it leaves all records true exactly unless a known image's record outlives its file |
| ImageTransfer.Upload | src/pkg/images/impl.go:21-54 | non-empty chunks of bounded size that join to a prefix of the file, to all of it on success; the result for a failing stream, read, send or answer |
| ImageTransfer.Download | src/pkg/images/impl.go:56-100 | succeeds exactly if nothing fails, with the join of the chunks in the file; what is in the file for every failure |
| FileRegistry.UploadStoresOrCollides | src/pkg/protos/fileregistry.go:71-104 | with true records, an upload without faults stores the uploaded bytes exactly unless two different contents share a hash |
| FileRegistry.UploadKeepsImages | src/pkg/protos/fileregistry.go:71-104 | the exact condition under which an upload, however it ends, leaves the images as they were |
| FileRegistry.UploadKeepsIntact | src/pkg/protos/fileregistry.go:71-104 | records stay true exactly unless a failing store overwrites a known image with bytes that do not fit the old record |
| FileRegistry.RepairedExactly | src/pkg/protos/fileregistry.go:71-91 | a later upload stores its bytes and repairs a damaged image exactly unless their hash is the recorded one |
| FileRegistry.OldBytesAreSkipped | src/pkg/protos/fileregistry.go:71-91 | after an overwrite that failed in its copy, uploading the old bytes again is skipped and the copied part stays |
| FileRegistry.IntactThroughout | src/pkg/protos/fileregistry.go:46-192 | over every sequence of uploads and removals, records are true throughout if and only if no operation is of the harmful kinds |
| FileRegistry.ServedUnlessCollision | src/pkg/protos/fileregistry.go:46-170 | with true records a download after an upload returns the bytes exactly unless hashes collide |
| FileRegistry.EarlyErrors | src/pkg/protos/fileregistry.go:46-132 | which uploads are received, and the error of each that is not |
| FileRegistry.ReceivedUpload | src/pkg/protos/fileregistry.go:71-104 | which received uploads succeed, that exactly the stored ones are announced, by their id, and what is stored |
| FileRegistry.Registry.UploadImage | src/pkg/protos/fileregistry.go:46-132 | result, store and event in every case, a failure of any step included; the temporary file is cleaned up |
| FileRegistry.Registry.FinishUpload | src/pkg/protos/fileregistry.go:61-104 | skips a known hash, otherwise stores, announces and answers, with a failure possible at each step |
| FileRegistry.Registry.SendFile | src/pkg/protos/fileregistry.go:154-169 | sends an open file in non-empty chunks of at most one mebibyte, all of it on success; the result for a failing read or send |
| FileRegistry.Registry.DownloadImage | src/pkg/protos/fileregistry.go:134-170 | non-empty chunks of at most one mebibyte that join to a prefix of the stored bytes, to all of them on success; the result in every case |
| FileRegistry.Registry.RemoveImage | src/pkg/protos/fileregistry.go:172-192 | answers true and announces exactly if the store removed, known image or not |
| FileRegistry.Registry.ListImages | src/pkg/protos/fileregistry.go:194-219 | every recorded image once, with hash and size as recorded, which are those of its file while all records are true |
| FileRegistry.Registry.RoundTrip | src/pkg/protos/fileregistry.go:46-170 | upload then download without faults, for every chunking on either side: the bytes, or what is stored if the upload is skipped |
| SharedFile.ServedMixture | src/pkg/protos/fileregistry.go:154-167 | however one download and one store interleave, a successful download sent the old content up to where it stood at the truncation and the new one from there |
| SharedFile.StoredContentExactly | src/pkg/protos/fileregistry.go:154-167 | exactly when what it sent is the old or the new content |
| SharedFile.DistinctContentsExactly | src/pkg/images/storage/local.go:45-64 | for contents that differ everywhere: if and only if the truncation fell before the first byte and all was read, after the last byte, or after the end |
| SharedFile.MixtureIsServed | src/pkg/protos/fileregistry.go:154-167 | a run for every such mixture |
| SharedFile.OutcomesExactly | src/pkg/protos/fileregistry.go:154-167 | the byte strings that a successful download can send are exactly the mixtures |
| SharedFile.AfterStoreServesNew | src/pkg/images/storage/local.go:84-115 | a download that opens the file once the store is complete sends the new content |
| RemoteManager.PercentBounds | src/pkg/orchestrator/remote_manager.go:219-230 | the percentage is between 0 and 100 when a hundred times the size fits 64 bits |
| RemoteManager.PercentBrackets | src/pkg/orchestrator/remote_manager.go:219-230 | the percentage is the number of whole hundredths of the file that were read |
| RemoteManager.QuotientFits | src/pkg/orchestrator/remote_manager.go:219-230 | the division truncates toward zero, for either sign |
| RemoteManager.HashOfFirst | src/pkg/orchestrator/remote_manager.go:99-108 | the local hash is that of the first entry for the image |
| RemoteManager.PercentMonotonic | src/pkg/orchestrator/remote_manager.go:219-230 | it never falls as more is read |
| RemoteManager.FinishedIsHundredExactly | src/pkg/orchestrator/remote_manager.go:219-230 | a finished read is at 100 exactly if a hundred times the size fits 64 bits |
| RemoteManager.FewEvents | src/pkg/orchestrator/remote_manager.go:219-230 | a strict rise within 1 to 100 has at most a hundred events |
| RemoteManager.ProgressFile.Read | src/pkg/orchestrator/remote_manager.go:219-230 | reads like the file, and publishes each change of the percentage once |
| RemoteManager.UploadWithProgress | src/pkg/images/impl.go:21-54 | the client's upload through the counting reader, with the same failures; every percentage reached is published, and no other |
| RemoteManager.EnsureImage | src/pkg/orchestrator/remote_manager.go:94-160 | result in every case; a push starts at 0, rises strictly to 100 and repeats 100, at most 102 events, exactly if a hundred times the size fits 64 bits; the percentages are those reached by the reads; a failing upload sent a prefix, and its events rise strictly to the percentage read |
| Broadcast.EveryRun | src/pkg/orchestrator/broadcast.go:34-77 | in every run each subscriber's events are an ordered subsequence without repetition of those taken, which are the first of those sent; harm comes exactly from a removal that is early or repeated |
| Broadcast.DisciplinedSurvives | src/pkg/orchestrator/broadcast.go:34-57 | if every removal is taken while registered, nothing is sent on a closed channel and none is closed twice |
| Broadcast.CrashesExactly | src/pkg/orchestrator/broadcast.go:34-57 | registering what waits and then stopping brings the process down if and only if some removal was taken early or twice |
| Broadcast.OvertakenRemovalCrashes | src/pkg/orchestrator/broadcast.go:43-54 | a subscription removed once, with the removal taken first, ends the process at the next event |
| Broadcast.KeptExactly | src/pkg/orchestrator/broadcast.go:48-54 | an event taken is in the end kept for a subscriber exactly if it is registered then and has room |
| Broadcast.AcceptedExactly | src/pkg/orchestrator/broadcast.go:60-65 | of all events sent before the loop takes one, whatever else happens, exactly the first that fit enter the queue |
| Broadcast.SentIsKeptExactly | src/pkg/orchestrator/broadcast.go:48-65 | an event that found a free place is in the end kept for a subscriber exactly if it is registered and has room when the loop comes to the event |
| Broadcast.StopCloses | src/pkg/orchestrator/broadcast.go:38-42 | stopping closes exactly the registered channels, undelivered events staying in them |
| Broadcast.StoppedStays | src/pkg/orchestrator/broadcast.go:38-42 | after that nothing is registered, closed or delivered, and nothing can bring the process down |
| Broadcast.Broadcaster.Deliver | src/pkg/orchestrator/broadcast.go:48-54 | offers the event to every registered channel, in any order |
| Broadcast.Broadcaster.Select | src/pkg/orchestrator/broadcast.go:37-55 | one round of the loop is one step of the run model |
| Broadcast.Broadcaster.Send | src/pkg/orchestrator/broadcast.go:60-65 | never blocks; the event is queued exactly if there is a free place, and nothing else changes |
| Broadcast.Broadcaster.Run | src/pkg/orchestrator/broadcast.go:34-77 | the loop and its clients, interleaved in any way, follow the run model |
| MergeYaml.MergeYAML | src/qcontrollerd/cmd/utils/openapi.go:25-44 | the two loops compute the merge, whatever order the keys come in |
| MergeYaml.PathLaw | src/qcontrollerd/cmd/utils/openapi.go:25-44 | under every path: overlay leaves win, maps merge, and a base value survives exactly if the overlay has nothing there and no leaf on the way |
| MergeYaml.EmptyIsNeutral | src/qcontrollerd/cmd/utils/openapi.go:25-44 | the empty map is neutral on both sides |
| MergeYaml.MergeWithItself | src/qcontrollerd/cmd/utils/openapi.go:25-44 | merging a map with itself changes nothing |
| MergeYaml.OverlayTwice | src/qcontrollerd/cmd/utils/openapi.go:25-44 | laying the same overlay over twice is laying it over once |

## Left out

- InstanceStore.Database: does not model I/O errors and transaction conflicts of the store, which the class takes to succeed; in `NodeRuns` any read, listing or write may fail.
- JSON and protobuf encoding of records: taken as faithful copies; `proto.Equal` is equality and `proto.Clone` a copy.
- NodeManager.LocalNodeManager.Start: one undisturbed call; interference of other calls is in `NodeRuns`. The two calls `ListAndReconcile` and `CollectInfos` are parts of `Info` given names of their own.
- NodeRuns.EveryRun: a transaction that the database aborts on a conflict appears as a failed one; that conflicts are detected is not used.
- VmManager.Manager.Poll: one undisturbed poll; other calls between its steps are covered by the publisher's runs only. Its two loops are methods of their own.
- Runtime information of an instance: reduced to the fields that the views compare.
- EventPublisher.EveryRun: speaks of the events that the sending goroutine takes from the queue; an event taken and then lost on a broken stream is not modelled.
- Stopping an instance, the instance monitor's protocol, QMP queries and pidfiles: QEMU is a set of running ids and a Done event.
- Lifecycle.LifecycleLoop.Run: serves a list of messages, the loop's choices among its channels; blocked senders are not modelled, and `CancelAll` names the loop over the contexts at shutdown.
- StartGuard.NoPartialImage: what QEMU itself writes to the image after the launch, and loss of written data on power failure, are not modelled. A rename moves whatever file then bears the temporary name. What the registry served may itself be a mixture, see `SharedFile`.
- StartGuard.QemuServer.Start: one undisturbed call on files by name; the inode-level interleavings are in the run model. Removal of temporary files is taken to succeed there.
- Subnet.SubnetHosts: the consumer is given by what it writes over each copy and when it stops; addresses and masks have equal length, as in a parsed subnet; for 16-byte addresses the program's containment test also converts the IPv4-mapped ones, which is not modelled, so the result is about 4-byte addresses; a prefix of at least one bit is required because the loop has no end without one.
- BpfPackets.Packets: the consumer does not write into the buffer while it iterates. Lengths are unbounded integers; 64-bit positions cannot overflow for buffers that fit into memory. Both platforms that run the walker store numbers with the least significant byte first. `ReadHeader` is the first half of the loop body.
- Scanner.Scan: the deadline is a number of reads chosen by the environment; sleeping between reads is left out. The hosts are enumerated before the first request, which the enumeration cannot notice. A hardware address is its six bytes, not their text form. `SendAll`, `Drain` and `Receive` name parts of the function.
- Raw sockets, device setup, installing the filter, choosing the interface: system calls.
- ImageStore.LocalFilesystemBackend.Store: file names are hashes of image ids, taken not to collide; contents may collide and then the consequence is stated. Upload times are left out, and a record that cannot be decoded is not modelled.
- ImageStore.LocalFilesystemBackend.Retrieve: failures of the database and of opening the file are the download's `LookupBreaks`; the file is read as it is at that moment. Overwriting it meanwhile is in `SharedFile`.
- SharedFile.ServedMixture: one download and one store; more stores during one download, and a removal of the file, which leaves an open download untouched, are not modelled.
- FileRegistry.Registry.ListImages: takes the listing and the lookups to succeed.
- FileRegistry.Registry.UploadImage: removing the temporary file is taken to succeed. `FinishUpload` names the second half of the function, `SendFile` the loop of `DownloadImage`; `RoundTrip`, `Push` and `Fetch` compose client and service.
- RemoteManager.EnsureImage: the download to the temporary file is given by its result; with sizes whose hundredfold does not fit 64 bits, a failing push is only said to end at the percentage read; the upload repeats the client's loop through the counting reader. The conversion of percentages to 32 bits is left out: even after wrap-around a percentage fits.
- Broadcast.Broadcaster.Run: a call that would block on a full queue is a move that changes nothing; a queue of size zero therefore never passes anything on. Subscriptions are numbers instead of pointers.
- Broadcast.Broadcaster.Select: after a crash nothing is said about the rest of the state.
- MergeYaml.MergeYAML: the result shares no structure with its inputs because maps are values here; in the program untouched submaps are shared.
- gRPC, HTTP, WebSocket, TLS, command line, authentication, DNS, DHCP and firewall code: plumbing over libraries and system calls, with only easy claims of its own.
- The orchestrator's replica of a node: events can be missed between reading a node's state and subscribing, so no exact claim is made.
