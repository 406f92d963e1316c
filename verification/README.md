# Kmesh verification models

Dafny models of five parts of Kmesh, with proofs of what they keep over whole
runs.

1. **The tree store.** Kmesh hands protobuf configuration to its eBPF programs
   through fixed-size map entries. A message tree is flattened: each string,
   sub-message and repeated array goes into a slot of one of four slab maps, and
   the pointer is replaced by a 32-bit outer key. Three mutually recursive walks
   write, rebuild and free such a tree; a failed write is undone by running the
   delete walk over the half-written tree; a restart rebuilds the allocator from
   the slab maps. The store is shown to be a plain map from root keys to
   messages: updates, deletes, lookups and restarts refine it from every
   reachable state. A crash inside an update is covered too, at every prefix of
   its map operations.
2. **Socket acceleration.** Connection events pair the two sockets of a
   connection in a proxy map, after a filter, and the send path redirects along
   the pair.
3. **HashName**, a persistent numbering of strings.
4. **Authorization**: the policy index and the allow/deny decision.
5. **The DNS name table**, a merge of services by hostname.

## How the models are built

| file | what it holds |
|---|---|
| `Options.dfy` | optional values |
| `OuterKey.dfy`, `SlotBitmap.dfy`, `SlabAlloc.dfy` | outer keys, packed bits, the allocator over sets of slots |
| `Schema.dfy` | descriptors and message trees |
| `StoreModel.dfy` | the walks as functions on values, and the footprint of an entry |
| `StoreFrames.dfy`, `StoreDelete.dfy`, `StoreWrite.dfy` | what each walk reads, frees and adds |
| `StoreRefinement.dfy`, `StoreAdmission.dfy`, `KernelReader.dfy`, `KernelSight.dfy` | the invariant, the refinement, when updates succeed, what the kernel sees |
| `StoreCrash.dfy`, `StoreRecovery.dfy` | the map operations of an update one by one, a restart after any of them, and when the store recovers |
| `MapStore.dfy` | the store as a class with bitmaps and cursors updated in place; every method refines a function of `StoreModel` |
| `SockKeys.dfy`, `SockFilter.dfy`, `SockMesh.dfy` | keys, filter, events and the send path |
| `HashNames.dfy`, `PolicyStore.dfy`, `Rbac.dfy`, `NameTable.dfy` | the Go parts |

Points where the model fixes a reading of the code:

- A stored cell is a word or a pointer that has not been replaced yet
  (`StoreModel.Cell`). An unreplaced pointer is taken never to decode as an outer
  key; the rollback of a failed update relies on it.
- `alloc_outer_key` reports failure as `0xFFFFFFFF`, and the tests `key < 0` on
  that unsigned value never hold. The model follows the code: the failure word is
  stored in the record and is caught when it does not decode.
- Slot 0 of every class is never handed out. That is why the zero words behind
  the last element of a half-written array own nothing.
- `map_restore` reads an uninitialised previous key in its first iteration; the
  model takes it as null, so that the iteration covers the whole map.
- A write of the HashName file that fails is taken to leave the file as it was.
  `os.WriteFile` truncates before it writes, so a failed rewrite could also leave
  an empty or cut file; a restart then reads whatever log that is, and
  `HashNames.RestartInverseIff` holds for any log.
- The ring branch of `HashName.Hash` cannot be reached, because the loop guard
  excludes the number it tests for. The code therefore never wraps around.

Five properties one might expect are false of the code. Each has a lemma that
shows the failure on a whole family of inputs and a lemma that gives the exact
condition:

- The proxy map does not stay a symmetric pairing when a passive event re-pairs a
  key that has another partner, or when an active event on a paired key cannot
  record its ids: `SockMesh.SecondPeerUnpairs`, `SockMesh.UnrecordedActiveUnpairs`,
  `SockMesh.StepSymmetricIff`.
- The namespace index keeps the name of a policy that moved to another scope, and
  the moved policy goes on deciding there: `PolicyStore.MovedPolicyLeavesName`,
  `Rbac.MovedPolicyStillDenies`, `PolicyStore.StepExactIff`,
  `PolicyStore.StepPlacedIff`, `Rbac.FindsExactlyIff`.
- The name table depends on the order of services when Kubernetes services that
  differ share a hostname, which takes a namespace with a dot in it:
  `NameTable.TwoKubesFollowOrder`, `NameTable.OrderFreeIff`,
  `NameTable.CacheOrderFreeIff`, `NameTable.TwoKubesNeedDot`.
- HashName's two maps are not inverse after a restart from a log that lost a
  delete: `HashNames.LostDeleteReusesNumber`, `HashNames.InverseRunIff`.
- A store does not always recover from an update that is cut off. While the new
  entry is written, elements of an array that is not stored yet are lost, because
  an array is stored after its elements: `StoreCrash.OpenArrayPoint`,
  `StoreCrash.CrashRecovery`. While the old entry is deleted or a half-written one
  is undone, a second delete stops at an array that is already gone and loses what
  later fields still hold: `StoreRecovery.GoneArrayLoses`,
  `StoreRecovery.DeleteRecovery`, `StoreRecovery.RollbackRecovery`.

## Model

| member | source | states |
|---|---|---|
| OuterKey.PackUnpack | bpf/include/inner_map_defs.h:12-14 | unpacking a packed key gives the class and index back, and no slot that is handed out packs to the zero word |
| OuterKey.UnpackPack | bpf/include/inner_map_defs.h:12-14 | packing undoes unpacking on every key the decoder accepts |
| OuterKey.KeyLayout | bpf/include/inner_map_defs.h:6-14 | the class is the top byte of a key and the index its other three |
| SlotBitmap.OneBit | bpf/include/inner_map_defs.h:26-32 | setting or clearing one bit of a byte changes that bit and leaves the other seven alone |
| StoreWrite.AllocSpec | bpf/deserialization_to_bpf_map/deserialization_to_bpf_map.c:270-294 | allocation fails and changes nothing, or takes one free slot, never slot 0, of the first class that is large enough and not full |
| StoreWrite.AllocFailsIff | bpf/deserialization_to_bpf_map/deserialization_to_bpf_map.c:270-294 | it fails exactly when the size is not positive or all of slots 1..N-1 of every class large enough are taken |
| StoreWrite.NextAllocFollows | bpf/deserialization_to_bpf_map/deserialization_to_bpf_map.c:246-268 | the cursor roves: whatever was taken or freed since, a later request that comes to the same class gets the slot behind the last one handed out, if it is free |
| MapStore.Manager.FindFirstClear | bpf/deserialization_to_bpf_map/deserialization_to_bpf_map.c:246-268 | the packed byte scan refines the set of free slots: cursor first, then the lowest free index above 0; the failure word exactly when the class is full; cursor kept in range |
| MapStore.Manager.AllocOuterKey | bpf/deserialization_to_bpf_map/deserialization_to_bpf_map.c:270-294 | the loop over classes refines allocation over sets of slots |
| MapStore.Manager.FreeOuterKey | bpf/deserialization_to_bpf_map/deserialization_to_bpf_map.c:233-244 | clears the bit of the slot a valid key names; an invalid key changes nothing |
| StoreWrite.TextRoundTrip | bpf/deserialization_to_bpf_map/deserialization_to_bpf_map.c:338-361 | a string copied through the reused scratch buffer reads back unchanged up to its terminator |
| StoreWrite.WriteMapSpec | bpf/deserialization_to_bpf_map/deserialization_to_bpf_map.c:602-652 | whichever way the write walk ends, everything it added is what the delete walk would find from the entry, all of it formerly free, no slot twice, and no other entry changed; when it returns 0 all of it is marked and filled and reading gives the message back |
| StoreWrite.WriteFieldSpec | bpf/deserialization_to_bpf_map/deserialization_to_bpf_map.c:448-478 | the same for one pointer field, including a refused record, no free slot and a failed sub-message |
| StoreWrite.WriteRepeatedSpec | bpf/deserialization_to_bpf_map/deserialization_to_bpf_map.c:530-600 | the same for an array, stored last even when an element failed |
| StoreFrames.FrameMap | bpf/deserialization_to_bpf_map/deserialization_to_bpf_map.c:918-972 | what an entry reads as, and what it owns, depends only on its record and the slots it owns |
| StoreFrames.OneofCounts | bpf/deserialization_to_bpf_map/deserialization_to_bpf_map.c:1240-1242 | a member of a oneof is handled, read and freed exactly while the case word holds its id |
| StoreFrames.ArraysFit | bpf/deserialization_to_bpf_map/deserialization_to_bpf_map.c:563-580 | an array may have as many pointers as its entry has cells |
| StoreDelete.DeleteMap | bpf/deserialization_to_bpf_map/deserialization_to_bpf_map.c:1228-1260 | the delete walk clears and removes exactly the slots reached from the entry, each once, although it re-reads its record and frees while walking |
| StoreDelete.DeleteRepeated | bpf/deserialization_to_bpf_map/deserialization_to_bpf_map.c:1106-1156 | the same for an array; zero words and failure words in it are harmless |
| StoreRefinement.DeleteExact | bpf/deserialization_to_bpf_map/deserialization_to_bpf_map.c:1262-1312 | on a sound store deleting a key frees exactly the slots of its tree |
| StoreRefinement.DeleteRefines | bpf/deserialization_to_bpf_map/deserialization_to_bpf_map.c:1262-1312 | delete keeps the ownership invariant and removes exactly one key from the view |
| StoreRefinement.RollbackExact | bpf/deserialization_to_bpf_map/deserialization_to_bpf_map.c:698-700 | writing and then deleting, from any point of failure, leaves the used bits and all maps as before: nothing leaked, no foreign slot freed |
| StoreRefinement.UpdateRefines | bpf/deserialization_to_bpf_map/deserialization_to_bpf_map.c:654-710 | update keeps the invariant that used bits, filled slots and the disjoint union of owned slots are one set; success puts the message in the view; failure leaves the store as if only the old entry had been deleted |
| StoreRefinement.LookupRefines | bpf/deserialization_to_bpf_map/deserialization_to_bpf_map.c:1017-1059 | lookup answers the message in the view, or null without an error |
| StoreRefinement.RoundTrip | bpf/deserialization_to_bpf_map/deserialization_to_bpf_map.c:654-710 | after an update that returned 0, lookup rebuilds an equal message, for every conforming tree |
| StoreRefinement.Isolation | bpf/deserialization_to_bpf_map/deserialization_to_bpf_map.c:654-710 | no update, successful or not, and no delete changes what any other key of any root map looks up |
| StoreRefinement.RestartRefines | bpf/deserialization_to_bpf_map/deserialization_to_bpf_map.c:1446-1460 | rebuilding the bits from the slab maps restores exactly the used set, whatever the cursors; view and invariant are kept |
| StoreRefinement.RunRefines | bpf/deserialization_to_bpf_map/deserialization_to_bpf_map.c:654-1312 | every run of updates, deletes and restarts has the meaning of the same run on a plain map of messages |
| StoreRefinement.ReachableStores | bpf/deserialization_to_bpf_map/deserialization_to_bpf_map.c:1462-1481 | every store reachable from empty maps satisfies the ownership invariant |
| StoreAdmission.UpdateSucceedsIff | bpf/deserialization_to_bpf_map/deserialization_to_bpf_map.c:654-710 | from every sound store an update returns 0 exactly when the message fits the root value, the root map holds fewer other keys than it may, and the free slots of each class serve all requests of the message in order; it then lies in its home classes exactly when each request was served there |
| StoreAdmission.UpdateFitsIff | bpf/deserialization_to_bpf_map/deserialization_to_bpf_map.c:398-416 | with as many large slots as requests, it returns 0 exactly when root value and root map allow it, every text at every depth has under 192 characters, and every sub-message has 1 to 1600 bytes |
| StoreAdmission.MapFitsIff | bpf/deserialization_to_bpf_map/deserialization_to_bpf_map.c:398-416 | the requests of a message are of servable sizes exactly when all its texts and sub-messages, in arrays too, fit |
| StoreAdmission.ServeAtHome | bpf/deserialization_to_bpf_map/deserialization_to_bpf_map.c:278-285 | with as many free slots in each class as requests, each is served from its home class |
| StoreAdmission.ServeFields | bpf/deserialization_to_bpf_map/deserialization_to_bpf_map.c:602-652 | the field loop, overflows into larger classes included, takes what the counts of free slots say and fails exactly when they run out |
| StoreAdmission.ServeElems | bpf/deserialization_to_bpf_map/deserialization_to_bpf_map.c:563-580 | the same for the elements of an array |
| StoreAdmission.AllocServes | bpf/deserialization_to_bpf_map/deserialization_to_bpf_map.c:270-294 | one allocation depends only on how many slots of each class are free |
| StoreAdmission.RunBounded | bpf/deserialization_to_bpf_map/deserialization_to_bpf_map.c:649-651 | no run overfills a root map |
| StoreAdmission.SlabNeverFull | bpf/include/bpf_common.h:67-97 | whichever way a walk ends, a slab map holds at most its entry limit less one |
| StoreCrash.SlabNeverFullAt | bpf/include/bpf_common.h:67-97 | the same at every single map write of a write walk, so slab updates are never refused |
| KernelReader.KernelFindsIff | bpf/include/bpf_common.h:195-233 | the kernel macro finds a stored value exactly when its slot is in the class derived from the C type |
| KernelReader.KernelSeesView | bpf/include/bpf_common.h:208-233 | following the keys through the macro visits the tree that was written, when every slot is in its home class |
| KernelReader.StepNaturalIff | bpf/deserialization_to_bpf_map/deserialization_to_bpf_map.c:278-285 | a step keeps every slot in its home class exactly when it is not a successful update with a request served from a larger class |
| KernelReader.RunKeepsNatural | bpf/include/bpf_common.h:208-233 | over every run whose updates are served from home classes the kernel sees the current view at every root key |
| KernelSight.UpdateSeenIff | bpf/include/bpf_common.h:208-233 | after a successful update the kernel sees exactly the message that was written if and only if every slot of it was served from its home class |
| KernelSight.SeesFields | bpf/include/bpf_common.h:208-233 | the same for the fields of one message, at every depth |
| KernelSight.AllocWhereKernelLooks | bpf/deserialization_to_bpf_map/deserialization_to_bpf_map.c:278-285 | while it has a free slot, the allocator takes for a string or message the very class the kernel macro derives from its type |
| KernelSight.AllocArrayWhereKernelLooks | bpf/deserialization_to_bpf_map/deserialization_to_bpf_map.c:278-285 | the same for arrays |
| KernelSight.UpdateReachesKernel | bpf/include/bpf_common.h:195-233 | with room in every class and in the root map, an update with a message that fits returns 0 and the kernel sees exactly that message |
| KernelSight.RoomyIsSeen | bpf/include/bpf_common.h:195-233 | with room in every class, an update that returns 0 is seen as it was written |
| KernelSight.RoomyRunSeen | bpf/include/bpf_common.h:195-233 | over every run whose updates find room in every class the kernel sees the current view at every root key |
| StoreCrash.MapWrites | bpf/deserialization_to_bpf_map/deserialization_to_bpf_map.c:602-652 | the points of a write are one map write apart and lead from the store before to the store after it |
| StoreCrash.MapRemovals | bpf/deserialization_to_bpf_map/deserialization_to_bpf_map.c:1228-1260 | the same for the removals of a delete |
| StoreCrash.CrashIsolation | bpf/deserialization_to_bpf_map/deserialization_to_bpf_map.c:654-710 | wherever an update is cut off, dropping the old entry, writing or undoing, every other key of every root map looks up as before after the restart |
| StoreCrash.MapPoints | bpf/deserialization_to_bpf_map/deserialization_to_bpf_map.c:602-652 | at every point of a write what the entry reaches was free, occurs once, and with the elements of open arrays covers every new slot |
| StoreCrash.CrashInWrite | bpf/deserialization_to_bpf_map/deserialization_to_bpf_map.c:530-600 | the slots a restart then marks belong to other entries, to the new one, or to elements of an array not stored yet |
| StoreCrash.CrashInDelete | bpf/deserialization_to_bpf_map/deserialization_to_bpf_map.c:1262-1312 | cut off while deleting, the slots a restart marks belong to other entries or to the one being deleted |
| StoreCrash.CrashInRollback | bpf/deserialization_to_bpf_map/deserialization_to_bpf_map.c:698-700 | cut off while undoing, they belong to other entries or to the half-written one |
| StoreCrash.CrashRecovery | bpf/deserialization_to_bpf_map/deserialization_to_bpf_map.c:654-710 | cut off while writing, deleting the key after the restart gives back the store without it, sound again, if and only if no array was open; otherwise only elements of open arrays are left over |
| StoreCrash.OpenArrayPoint | bpf/deserialization_to_bpf_map/deserialization_to_bpf_map.c:563-580 | such a cut exists in every update whose message begins with an array of short strings |
| StoreRecovery.DeleteAgainIff | bpf/deserialization_to_bpf_map/deserialization_to_bpf_map.c:1228-1260 | from every point of a delete, deleting again after the restart ends where the first would have ended if and only if no message on the way has an array that is gone and a filled slot in a later field |
| StoreRecovery.FieldsCuts | bpf/deserialization_to_bpf_map/deserialization_to_bpf_map.c:1246-1248 | the same for the fields of one message: at every point of the walk the slots still filled are the ones a second walk reaches exactly when nothing is in the way |
| StoreRecovery.DeleteRecovery | bpf/deserialization_to_bpf_map/deserialization_to_bpf_map.c:1262-1312 | cut off while the old entry is deleted, under just that condition the store is sound again and is the one without the entry |
| StoreRecovery.RollbackRecovery | bpf/deserialization_to_bpf_map/deserialization_to_bpf_map.c:698-700 | the same, cut off while a half-written entry is undone |
| StoreRecovery.GoneArrayLoses | bpf/deserialization_to_bpf_map/deserialization_to_bpf_map.c:1140-1142 | every entry that begins with an array and owns a filled slot behind it can be cut off so that the slot is lost |
| MapStore.Manager.PutElem | bpf/deserialization_to_bpf_map/deserialization_to_bpf_map.c:348-352 | a map update succeeds unless the key is new and the root map is full |
| MapStore.Manager.UpdateBpfMap | bpf/deserialization_to_bpf_map/deserialization_to_bpf_map.c:602-652 | the field loop in place refines the write walk, result and state |
| MapStore.Manager.FieldHandle | bpf/deserialization_to_bpf_map/deserialization_to_bpf_map.c:448-478 | refines the write of one single field |
| MapStore.Manager.CopyTarget | bpf/deserialization_to_bpf_map/deserialization_to_bpf_map.c:338-396 | refines the write of a string or sub-message into its slot |
| MapStore.Manager.RepeatFieldHandle | bpf/deserialization_to_bpf_map/deserialization_to_bpf_map.c:530-600 | refines the write of an array |
| MapStore.Manager.CopyElems | bpf/deserialization_to_bpf_map/deserialization_to_bpf_map.c:563-580 | refines the element loop, stopping at the first failure |
| MapStore.Manager.CopyElem | bpf/deserialization_to_bpf_map/deserialization_to_bpf_map.c:480-517 | refines the write of one element, whose slot stays taken on failure |
| MapStore.Manager.DelBpfMap | bpf/deserialization_to_bpf_map/deserialization_to_bpf_map.c:1228-1260 | the field loop in place refines the delete walk |
| MapStore.Manager.FieldDel | bpf/deserialization_to_bpf_map/deserialization_to_bpf_map.c:1190-1226 | re-reads the record and frees the field's target, or stops on a bad key |
| MapStore.Manager.TargetDel | bpf/deserialization_to_bpf_map/deserialization_to_bpf_map.c:1061-1104 | clears the slot and removes the string or sub-tree in it |
| MapStore.Manager.RepeatFieldDel | bpf/deserialization_to_bpf_map/deserialization_to_bpf_map.c:1106-1156 | frees array and elements, skipping keys that do not decode |
| MapStore.Manager.CreateStruct | bpf/deserialization_to_bpf_map/deserialization_to_bpf_map.c:918-972 | the field loop refines the read walk, null and error cases included |
| MapStore.Manager.FieldQuery | bpf/deserialization_to_bpf_map/deserialization_to_bpf_map.c:765-777 | refines the read of one field |
| MapStore.Manager.TargetQuery | bpf/deserialization_to_bpf_map/deserialization_to_bpf_map.c:712-763 | refines the read of a string or sub-message |
| MapStore.Manager.RepeatFieldQuery | bpf/deserialization_to_bpf_map/deserialization_to_bpf_map.c:826-867 | refines the read of an array |
| MapStore.Manager.ElemsQuery | bpf/deserialization_to_bpf_map/deserialization_to_bpf_map.c:852-866 | refines the element loop of an array read |
| MapStore.Manager.ElemQuery | bpf/deserialization_to_bpf_map/deserialization_to_bpf_map.c:779-824 | refines the read of one element; a bad key gives null without an error |
| MapStore.Manager.UpdateElem | bpf/deserialization_to_bpf_map/deserialization_to_bpf_map.c:654-710 | keeps the invariant, and the view gains the message or loses the key; returns 0 exactly when the message is admitted |
| MapStore.Manager.LookupElem | bpf/deserialization_to_bpf_map/deserialization_to_bpf_map.c:1017-1059 | returns the message of the view |
| MapStore.Manager.DeleteElem | bpf/deserialization_to_bpf_map/deserialization_to_bpf_map.c:1262-1312 | keeps the invariant, reports whether the key was there, and removes it from the view |
| MapStore.Manager.MapRestore | bpf/deserialization_to_bpf_map/deserialization_to_bpf_map.c:1427-1444 | marks exactly the listed keys, in whatever order they come, and fails exactly when the low three bytes of one are out of range |
| MapStore.Manager.MapsRestore | bpf/deserialization_to_bpf_map/deserialization_to_bpf_map.c:1446-1460 | a new process over existing maps marks exactly the filled slots and sees the same view |
| SockKeys.KeyAgreement | oncn-mda/ebpf_src/sock_redirect.c:13-19 | the key built on the send path equals the key built at establishment, for every socket, through 16- and 32-bit byte swaps and the loopback cookie |
| SockKeys.KeyIdentifies | oncn-mda/include/mesh_accelerate.h:110-117 | two sockets have one key exactly if addresses and ports agree and, when both ends are loopback, the namespaces too |
| SockKeys.PeerIsPartner | oncn-mda/ebpf_src/sock_ops.c:269-301 | the peer key of the accepting side is the key under which the connecting side registered, with or without address translation, in one namespace or, off loopback, across two |
| SockFilter.HostOrderNet | oncn-mda/ebpf_src/sock_ops.c:10-20 | the network-order comparison is equality of the masked host-order addresses |
| SockFilter.AgreeUnder | oncn-mda/ebpf_src/sock_ops.c:12-17 | addresses agree under a mask exactly when no differing bit is under it |
| SockFilter.PrefixBits | oncn-mda/cli_src/func/chain.c:73-74 | no differing bit under a prefix mask means that only bits behind the prefix differ, for every length from 0 to 32 |
| SockFilter.InPrefix | oncn-mda/ebpf_src/sock_ops.c:10-20 | the coded comparison under a prefix mask holds exactly when address and range agree in all bits of the prefix, as prefixes are read in section 3.1 of RFC 4632 |
| SockFilter.HostPortOfEvent | oncn-mda/ebpf_src/sock_ops.c:30-33 | the port the filter compares is the socket's own port |
| SockFilter.SinglePort | oncn-mda/ebpf_src/sock_ops.c:22-41 | a range of one port is hit exactly by that port, at any of the four places |
| SockFilter.EveryAddressCounts | oncn-mda/ebpf_src/sock_ops.c:54-75 | each of the four addresses must be off the black list and, if there is one, on the white list |
| SockFilter.UnknownIdsPassIff | oncn-mda/ebpf_src/sock_ops.c:195-208 | when ids of either process are unknown, a connection passes only if all four id lists are empty |
| SockFilter.OwnersPassIff | oncn-mda/ebpf_src/sock_ops.c:210-220 | with known ids, no user or group of either side is on a black list and one of each is on every white list that is set |
| SockFilter.IsAcceptPort | oncn-mda/ebpf_src/sock_ops.c:22-41 | the flag comes back exactly when one of the four ports is in the range, ends included |
| SockFilter.AdjFilterIp | oncn-mda/ebpf_src/sock_ops.c:43-52 | the flag comes back exactly when the address is in a configured range |
| SockFilter.FilterIp | oncn-mda/ebpf_src/sock_ops.c:54-75 | a white list passes iff all four addresses are listed, a black list iff none is, an empty list always |
| SockFilter.FilterPort | oncn-mda/ebpf_src/sock_ops.c:77-95 | a white list passes iff some port is in a range, a black list iff none is |
| SockFilter.FilterId | oncn-mda/ebpf_src/sock_ops.c:112-142 | the same for user and group ids of either process |
| SockFilter.FilterTuple | oncn-mda/ebpf_src/sock_ops.c:182-192 | the four address and port lists mean the declarative rule |
| SockFilter.FilterOwners | oncn-mda/ebpf_src/sock_ops.c:210-220 | the four id lists mean the declarative rule |
| SockFilter.ReturnRulesOnlyReject | oncn-mda/ebpf_src/sock_ops.c:175-224 | adding return rules never turns a rejection into a pass |
| SockMesh.PairOrDrop | oncn-mda/ebpf_src/sock_ops.c:359-367 | pairing two keys, or dropping them, keeps a pairing symmetric exactly when neither has a third partner |
| SockMesh.StepSymmetricIff | oncn-mda/ebpf_src/sock_ops.c:303-395 | every event, at every exit, keeps the proxy map symmetric exactly when it is harmless, which can be checked beforehand |
| SockMesh.RunSymmetric | oncn-mda/ebpf_src/sock_ops.c:303-395 | over every run of harmless events the proxy map is a symmetric involution |
| SockMesh.CloseCutsBoth | oncn-mda/ebpf_src/sock_ops.c:372-395 | after a close neither end maps to anything, nothing maps to the closed end, and its ids are gone |
| SockMesh.CloseKeepsOthers | oncn-mda/ebpf_src/sock_ops.c:372-395 | a close keeps all sockets and every pair and id the closed end has no part in |
| SockMesh.StepFrame | oncn-mda/ebpf_src/sock_ops.c:303-395 | no event changes anything, in any of the three maps, under a key that is not its own, its peer's or its partner's |
| SockMesh.ActiveRegisters | oncn-mda/ebpf_src/sock_ops.c:313-334 | what an active event leaves under its key at each exit, pairs untouched unless it fails |
| SockMesh.PassivePairs | oncn-mda/ebpf_src/sock_ops.c:336-370 | an accepted event pairs its two keys, registers its socket only, and uses up the peer's ids exactly when an id list is set |
| SockMesh.FailedPassiveCleans | oncn-mda/ebpf_src/sock_ops.c:365-367 | a passive event that fails at any point removes exactly its two keys from all three maps |
| SockMesh.PeerIdsAreRegistered | oncn-mda/ebpf_src/sock_ops.c:160-172 | the ids the filter finds for the peer are those its process registered when connecting |
| SockMesh.PairedEndsRedirect | oncn-mda/ebpf_src/sock_ops.c:336-370 | after both ends registered and were accepted, each one's messages go to the other's socket |
| SockMesh.ClosedEndsDoNotRedirect | oncn-mda/ebpf_src/sock_redirect.c:21-33 | closing either end stops redirection in both directions |
| SockMesh.RunRedirectIff | oncn-mda/ebpf_src/sock_redirect.c:21-33 | after every run of harmless events from empty maps, a message is redirected to a socket if and only if the run paired the sender's key with the key it last registered that socket under, and nothing has parted or dropped them since; messages of that end come back |
| SockMesh.RunPairsIff | oncn-mda/ebpf_src/sock_ops.c:303-395 | over every such run two keys are paired if and only if an accepted passive event of the run had just these keys and no close, failing event or other pairing on either came after it |
| SockMesh.StepPairsIff | oncn-mda/ebpf_src/sock_ops.c:303-395 | the same for one event |
| SockMesh.RunSocketsIff | oncn-mda/ebpf_src/sock_ops.c:313-370 | over every run a key has a socket if and only if it is that of the last event that registered the key, not dropped since |
| SockMesh.UnrecordedActiveUnpairs | oncn-mda/ebpf_src/sock_ops.c:327-331 | an active event on a paired key whose ids cannot be recorded leaves half a pair |
| SockMesh.SecondPeerUnpairs | oncn-mda/ebpf_src/sock_ops.c:336-370 | a second passive event on a paired key with another peer leaves half a pair, whichever way it ends |
| SockMesh.Mesh.CleanOps | oncn-mda/ebpf_src/sock_ops.c:303-311 | removes the key from all three maps |
| SockMesh.Mesh.ActiveOps | oncn-mda/ebpf_src/sock_ops.c:313-334 | the maps after an active event, at each exit |
| SockMesh.Mesh.Filter | oncn-mda/ebpf_src/sock_ops.c:175-224 | passes exactly when the declarative rule holds, and uses up the peer's helper entry exactly when it looks at ids |
| SockMesh.Mesh.PassiveOps | oncn-mda/ebpf_src/sock_ops.c:336-370 | the maps after a passive event: both directions paired, or both keys cleaned, at each exit |
| SockMesh.Mesh.CleanOpsMap | oncn-mda/ebpf_src/sock_ops.c:372-395 | the maps after a close |
| HashNames.HashKeeps | pkg/utils/hash_name.go:93-121 | numbering a string keeps the maps inverse, and keeps the log in step exactly when the write succeeded or nothing changed |
| HashNames.HashRecords | pkg/utils/hash_name.go:93-121 | a new string gets the least free number from its hash on and nothing else changes; without one, or for a known string, nothing does |
| HashNames.DeleteKeeps | pkg/utils/hash_name.go:135-145 | deleting keeps the maps inverse; a saved delete brings the log in step even if it was not |
| HashNames.DeleteForgets | pkg/utils/hash_name.go:135-145 | a deleted string is gone in both directions and no other entry changes |
| HashNames.RestartKeeps | pkg/utils/hash_name.go:40-64 | restarting from a log in step restores exactly the same state |
| HashNames.NumbersAreStable | pkg/utils/hash_name.go:33-145 | over every run with successful writes the maps stay inverse, the log stands for them, and a string keeps its number until deleted |
| HashNames.InverseRunIff | pkg/utils/hash_name.go:33-145 | over every run, whatever writes are lost, the maps stay inverse exactly when every restart finds a log that gives each number to one string |
| HashNames.RestartInverseIff | pkg/utils/hash_name.go:40-64 | a restart gives inverse maps exactly when the log it reads is injective |
| HashNames.NumberUntilRestart | pkg/utils/hash_name.go:93-145 | while the process runs a string keeps its number until it is deleted, whatever writes are lost |
| HashNames.LostDeleteReusesNumber | pkg/utils/hash_name.go:135-145 | a delete that is not saved lets the log hold one number for two strings, and the maps after the next restart are not inverse |
| HashNames.ProbeDecides | pkg/utils/hash_name.go:103-118 | the first free number is unique and excludes that none is free |
| HashNames.HashName.constructor | pkg/utils/hash_name.go:40-55 | the inverse map is built correctly in whatever order the map is walked |
| HashNames.HashName.Hash | pkg/utils/hash_name.go:93-121 | a new string gets the least free number at or above its hash, or the largest number and no record when none is free |
| HashNames.HashName.Flush | pkg/utils/hash_name.go:66-78 | the rewritten log stands for the map, one record per string |
| HashNames.HashName.Delete | pkg/utils/hash_name.go:135-145 | both directions of the string's entry go, and the log is rewritten |
| PolicyStore.StepComplete | pkg/auth/policy_store.go:45-103 | no operation loses a stored global or namespace policy from its bucket |
| PolicyStore.UpdatedMeans | pkg/auth/policy_store.go:45-72 | an update with a known scope stores the policy under namespace/name and adds that to the global or namespace bucket, and changes nothing else |
| PolicyStore.RemovedMeans | pkg/auth/policy_store.go:74-103 | a removal takes the policy out, and its name out of its own bucket, and changes nothing else |
| PolicyStore.RunStores | pkg/auth/policy_store.go:45-103 | after every run a key holds a policy if and only if it is that of the last update of the key with a known scope, not removed since |
| PolicyStore.NameIdentifies | pkg/auth/policy_store.go:49 | names tell policies apart as long as no namespace has a slash in it |
| PolicyStore.StepExactIff | pkg/auth/policy_store.go:45-103 | an operation keeps buckets exact exactly when it does not move a stored policy out of its bucket |
| PolicyStore.StepPlacedIff | pkg/auth/policy_store.go:45-103 | an operation keeps buckets free of misplaced policies exactly when no bucket already names the policy wrongly |
| PolicyStore.StepTidy | pkg/auth/policy_store.go:96-102 | no operation leaves an empty bucket |
| PolicyStore.RunIndex | pkg/auth/policy_store.go:45-103 | all three, over every run |
| PolicyStore.RunPlaced | pkg/auth/policy_store.go:45-103 | policies stay in place over every run whose updates leave no bucket naming the policy wrongly |
| PolicyStore.MovedPolicyLeavesName | pkg/auth/policy_store.go:45-72 | a policy that changes scope leaves its name in the old bucket, even after removal |
| PolicyStore.Store.UpdatePolicy | pkg/auth/policy_store.go:45-72 | both maps after an update; unknown scopes are refused |
| PolicyStore.Store.RemovePolicy | pkg/auth/policy_store.go:74-103 | both maps after a removal, empty buckets dropped |
| PolicyStore.Store.GetByNamespace | pkg/auth/policy_store.go:118-126 | lists exactly the names of a bucket |
| Rbac.Matches | pkg/auth/rbac.go:249-290 | the nested loops with early exits mean: some rule, all of whose clauses are empty or have a match that holds |
| Rbac.MatchOne | pkg/auth/rbac.go:268-273 | a match holds when it is not empty and all five aspects admit the connection |
| Rbac.MatchIp | pkg/auth/rbac.go:292-328 | some listed range contains the address if any is listed, and no excluded one does |
| Rbac.MatchPort | pkg/auth/rbac.go:330-347 | the same for ports |
| Rbac.MatchText | pkg/auth/rbac.go:373-390 | some listed pattern stands for the text if any is listed, and no excluded one does |
| Rbac.MatchPrincipal | pkg/auth/rbac.go:349-371 | the same for the identity behind the spiffe prefix, which must be there |
| Rbac.AnyAddr | pkg/auth/rbac.go:392-416 | true exactly when some range contains the address |
| Rbac.AnyPort | pkg/auth/rbac.go:418-425 | true exactly when the port is listed |
| Rbac.AnyText | pkg/auth/rbac.go:427-464 | true exactly when some pattern stands for the text |
| Rbac.TextHitMeans | pkg/auth/rbac.go:431-440 | the coded tests decide what a pattern stands for: all texts with its prefix, or else with its suffix, or else just its text |
| Rbac.PrefixPolicyMatches | pkg/auth/rbac.go:249-290 | a policy on one principal prefix matches exactly the connections from principals with that prefix |
| Rbac.PrefixPolicyDenies | pkg/auth/rbac.go:204-211 | if it applies and denies, none of them is allowed |
| Rbac.IdentityTail | pkg/auth/rbac.go:526-528 | every identity string carries the prefix, and the patterns see what follows it |
| Rbac.EmptyPatternMatchesNoPrincipal | pkg/auth/rbac.go:437-439 | a pattern with no text matches no principal |
| Rbac.Aggregate | pkg/auth/rbac.go:228-247 | the two lists hold exactly the stored allow and deny policies named by the workload, its namespace's bucket or the global one |
| Rbac.DecideBySet | pkg/auth/rbac.go:228-247 | the decision does not depend on order or repetition of the names |
| Rbac.FindsApplicable | pkg/auth/rbac.go:232-246 | on every reachable index no policy that applies is overlooked |
| Rbac.FindsExactlyIff | pkg/auth/rbac.go:232-246 | the index finds exactly the policies that apply, for every workload, if and only if each stored policy is named by its own bucket only or is global |
| Rbac.DecideLists | pkg/auth/rbac.go:204-225 | the two loops: no deny policy matches, and an allow policy does unless there is none |
| Rbac.ListsDecide | pkg/auth/rbac.go:204-225 | deciding over the collected lists is the verdict over the found policies |
| Rbac.DoRbac | pkg/auth/rbac.go:190-226 | allowed exactly when the workload is known, no found deny policy matches, and an allow policy matches if any is found; with no policy misplaced, found means applicable |
| Rbac.MovedPolicyStillDenies | pkg/auth/rbac.go:232-246 | a deny policy moved out of a namespace goes on denying there |
| NameTable.BuildNameTable | pkg/dns/nametable.go:57-130 | every hostname's entry is the first Kubernetes service with addresses, otherwise all external addresses in order, otherwise absent |
| NameTable.AddService | pkg/dns/nametable.go:97-126 | how one service changes its host's entry, and no other |
| NameTable.EntryStep | pkg/dns/nametable.go:97-126 | merging services one by one gives the declarative entry |
| NameTable.FirstKubeIsFirst | pkg/dns/nametable.go:114-122 | the Kubernetes service that wins is the first in the list |
| NameTable.OrderFreeIff | pkg/dns/nametable.go:62-127 | registry, names and address set of a host are the same for every order of the services if and only if its Kubernetes services agree in namespace, name and address set |
| NameTable.TwoKubesFollowOrder | pkg/dns/nametable.go:114-122 | of two Kubernetes services the first one wins, and the order matters exactly when they differ |
| NameTable.CacheOrderFreeIff | pkg/controller/workload/cache/service_cache.go:41-44 | for a list in which no two services agree in namespace and hostname, as the cache is keyed, the order is irrelevant if and only if the host has at most one Kubernetes service |
| NameTable.TwoKubesNeedDot | pkg/dns/nametable.go:157-163 | two Kubernetes services of one host in different namespaces need a namespace with a dot in it |
| NameTable.ListAddresses | pkg/dns/nametable.go:64-80 | the valid addresses before the first unspecified one |
| NameTable.ListedMeans | pkg/dns/nametable.go:64-80 | an address is listed exactly when it is valid and no unspecified address stands before it |
| NameTable.ListedInOrder | pkg/dns/nametable.go:64-80 | addresses that all count are listed as they come |
| NameTable.UnspecifiedMeans | pkg/dns/nametable.go:69-71 | unspecified means zero in every byte, IPv4 in IPv6 form included |
| NameTable.AddressesMean | pkg/dns/nametable.go:82-91 | a service has its own addresses, and those of the workloads behind it only if it has none |
| NameTable.ListHeadless | pkg/dns/nametable.go:132-153 | the addresses of the workloads behind a service, each workload valid as a whole |
| NameTable.HeadlessMeans | pkg/dns/nametable.go:132-153 | an address is listed exactly when a workload behind the service has it |
| NameTable.HeadlessInOrder | pkg/dns/nametable.go:132-153 | workloads give their addresses in the order they come |
| NameTable.AllIpsInOrder | pkg/dns/nametable.go:123-125 | external services of one host give their addresses in the order they come |

## Left out

- Bytes fields of messages: they are written but neither rebuilt nor freed by the code, and the listener, cluster and route descriptors have none.
- Repeated fields that do not fit the 1600 bytes of an array entry: the code relies on its callers here.
- C struct layout and offsets: fields are named, and the members of a oneof have cells of their own.
- Memory allocation failure, kernel errors other than a full root map, file descriptors and the environment variables that name the maps.
- Normalisation of root keys to the key size of a root map: keys are taken as normalised.
- deserial_lookup_all_elems: a loop of lookups over all keys.
- deserial_free_elem and the other functions that free C memory.
- MapStore.Manager.TargetDel: stands for indirect_field_del and for the part of field_del that frees the target, which differ only in a second removal of an entry already gone.
- SockFilter.FilterId: stands for filter_uid and filter_gid, which differ only in the table they read.
- Rbac.MatchText: leaves the two copies of the string pattern loop as one.
- The dispatch of socket events by family and TCP state: the model starts from an active, passive or close event.
- The dump queue of the accelerator and its command line tool, apart from the prefix mask it computes.
- The YAML syntax of the HashName file and the hash function: the file is a log of records, the hash an argument.
- Parsing of address ranges in policies: whether a range contains an address is an argument.
- The ring buffer loop of the authorizer and the reading of connection tuples from it.
- The text form of addresses in the name table: an address is its bytes.
- Locks: each operation of the Go objects runs alone.
