# iter: handle registry and inotify event bookkeeping, in Dafny

This project models the two pieces of sequential bookkeeping inside the
`iter` file-watching library and proves properties of them.

- **Handle registry** (`include/iter/util/registry.hpp`). `Registry` issues
  integer handles from a counter and keeps a map from handle to node.
  `Register` increments the counter and emplaces the node under the new
  value. `Remove` erases a handle and tolerates an absent one.
  `IsRegistered` and `Get` are lookups; `Get` throws `std::out_of_range`
  for an unknown handle.
- **inotify back end of `FileMonitor`**
  (`include/iter/filemonitor/detail/inotify/file_monitor_impl.hpp`).
  `Impl::Register` and `Impl::Remove` maintain two maps between owner ids
  and watch descriptors. The monitoring thread walks each raw `read`
  buffer record by record: a `struct inotify_event` header followed by
  `len` name bytes. For each record it resolves the descriptor to an
  owner and filters on the owner's interest mask. Each surviving record
  becomes a `FileEvent` (mask, cookie, name) queued with the owner's
  callback.

Everything is a pure function over immutable maps and sequences. The
system calls are inputs. `inotify_add_watch` becomes an `addWatch: int`
argument, which is a descriptor or -1. `read` becomes an
`Option<Bytes>`, where `None` stands for a negative length. Queuing a
callback on the thread pool becomes appending a `Task` to the result
sequence.

Modules, one per file:

- `Wrappers`: an `Option` type.
- `Maps`: `Emplace` and `Erase`, with std::map's semantics. Emplace never
  overwrites.
- `HandleRegistry`: the registry.
- `InotifyRecord`: the record layout and the walk.
- `WatchIndex`: the two-map index.
- `Dispatch`: the filter, `FileEvent` construction and one pass of the
  monitoring loop.
- `FileMonitor`: `FileMonitor::Register`/`Remove`, combining the owner
  table with the index.

Choices the model makes:

- The source never initialises `register_handle_counter_`. The starting
  counter is therefore a parameter of `HandleRegistry.Create`. All results
  hold for every starting value unless a lemma says otherwise.
- `Get` returns `Option`. `None` stands for the exception `map::at`
  throws.
- Record headers are 16 bytes: `wd` (signed 32-bit), then `mask`,
  `cookie` and `len` (unsigned 32-bit). The fields are in host byte
  order. The model fixes little-endian; no property depends on the byte
  order.
- The base class `FileMonitorBase` is not part of this model. The
  `FileMonitor` module assumes its owner table behaves like
  `HandleRegistry.Registry<Node>`: `Register` issues `counter + 1` and
  `Remove` erases. The `Impl` functions do not depend on this
  assumption: `WatchIndex.Register`/`Remove` take the owner id as an
  argument, and `Dispatch` takes the owner table as an argument.

Behaviour of the code as written, proved by lemmas:

- The two maps stay mutual inverses only if the new owner and the new
  descriptor are both fresh, or both already present
  (`WatchIndex.RegisterKeepsInverseIff`). inotify returns the same
  descriptor when one inode is watched twice. A second owner on the same
  path then gets `true`, but its descriptor still resolves to the first
  owner (`WatchIndex.SecondOwnerOnSameDescriptor`).
- Removing that second owner erases the first owner's descriptor entry
  and releases the shared watch (`WatchIndex.RemovingSecondOwnerUnlinksFirst`).
- `FileMonitor::Register` does not undo the base registration when the
  watch fails. The owner stays in the table under an id the caller never
  receives (`FileMonitor.FailedRegisterKeepsOwner`).
- `FileMonitor::Register` returns the owner id on success and -1 on
  failure, so an owner id of -1 makes a success look like a failure.
  Under the assumed base registry, that happens when the counter starts
  at -2 (`FileMonitor.SuccessCanReturnMinusOne`).
- An overflow record (`IN_Q_OVERFLOW`, descriptor -1) is skipped like any
  unknown descriptor. Nothing is broadcast (`Dispatch.OverflowRecordSkipped`).

## Model

| member | source | states |
|---|---|---|
| Maps.Emplace | include/iter/util/registry.hpp:39 | emplace adds the key if absent and never overwrites an existing entry; all other entries are kept |
| Maps.Erase | include/iter/util/registry.hpp:54 | erase removes exactly the given key, if present, and keeps every other entry |
| HandleRegistry.Create | include/iter/util/registry.hpp:29-31 | a new registry with any starting counter has no live handles and satisfies "every key ≤ counter" |
| HandleRegistry.IsRegistered | include/iter/util/registry.hpp:57-60 | under the invariant, a handle above the counter (not yet issued) is never registered |
| HandleRegistry.Get | include/iter/util/registry.hpp:62-65 | Get yields a node exactly when the handle is registered, and that node is the stored one; otherwise it fails as map::at throws |
| HandleRegistry.Register | include/iter/util/registry.hpp:36-48 | returns counter+1 and makes it the new counter; the handle is registered and every other lookup is unchanged; under the invariant the invariant is kept and Get of the handle is the node just registered |
| HandleRegistry.Remove | include/iter/util/registry.hpp:51-55 | keeps the counter, unregisters the handle, leaves every other lookup unchanged, keeps the invariant |
| HandleRegistry.RegisterNeedsValid | include/iter/util/registry.hpp:38-39 | without "every key ≤ counter", emplace can find the new handle taken, and Register returns a handle whose node is an older one |
| HandleRegistry.RemoveAbsentIsNoOp | include/iter/util/registry.hpp:54 | removing an unregistered handle changes nothing |
| HandleRegistry.RemoveIdempotent | include/iter/util/registry.hpp:54 | removing a handle twice equals removing it once |
| HandleRegistry.RegisterThenRemove | include/iter/util/registry.hpp:36-55 | registering then removing the new handle restores all entries, with the counter advanced by one |
| HandleRegistry.RunIssuesConsecutiveHandles | include/iter/util/registry.hpp:38-40 | over any Register/Remove sequence the k-th handle returned is start+1+k, the final counter is start plus the number issued, and the invariant is preserved |
| HandleRegistry.HandlesNeverReused | include/iter/util/registry.hpp:46-48 | issued handles are strictly increasing and all exceed the starting counter |
| HandleRegistry.RemovedHandleNeverReissued | include/iter/util/registry.hpp:52-55 | a live handle that is removed is never issued again by later calls |
| InotifyRecord.Encode | include/iter/filemonitor/detail/inotify/file_monitor_impl.hpp:14 | a record occupies the header size plus len bytes, with the name bytes right after the header |
| InotifyRecord.Head | include/iter/filemonitor/detail/inotify/file_monitor_impl.hpp:139 | the record read at an offset has the len found in its header, fits in the buffer, and its bytes are exactly its encoding |
| InotifyRecord.Walk | include/iter/filemonitor/detail/inotify/file_monitor_impl.hpp:138-140 | advancing by header size + len per record, the decoded records, laid back to back, followed by the leftover bytes give the buffer exactly; the leftover never starts with a complete record |
| InotifyRecord.WalkEncodeAll | include/iter/filemonitor/detail/inotify/file_monitor_impl.hpp:138-140 | walking a buffer of whole records yields exactly those records, in order, with nothing left over |
| InotifyRecord.WalkExact | include/iter/filemonitor/detail/inotify/file_monitor_impl.hpp:138-140 | the walk yields records rs with nothing left over if and only if the buffer is the encoding of rs |
| WatchIndex.EmptyIsInverse | include/iter/filemonitor/detail/inotify/file_monitor_impl.hpp:33-34 | the empty index is a pair of mutual inverses without the failure value |
| WatchIndex.Register | include/iter/filemonitor/detail/inotify/file_monitor_impl.hpp:87-99 | returns false and changes nothing when add-watch gives -1; otherwise returns true and adds both keys without overwriting any existing entry: a fresh owner maps to the descriptor and a fresh descriptor maps to the owner, each independently of the other; -1 is never indexed |
| WatchIndex.Remove | include/iter/filemonitor/detail/inotify/file_monitor_impl.hpp:101-113 | an unknown owner is a no-op; a known owner loses its entry and its descriptor loses its entry, nothing else changes, that descriptor is released, and mutual inverses stay mutual inverses |
| WatchIndex.RegisterKeepsInverseIff | include/iter/filemonitor/detail/inotify/file_monitor_impl.hpp:96-97 | from mutual inverses, a successful Register keeps them inverse exactly when owner and descriptor are both new or both present |
| WatchIndex.SecondOwnerOnSameDescriptor | include/iter/filemonitor/detail/inotify/file_monitor_impl.hpp:90-98 | a second owner given an already-indexed descriptor gets true, yet the descriptor still maps to the first owner and the inverse is broken |
| WatchIndex.RemovingSecondOwnerUnlinksFirst | include/iter/filemonitor/detail/inotify/file_monitor_impl.hpp:103-109 | removing that second owner erases the shared descriptor's entry and releases the watch the first owner still uses |
| Dispatch.DispatchRecord | include/iter/filemonitor/detail/inotify/file_monitor_impl.hpp:144-161 | a record yields a task exactly when its descriptor is indexed, its owner is in the owner table and the masks overlap; the task carries that owner's callback and copies mask, cookie and all len name bytes |
| Dispatch.DispatchSingle | include/iter/filemonitor/detail/inotify/file_monitor_impl.hpp:154-161 | one record queues its task if it matches and nothing otherwise |
| Dispatch.DispatchAppend | include/iter/filemonitor/detail/inotify/file_monitor_impl.hpp:138-161 | dispatching a concatenation queues the first part's tasks before the second part's: buffer order is kept |
| Dispatch.DispatchSound | include/iter/filemonitor/detail/inotify/file_monitor_impl.hpp:144-154 | every queued task is the task of some matching record |
| Dispatch.DispatchComplete | include/iter/filemonitor/detail/inotify/file_monitor_impl.hpp:156-161 | every matching record has its task queued |
| Dispatch.DeliveredToLinkedOwner | include/iter/filemonitor/detail/inotify/file_monitor_impl.hpp:144-148 | under the inverse invariant, the owner a record is delivered to is linked to the record's descriptor both ways |
| Dispatch.OverflowRecordSkipped | include/iter/filemonitor/detail/inotify/file_monitor_impl.hpp:144-146 | a record with descriptor -1 is never dispatched, because -1 is never indexed |
| Dispatch.RemovedOwnerReceivesNothing | include/iter/filemonitor/detail/inotify/file_monitor_impl.hpp:101-107 | after Remove(owner), records on its old descriptor are not dispatched to anyone, even from an index whose maps are no longer inverses |
| Dispatch.CallbackPass | include/iter/filemonitor/detail/inotify/file_monitor_impl.hpp:135-161 | a failed read queues nothing; otherwise every queued task is the task of a matching record walked from the buffer, and every matching walked record has its task queued |
| Dispatch.CallbackPassOverRecords | include/iter/filemonitor/detail/inotify/file_monitor_impl.hpp:135-161 | a buffer holding exactly records rs queues exactly the tasks of the matching records of rs, in order |
| FileMonitor.Create | include/iter/filemonitor/detail/inotify/file_monitor_impl.hpp:66-70 | a fresh monitor satisfies the combined invariant |
| FileMonitor.Register | include/iter/filemonitor/detail/inotify/file_monitor_impl.hpp:52-59 | always registers the owner in the base table; returns -1 with the index unchanged on add-watch failure; otherwise returns the issued owner id, adds that owner and the descriptor to the index keys, maps a fresh owner to the descriptor and a fresh descriptor to the owner, and keeps every existing index entry |
| FileMonitor.Remove | include/iter/filemonitor/detail/inotify/file_monitor_impl.hpp:61-64 | the owner leaves both the owner table and the index, and its descriptor leaves the index; the counter, every other owner's lookup and every other index entry are unchanged; the combined invariant is kept |
| FileMonitor.RegisterReturnRule | include/iter/filemonitor/detail/inotify/file_monitor_impl.hpp:56-58 | with counter ≥ -1, the result is -1 exactly on add-watch failure; on success it names a live owner holding the node, linked to a fresh descriptor |
| FileMonitor.SuccessCanReturnMinusOne | include/iter/filemonitor/detail/inotify/file_monitor_impl.hpp:56-58 | under the assumed base registry with a starting counter of -2, the owner id is -1, so a successful registration returns -1 |
| FileMonitor.FailedRegisterKeepsOwner | include/iter/filemonitor/detail/inotify/file_monitor_impl.hpp:56-58 | a failed watch still leaves the new owner registered in the base table |
| FileMonitor.RegisterKeepsValidIff | include/iter/filemonitor/detail/inotify/file_monitor_impl.hpp:56-57 | owner ids are always fresh, so the combined invariant survives Register exactly when the watch failed or its descriptor was not yet indexed |
| FileMonitor.DispatchUnderValid | include/iter/filemonitor/detail/inotify/file_monitor_impl.hpp:144-154 | under the combined invariant the owner-table lookup never misses, so a record matches exactly when its descriptor is indexed and the masks overlap |

## Left out

- The OS I/O and thread lifecycle are not modelled: `inotify_init`, `close`, `select` with its one-second timeout, and the `while (!shutdown_)` loop. The model covers one buffer's worth of decoding.
- Mutexes and the `shutdown_` flags are concurrency, and the model is sequential. The monitoring thread locks once per record, so a concurrent `Register`/`Remove` could change the index mid-buffer. The model keeps the index fixed for a whole pass.
- The thread pool (`include/iter/util/thread_pool.hpp`) is not modelled. This includes `PushTask` and the `max(pool_size, 1)` clamp; the worker loop there uses the unclamped `pool_size`. The `FileMonitor` constructor's minimum of two pool threads is also left out. Queuing is modelled as appending to a sequence.
- `iter/datamanager/file_keeper.hpp` is a declaration only. The double buffer and reload logic live in files that are not part of this model.
- Logging (`ITER_WARN_KV`, `ITER_ERROR_KV`) is left out. So is the result of `inotify_rm_watch`, which is only logged. `FileMonitor.Remove` drops the released descriptor.
- The kernel's own behaviour of `inotify_add_watch` is not modelled: reusing a descriptor for the same inode, or replacing the mask. The descriptor is an input.
- HandleRegistry.Register: does not model overflow of the counter at the maximum of `Handle`. Handle is a template parameter, and signed overflow is undefined behaviour in C++. Handles are unbounded integers.
- InotifyRecord.Walk: a trailing partial record is returned as leftover bytes. The source would instead read its header or name past `length`. The kernel only ever returns whole records, and for those the two agree (`InotifyRecord.WalkExact`).
- Node's file name and the callback itself are not modelled. A callback is an opaque identifier.
