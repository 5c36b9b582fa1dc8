/** `FileMonitor::Register` and `FileMonitor::Remove`: the owner table kept
    by the base class together with the inotify index. The base class is
    not part of this model; its owner table is taken to be a handle
    registry of `Node`s, issuing owner ids as `HandleRegistry` does. */
module FileMonitor {
  import opened Wrappers
  import HandleRegistry
  import opened WatchIndex
  import opened Dispatch

  datatype Monitor = Monitor(owners: HandleRegistry.Registry<Node>, index: Index)

  /** The result of `FileMonitor::Register`: the new state and the int returned. */
  datatype Registration = Registration(monitor: Monitor, ret: int)

  /** The owner table's invariant, the inverse index, no failure value in
      the index, and every indexed owner is a live owner. */
  ghost predicate Valid(m: Monitor) {
    && HandleRegistry.Valid(m.owners)
    && Inverse(m.index)
    && NoFailedDescriptor(m.index)
    && m.index.oidWfd.Keys <= m.owners.entries.Keys
  }

  function Create(start: int): (m: Monitor)
    ensures Valid(m)
    ensures m.owners.counter == start
  {
    Monitor(HandleRegistry.Create(start), Empty)
  }

  /** Register the owner in the base table first, then ask the inotify
      index to watch it; return the owner id on success and -1 when the
      watch could not be added. The base registration is not undone on
      failure. */
  function Register(m: Monitor, node: Node, addWatch: int): (res: Registration)
    ensures var issued := HandleRegistry.Register(m.owners, node);
            && res.monitor.owners == issued.registry
            && (addWatch == AddWatchFailed ==> res.ret == -1 && res.monitor.index == m.index)
            && (addWatch != AddWatchFailed ==> res.ret == issued.handle)
    ensures var h := m.owners.counter + 1;
            && (addWatch != AddWatchFailed ==> res.monitor.index.oidWfd.Keys == m.index.oidWfd.Keys + {h})
            && (addWatch != AddWatchFailed ==> res.monitor.index.wfdOid.Keys == m.index.wfdOid.Keys + {addWatch})
            && (addWatch != AddWatchFailed && h !in m.index.oidWfd ==> res.monitor.index.oidWfd[h] == addWatch)
            && (addWatch != AddWatchFailed && addWatch !in m.index.wfdOid ==> res.monitor.index.wfdOid[addWatch] == h)
    ensures forall o :: o in m.index.oidWfd ==> res.monitor.index.oidWfd[o] == m.index.oidWfd[o]
    ensures forall w :: w in m.index.wfdOid ==> res.monitor.index.wfdOid[w] == m.index.wfdOid[w]
  {
    var issued := HandleRegistry.Register(m.owners, node);
    var reg := WatchIndex.Register(m.index, issued.handle, addWatch);
    Registration(Monitor(issued.registry, reg.index), if reg.ok then issued.handle else -1)
  }

  /** Erase the owner from the base table, then from the index. */
  function Remove(m: Monitor, owner: int): (m': Monitor)
    ensures m'.owners.counter == m.owners.counter
    ensures !HandleRegistry.IsRegistered(m'.owners, owner)
    ensures forall o :: o != owner ==> HandleRegistry.Get(m'.owners, o) == HandleRegistry.Get(m.owners, o)
    ensures m'.index.oidWfd.Keys == m.index.oidWfd.Keys - {owner}
    ensures forall o :: o in m'.index.oidWfd ==> m'.index.oidWfd[o] == m.index.oidWfd[o]
    ensures owner !in m.index.oidWfd ==> m'.index.wfdOid == m.index.wfdOid
    ensures owner in m.index.oidWfd ==> m'.index.wfdOid.Keys == m.index.wfdOid.Keys - {m.index.oidWfd[owner]}
    ensures forall w :: w in m'.index.wfdOid ==> m'.index.wfdOid[w] == m.index.wfdOid[w]
    ensures Valid(m) ==> Valid(m')
  {
    var owners := HandleRegistry.Remove(m.owners, owner);
    var removed := WatchIndex.Remove(m.index, owner);
    Monitor(owners, removed.index)
  }

  /** With a counter that starts at -1 or above, -1 is returned exactly
      when the watch could not be added; a successful registration returns
      a live owner whose node is the one registered and whose descriptor is
      the one added. */
  lemma RegisterReturnRule(m: Monitor, node: Node, addWatch: int)
    requires Valid(m)
    requires m.owners.counter >= -1
    ensures var res := Register(m, node, addWatch);
            && (res.ret == -1 <==> addWatch == AddWatchFailed)
            && (res.ret != -1 ==> HandleRegistry.Get(res.monitor.owners, res.ret) == Some(node))
            && (res.ret != -1 && addWatch !in m.index.wfdOid ==> Linked(res.monitor.index, res.ret, addWatch))
  {
  }

  /** The return value is ambiguous when the counter starts below -1: a
      successful registration can return -1 itself. */
  lemma SuccessCanReturnMinusOne(node: Node)
    ensures Register(Create(-2), node, 3).ret == -1
  {
  }

  /** A failed watch still leaves an owner in the base table, under an id
      the caller never receives. */
  lemma FailedRegisterKeepsOwner(m: Monitor, node: Node)
    requires Valid(m)
    ensures var res := Register(m, node, AddWatchFailed);
            && res.ret == -1
            && HandleRegistry.IsRegistered(res.monitor.owners, m.owners.counter + 1)
            && Valid(res.monitor)
  {
  }

  /** Owner ids are always fresh, so only the descriptor can collide: the
      monitor stays valid exactly when the watch failed or returned a
      descriptor not yet in the index. */
  lemma RegisterKeepsValidIff(m: Monitor, node: Node, addWatch: int)
    requires Valid(m)
    ensures Valid(Register(m, node, addWatch).monitor) <==> (addWatch == AddWatchFailed || addWatch !in m.index.wfdOid)
  {
    var issued := HandleRegistry.Register(m.owners, node);
    var owner := issued.handle;
    assert owner !in m.index.oidWfd;
    if addWatch != AddWatchFailed {
      RegisterKeepsInverseIff(m.index, owner, addWatch);
    }
  }

  /** Under the invariant the owner-table lookup in the dispatch never
      misses: a record is dispatched exactly when its descriptor is indexed
      and the owner's mask overlaps the record's. */
  lemma DispatchUnderValid(m: Monitor, r: InotifyRecord.Record)
    requires Valid(m)
    ensures Matches(m.index, m.owners.entries, r) <==>
              && r.wd as int in m.index.wfdOid
              && Overlaps(m.owners.entries[m.index.wfdOid[r.wd as int]].eventMask, r.mask)
  {
    if r.wd as int in m.index.wfdOid {
      assert m.index.wfdOid[r.wd as int] in m.index.oidWfd;
    }
  }
}
