/** The inotify back end's two-map index between owner ids and watch
    descriptors (`oid_wfd_map_` and `wfd_oid_map_`), and the two updates
    `Impl::Register` and `Impl::Remove` make to it. The system calls are
    inputs: `addWatch` is whatever `inotify_add_watch` returned, and
    `Remove` reports the descriptor it hands to `inotify_rm_watch`. */
module WatchIndex {
  import opened Wrappers
  import opened Maps

  datatype Index = Index(oidWfd: map<int, int>, wfdOid: map<int, int>)

  /** The result of `Impl::Register`: the new index and the boolean returned. */
  datatype Registered = Registered(index: Index, ok: bool)

  /** The result of `Impl::Remove`: the new index and the descriptor passed
      to `inotify_rm_watch`, if any. */
  datatype Removed = Removed(index: Index, released: Option<int>)

  /** The value `inotify_add_watch` returns on failure. */
  const AddWatchFailed: int := -1

  const Empty: Index := Index(map[], map[])

  /** The two maps are mutual inverses: each owner has at most one
      descriptor, each descriptor at most one owner, and they agree. */
  ghost predicate Inverse(ix: Index) {
    && (forall o :: o in ix.oidWfd ==> ix.oidWfd[o] in ix.wfdOid && ix.wfdOid[ix.oidWfd[o]] == o)
    && (forall w :: w in ix.wfdOid ==> ix.wfdOid[w] in ix.oidWfd && ix.oidWfd[ix.wfdOid[w]] == w)
  }

  /** The failure value never appears as a descriptor. */
  ghost predicate NoFailedDescriptor(ix: Index) {
    AddWatchFailed !in ix.wfdOid && AddWatchFailed !in ix.oidWfd.Values
  }

  /** Owner `o` and descriptor `w` are linked both ways. */
  ghost predicate Linked(ix: Index, o: int, w: int) {
    o in ix.oidWfd && ix.oidWfd[o] == w && w in ix.wfdOid && ix.wfdOid[w] == o
  }

  lemma EmptyIsInverse()
    ensures Inverse(Empty) && NoFailedDescriptor(Empty)
  {
  }

  /** `Impl::Register`: on add-watch failure return false and change nothing;
      otherwise emplace into both maps (never overwriting) and return true. */
  function Register(ix: Index, owner: int, addWatch: int): (res: Registered)
    ensures res.ok <==> addWatch != AddWatchFailed
    ensures !res.ok ==> res.index == ix
    ensures res.ok ==> res.index.oidWfd.Keys == ix.oidWfd.Keys + {owner}
    ensures res.ok ==> res.index.wfdOid.Keys == ix.wfdOid.Keys + {addWatch}
    ensures forall o :: o in ix.oidWfd ==> res.index.oidWfd[o] == ix.oidWfd[o]
    ensures forall w :: w in ix.wfdOid ==> res.index.wfdOid[w] == ix.wfdOid[w]
    ensures res.ok && owner !in ix.oidWfd ==> res.index.oidWfd[owner] == addWatch
    ensures res.ok && addWatch !in ix.wfdOid ==> res.index.wfdOid[addWatch] == owner
    ensures NoFailedDescriptor(ix) ==> NoFailedDescriptor(res.index)
  {
    if addWatch == AddWatchFailed then Registered(ix, false)
    else Registered(Index(Emplace(ix.oidWfd, owner, addWatch), Emplace(ix.wfdOid, addWatch, owner)), true)
  }

  /** `Impl::Remove`: an unknown owner is a no-op; a known owner loses its
      entry, its descriptor loses its entry, and that descriptor is released. */
  function Remove(ix: Index, owner: int): (res: Removed)
    ensures owner !in ix.oidWfd ==> res == Removed(ix, None)
    ensures owner in ix.oidWfd ==> res.released == Some(ix.oidWfd[owner])
    ensures res.index.oidWfd.Keys == ix.oidWfd.Keys - {owner}
    ensures owner in ix.oidWfd ==> res.index.wfdOid.Keys == ix.wfdOid.Keys - {ix.oidWfd[owner]}
    ensures forall o :: o in res.index.oidWfd ==> res.index.oidWfd[o] == ix.oidWfd[o]
    ensures forall w :: w in res.index.wfdOid ==> res.index.wfdOid[w] == ix.wfdOid[w]
    ensures Inverse(ix) ==> Inverse(res.index)
    ensures NoFailedDescriptor(ix) ==> NoFailedDescriptor(res.index)
  {
    if owner !in ix.oidWfd then Removed(ix, None)
    else
      var w := ix.oidWfd[owner];
      var ix' := Index(Erase(ix.oidWfd, owner), Erase(ix.wfdOid, w));
      assert Inverse(ix) ==> Inverse(ix') by {
        if Inverse(ix) {
          forall o | o in ix'.oidWfd
            ensures ix'.oidWfd[o] in ix'.wfdOid && ix'.wfdOid[ix'.oidWfd[o]] == o
          {
            assert ix.oidWfd[o] != w;
          }
        }
      }
      Removed(ix', Some(w))
  }

  /** Starting from mutual inverses, a successful `Register` keeps them
      mutual inverses exactly when the owner and the descriptor are either
      both new or both already present. In particular a fresh owner whose
      descriptor is already watched (inotify returns the same descriptor for
      the same inode) breaks the inverse. */
  lemma RegisterKeepsInverseIff(ix: Index, owner: int, addWatch: int)
    requires Inverse(ix)
    requires addWatch != AddWatchFailed
    ensures Inverse(Register(ix, owner, addWatch).index) <==> (owner in ix.oidWfd <==> addWatch in ix.wfdOid)
  {
    var ix' := Register(ix, owner, addWatch).index;
    if owner in ix.oidWfd && addWatch !in ix.wfdOid {
      assert ix'.wfdOid[addWatch] == owner;
      assert ix'.oidWfd[owner] == ix.oidWfd[owner] != addWatch;
    } else if owner !in ix.oidWfd && addWatch in ix.wfdOid {
      assert ix'.oidWfd[owner] == addWatch;
      assert ix'.wfdOid[addWatch] == ix.wfdOid[addWatch] != owner;
    } else if owner !in ix.oidWfd && addWatch !in ix.wfdOid {
      forall o | o in ix'.oidWfd
        ensures ix'.oidWfd[o] in ix'.wfdOid && ix'.wfdOid[ix'.oidWfd[o]] == o
      {
        if o != owner {
          assert ix.oidWfd[o] != addWatch;
        }
      }
      forall w | w in ix'.wfdOid
        ensures ix'.wfdOid[w] in ix'.oidWfd && ix'.oidWfd[ix'.wfdOid[w]] == w
      {
        if w != addWatch {
          assert ix.wfdOid[w] != owner;
        }
      }
    }
  }

  /** A second owner on an already-watched descriptor: `Register` reports
      success, but the descriptor still resolves to the first owner. */
  lemma SecondOwnerOnSameDescriptor()
    ensures var ix := Register(Empty, 1, 5).index;
            var res := Register(ix, 2, 5);
            && Inverse(ix)
            && res.ok
            && res.index.oidWfd[2] == 5
            && res.index.wfdOid[5] == 1
            && !Inverse(res.index)
  {
  }

  /** Continuing that scenario: removing the second owner erases the first
      owner's descriptor entry and releases the watch they share. */
  lemma RemovingSecondOwnerUnlinksFirst()
    ensures var ix := Register(Register(Empty, 1, 5).index, 2, 5).index;
            var res := Remove(ix, 2);
            && res.released == Some(5)
            && 1 in res.index.oidWfd
            && 5 !in res.index.wfdOid
  {
  }
}
