/** The body of the monitoring thread for one `read`: walk the buffer,
    resolve each record's descriptor to its owner, filter on the owner's
    interest mask, and queue the owner's callback with a `FileEvent`.
    Queuing a task on the thread pool is modelled as appending to the
    returned sequence. */
module Dispatch {
  import opened Wrappers
  import opened InotifyRecord
  import opened WatchIndex

  /** What the owner table holds for one owner: its interest mask and an
      opaque identifier of its callback. */
  datatype Node = Node(eventMask: uint32, callback: nat)

  /** The event handed to a callback. */
  datatype FileEvent = FileEvent(mask: uint32, cookie: uint32, name: Bytes)

  /** One task queued on the thread pool: a callback and its argument. */
  datatype Task = Task(callback: nat, event: FileEvent)

  /** The two 32-bit masks share a set bit. */
  predicate Overlaps(a: uint32, b: uint32) {
    (a as bv32 & b as bv32) != 0
  }

  /** A record is dispatched exactly when its descriptor is indexed, that
      descriptor's owner is in the owner table, and the owner's interest
      mask shares a bit with the record's mask. */
  ghost predicate Matches(ix: Index, owners: map<int, Node>, r: Record) {
    && r.wd as int in ix.wfdOid
    && ix.wfdOid[r.wd as int] in owners
    && Overlaps(owners[ix.wfdOid[r.wd as int]].eventMask, r.mask)
  }

  /** The owner a matching record is delivered to. */
  ghost function OwnerOf(ix: Index, owners: map<int, Node>, r: Record): Node
    requires Matches(ix, owners, r)
  {
    owners[ix.wfdOid[r.wd as int]]
  }

  /** One step of the walk's loop body after the offset has advanced: the
      task queued for record `r`, if any. */
  function DispatchRecord(ix: Index, owners: map<int, Node>, r: Record): (t: Option<Task>)
    ensures t.Some? <==> Matches(ix, owners, r)
    ensures t.Some? ==> t.value.callback == OwnerOf(ix, owners, r).callback
    ensures t.Some? ==> t.value.event.mask == r.mask && t.value.event.cookie == r.cookie
    ensures t.Some? ==> t.value.event.name == r.name
  {
    if r.wd as int !in ix.wfdOid then None
    else
      var owner := ix.wfdOid[r.wd as int];
      if owner !in owners then None
      else
        var node := owners[owner];
        if !Overlaps(node.eventMask, r.mask) then None
        else Some(Task(node.callback, FileEvent(r.mask, r.cookie, r.name)))
  }

  /** The tasks queued for one record: none or one. */
  function Queued(ix: Index, owners: map<int, Node>, r: Record): seq<Task> {
    match DispatchRecord(ix, owners, r)
    case Some(t) => [t]
    case None => []
  }

  /** The tasks queued for a sequence of records, in record order. */
  function Dispatch(ix: Index, owners: map<int, Node>, rs: seq<Record>): seq<Task>
    decreases |rs|
  {
    if |rs| == 0 then [] else Queued(ix, owners, rs[0]) + Dispatch(ix, owners, rs[1..])
  }

  /** The task that a matching record produces. */
  ghost function TaskFor(ix: Index, owners: map<int, Node>, r: Record): Task
    requires Matches(ix, owners, r)
  {
    Task(OwnerOf(ix, owners, r).callback, FileEvent(r.mask, r.cookie, r.name))
  }

  /** Every task in `ts` is the task of some matching record of `rs`. */
  ghost predicate SoundFor(ix: Index, owners: map<int, Node>, rs: seq<Record>, ts: seq<Task>) {
    forall t :: t in ts ==>
      exists i :: 0 <= i < |rs| && Matches(ix, owners, rs[i]) && t == TaskFor(ix, owners, rs[i])
  }

  /** Every matching record of `rs` has its task in `ts`. */
  ghost predicate CompleteFor(ix: Index, owners: map<int, Node>, rs: seq<Record>, ts: seq<Task>) {
    forall i :: 0 <= i < |rs| && Matches(ix, owners, rs[i]) ==> TaskFor(ix, owners, rs[i]) in ts
  }

  /** A single record yields its task when it matches and nothing otherwise. */
  lemma DispatchSingle(ix: Index, owners: map<int, Node>, r: Record)
    ensures Matches(ix, owners, r) ==> Dispatch(ix, owners, [r]) == [TaskFor(ix, owners, r)]
    ensures !Matches(ix, owners, r) ==> Dispatch(ix, owners, [r]) == []
  {
    assert [r][1..] == [];
  }

  /** Dispatch distributes over concatenation: every task from an earlier
      part of the buffer is queued before every task from a later part. */
  lemma {:induction false} DispatchAppend(ix: Index, owners: map<int, Node>, a: seq<Record>, b: seq<Record>)
    ensures Dispatch(ix, owners, a + b) == Dispatch(ix, owners, a) + Dispatch(ix, owners, b)
    decreases |a|
  {
    if |a| == 0 {
      assert a + b == b;
    } else {
      assert (a + b)[0] == a[0];
      assert (a + b)[1..] == a[1..] + b;
      DispatchAppend(ix, owners, a[1..], b);
      var q := Queued(ix, owners, a[0]);
      assert Dispatch(ix, owners, a + b) == q + Dispatch(ix, owners, a[1..] + b);
      assert Dispatch(ix, owners, a) == q + Dispatch(ix, owners, a[1..]);
    }
  }

  /** Soundness: every queued task is the task of some matching record. */
  lemma {:induction false} DispatchSound(ix: Index, owners: map<int, Node>, rs: seq<Record>)
    ensures SoundFor(ix, owners, rs, Dispatch(ix, owners, rs))
    decreases |rs|
  {
    if |rs| > 0 {
      DispatchSound(ix, owners, rs[1..]);
      forall t | t in Dispatch(ix, owners, rs)
        ensures exists i :: 0 <= i < |rs| && Matches(ix, owners, rs[i]) && t == TaskFor(ix, owners, rs[i])
      {
        if t in Dispatch(ix, owners, rs[1..]) {
          var j :| 0 <= j < |rs[1..]| && Matches(ix, owners, rs[1..][j]) && t == TaskFor(ix, owners, rs[1..][j]);
          assert rs[1..][j] == rs[j + 1];
        } else {
          assert Matches(ix, owners, rs[0]) && t == TaskFor(ix, owners, rs[0]);
        }
      }
    }
  }

  /** Completeness: every matching record has its task queued. */
  lemma {:induction false} DispatchComplete(ix: Index, owners: map<int, Node>, rs: seq<Record>)
    ensures CompleteFor(ix, owners, rs, Dispatch(ix, owners, rs))
    decreases |rs|
  {
    if |rs| > 0 {
      DispatchComplete(ix, owners, rs[1..]);
      forall i | 0 <= i < |rs| && Matches(ix, owners, rs[i])
        ensures TaskFor(ix, owners, rs[i]) in Dispatch(ix, owners, rs)
      {
        if i > 0 {
          assert rs[i] == rs[1..][i - 1];
        }
      }
    }
  }

  /** Under the inverse invariant, a record delivered to owner `o` carries
      exactly the descriptor the index links to `o`. */
  lemma DeliveredToLinkedOwner(ix: Index, owners: map<int, Node>, r: Record)
    requires Inverse(ix)
    requires Matches(ix, owners, r)
    ensures Linked(ix, ix.wfdOid[r.wd as int], r.wd as int)
  {
  }

  /** An overflow record carries descriptor -1, which a successful
      registration never indexes, so it is skipped like any unknown
      descriptor: nothing is broadcast. */
  lemma OverflowRecordSkipped(ix: Index, owners: map<int, Node>, r: Record)
    requires NoFailedDescriptor(ix)
    requires r.wd == -1
    ensures DispatchRecord(ix, owners, r) == None
  {
  }

  /** After `Remove(owner)`, records on the owner's old descriptor are no
      longer delivered to anyone, whether or not the index was a pair of
      mutual inverses: when a second owner shared the descriptor, the
      first owner loses its events too. */
  lemma RemovedOwnerReceivesNothing(ix: Index, owners: map<int, Node>, owner: int, r: Record)
    requires owner in ix.oidWfd
    requires r.wd as int == ix.oidWfd[owner]
    ensures DispatchRecord(Remove(ix, owner).index, owners, r) == None
  {
  }

  /** One pass of the monitoring loop: a failed `read` (negative length)
      queues nothing; otherwise the records walked from the buffer are
      dispatched in order. */
  function CallbackPass(ix: Index, owners: map<int, Node>, read: Option<Bytes>): (ts: seq<Task>)
    ensures read.None? ==> ts == []
    ensures read.Some? ==> SoundFor(ix, owners, Walk(read.value).records, ts)
    ensures read.Some? ==> CompleteFor(ix, owners, Walk(read.value).records, ts)
  {
    match read
    case None => []
    case Some(b) =>
      var rs := Walk(b).records;
      DispatchSound(ix, owners, rs);
      DispatchComplete(ix, owners, rs);
      Dispatch(ix, owners, rs)
  }

  /** A buffer holding exactly the records `rs` queues exactly their tasks:
      the pass is sound, complete and order-preserving with respect to the
      records as the kernel wrote them. */
  lemma CallbackPassOverRecords(ix: Index, owners: map<int, Node>, rs: seq<Record>)
    requires forall i :: 0 <= i < |rs| ==> Encodable(rs[i])
    ensures CallbackPass(ix, owners, Some(EncodeAll(rs))) == Dispatch(ix, owners, rs)
  {
    WalkEncodeAll(rs);
  }
}
