/** The handle registry: a counter-issued map from integer handles to nodes.
    `counter` is the last handle issued; every `Register` increments it and
    `Remove` never touches it, so handles are never reused. */
module HandleRegistry {
  import opened Wrappers
  import opened Maps

  datatype Registry<Node> = Registry(counter: int, entries: map<int, Node>)

  /** The result of `Register`: the new state and the handle returned. */
  datatype Issued<Node> = Issued(registry: Registry<Node>, handle: int)

  /** Every live handle was issued no later than the current counter value,
      so the next handle (`counter + 1`) is always fresh. */
  ghost predicate Valid<Node>(r: Registry<Node>) {
    forall h :: h in r.entries ==> h <= r.counter
  }

  /** A freshly constructed registry. The source never initialises the
      counter, so its starting value is a parameter here. */
  function Create<Node>(start: int): (r: Registry<Node>)
    ensures Valid(r)
    ensures r.counter == start
    ensures forall h :: !IsRegistered(r, h)
  {
    Registry(start, map[])
  }

  /** `IsRegistered`: whether `h` currently names an entry. */
  predicate IsRegistered<Node>(r: Registry<Node>, h: int)
    ensures Valid(r) && h > r.counter ==> !IsRegistered(r, h)
  {
    h in r.entries
  }

  /** `Get`: the node registered under `h`; `None` stands for the
      `std::out_of_range` that `map::at` throws for an unknown handle. */
  function Get<Node>(r: Registry<Node>, h: int): (res: Option<Node>)
    ensures res.Some? <==> IsRegistered(r, h)
    ensures res.Some? ==> h in r.entries && r.entries[h] == res.value
  {
    if h in r.entries then Some(r.entries[h]) else None
  }

  /** `Register` (both the copying and the moving overload): increment the
      counter, emplace the node under the new value, return that value. */
  function Register<Node>(r: Registry<Node>, node: Node): (res: Issued<Node>)
    ensures res.handle == r.counter + 1
    ensures res.registry.counter == res.handle
    ensures IsRegistered(res.registry, res.handle)
    ensures forall h :: h != res.handle ==> Get(res.registry, h) == Get(r, h)
    ensures Valid(r) ==> Valid(res.registry)
    ensures Valid(r) ==> Get(res.registry, res.handle) == Some(node)
  {
    var h := r.counter + 1;
    Issued(Registry(h, Emplace(r.entries, h, node)), h)
  }

  /** `Remove`: erase `h`, tolerating an absent handle; the counter stays. */
  function Remove<Node>(r: Registry<Node>, h: int): (r': Registry<Node>)
    ensures r'.counter == r.counter
    ensures !IsRegistered(r', h)
    ensures forall k :: k != h ==> Get(r', k) == Get(r, k)
    ensures Valid(r) ==> Valid(r')
  {
    Registry(r.counter, Erase(r.entries, h))
  }

  /** Without the invariant, `emplace` may find the new handle already taken
      and keep the old node: `Register` then returns a handle whose `Get`
      is not the node just registered. */
  lemma RegisterNeedsValid()
    ensures var r := Registry(0, map[1 := "old"]);
            var res := Register(r, "new");
            !Valid(r) && res.handle == 1 && Get(res.registry, 1) == Some("old")
  {
  }

  /** Removing an absent handle changes nothing. */
  lemma RemoveAbsentIsNoOp<Node>(r: Registry<Node>, h: int)
    requires !IsRegistered(r, h)
    ensures Remove(r, h) == r
  {
  }

  /** Removing twice is removing once. */
  lemma RemoveIdempotent<Node>(r: Registry<Node>, h: int)
    ensures Remove(Remove(r, h), h) == Remove(r, h)
  {
  }

  /** Registering and then removing the new handle restores every entry;
      only the counter has moved on. */
  lemma RegisterThenRemove<Node>(r: Registry<Node>, node: Node)
    requires Valid(r)
    ensures var res := Register(r, node);
            Remove(res.registry, res.handle) == Registry(r.counter + 1, r.entries)
  {
    var res := Register(r, node);
    assert r.counter + 1 !in r.entries;
    assert Remove(res.registry, res.handle).entries == r.entries;
  }

  /** A sequence of calls against the registry. */
  datatype Op<Node> = RegisterOp(node: Node) | RemoveOp(handle: int)

  /** The final state and the handles returned, in call order. */
  datatype Trace<Node> = Trace(registry: Registry<Node>, issued: seq<int>)

  function Run<Node>(r: Registry<Node>, ops: seq<Op<Node>>): Trace<Node>
    decreases |ops|
  {
    if |ops| == 0 then Trace(r, [])
    else match ops[0]
      case RegisterOp(n) =>
        var res := Register(r, n);
        var t := Run(res.registry, ops[1..]);
        Trace(t.registry, [res.handle] + t.issued)
      case RemoveOp(h) => Run(Remove(r, h), ops[1..])
  }

  /** Over any sequence of Register/Remove calls the k-th handle returned is
      `start + 1 + k`, the final counter is the last handle returned, and
      the invariant is kept throughout. */
  lemma {:induction false} RunIssuesConsecutiveHandles<Node>(r: Registry<Node>, ops: seq<Op<Node>>)
    ensures var t := Run(r, ops);
            && t.registry.counter == r.counter + |t.issued|
            && (forall k :: 0 <= k < |t.issued| ==> t.issued[k] == r.counter + 1 + k)
            && (Valid(r) ==> Valid(t.registry))
    decreases |ops|
  {
    if |ops| > 0 {
      match ops[0]
      case RegisterOp(n) =>
        RunIssuesConsecutiveHandles(Register(r, n).registry, ops[1..]);
      case RemoveOp(h) =>
        RunIssuesConsecutiveHandles(Remove(r, h), ops[1..]);
    }
  }

  /** Handles are strictly increasing and all lie above the starting
      counter, so no handle issued (or removed) before is ever issued again. */
  lemma HandlesNeverReused<Node>(r: Registry<Node>, ops: seq<Op<Node>>)
    ensures var t := Run(r, ops);
            && (forall i, j :: 0 <= i < j < |t.issued| ==> t.issued[i] < t.issued[j])
            && (forall k :: 0 <= k < |t.issued| ==> r.counter < t.issued[k])
  {
    RunIssuesConsecutiveHandles(r, ops);
  }

  /** A handle that was live when removed is never handed out again. */
  lemma RemovedHandleNeverReissued<Node>(r: Registry<Node>, h: int, ops: seq<Op<Node>>)
    requires Valid(r)
    requires IsRegistered(r, h)
    ensures h !in Run(Remove(r, h), ops).issued
  {
    RunIssuesConsecutiveHandles(Remove(r, h), ops);
  }
}
