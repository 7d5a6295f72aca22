// Node handles: a pointer to a node taken from a container, and raw storage that
// holds a live allocator exactly while the pointer is not null.
module NodeHandle {

  datatype Option<T> = None | Some(value: T)

  type NodeId = int
  type Alloc = int

  // What a handle stands for.
  datatype Slot = Empty | Holding(node: NodeId, alloc: Alloc)

  // Which node was deallocated, and through which allocator.
  datatype Free = Free(node: NodeId, alloc: Alloc)

  // The deallocations so far.
  class Log {
    var freed: seq<Free>

    constructor ()
      ensures freed == []
    {
      freed := [];
    }
  }

  // What a handle holds after taking over the contents of another one.  The
  // allocator comes along unless both had one and it does not propagate.
  function Taken(dst: Slot, src: Slot, propagate: bool): (r: Slot)
  {
    if dst.Empty? || src.Empty? then src else Holding(src.node, if propagate then src.alloc else dst.alloc)
  }

  function Frees(slot: Slot): (r: seq<Free>)
  {
    if slot.Empty? then [] else [Free(slot.node, slot.alloc)]
  }

  class Handle {
    var ptr: Option<NodeId>
    var storage: Option<Alloc>  // None is raw memory without a live object

    ghost predicate Valid()
      reads this
    {
      ptr.Some? <==> storage.Some?
    }

    ghost function Value(): (s: Slot)
      requires Valid()
      reads this
    {
      if ptr.None? then Empty else Holding(ptr.value, storage.value)
    }

    constructor ()
      ensures Valid() && Value() == Empty
    {
      ptr, storage := None, None;
    }

    // _Make
    constructor Make(node: NodeId, alloc: Alloc)
      ensures Valid() && Value() == Holding(node, alloc)
    {
      ptr, storage := Some(node), Some(alloc);
    }

    constructor Move(that: Handle)
      requires that.Valid()
      modifies that
      ensures Valid() && Value() == old(that.Value())
      ensures that.Valid() && that.Value() == Empty
    {
      ptr, storage := that.ptr, None;
      new;
      if ptr.Some? {
        that.ptr := None;
        var moved := that.storage.value;
        ConstructInPlace(moved);
        that.DestroyInPlace();
      }
    }

    // Constructing over a live object, or destroying what is not there, would
    // be an error.
    method ConstructInPlace(alloc: Alloc)
      requires storage.None?
      modifies this`storage
      ensures storage == Some(alloc)
    {
      storage := Some(alloc);
    }

    method DestroyInPlace()
      requires storage.Some?
      modifies this`storage
      ensures storage == None
    {
      storage := None;
    }

    // _Clear, which is also what the destructor does.
    method Clear(log: Log)
      requires Valid()
      modifies this, log
      ensures Valid() && Value() == Empty
      ensures log.freed == old(log.freed) + Frees(old(Value()))
    {
      if ptr.Some? {
        log.freed := log.freed + [Free(ptr.value, storage.value)];
        DestroyInPlace();
        ptr := None;
      }
    }

    // Move assignment.  A handle assigned to itself ends up empty.
    method Assign(that: Handle, pocma: bool, log: Log)
      requires Valid() && that.Valid()
      modifies this, that, log
      ensures Valid() && that.Valid()
      ensures this != that ==> Value() == Taken(old(Value()), old(that.Value()), pocma)
      ensures that.Value() == Empty
      ensures log.freed == old(log.freed) + Frees(old(Value()))
    {
      if ptr.None? {
        if that.ptr.Some? {
          var moved := that.storage.value;
          ConstructInPlace(moved);
          that.DestroyInPlace();
          ptr := that.ptr;
          that.ptr := None;
        }
        return;
      }
      if that.ptr.None? || this == that {
        Clear(log);
        return;
      }
      log.freed := log.freed + [Free(ptr.value, storage.value)];
      if pocma {
        storage := that.storage;
      }
      that.DestroyInPlace();
      ptr := that.ptr;
      that.ptr := None;
    }

    method Release() returns (node: NodeId)
      requires Valid() && Value().Holding?
      modifies this
      ensures Valid() && Value() == Empty && node == old(Value()).node
    {
      DestroyInPlace();
      node := ptr.value;
      ptr := None;
    }

    method Swap(that: Handle, pocs: bool)
      requires Valid() && that.Valid()
      modifies this, that
      ensures Valid() && that.Valid()
      ensures this != that ==> Value() == Taken(old(Value()), old(that.Value()), pocs)
      ensures this != that ==> that.Value() == Taken(old(that.Value()), old(Value()), pocs)
      ensures this == that ==> Value() == old(Value())
    {
      if ptr.Some? {
        if that.ptr.Some? {
          if pocs {
            var alloc := storage;
            storage := that.storage;
            that.storage := alloc;
          }
        } else {
          that.ConstructInPlace(storage.value);
          DestroyInPlace();
        }
      } else {
        if that.ptr.None? {
          return;
        }
        ConstructInPlace(that.storage.value);
        that.DestroyInPlace();
      }
      var own := ptr;
      ptr := that.ptr;
      that.ptr := own;
    }
  }

  // --- every sequence of operations ---

  type HandleId = int

  datatype Op =
    | Default(h: HandleId)
    | MakeFrom(h: HandleId, node: NodeId, alloc: Alloc)
    | MoveConstruct(h: HandleId, from: HandleId)
    | MoveAssign(h: HandleId, from: HandleId)
    | SwapWith(h: HandleId, other: HandleId)
    | ReleaseNode(h: HandleId)
    | Destroy(h: HandleId)

  // All handles alive, the allocator each node came from, the nodes handed back
  // to a caller, and the log.  mixed records whether two handles with unequal
  // allocators that do not propagate were ever combined, which the standard forbids.
  datatype World = World(slots: map<HandleId, Slot>, home: map<NodeId, Alloc>, released: set<NodeId>, freed: seq<Free>,
                         mixed: bool)

  const START := World(map[], map[], {}, [], false)

  predicate CanDo(w: World, op: Op)
  {
    match op
    case Default(h) => h !in w.slots
    // The node is new, or was released and is extracted again.
    case MakeFrom(h, node, alloc) => h !in w.slots && (node !in w.home || (node in w.released && w.home[node] == alloc))
    case MoveConstruct(h, from) => h !in w.slots && from in w.slots
    case MoveAssign(h, from) => h in w.slots && from in w.slots
    case SwapWith(h, other) => h in w.slots && other in w.slots
    case ReleaseNode(h) => h in w.slots && w.slots[h].Holding?
    case Destroy(h) => h in w.slots
  }

  predicate Mixes(a: Slot, b: Slot, propagate: bool)
  {
    a.Holding? && b.Holding? && !propagate && a.alloc != b.alloc
  }

  // The effect of each operation, as the methods of Handle specify it.
  function Do(w: World, op: Op, pocma: bool, pocs: bool): (r: World)
    requires CanDo(w, op)
  {
    match op
    case Default(h) => w.(slots := w.slots[h := Empty])
    case MakeFrom(h, node, alloc) =>
      w.(slots := w.slots[h := Holding(node, alloc)], home := w.home[node := alloc], released := w.released - {node})
    case MoveConstruct(h, from) => w.(slots := w.slots[h := w.slots[from]][from := Empty])
    case MoveAssign(h, from) =>
      w.(slots := w.slots[h := Taken(w.slots[h], w.slots[from], pocma)][from := Empty],
         freed := w.freed + Frees(w.slots[h]),
         mixed := w.mixed || (h != from && Mixes(w.slots[h], w.slots[from], pocma)))
    case SwapWith(h, other) =>
      if h == other then w
      else
        var a, b := w.slots[h], w.slots[other];
        w.(slots := w.slots[h := Taken(a, b, pocs)][other := Taken(b, a, pocs)], mixed := w.mixed || Mixes(a, b, pocs))
    case ReleaseNode(h) => w.(slots := w.slots[h := Empty], released := w.released + {w.slots[h].node})
    case Destroy(h) => w.(slots := w.slots - {h}, freed := w.freed + Frees(w.slots[h]))
  }

  predicate Owns(w: World, h: HandleId, node: NodeId)
  {
    h in w.slots && w.slots[h].Holding? && w.slots[h].node == node
  }

  predicate InLog(w: World, node: NodeId)
  {
    exists k :: 0 <= k < |w.freed| && w.freed[k].node == node
  }

  ghost predicate Owned(w: World, node: NodeId)
  {
    exists h: HandleId :: Owns(w, h, node)
  }

  ghost predicate OwnersDistinct(w: World)
  {
    forall h: HandleId, g: HandleId, node: NodeId :: Owns(w, h, node) && Owns(w, g, node) ==> h == g
  }

  ghost predicate FreedOnce(w: World)
  {
    forall j, k :: 0 <= j < k < |w.freed| ==> w.freed[j].node != w.freed[k].node
  }

  // Exactly one of: some handle owns the node, it was released, it was freed.
  ghost predicate OneFate(w: World, node: NodeId)
  {
    && (node in w.home <==> node in w.released || InLog(w, node) || Owned(w, node))
    && !(node in w.released && InLog(w, node))
    && !(node in w.released && Owned(w, node))
    && !(InLog(w, node) && Owned(w, node))
  }

  // Every node is in the hands of the allocator it came from.
  ghost predicate Matched(w: World)
  {
    && (forall h: HandleId, node: NodeId :: Owns(w, h, node) ==> node in w.home && w.slots[h].alloc == w.home[node])
    && (forall k :: 0 <= k < |w.freed| ==> w.freed[k].node in w.home && w.freed[k].alloc == w.home[w.freed[k].node])
  }

  lemma FreeInLog(w: World, slot: Slot, r: World, node: NodeId)
    requires r.freed == w.freed + Frees(slot)
    ensures InLog(r, node) <==> InLog(w, node) || (slot.Holding? && slot.node == node)
  {
    if InLog(w, node) {
      var k :| 0 <= k < |w.freed| && w.freed[k].node == node;
      assert r.freed[k].node == node;
    }
    if slot.Holding? && slot.node == node {
      assert r.freed[|w.freed|].node == node;
    }
  }

  lemma OwnsIsOwned(w: World, h: HandleId, node: NodeId)
    requires Owns(w, h, node)
    ensures Owned(w, node)
  {
  }

  // The part of the invariant that does not speak of allocators.
  ghost predicate Conserved(w: World)
  {
    OwnersDistinct(w) && FreedOnce(w) && forall node: NodeId :: OneFate(w, node)
  }

  // Handle h gives up what it holds, to the log or to the caller.
  lemma GivenUp(w: World, r: World, h: HandleId)
    requires Conserved(w) && h in w.slots && r.home == w.home
    requires forall g: HandleId, node: NodeId :: Owns(r, g, node) <==> Owns(w, g, node) && g != h
    requires || (r.released == w.released && r.freed == w.freed + Frees(w.slots[h]))
             || (r.freed == w.freed && w.slots[h].Holding? && r.released == w.released + {w.slots[h].node})
    ensures Conserved(r)
  {
    forall node: NodeId
      ensures OneFate(r, node)
    {
      GivenUpFate(w, r, h, node);
    }
    assert FreedOnce(r) by {
      if w.slots[h].Holding? {
        OwnsIsOwned(w, h, w.slots[h].node);
        assert OneFate(w, w.slots[h].node);
      }
      hide Owned;
    }
  }

  lemma GivenUpFate(w: World, r: World, h: HandleId, node: NodeId)
    requires OwnersDistinct(w) && OneFate(w, node) && h in w.slots && r.home == w.home
    requires forall g: HandleId, n: NodeId :: Owns(r, g, n) <==> Owns(w, g, n) && g != h
    requires || (r.released == w.released && r.freed == w.freed + Frees(w.slots[h]))
             || (r.freed == w.freed && w.slots[h].Holding? && r.released == w.released + {w.slots[h].node})
    ensures OneFate(r, node)
  {
    assert Owned(r, node) <==> Owned(w, node) && !Owns(w, h, node);
    if Owns(w, h, node) {
      OwnsIsOwned(w, h, node);
    }
    if r.freed == w.freed {
      assert InLog(r, node) == InLog(w, node);
    } else {
      FreeInLog(w, w.slots[h], r, node);
    }
    hide Owned, InLog;
  }

  // Two handles exchange their nodes.
  lemma Exchanged(w: World, r: World, h: HandleId, g: HandleId)
    requires Conserved(w) && r.home == w.home && r.released == w.released && r.freed == w.freed
    requires forall i: HandleId, node: NodeId ::
               Owns(r, i, node) <==> Owns(w, if i == h then g else if i == g then h else i, node)
    ensures Conserved(r)
  {
    forall node: NodeId
      ensures OneFate(r, node)
    {
      assert OneFate(w, node);
      if i: HandleId :| Owns(r, i, node) {
        OwnsIsOwned(w, if i == h then g else if i == g then h else i, node);
      }
      if i: HandleId :| Owns(w, i, node) {
        OwnsIsOwned(r, if i == h then g else if i == g then h else i, node);
      }
      assert InLog(r, node) == InLog(w, node);
    }
  }

  // A handle appears with a node nobody has.
  lemma Gained(w: World, r: World, h: HandleId, x: NodeId)
    requires Conserved(w) && (x !in w.home || x in w.released) && r.home.Keys == w.home.Keys + {x}
    requires r.released == w.released - {x} && r.freed == w.freed
    requires forall g: HandleId, node: NodeId :: Owns(r, g, node) <==> Owns(w, g, node) || (g == h && node == x)
    ensures Conserved(r)
  {
    assert OneFate(w, x);
    assert !Owned(w, x);
    forall node: NodeId
      ensures OneFate(r, node)
    {
      assert OneFate(w, node);
      assert Owns(r, h, x);
      assert Owned(r, node) <==> Owned(w, node) || node == x;
      assert InLog(r, node) == InLog(w, node);
    }
  }

  lemma DoConserves(w: World, op: Op, pocma: bool, pocs: bool)
    requires Conserved(w) && CanDo(w, op)
    ensures Conserved(Do(w, op, pocma, pocs))
  {
    var r := Do(w, op, pocma, pocs);
    match op {
      case Default(h) => hide Conserved; Exchanged(w, r, h, h);
      case MakeFrom(h, node, alloc) => hide Conserved; Gained(w, r, h, node);
      case MoveConstruct(h, from) => hide Conserved; Exchanged(w, r, h, from);
      case MoveAssign(h, from) =>
        hide Conserved;
        var cleared := w.(slots := w.slots[h := Empty], freed := w.freed + Frees(w.slots[h]));
        GivenUp(w, cleared, h);
        if h == from {
          Exchanged(cleared, r, h, h);
        } else {
          Exchanged(cleared, r, h, from);
        }
      case SwapWith(h, other) => hide Conserved; Exchanged(w, r, h, other);
      case ReleaseNode(h) => hide Conserved; GivenUp(w, r, h);
      case Destroy(h) => hide Conserved; GivenUp(w, r, h);
    }
  }

  // As long as the allocator requirements of the standard are met, every node
  // stays with, and is freed through, the allocator it came from.
  lemma DoMatches(w: World, op: Op, pocma: bool, pocs: bool)
    requires Conserved(w) && (!w.mixed ==> Matched(w)) && CanDo(w, op)
    ensures !Do(w, op, pocma, pocs).mixed ==> Matched(Do(w, op, pocma, pocs))
  {
    var r := Do(w, op, pocma, pocs);
    if !r.mixed {
      forall h: HandleId, node: NodeId | Owns(r, h, node)
        ensures node in r.home && r.slots[h].alloc == r.home[node]
      {
        assert forall g: HandleId :: g in w.slots && w.slots[g].Holding? ==> Owns(w, g, w.slots[g].node);
      }
      forall k | 0 <= k < |r.freed|
        ensures r.freed[k].node in r.home && r.freed[k].alloc == r.home[r.freed[k].node]
      {
        assert forall g: HandleId :: g in w.slots && w.slots[g].Holding? ==> Owns(w, g, w.slots[g].node);
      }
    }
  }

  // And the first operation that does not meet them puts a node into other hands: a
  // handle that holds a node keeps its own allocator unless allocators propagate.
  lemma MismatchIff(w: World, op: Op, pocma: bool, pocs: bool)
    requires Conserved(w) && Matched(w) && !w.mixed && CanDo(w, op)
    ensures var r := Do(w, op, pocma, pocs); Matched(r) <==> !r.mixed
  {
    var r := Do(w, op, pocma, pocs);
    if r.mixed {
      var h, from := op.h, if op.MoveAssign? then op.from else op.other;
      assert Owns(w, from, w.slots[from].node);
      assert Owns(r, h, w.slots[from].node);
    } else {
      hide Conserved, Matched;
      DoMatches(w, op, pocma, pocs);
    }
  }

  function DoAll(w: World, ops: seq<Op>, pocma: bool, pocs: bool): (r: World)
    decreases |ops|
  {
    if ops == [] then w
    else if CanDo(w, ops[0]) then DoAll(Do(w, ops[0], pocma, pocs), ops[1..], pocma, pocs)
    else w
  }

  // Over any sequence of operations, every node is owned by exactly one handle,
  // or released, or freed exactly once, and never two of these.
  lemma {:induction false} EveryRunConserves(w: World, ops: seq<Op>, pocma: bool, pocs: bool)
    requires Conserved(w) && (!w.mixed ==> Matched(w))
    ensures var r := DoAll(w, ops, pocma, pocs); Conserved(r) && (!r.mixed ==> Matched(r))
    decreases |ops|
  {
    hide Conserved, Matched, CanDo, Do;
    if ops != [] && CanDo(w, ops[0]) {
      DoConserves(w, ops[0], pocma, pocs);
      DoMatches(w, ops[0], pocma, pocs);
      EveryRunConserves(Do(w, ops[0], pocma, pocs), ops[1..], pocma, pocs);
    }
  }

  // In particular from the start, spelled out for one node.
  lemma NodeFate(ops: seq<Op>, pocma: bool, pocs: bool, node: NodeId, h: HandleId, g: HandleId, j: nat, k: nat)
    ensures var r := DoAll(START, ops, pocma, pocs);
            && (node in r.home ==> node in r.released || InLog(r, node) || Owned(r, node))
            && !(node in r.released && InLog(r, node)) && !(node in r.released && Owned(r, node))
            && !(InLog(r, node) && Owned(r, node))
            && (Owns(r, h, node) && Owns(r, g, node) ==> h == g)
            && (j < k < |r.freed| ==> r.freed[j].node != r.freed[k].node)
            && (!r.mixed && k < |r.freed| ==> r.freed[k].node in r.home && r.freed[k].alloc == r.home[r.freed[k].node])
  {
    hide DoAll;
    EveryRunConserves(START, ops, pocma, pocs);
    assert OneFate(DoAll(START, ops, pocma, pocs), node);
  }

  // Once all handles are gone every node is back with its owner or freed.
  lemma NothingLeaks(ops: seq<Op>, pocma: bool, pocs: bool, node: NodeId)
    ensures var r := DoAll(START, ops, pocma, pocs);
            r.slots == map[] && node in r.home ==> node in r.released || InLog(r, node)
  {
    hide DoAll, InLog;
    NodeFate(ops, pocma, pocs, node, 0, 0, 0, 0);
  }
}
