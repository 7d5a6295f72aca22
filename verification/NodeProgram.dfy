// Programs over node handles: real handle objects, whose contents follow the world of
// NodeHandle operation by operation.
module NodeProgram {
  import opened NodeHandle

  class Program {
    var handles: map<HandleId, Handle>
    const log: Log
    const pocma: bool
    const pocs: bool
    ghost var world: World

    // Distinct names stand for distinct objects, and the objects and the log hold what
    // the world says.
    ghost predicate Valid()
      reads this, log, handles.Values
    {
      && handles.Keys == world.slots.Keys && log.freed == world.freed
      && (forall h :: h in handles ==> handles[h].Valid() && handles[h].Value() == world.slots[h])
      && (forall g, h :: g in handles && h in handles && g != h ==> handles[g] != handles[h])
    }

    constructor (pocma: bool, pocs: bool)
      ensures Valid() && world == START && fresh(log) && handles == map[]
      ensures this.pocma == pocma && this.pocs == pocs
    {
      handles, world := map[], START;
      this.pocma, this.pocs := pocma, pocs;
      log := new Log();
    }

    method Default(h: HandleId)
      requires Valid() && CanDo(world, Op.Default(h))
      modifies this
      ensures Valid() && world == Do(old(world), Op.Default(h), pocma, pocs)
      ensures fresh(handles.Values - old(handles.Values))
    {
      var handle := new Handle();
      handles := handles[h := handle];
      world := Do(world, Op.Default(h), pocma, pocs);
    }

    method MakeFrom(h: HandleId, node: NodeId, alloc: Alloc)
      requires Valid() && CanDo(world, Op.MakeFrom(h, node, alloc))
      modifies this
      ensures Valid() && world == Do(old(world), Op.MakeFrom(h, node, alloc), pocma, pocs)
      ensures fresh(handles.Values - old(handles.Values))
    {
      var handle := new Handle.Make(node, alloc);
      handles := handles[h := handle];
      world := Do(world, Op.MakeFrom(h, node, alloc), pocma, pocs);
    }

    method MoveConstruct(h: HandleId, from: HandleId)
      requires Valid() && CanDo(world, Op.MoveConstruct(h, from))
      modifies this, handles.Values
      ensures Valid() && world == Do(old(world), Op.MoveConstruct(h, from), pocma, pocs)
      ensures fresh(handles.Values - old(handles.Values))
    {
      var handle := new Handle.Move(handles[from]);
      handles := handles[h := handle];
      world := Do(world, Op.MoveConstruct(h, from), pocma, pocs);
    }

    method MoveAssign(h: HandleId, from: HandleId)
      requires Valid() && CanDo(world, Op.MoveAssign(h, from))
      modifies this`world, log, handles.Values
      ensures Valid() && world == Do(old(world), Op.MoveAssign(h, from), pocma, pocs)
    {
      hide Taken, Mixes, Frees;
      handles[h].Assign(handles[from], pocma, log);
      world := Do(world, Op.MoveAssign(h, from), pocma, pocs);
    }

    method SwapWith(h: HandleId, other: HandleId)
      requires Valid() && CanDo(world, Op.SwapWith(h, other))
      modifies this`world, handles.Values
      ensures Valid() && world == Do(old(world), Op.SwapWith(h, other), pocma, pocs)
    {
      SwapSlots(world, h, other, pocma, pocs);
      hide Taken, Do;
      handles[h].Swap(handles[other], pocs);
      world := Do(world, Op.SwapWith(h, other), pocma, pocs);
    }

    method ReleaseNode(h: HandleId) returns (node: NodeId)
      requires Valid() && CanDo(world, Op.ReleaseNode(h))
      modifies this`world, handles.Values
      ensures Valid() && world == Do(old(world), Op.ReleaseNode(h), pocma, pocs) && node == old(world).slots[h].node
    {
      node := handles[h].Release();
      world := Do(world, Op.ReleaseNode(h), pocma, pocs);
    }

    method Destroy(h: HandleId)
      requires Valid() && CanDo(world, Op.Destroy(h))
      modifies this, log, handles.Values
      ensures Valid() && world == Do(old(world), Op.Destroy(h), pocma, pocs)
      ensures handles.Values <= old(handles.Values)
    {
      handles[h].Clear(log);
      handles := handles - {h};
      world := Do(world, Op.Destroy(h), pocma, pocs);
    }

    // One operation on the objects is one operation on the world.
    method Perform(op: Op)
      requires Valid() && CanDo(world, op)
      modifies this, log, handles.Values
      ensures Valid() && world == Do(old(world), op, pocma, pocs)
      ensures fresh(handles.Values - old(handles.Values))
    {
      hide CanDo, Do;
      match op {
        case Default(h) => Default(h);
        case MakeFrom(h, node, alloc) => MakeFrom(h, node, alloc);
        case MoveConstruct(h, from) => MoveConstruct(h, from);
        case MoveAssign(h, from) => MoveAssign(h, from);
        case SwapWith(h, other) => SwapWith(h, other);
        case ReleaseNode(h) => var node := ReleaseNode(h);
        case Destroy(h) => Destroy(h);
      }
    }

    // So programs on objects are runs of the world, and conserve nodes.
    method Run(ops: seq<Op>)
      requires Valid() && Allowed(world, ops, pocma, pocs) && Conserved(world)
      modifies this, log, handles.Values
      ensures Valid() && world == DoAll(old(world), ops, pocma, pocs) && Conserved(world)
      decreases |ops|
    {
      hide CanDo, Do, Conserved, Valid;
      if ops != [] {
        DoConserves(world, ops[0], pocma, pocs);
        Perform(ops[0]);
        Run(ops[1..]);
      }
    }
  }

  lemma SwapSlots(w: World, h: HandleId, other: HandleId, pocma: bool, pocs: bool)
    requires CanDo(w, SwapWith(h, other))
    ensures var r := Do(w, SwapWith(h, other), pocma, pocs);
            && r.slots.Keys == w.slots.Keys && r.freed == w.freed && (h == other ==> r == w)
            && (forall g :: g in w.slots && g != h && g != other ==> r.slots[g] == w.slots[g])
            && (h != other ==> r.slots[h] == Taken(w.slots[h], w.slots[other], pocs))
            && (h != other ==> r.slots[other] == Taken(w.slots[other], w.slots[h], pocs))
  {
  }

  // Each operation of the sequence is one the caller may do when its turn comes.
  ghost predicate Allowed(w: World, ops: seq<Op>, pocma: bool, pocs: bool)
    decreases |ops|
  {
    ops == [] || (CanDo(w, ops[0]) && Allowed(Do(w, ops[0], pocma, pocs), ops[1..], pocma, pocs))
  }
}
