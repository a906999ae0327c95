/** All the GrWindowRectangles objects of a program and the heap their
    records live in. `Holders` maps each record to the containers that hold a
    reference to it; the invariant `Inv` says that every record's reference
    count is exactly the number of its holders, and that containers sharing a
    record agree on mode and count. Against this invariant the lemmas prove
    reference-count bookkeeping, copy-on-write isolation, the sharing done by
    assignment, and the hazard of self-assignment. */
module Containers {
  import opened Rects
  import opened RefCount
  import opened WindowRectangles

  /** The address of a container object. */
  type Cid = nat

  datatype World = World(heap: RecHeap, slots: map<Cid, Windows>)

  /** The containers that hold a reference to the record at `a`. */
  function Holders(slots: map<Cid, Windows>, a: Addr): set<Cid> {
    set id | id in slots && RecOf(slots[id]) == Some(a)
  }

  /** Two containers hold the same record. */
  predicate Shares(c: Windows, d: Windows) {
    RecOf(c).Some? && RecOf(c) == RecOf(d)
  }

  /** The heap is well formed, every container is valid, every live
      record's reference count is the number of its holders (so a held
      record is live and a live record is held), and containers that share a
      record agree on mode and count. */
  predicate Inv(w: World) {
    && HeapOk(w.heap)
    && AllValid(w.heap, w.slots)
    && CountsMatch(w.heap, w.slots)
    && SharersAgree(w.slots)
  }

  /** Every container is valid against the heap. */
  predicate AllValid(h: RecHeap, slots: map<Cid, Windows>) {
    forall id :: id in slots ==> Valid(h, slots[id])
  }

  /** Every live record's reference count is the number of its holders. */
  predicate CountsMatch(h: RecHeap, slots: map<Cid, Windows>) {
    forall a :: a in h.objs ==> h.objs[a].refCnt == |Holders(slots, a)|
  }

  /** Containers that share a record agree on mode and count. */
  predicate SharersAgree(slots: map<Cid, Windows>) {
    forall i, j {:trigger Shares(slots[i], slots[j])} ::
      i in slots && j in slots && Shares(slots[i], slots[j]) ==>
      slots[i].mode == slots[j].mode && slots[i].count == slots[j].count
  }

  /** The value of the container at `id`. */
  function AbsOf(w: World, id: Cid): Value
    requires Inv(w) && id in w.slots
  {
    Abs(w.heap, w.slots[id])
  }

  /** No containers and an empty heap. */
  const EmptyWorld: World := World(Heap(map[], 0), map[])

  /*** Operations on the container at a given address ***/

  /** `GrWindowRectangles(mode)` at a fresh address. */
  function Construct(w: World, id: Cid, mode: Mode := Exclusive): World
    requires id !in w.slots
  {
    w.(slots := w.slots[id := Init(mode)])
  }

  /** `GrWindowRectangles(that)`: start empty, then assign from `src`. */
  function CopyConstruct(w: World, id: Cid, src: Cid): World
    requires Inv(w) && id !in w.slots && src in w.slots
  {
    ConstructKeepsInv(w, id, Exclusive);
    Assign(Construct(w, id, Exclusive), id, src)
  }

  /** `~GrWindowRectangles()`. */
  function Destroy(w: World, id: Cid): World
    requires Inv(w) && id in w.slots
  {
    World(WindowRectangles.Destroy(w.heap, w.slots[id]), w.slots - {id})
  }

  /** `reset(mode)`. */
  function Reset(w: World, id: Cid, mode: Mode := Exclusive): World
    requires Inv(w) && id in w.slots
  {
    var (h', c') := WindowRectangles.Reset(w.heap, w.slots[id], mode);
    World(h', w.slots[id := c'])
  }

  /** `dst = src`, as written. */
  function AssignAsWritten(w: World, dst: Cid, src: Cid): Outcome<World>
    requires Inv(w) && dst in w.slots && src in w.slots
  {
    match WindowRectangles.AssignAsWritten(w.heap, w.slots[dst], w.slots[src])
    case Ok((h', c')) => Ok(World(h', w.slots[dst := c']))
    case UseAfterFree(a) => UseAfterFree(a)
  }

  /** `dst = src`, taking the new reference before releasing the old one. */
  function Assign(w: World, dst: Cid, src: Cid): World
    requires Inv(w) && dst in w.slots && src in w.slots
  {
    var (h', c') := WindowRectangles.Assign(w.heap, w.slots[dst], w.slots[src]);
    World(h', w.slots[dst := c'])
  }

  /** `addWindow(window)`. */
  function AddWindow(w: World, id: Cid, window: Rect): World
    requires Inv(w) && id in w.slots && w.slots[id].count < MaxWindows
  {
    var (h', c') := WindowRectangles.AddWindow(w.heap, w.slots[id], window);
    World(h', w.slots[id := c'])
  }

  /** `a == b`. */
  function Equals(w: World, a: Cid, b: Cid): bool
    requires Inv(w) && a in w.slots && b in w.slots
  {
    WindowRectangles.Equals(w.heap, w.slots[a], w.slots[b])
  }

  /*** Holder bookkeeping ***/

  /** Replacing one container changes only that container's membership. */
  lemma HoldersAfterUpdate(slots: map<Cid, Windows>, id: Cid, c': Windows, a: Addr)
    requires id in slots
    ensures |Holders(slots[id := c'], a)| == |Holders(slots, a)| - Ind(RecOf(slots[id]), a) + Ind(RecOf(c'), a)
  {
    var before := Holders(slots, a);
    var after := Holders(slots[id := c'], a);
    assert after - {id} == before - {id};
    if id in before {
      assert before == (before - {id}) + {id};
    }
    if id in after {
      assert after == (after - {id}) + {id};
    }
  }

  /** When one container rebinds, every other container still points at a
      live record with the same rectangles in it. */
  lemma RebindFrame(w: World, id: Cid, h': RecHeap, c': Windows)
    requires Inv(w) && id in w.slots && HeapOk(h')
    requires Rebinds(w.heap, h', RecOf(w.slots[id]), RecOf(c'))
    requires forall a :: a in w.heap.objs && a in h'.objs && h'.objs[a].val != w.heap.objs[a].val ==>
               Holders(w.slots, a) <= {id}
    ensures forall j :: j in w.slots && j != id ==>
              Valid(h', w.slots[j]) && Abs(h', w.slots[j]) == Abs(w.heap, w.slots[j])
  {
    forall j | j in w.slots && j != id
      ensures Valid(h', w.slots[j]) && Abs(h', w.slots[j]) == Abs(w.heap, w.slots[j])
    {
      if RecOf(w.slots[j]).Some? {
        var a := w.slots[j].rec;
        assert j in Holders(w.slots[id := c'], a);
        HoldersAfterUpdate(w.slots, id, c', a);
        assert j in Holders(w.slots, a);
      }
    }
  }

  /** When one container rebinds, every live record's count is still the
      number of its holders. */
  lemma RebindCounts(w: World, id: Cid, h': RecHeap, c': Windows)
    requires Inv(w) && id in w.slots
    requires Rebinds(w.heap, h', RecOf(w.slots[id]), RecOf(c'))
    ensures CountsMatch(h', w.slots[id := c'])
  {
    forall a | a in h'.objs
      ensures h'.objs[a].refCnt == |Holders(w.slots[id := c'], a)|
    {
      HoldersAfterUpdate(w.slots, id, c', a);
      if a !in w.heap.objs {
        forall j | j in w.slots
          ensures j !in Holders(w.slots, a)
        {
          assert Valid(w.heap, w.slots[j]);
        }
        assert Holders(w.slots, a) == {};
      }
    }
  }

  /** One container letting go of its record and taking another (or none),
      with the heap changing accordingly, keeps the invariant and leaves the
      value of every other container unchanged. */
  lemma RebindKeepsInv(w: World, id: Cid, h': RecHeap, c': Windows)
    requires Inv(w) && id in w.slots
    requires HeapOk(h') && Valid(h', c')
    requires Rebinds(w.heap, h', RecOf(w.slots[id]), RecOf(c'))
    requires forall a :: a in w.heap.objs && a in h'.objs && h'.objs[a].val != w.heap.objs[a].val ==>
               Holders(w.slots, a) <= {id}
    requires forall j :: j in w.slots && j != id && Shares(c', w.slots[j]) ==>
               c'.mode == w.slots[j].mode && c'.count == w.slots[j].count
    ensures Inv(World(h', w.slots[id := c']))
    ensures forall j :: j in w.slots && j != id ==>
              Valid(h', w.slots[j]) && Abs(h', w.slots[j]) == Abs(w.heap, w.slots[j])
  {
    var slots' := w.slots[id := c'];
    RebindFrame(w, id, h', c');
    RebindCounts(w, id, h', c');
    assert AllValid(h', slots');
    RebindSharersAgree(w, id, c');
  }

  /** After one container rebinds, containers sharing a record still agree
      on mode and count, given that the rebound one agrees with its new
      sharers. */
  lemma RebindSharersAgree(w: World, id: Cid, c': Windows)
    requires Inv(w) && id in w.slots
    requires forall j :: j in w.slots && j != id && Shares(c', w.slots[j]) ==>
               c'.mode == w.slots[j].mode && c'.count == w.slots[j].count
    ensures SharersAgree(w.slots[id := c'])
  {
    var slots' := w.slots[id := c'];
    forall i, j | i in slots' && j in slots' && Shares(slots'[i], slots'[j])
      ensures slots'[i].mode == slots'[j].mode && slots'[i].count == slots'[j].count
    {
      if i != id && j != id {
        assert Shares(w.slots[i], w.slots[j]);
      } else if i == id && j != id {
        assert Shares(c', w.slots[j]);
      } else if j == id && i != id {
        assert Shares(c', w.slots[i]);
      }
    }
  }

  /*** The invariant and the operations ***/

  /** With no containers there are no records. */
  lemma EmptyWorldInv()
    ensures Inv(EmptyWorld)
  {
  }

  /** Constructing a container allocates nothing and yields the empty value
      in the requested mode. */
  lemma ConstructKeepsInv(w: World, id: Cid, mode: Mode)
    requires Inv(w) && id !in w.slots
    ensures Inv(Construct(w, id, mode))
    ensures Construct(w, id, mode).heap == w.heap
    ensures Construct(w, id, mode).slots.Keys == w.slots.Keys + {id}
    ensures AbsOf(Construct(w, id, mode), id) == Value(mode, [])
    ensures forall j :: j in w.slots ==> AbsOf(Construct(w, id, mode), j) == AbsOf(w, j)
  {
    var w' := Construct(w, id, mode);
    forall a | a in w.heap.objs
      ensures Holders(w'.slots, a) == Holders(w.slots, a)
    {
    }
  }

  /** Assignment as written agrees with the corrected assignment, and never
      touches freed memory, when source and destination are distinct: both
      then hold the record, so releasing one reference cannot free it. */
  lemma AssignAsWrittenDistinct(w: World, dst: Cid, src: Cid)
    requires Inv(w) && dst in w.slots && src in w.slots && dst != src
    ensures AssignAsWritten(w, dst, src) == Ok(Assign(w, dst, src))
  {
    var c, that := w.slots[dst], w.slots[src];
    if RecOf(c).Some? && RecOf(c) == RecOf(that) {
      SubsetCard({dst, src}, Holders(w.slots, that.rec));
    }
  }

  /** Assignment keeps the invariant and changes the value of no container
      other than the destination. */
  lemma AssignKeepsInv(w: World, dst: Cid, src: Cid)
    requires Inv(w) && dst in w.slots && src in w.slots
    ensures Inv(Assign(w, dst, src))
    ensures Assign(w, dst, src).slots.Keys == w.slots.Keys
    ensures forall j :: j in w.slots && j != dst ==> AbsOf(Assign(w, dst, src), j) == AbsOf(w, j)
  {
    var (h', c') := WindowRectangles.Assign(w.heap, w.slots[dst], w.slots[src]);
    assert Assign(w, dst, src) == World(h', w.slots[dst := c']);
    AssignStepKeepsInv(w, dst, src, h', c');
  }

  /** `AssignKeepsInv` stated on the new heap and destination directly. */
  lemma AssignStepKeepsInv(w: World, dst: Cid, src: Cid, h': RecHeap, c': Windows)
    requires Inv(w) && dst in w.slots && src in w.slots
    requires (h', c') == WindowRectangles.Assign(w.heap, w.slots[dst], w.slots[src])
    ensures Inv(World(h', w.slots[dst := c']))
    ensures forall j :: j in w.slots && j != dst ==>
              Valid(h', w.slots[j]) && Abs(h', w.slots[j]) == Abs(w.heap, w.slots[j])
  {
    AssignRebinds(w.heap, w.slots[dst], w.slots[src]);
    AssignSharersAgree(w, dst, src);
    RebindKeepsInv(w, dst, h', c');
  }

  /** Whoever else holds the record the destination takes holds it together
      with the source, so agrees with the destination's new mode and count. */
  lemma AssignSharersAgree(w: World, dst: Cid, src: Cid)
    requires Inv(w) && dst in w.slots && src in w.slots
    ensures var c' := WindowRectangles.Assign(w.heap, w.slots[dst], w.slots[src]).1;
            forall j :: j in w.slots && j != dst && Shares(c', w.slots[j]) ==>
              c'.mode == w.slots[j].mode && c'.count == w.slots[j].count
  {
    var that := w.slots[src];
    var c' := WindowRectangles.Assign(w.heap, w.slots[dst], that).1;
    forall j | j in w.slots && j != dst && Shares(c', w.slots[j])
      ensures c'.mode == w.slots[j].mode && c'.count == w.slots[j].count
    {
      assert Shares(that, w.slots[j]);
    }
  }

  /** After `dst = src` the destination equals the source, and when the
      source has a record the destination shares that very record instead of
      copying it: its count goes up by one, unless the destination already
      held it. */
  lemma AssignShares(w: World, dst: Cid, src: Cid)
    requires Inv(w) && dst in w.slots && src in w.slots
    ensures Inv(Assign(w, dst, src))
    ensures Equals(Assign(w, dst, src), dst, src)
    ensures AbsOf(Assign(w, dst, src), dst) == AbsOf(w, src)
    ensures RecOf(Assign(w, dst, src).slots[dst]) == RecOf(w.slots[src])
    ensures forall a :: RecOf(w.slots[src]) == Some(a) ==>
              a in Assign(w, dst, src).heap.objs &&
              Assign(w, dst, src).heap.objs[a].refCnt
                == w.heap.objs[a].refCnt + 1 - Ind(RecOf(w.slots[dst]), a)
  {
    AssignKeepsInv(w, dst, src);
    var (h', c') := WindowRectangles.Assign(w.heap, w.slots[dst], w.slots[src]);
    AssignRebinds(w.heap, w.slots[dst], w.slots[src]);
    var w' := World(h', w.slots[dst := c']);
    assert Assign(w, dst, src) == w';
    if dst != src {
      assert AbsOf(w', src) == AbsOf(w, src);
    }
    assert AbsOf(w', dst) == AbsOf(w, src);
  }

  /** The copy constructor keeps the invariant, adds exactly the new
      container, and changes the value of no existing container. */
  lemma CopyConstructKeepsInv(w: World, id: Cid, src: Cid)
    requires Inv(w) && id !in w.slots && src in w.slots
    ensures Inv(CopyConstruct(w, id, src))
    ensures CopyConstruct(w, id, src).slots.Keys == w.slots.Keys + {id}
    ensures forall j :: j in w.slots ==> AbsOf(CopyConstruct(w, id, src), j) == AbsOf(w, j)
  {
    var w0 := Construct(w, id, Exclusive);
    ConstructKeepsInv(w, id, Exclusive);
    AssignKeepsInv(w0, id, src);
    assert CopyConstruct(w, id, src) == Assign(w0, id, src);
  }

  /** The copy constructor runs `operator=` on a container that holds no
      record, so the order of its reference operations cannot matter: the
      code as written gives the same result as the corrected assignment. */
  lemma CopyConstructAsWritten(w: World, id: Cid, src: Cid)
    requires Inv(w) && id !in w.slots && src in w.slots
    ensures Inv(Construct(w, id, Exclusive))
    ensures AssignAsWritten(Construct(w, id, Exclusive), id, src) == Ok(CopyConstruct(w, id, src))
  {
    ConstructKeepsInv(w, id, Exclusive);
    AssignAsWrittenDistinct(Construct(w, id, Exclusive), id, src);
  }

  /** The copy constructor yields a container equal to its source that
      shares the source's record, if any, with one more reference to it. */
  lemma CopyConstructShares(w: World, id: Cid, src: Cid)
    requires Inv(w) && id !in w.slots && src in w.slots
    ensures Inv(CopyConstruct(w, id, src))
    ensures Equals(CopyConstruct(w, id, src), id, src)
    ensures RecOf(CopyConstruct(w, id, src).slots[id]) == RecOf(w.slots[src])
    ensures forall a :: RecOf(w.slots[src]) == Some(a) ==>
              a in CopyConstruct(w, id, src).heap.objs &&
              CopyConstruct(w, id, src).heap.objs[a].refCnt == w.heap.objs[a].refCnt + 1
  {
    var w0 := Construct(w, id, Exclusive);
    ConstructKeepsInv(w, id, Exclusive);
    AssignShares(w0, id, src);
    assert CopyConstruct(w, id, src) == Assign(w0, id, src);
  }

  /** Self-assignment as written: `x = x` frees `x`'s record and then takes
      a reference to it exactly when `x` holds the only reference to a
      record; in every other case it changes nothing. */
  lemma SelfAssignmentAsWritten(w: World, id: Cid)
    requires Inv(w) && id in w.slots
    ensures AssignAsWritten(w, id, id).UseAfterFree? <==>
              RecOf(w.slots[id]).Some? && Unique(w.heap, w.slots[id].rec)
    ensures AssignAsWritten(w, id, id).Ok? ==> AssignAsWritten(w, id, id) == Ok(w)
  {
    SelfAssignIsIdentity(w.heap, w.slots[id]);
    assert w.slots[id := w.slots[id]] == w.slots;
  }

  /** With the reference taken first, `x = x` changes nothing at all. */
  lemma SelfAssignment(w: World, id: Cid)
    requires Inv(w) && id in w.slots
    ensures Assign(w, id, id) == w
  {
    SelfAssignIsIdentity(w.heap, w.slots[id]);
    assert w.slots[id := w.slots[id]] == w.slots;
  }

  /** Under the invariant, a container in record form (see `RecOf`) holds a
      live record that counts it among its holders, while an inline container
      is counted by no record at all. */
  lemma StorageForm(w: World, id: Cid)
    requires Inv(w) && id in w.slots
    ensures w.slots[id].count > NumLocalWindows ==>
              w.slots[id].rec in w.heap.objs && id in Holders(w.slots, w.slots[id].rec) &&
              w.heap.objs[w.slots[id].rec].refCnt >= 1
    ensures w.slots[id].count <= NumLocalWindows ==>
              forall a :: a in w.heap.objs ==> id !in Holders(w.slots, a)
  {
  }

  /** `a` holds the only reference to its record exactly when no other
      container holds that record, so an in-place write is invisible to
      everyone else. */
  lemma UniqueIffSoleHolder(w: World, id: Cid)
    requires Inv(w) && id in w.slots && RecOf(w.slots[id]).Some?
    ensures Unique(w.heap, w.slots[id].rec) <==> Holders(w.slots, w.slots[id].rec) == {id}
  {
    var s := Holders(w.slots, w.slots[id].rec);
    assert id in s;
    if |s| == 1 {
      assert |s - {id}| == 0;
      assert s == {id};
    }
  }

  /** No record is leaked: every live record has at least one holder, and
      every holder's record is live. */
  lemma NoLeaks(w: World, a: Addr)
    requires Inv(w)
    ensures a in w.heap.objs <==> Holders(w.slots, a) != {}
  {
    if a in w.heap.objs {
      assert |Holders(w.slots, a)| >= 1;
    } else {
      forall j | j in w.slots
        ensures j !in Holders(w.slots, a)
      {
        assert Valid(w.heap, w.slots[j]);
      }
    }
  }

  /** Containers that share a record have equal values; this is why the
      identity fast path of `operator==` agrees with comparing the elements. */
  lemma SharersAreEqual(w: World, i: Cid, j: Cid)
    requires Inv(w) && i in w.slots && j in w.slots && Shares(w.slots[i], w.slots[j])
    ensures AbsOf(w, i) == AbsOf(w, j)
    ensures Equals(w, i, j)
  {
    assert w.slots[i].count == w.slots[j].count;
  }

  /** `reset(mode)` empties the container and releases exactly one reference
      to the record it held, freeing it if that was the last one. */
  lemma ResetKeepsInv(w: World, id: Cid, mode: Mode)
    requires Inv(w) && id in w.slots
    ensures Inv(Reset(w, id, mode))
    ensures AbsOf(Reset(w, id, mode), id) == Value(mode, [])
    ensures Disabled(Reset(w, id, mode).slots[id]) <==> mode == Exclusive
    ensures forall a :: RecOf(w.slots[id]) == Some(a) ==>
              (a in Reset(w, id, mode).heap.objs <==> !Unique(w.heap, a)) &&
              (a in Reset(w, id, mode).heap.objs ==>
                 Reset(w, id, mode).heap.objs[a].refCnt == w.heap.objs[a].refCnt - 1)
    ensures RecOf(w.slots[id]).None? ==> Reset(w, id, mode).heap == w.heap
    ensures forall j :: j in w.slots && j != id ==> AbsOf(Reset(w, id, mode), j) == AbsOf(w, j)
  {
    var (h', c') := WindowRectangles.Reset(w.heap, w.slots[id], mode);
    RebindKeepsInv(w, id, h', c');
  }

  /** Dropping a container that holds no record keeps the invariant. */
  lemma RemoveInlineKeepsInv(w: World, id: Cid)
    requires Inv(w) && id in w.slots && RecOf(w.slots[id]).None?
    ensures Inv(World(w.heap, w.slots - {id}))
  {
    forall a | a in w.heap.objs
      ensures Holders(w.slots - {id}, a) == Holders(w.slots, a)
    {
    }
  }

  /** The destructor releases exactly one reference to the record it held,
      freeing it if that was the last one, and touches nothing else. */
  lemma DestroyReleasesOne(w: World, id: Cid)
    requires Inv(w) && id in w.slots
    ensures forall a :: RecOf(w.slots[id]) == Some(a) ==>
              (a in Destroy(w, id).heap.objs <==> !Unique(w.heap, a)) &&
              (a in Destroy(w, id).heap.objs ==>
                 Destroy(w, id).heap.objs[a].refCnt == w.heap.objs[a].refCnt - 1)
    ensures forall a :: a in w.heap.objs && RecOf(w.slots[id]) != Some(a) ==>
              a in Destroy(w, id).heap.objs && Destroy(w, id).heap.objs[a] == w.heap.objs[a]
    ensures RecOf(w.slots[id]).None? ==> Destroy(w, id).heap == w.heap
    ensures Destroy(w, id).heap.objs.Keys <= w.heap.objs.Keys
  {
  }

  /** Destroying a container keeps the invariant for the containers that
      remain. */
  lemma DestroyKeepsInv(w: World, id: Cid)
    requires Inv(w) && id in w.slots
    ensures Inv(Destroy(w, id))
  {
    var c := w.slots[id];
    var h' := WindowRectangles.Destroy(w.heap, c);
    // Destroying is emptying the container, which releases its record, and
    // then dropping a container that holds nothing.
    var e := c.(count := 0);
    var w1 := World(h', w.slots[id := e]);
    assert w1.slots - {id} == w.slots - {id};
    assert Destroy(w, id) == World(w1.heap, w1.slots - {id});
    RebindKeepsInv(w, id, h', e);
    RemoveInlineKeepsInv(w1, id);
  }

  /** Destroying a container changes the value of no other container. */
  lemma DestroyIsolation(w: World, id: Cid)
    requires Inv(w) && id in w.slots
    ensures Inv(Destroy(w, id))
    ensures forall j :: j in w.slots && j != id ==> AbsOf(Destroy(w, id), j) == AbsOf(w, j)
  {
    DestroyKeepsInv(w, id);
    var c := w.slots[id];
    var h' := WindowRectangles.Destroy(w.heap, c);
    RebindKeepsInv(w, id, h', c.(count := 0));
    forall j | j in w.slots && j != id
      ensures AbsOf(Destroy(w, id), j) == AbsOf(w, j)
    {
      assert Destroy(w, id).slots[j] == w.slots[j];
    }
  }

  /** `addWindow(window)` appends to this container, and keeps the invariant. */
  lemma AddWindowKeepsInv(w: World, id: Cid, window: Rect)
    requires Inv(w) && id in w.slots && w.slots[id].count < MaxWindows
    ensures Inv(AddWindow(w, id, window))
    ensures AbsOf(AddWindow(w, id, window), id) == Value(AbsOf(w, id).mode, AbsOf(w, id).rects + [window])
    ensures AddWindow(w, id, window).slots[id].count == w.slots[id].count + 1
    ensures AddWindow(w, id, window).slots.Keys == w.slots.Keys
  {
    CopyOnWriteIsolation(w, id, window);
  }

  /** Appending writes rectangles only into a record no other container
      holds. */
  lemma AddWindowWritesPrivately(w: World, id: Cid, window: Rect)
    requires Inv(w) && id in w.slots && w.slots[id].count < MaxWindows
    ensures var h' := WindowRectangles.AddWindow(w.heap, w.slots[id], window).0;
            forall a :: a in w.heap.objs && a in h'.objs && h'.objs[a].val != w.heap.objs[a].val ==>
              Holders(w.slots, a) <= {id}
  {
    AddWindowRebinds(w.heap, w.slots[id], window);
    if RecOf(w.slots[id]).Some? {
      UniqueIffSoleHolder(w, id);
    }
  }

  /** After appending, no other container shares this container's record:
      it is either freshly allocated or was already held by this container
      alone. */
  lemma AddWindowUnshared(w: World, id: Cid, window: Rect)
    requires Inv(w) && id in w.slots && w.slots[id].count < MaxWindows
    ensures var c' := WindowRectangles.AddWindow(w.heap, w.slots[id], window).1;
            forall j :: j in w.slots && j != id ==> !Shares(c', w.slots[j])
  {
    var c := w.slots[id];
    AddWindowRebinds(w.heap, c, window);
    var c' := WindowRectangles.AddWindow(w.heap, c, window).1;
    forall j | j in w.slots && j != id
      ensures !Shares(c', w.slots[j])
    {
      assert Valid(w.heap, w.slots[j]);
      assert RecOf(w.slots[j]).Some? ==> j in Holders(w.slots, w.slots[j].rec);
      if RecOf(c).Some? {
        UniqueIffSoleHolder(w, id);
      }
    }
  }

  /** Copy-on-write isolation: appending to one container changes the value
      of no other container, even of one that shared its record. */
  lemma CopyOnWriteIsolation(w: World, id: Cid, window: Rect)
    requires Inv(w) && id in w.slots && w.slots[id].count < MaxWindows
    ensures Inv(AddWindow(w, id, window))
    ensures forall j :: j in w.slots && j != id ==> AbsOf(AddWindow(w, id, window), j) == AbsOf(w, j)
  {
    var c := w.slots[id];
    var (h', c') := WindowRectangles.AddWindow(w.heap, c, window);
    assert AddWindow(w, id, window) == World(h', w.slots[id := c']);
    AddWindowRebinds(w.heap, c, window);
    AddWindowWritesPrivately(w, id, window);
    AddWindowUnshared(w, id, window);
    RebindKeepsInv(w, id, h', c');
  }

  /** A set's subsets are no larger than it. */
  lemma {:induction false} SubsetCard<T>(s: set<T>, t: set<T>)
    requires s <= t
    ensures |s| <= |t|
    decreases s
  {
    if s != {} {
      var x :| x in s;
      SubsetCard(s - {x}, t - {x});
    }
  }
}
