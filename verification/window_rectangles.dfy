/** One GrWindowRectangles value together with the heap it points into: at
    most eight rectangles and a mode, stored inline while there is at most one
    rectangle and in a shared, reference-counted record once there are more.

    The C++ union of the inline slot and the record pointer is modelled as two
    fields, `local` and `rec`, of which only the one selected by `count` is
    ever read. Every operation takes the heap and returns the new heap, so
    pointer identity, sharing and freeing are explicit in the contracts. */
module WindowRectangles {
  import opened Rects
  import opened RefCount

  /** Largest number of rectangles a container may hold. */
  const MaxWindows: nat := 8

  /** Number of rectangles kept inline, without a heap record. */
  const NumLocalWindows: nat := 1

  datatype Mode = Exclusive | Inclusive

  /** The heap of records; each payload is the record's eight-slot array. */
  type RecHeap = Heap<seq<Rect>>

  /** The fields of a container: mode, count, the inline slots and the
      record address (meaningful only when `count > NumLocalWindows`). */
  datatype Windows = Windows(mode: Mode, count: nat, local: seq<Rect>, rec: Addr)

  /** What a container means: its mode and its rectangles in append order. */
  datatype Value = Value(mode: Mode, rects: seq<Rect>)

  /** Every live record has exactly `MaxWindows` slots. */
  predicate HeapOk(h: RecHeap) {
    WellFormed(h) && forall a :: a in h.objs ==> |h.objs[a].val| == MaxWindows
  }

  /** The container invariant: bounded count, an inline array of the right
      size, and a live record whenever the record form is active. */
  predicate Valid(h: RecHeap, c: Windows) {
    && c.count <= MaxWindows
    && |c.local| == NumLocalWindows
    && (c.count > NumLocalWindows ==> c.rec in h.objs)
  }

  /** `rec()`: the record this container holds a reference to, or null while
      the inline form is active. */
  function RecOf(c: Windows): Option<Addr> {
    if c.count <= NumLocalWindows then None else Some(c.rec)
  }

  /** The constructor: empty, in the given mode, with no storage allocated. */
  function Init(mode: Mode := Exclusive): Windows {
    Windows(mode, 0, seq(NumLocalWindows, _ => Blank), 0)
  }

  /** `data()`: the first `count` rectangles of whichever storage is active. */
  function Data(h: RecHeap, c: Windows): (r: seq<Rect>)
    requires HeapOk(h) && Valid(h, c)
    ensures |r| == c.count
  {
    if c.count <= NumLocalWindows then c.local[..c.count] else h.objs[c.rec].val[..c.count]
  }

  /** The abstraction function. */
  function Abs(h: RecHeap, c: Windows): Value
    requires HeapOk(h) && Valid(h, c)
  {
    Value(c.mode, Data(h, c))
  }

  /** `disabled()`. */
  predicate Disabled(c: Windows) {
    c.mode == Exclusive && c.count == 0
  }

  /** `disabled()` means: the exclusive mode with no rectangles at all. */
  lemma DisabledIffEmptyExclusive(h: RecHeap, c: Windows)
    requires HeapOk(h) && Valid(h, c)
    ensures Disabled(c) <==> Abs(h, c) == Value(Exclusive, [])
  {
    if Abs(h, c) == Value(Exclusive, []) {
      assert |Data(h, c)| == 0;
    }
  }

  /** The record constructor's payload: the first `n` rectangles of
      `windows`, in a fresh array of `MaxWindows` slots. */
  function NewRecData(windows: seq<Rect>, n: nat): (d: seq<Rect>)
    requires n < MaxWindows && n <= |windows|
    ensures |d| == MaxWindows
    ensures d[..n] == windows[..n]
  {
    windows[..n] + seq(MaxWindows - n, _ => Blank)
  }

  /** 1 when `p` points at `a`, else 0. */
  function Ind(p: Option<Addr>, a: Addr): int {
    if p == Some(a) then 1 else 0
  }

  /** `h'` is `h` after one holder let go of `before` and took `after`:
      each reference count moves by exactly that, an object is freed exactly
      when its count reaches zero, and the only new object is `after`, with a
      count of one. */
  predicate Rebinds(h: RecHeap, h': RecHeap, before: Option<Addr>, after: Option<Addr>) {
    && (forall a :: a in h.objs ==>
          (a in h'.objs <==> h.objs[a].refCnt - Ind(before, a) + Ind(after, a) > 0))
    && (forall a :: a in h.objs && a in h'.objs ==>
          h'.objs[a].refCnt == h.objs[a].refCnt - Ind(before, a) + Ind(after, a))
    && (forall a :: a in h'.objs && a !in h.objs ==> after == Some(a) && h'.objs[a].refCnt == 1)
  }

  /** No record that survives has had its rectangles changed. */
  predicate KeepsPayloads(h: RecHeap, h': RecHeap) {
    forall a :: a in h.objs && a in h'.objs ==> h'.objs[a].val == h.objs[a].val
  }

  /** `reset(mode)`: drop the record reference, if any, and become empty. */
  function Reset(h: RecHeap, c: Windows, mode: Mode := Exclusive): (res: (RecHeap, Windows))
    requires HeapOk(h) && Valid(h, c)
    ensures HeapOk(res.0) && Valid(res.0, res.1)
    ensures Abs(res.0, res.1) == Value(mode, [])
    ensures RecOf(res.1) == None
    ensures Rebinds(h, res.0, RecOf(c), None)
    ensures KeepsPayloads(h, res.0)
  {
    (SafeUnref(h, RecOf(c)), c.(mode := mode, count := 0))
  }

  /** The destructor: drop the record reference, if any. */
  function Destroy(h: RecHeap, c: Windows): (h': RecHeap)
    requires HeapOk(h) && Valid(h, c)
    ensures HeapOk(h')
    ensures Rebinds(h, h', RecOf(c), None)
    ensures KeepsPayloads(h, h')
  {
    SafeUnref(h, RecOf(c))
  }

  /** `operator=` as written: release this container's record first, then
      copy mode and count, then either copy the inline rectangles or take a
      reference to `that`'s record. When `this` held the only reference to
      the very record `that` holds (self-assignment), the release frees it and
      the reference is then taken on freed memory. Whenever it does not fail
      it computes what `Assign` computes. */
  function AssignAsWritten(h: RecHeap, c: Windows, that: Windows): (r: Outcome<(RecHeap, Windows)>)
    requires HeapOk(h) && Valid(h, c) && Valid(h, that)
    ensures r.UseAfterFree? <==> RecOf(c).Some? && RecOf(c) == RecOf(that) && Unique(h, that.rec)
    ensures r.Ok? ==> r.value == Assign(h, c, that)
  {
    var h1 := SafeUnref(h, RecOf(c));
    var c1 := c.(mode := that.mode, count := that.count);
    if that.count <= NumLocalWindows then
      Ok((h1, c1.(local := that.local[..that.count] + c.local[that.count..])))
    else if that.rec !in h1.objs then
      UseAfterFree(that.rec)
    else
      ReleaseThenRef(h, RecOf(c), that.rec);
      Ok((Ref(h1, that.rec), c1.(rec := that.rec)))
  }

  /** `operator=` with the reference to `that`'s record taken before this
      container's own record is released, so that self-assignment is safe. */
  function Assign(h: RecHeap, c: Windows, that: Windows): (res: (RecHeap, Windows))
    requires HeapOk(h) && Valid(h, c) && Valid(h, that)
    ensures HeapOk(res.0) && Valid(res.0, res.1)
    ensures Abs(res.0, res.1) == Abs(h, that)
    ensures RecOf(res.1) == RecOf(that)
  {
    var h1 := if that.count <= NumLocalWindows then h else Ref(h, that.rec);
    var h2 := SafeUnref(h1, RecOf(c));
    var c1 := c.(mode := that.mode, count := that.count);
    if that.count <= NumLocalWindows then
      (h2, c1.(local := that.local[..that.count] + c.local[that.count..]))
    else
      (h2, c1.(rec := that.rec))
  }

  /** Releasing `p` and then referencing `a` leaves the same heap as
      referencing `a` first, provided `a` survives the release. */
  lemma ReleaseThenRef(h: RecHeap, p: Option<Addr>, a: Addr)
    requires HeapOk(h) && a in h.objs && (p.Some? ==> p.value in h.objs)
    requires a in SafeUnref(h, p).objs
    ensures Ref(SafeUnref(h, p), a) == SafeUnref(Ref(h, a), p)
  {
    match p
    case None =>
    case Some(b) =>
      if b == a {
        UnrefThenRefSame(h, a);
      } else {
        UnrefRefCommute(h, b, a);
      }
  }

  /** Assigning a container to itself leaves container and heap exactly as
      they were. */
  lemma SelfAssignIsIdentity(h: RecHeap, c: Windows)
    requires HeapOk(h) && Valid(h, c)
    ensures Assign(h, c, c) == (h, c)
  {
    if RecOf(c).Some? {
      var h' := Unref(Ref(h, c.rec), c.rec);
      assert h'.objs.Keys == h.objs.Keys;
      assert h'.objs == h.objs;
    } else {
      assert c.local[..c.count] + c.local[c.count..] == c.local;
    }
  }

  /** The part of `addWindow()` that runs once the inline slots are full:
      obtain a record this container holds uniquely and whose first `count`
      slots hold its rectangles. At the inline capacity that is a new record
      filled from the inline slots; a shared record is released and cloned,
      reading its slots after the release, which is safe because another
      holder keeps it alive; an unshared record is kept as it is. */
  function OwnedRec(h: RecHeap, c: Windows): (res: (RecHeap, Addr))
    requires HeapOk(h) && Valid(h, c) && NumLocalWindows <= c.count < MaxWindows
    ensures HeapOk(res.0) && res.1 in res.0.objs && Unique(res.0, res.1)
    ensures res.0.objs[res.1].val[..c.count] == Data(h, c)
    ensures Rebinds(h, res.0, RecOf(c), Some(res.1))
    ensures KeepsPayloads(h, res.0)
    ensures res.1 in h.objs ==> RecOf(c) == Some(res.1)
    ensures res.1 in h.objs <==> RecOf(c).Some? && Unique(h, c.rec)
    ensures RecOf(c).Some? && Unique(h, c.rec) ==> res == (h, c.rec)
  {
    if c.count == NumLocalWindows then
      New(h, NewRecData(c.local, NumLocalWindows))
    else if !Unique(h, c.rec) then
      var h0 := Unref(h, c.rec);
      New(h0, NewRecData(h0.objs[c.rec].val, c.count))
    else
      (h, c.rec)
  }

  /** `fRec->fData[i] = x`: write one slot of a live record. */
  function Store(h: RecHeap, a: Addr, i: nat, x: Rect): (h': RecHeap)
    requires HeapOk(h) && a in h.objs && i < MaxWindows
    ensures HeapOk(h') && h'.objs.Keys == h.objs.Keys
    ensures h'.objs[a] == h.objs[a].(val := h.objs[a].val[i := x])
    ensures OnlyAt(h, h', a)
  {
    h.(objs := h.objs[a := h.objs[a].(val := h.objs[a].val[i := x])])
  }

  /** `addWindow(window)`: append one rectangle. Below the inline capacity it
      goes into the inline slot; otherwise into slot `count` of the record
      `OwnedRec` provides. */
  function AddWindow(h: RecHeap, c: Windows, window: Rect): (res: (RecHeap, Windows))
    requires HeapOk(h) && Valid(h, c) && c.count < MaxWindows
    ensures HeapOk(res.0) && Valid(res.0, res.1)
    ensures Abs(res.0, res.1) == Value(c.mode, Data(h, c) + [window])
  {
    if c.count < NumLocalWindows then
      (h, c.(local := c.local[c.count := window], count := c.count + 1))
    else
      var (h1, a) := OwnedRec(h, c);
      var v := h1.objs[a].val;
      assert v[c.count := window][..c.count + 1] == v[..c.count] + [window];
      (Store(h1, a, c.count, window), c.(rec := a, count := c.count + 1))
  }

  /** Assignment moves this container's reference from its own record to
      `that`'s record and changes no rectangles in the heap. */
  lemma AssignRebinds(h: RecHeap, c: Windows, that: Windows)
    requires HeapOk(h) && Valid(h, c) && Valid(h, that)
    ensures Rebinds(h, Assign(h, c, that).0, RecOf(c), RecOf(that))
    ensures KeepsPayloads(h, Assign(h, c, that).0)
  {
    if that.count > NumLocalWindows {
      var h1 := Ref(h, that.rec);
      RefThenRelease(h, h1, RecOf(c), that.rec);
    } else {
      ReleaseRebinds(h, RecOf(c));
    }
  }

  /** Releasing a reference is a rebind to nothing. */
  lemma ReleaseRebinds(h: RecHeap, p: Option<Addr>)
    requires HeapOk(h) && (p.Some? ==> p.value in h.objs)
    ensures Rebinds(h, SafeUnref(h, p), p, None)
    ensures KeepsPayloads(h, SafeUnref(h, p))
  {
  }

  /** Taking a reference and then releasing one is a rebind. */
  lemma RefThenRelease(h: RecHeap, h1: RecHeap, before: Option<Addr>, a: Addr)
    requires HeapOk(h) && a in h.objs && h1 == Ref(h, a)
    requires before.Some? ==> before.value in h.objs
    ensures Rebinds(h, SafeUnref(h1, before), before, Some(a))
    ensures KeepsPayloads(h, SafeUnref(h1, before))
  {
    match before
    case None =>
    case Some(b) =>
      if b == a {
        RefUnrefCancel(h, a);
      } else {
        RefThenReleaseOther(h, b, a);
      }
  }

  /** `RefThenRelease` when the released record is not the one referenced. */
  lemma RefThenReleaseOther(h: RecHeap, b: Addr, a: Addr)
    requires HeapOk(h) && a in h.objs && b in h.objs && a != b
    ensures Rebinds(h, Unref(Ref(h, a), b), Some(b), Some(a))
    ensures KeepsPayloads(h, Unref(Ref(h, a), b))
  {
    UnrefRefCommute(h, b, a);
    var h0 := Unref(h, b);
    var h2 := Ref(h0, a);
    forall k | k in h.objs
      ensures k in h2.objs <==> h.objs[k].refCnt - Ind(Some(b), k) + Ind(Some(a), k) > 0
      ensures k in h2.objs ==>
                h2.objs[k].refCnt == h.objs[k].refCnt - Ind(Some(b), k) + Ind(Some(a), k) &&
                h2.objs[k].val == h.objs[k].val
    {
      if k == a {
        assert k in h0.objs && h0.objs[k] == h.objs[k];
      } else if k != b {
        assert k in h0.objs && h0.objs[k] == h.objs[k];
      }
    }
  }

  /** Appending moves this container's reference from its old record to its
      new one, and writes rectangles only into a record it held uniquely and
      still holds: copy-on-write. A uniquely held record is kept and written
      in place, with nothing allocated; otherwise (the inline-to-record
      transition, or a shared record) the container ends up in a fresh
      record. */
  lemma AddWindowRebinds(h: RecHeap, c: Windows, window: Rect)
    requires HeapOk(h) && Valid(h, c) && c.count < MaxWindows
    ensures Rebinds(h, AddWindow(h, c, window).0, RecOf(c), RecOf(AddWindow(h, c, window).1))
    ensures forall a ::
              (a in h.objs && a in AddWindow(h, c, window).0.objs &&
               AddWindow(h, c, window).0.objs[a].val != h.objs[a].val) ==>
              RecOf(c) == Some(a) && Unique(h, a) && RecOf(AddWindow(h, c, window).1) == Some(a)
    ensures RecOf(c).Some? && Unique(h, c.rec) ==>
              RecOf(AddWindow(h, c, window).1) == RecOf(c) &&
              AddWindow(h, c, window).0.objs.Keys == h.objs.Keys
    ensures c.count >= NumLocalWindows && !(RecOf(c).Some? && Unique(h, c.rec)) ==>
              RecOf(AddWindow(h, c, window).1).Some? &&
              RecOf(AddWindow(h, c, window).1).value !in h.objs
  {
    if c.count >= NumLocalWindows {
      var (h1, a) := OwnedRec(h, c);
      var h2 := Store(h1, a, c.count, window);
      assert AddWindow(h, c, window).0 == h2;
      assert Rebinds(h, h2, RecOf(c), Some(a));
    }
  }

  /** `operator==`: modes and counts first, then the shared-record fast path,
      then an order-sensitive comparison of the stored rectangles. */
  function Equals(h: RecHeap, c: Windows, that: Windows): (r: bool)
    requires HeapOk(h) && Valid(h, c) && Valid(h, that)
    ensures r <==> Abs(h, c) == Abs(h, that)
  {
    if c.mode != that.mode || c.count != that.count then false
    else if c.count > NumLocalWindows && c.rec == that.rec then true
    else c.count == 0 || Data(h, c) == Data(h, that)
  }

  /** `operator!=`. */
  function NotEquals(h: RecHeap, c: Windows, that: Windows): (r: bool)
    requires HeapOk(h) && Valid(h, c) && Valid(h, that)
    ensures r <==> Abs(h, c) != Abs(h, that)
  {
    !Equals(h, c, that)
  }
}
