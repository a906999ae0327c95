/** A heap of reference-counted objects: allocation with a count of one,
    `ref`, `unref` that frees at zero, the null-tolerant `unref`, and the
    uniqueness query that copy-on-write relies on. Addresses are never reused,
    so a freed object is simply an address that is no longer in `objs`. */
module RefCount {

  /** An optional value: a nullable pointer, or a read that may fail. */
  datatype Option<T> = None | Some(value: T)

  /** The result of an operation that may touch freed memory. */
  datatype Outcome<T> = Ok(value: T) | UseAfterFree(addr: Addr)

  type Addr = nat

  /** A live heap object: its payload and its reference count. */
  datatype Obj<T> = Obj(val: T, refCnt: nat)

  /** The live objects, and the next address the allocator hands out. */
  datatype Heap<T> = Heap(objs: map<Addr, Obj<T>>, next: Addr)

  /** Every live object is referenced at least once and lies below the
      allocation frontier, so `next` is always fresh. */
  predicate WellFormed<T>(h: Heap<T>) {
    forall a :: a in h.objs ==> h.objs[a].refCnt >= 1 && a < h.next
  }

  /** Only the object at `a` may differ between `h` and `h'`; all other live
      objects survive unchanged and no other object appears. */
  predicate OnlyAt<T(==)>(h: Heap<T>, h': Heap<T>, a: Addr) {
    && (forall b :: b in h.objs && b != a ==> b in h'.objs && h'.objs[b] == h.objs[b])
    && (forall b :: b in h'.objs && b != a ==> b in h.objs)
  }

  /** `new T(v)`: a fresh object whose reference count starts at one. */
  function New<T(==)>(h: Heap<T>, v: T): (res: (Heap<T>, Addr))
    requires WellFormed(h)
    ensures res.1 !in h.objs
    ensures res.1 in res.0.objs && res.0.objs[res.1] == Obj(v, 1)
    ensures OnlyAt(h, res.0, res.1)
    ensures WellFormed(res.0)
  {
    (Heap(h.objs[h.next := Obj(v, 1)], h.next + 1), h.next)
  }

  /** `unique()`: the caller holds the only reference. */
  predicate Unique<T>(h: Heap<T>, a: Addr)
    requires a in h.objs
  {
    h.objs[a].refCnt == 1
  }

  /** `ref()`: one more reference; the payload is untouched. */
  function Ref<T(==)>(h: Heap<T>, a: Addr): (h': Heap<T>)
    requires WellFormed(h) && a in h.objs
    ensures a in h'.objs && h'.objs[a] == h.objs[a].(refCnt := h.objs[a].refCnt + 1)
    ensures OnlyAt(h, h', a)
    ensures WellFormed(h')
  {
    h.(objs := h.objs[a := h.objs[a].(refCnt := h.objs[a].refCnt + 1)])
  }

  /** `unref()`: one reference fewer; the object is freed when the last
      reference goes, and otherwise keeps its payload. */
  function Unref<T(==)>(h: Heap<T>, a: Addr): (h': Heap<T>)
    requires WellFormed(h) && a in h.objs
    ensures Unique(h, a) ==> a !in h'.objs
    ensures !Unique(h, a) ==> a in h'.objs && h'.objs[a] == h.objs[a].(refCnt := h.objs[a].refCnt - 1)
    ensures OnlyAt(h, h', a)
    ensures h'.next == h.next
    ensures WellFormed(h')
  {
    if h.objs[a].refCnt == 1 then h.(objs := h.objs - {a})
    else h.(objs := h.objs[a := h.objs[a].(refCnt := h.objs[a].refCnt - 1)])
  }

  /** `SkSafeUnref`: `unref()` that ignores a null pointer. */
  function SafeUnref<T(==)>(h: Heap<T>, p: Option<Addr>): (h': Heap<T>)
    requires WellFormed(h) && (p.Some? ==> p.value in h.objs)
    ensures p.None? ==> h' == h
    ensures p.Some? ==> (p.value in h'.objs <==> !Unique(h, p.value))
    ensures p.Some? && !Unique(h, p.value) ==>
              h'.objs[p.value] == h.objs[p.value].(refCnt := h.objs[p.value].refCnt - 1)
    ensures p.Some? ==> OnlyAt(h, h', p.value)
    ensures WellFormed(h')
  {
    match p
    case None => h
    case Some(a) => Unref(h, a)
  }

  /** Taking a reference and releasing it again leaves the heap as it was. */
  lemma RefUnrefCancel<T>(h: Heap<T>, a: Addr)
    requires WellFormed(h) && a in h.objs
    ensures Unref(Ref(h, a), a) == h
  {
    assert Unref(Ref(h, a), a).objs == h.objs;
  }

  /** Releasing a reference that is not the last and taking it back leaves
      the heap as it was, in either order. */
  lemma UnrefThenRefSame<T>(h: Heap<T>, a: Addr)
    requires WellFormed(h) && a in h.objs && !Unique(h, a)
    ensures Ref(Unref(h, a), a) == h && Unref(Ref(h, a), a) == h
  {
    assert Ref(Unref(h, a), a).objs == h.objs;
    RefUnrefCancel(h, a);
  }

  /** References to two different objects can be released and taken in
      either order. */
  lemma UnrefRefCommute<T>(h: Heap<T>, b: Addr, a: Addr)
    requires WellFormed(h) && a in h.objs && b in h.objs && a != b
    ensures Ref(Unref(h, b), a) == Unref(Ref(h, a), b)
  {
    if Unique(h, b) {
      UnrefLastRefCommute(h, b, a);
    } else {
      UnrefSharedRefCommute(h, b, a);
    }
  }

  /** `UnrefRefCommute` when the released reference is the last one. */
  lemma UnrefLastRefCommute<T>(h: Heap<T>, b: Addr, a: Addr)
    requires WellFormed(h) && a in h.objs && b in h.objs && a != b && Unique(h, b)
    ensures Ref(Unref(h, b), a) == Unref(Ref(h, a), b)
  {
    var inc := h.objs[a].(refCnt := h.objs[a].refCnt + 1);
    assert (h.objs - {b})[a := inc] == h.objs[a := inc] - {b};
  }

  /** `UnrefRefCommute` when the released reference is not the last one. */
  lemma UnrefSharedRefCommute<T>(h: Heap<T>, b: Addr, a: Addr)
    requires WellFormed(h) && a in h.objs && b in h.objs && a != b && !Unique(h, b)
    ensures Ref(Unref(h, b), a) == Unref(Ref(h, a), b)
  {
    var inc := h.objs[a].(refCnt := h.objs[a].refCnt + 1);
    var dec := h.objs[b].(refCnt := h.objs[b].refCnt - 1);
    assert h.objs[b := dec][a := inc] == h.objs[a := inc][b := dec];
  }
}
