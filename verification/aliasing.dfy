/** `addWindow(const SkIRect& window)` takes its argument by reference and
    reads it only after the bare `addWindow()` has made room for it. When the
    argument refers into the container's own storage, that read can come too
    late: at the inline-to-record transition the record pointer is stored in
    the union over the inline slot the argument refers to. */
module Aliasing {
  import opened Rects
  import opened RefCount
  import opened WindowRectangles

  /** What the `const SkIRect&` argument refers to: a rectangle outside the
      container, or element `i` of the container's own `data()`. */
  datatype Arg = Outside(r: Rect) | Element(i: nat)

  /** A storage location: slot `i` of the inline array, or of the record at
      `a`. */
  datatype Loc = InlineSlot(i: nat) | RecSlot(a: Addr, i: nat)

  /** The location `data()[i]` refers to. */
  function ElementLoc(c: Windows, i: nat): Loc {
    if c.count <= NumLocalWindows then InlineSlot(i) else RecSlot(c.rec, i)
  }

  /** The rectangle the argument denotes when the call begins. */
  function ArgValue(h: RecHeap, c: Windows, arg: Arg): Rect
    requires HeapOk(h) && Valid(h, c) && (arg.Element? ==> arg.i < c.count)
  {
    match arg
    case Outside(r) => r
    case Element(i) => Data(h, c)[i]
  }

  /** Reading a rectangle through a reference to `l`. `None` when the
      location no longer holds a rectangle: an inline slot once the union
      holds the record pointer instead, or a slot of a freed record. */
  function Load(h: RecHeap, c: Windows, l: Loc): Option<Rect> {
    match l
    case InlineSlot(i) =>
      if c.count <= NumLocalWindows && i < |c.local| then Some(c.local[i]) else None
    case RecSlot(a, i) =>
      if a in h.objs && i < |h.objs[a].val| then Some(h.objs[a].val[i]) else None
  }

  /** A reference taken to `data()[i]` reads back `data()[i]` while the
      container is unchanged. */
  lemma ElementLocReads(h: RecHeap, c: Windows, i: nat)
    requires HeapOk(h) && Valid(h, c) && i < c.count
    ensures Load(h, c, ElementLoc(c, i)) == Some(Data(h, c)[i])
  {
  }

  /** Assigning through the reference the bare `addWindow()` returns: the
      last slot of the active storage. */
  function SetLast(h: RecHeap, c: Windows, x: Rect): (res: (RecHeap, Windows))
    requires HeapOk(h) && Valid(h, c) && c.count > 0
    ensures HeapOk(res.0) && Valid(res.0, res.1)
    ensures Abs(res.0, res.1) == Value(c.mode, Data(h, c)[..c.count - 1] + [x])
    ensures c.count <= NumLocalWindows ==> res.0 == h
    ensures c.count > NumLocalWindows ==>
              res.0.objs.Keys == h.objs.Keys && OnlyAt(h, res.0, c.rec)
  {
    if c.count <= NumLocalWindows then
      (h, c.(local := c.local[c.count - 1 := x]))
    else
      var v := h.objs[c.rec].val;
      assert v[c.count - 1 := x][..c.count] == v[..c.count - 1] + [x];
      (Store(h, c.rec, c.count - 1, x), c)
  }

  /** `addWindow(window)` as written: the bare `addWindow()` runs first (its
      new slot is left blank), then `window` is read through its reference
      and stored in the new slot. `None` when that read finds the storage
      already overwritten. */
  function AddWindowAsWritten(h: RecHeap, c: Windows, arg: Arg): Option<(RecHeap, Windows)>
    requires HeapOk(h) && Valid(h, c) && c.count < MaxWindows
    requires arg.Element? ==> arg.i < c.count
  {
    var (h1, c1) := AddWindow(h, c, Blank);
    var x := match arg
      case Outside(r) => Some(r)
      case Element(i) => Load(h1, c1, ElementLoc(c, i));
    if x.None? then None else Some(SetLast(h1, c1, x.value))
  }

  /** Writing the new slot after reserving it is the same as appending the
      rectangle directly. */
  lemma ReserveThenSet(h: RecHeap, c: Windows, x: Rect)
    requires HeapOk(h) && Valid(h, c) && c.count < MaxWindows
    ensures SetLast(AddWindow(h, c, Blank).0, AddWindow(h, c, Blank).1, x) == AddWindow(h, c, x)
  {
    if c.count >= NumLocalWindows {
      ReserveThenSetInRecord(h, c, x);
    } else {
      ReserveThenSetInline(h, c, x);
    }
  }

  /** `ReserveThenSet` while the rectangles are inline. */
  lemma ReserveThenSetInline(h: RecHeap, c: Windows, x: Rect)
    requires HeapOk(h) && Valid(h, c) && c.count < NumLocalWindows
    ensures SetLast(AddWindow(h, c, Blank).0, AddWindow(h, c, Blank).1, x) == AddWindow(h, c, x)
  {
    var c1 := c.(local := c.local[c.count := Blank], count := c.count + 1);
    assert AddWindow(h, c, Blank) == (h, c1);
    assert SetLast(h, c1, x) == (h, c1.(local := c1.local[c.count := x]));
    assert c.local[c.count := Blank][c.count := x] == c.local[c.count := x];
  }

  /** `ReserveThenSet` once the rectangles live in a record. */
  lemma ReserveThenSetInRecord(h: RecHeap, c: Windows, x: Rect)
    requires HeapOk(h) && Valid(h, c) && NumLocalWindows <= c.count < MaxWindows
    ensures SetLast(AddWindow(h, c, Blank).0, AddWindow(h, c, Blank).1, x) == AddWindow(h, c, x)
  {
    var (h1, a) := OwnedRec(h, c);
    var c' := c.(rec := a, count := c.count + 1);
    var h2 := Store(h1, a, c.count, Blank);
    assert AddWindow(h, c, Blank) == (h2, c');
    assert SetLast(h2, c', x) == (Store(h2, a, c.count, x), c');
    StoreTwice(h1, a, c.count, Blank, x);
  }

  /** A second write to the same slot replaces the first. */
  lemma StoreTwice(h: RecHeap, a: Addr, i: nat, x: Rect, y: Rect)
    requires HeapOk(h) && a in h.objs && i < MaxWindows
    ensures Store(Store(h, a, i, x), a, i, y) == Store(h, a, i, y)
  {
    assert h.objs[a].val[i := x][i := y] == h.objs[a].val[i := y];
  }

  /** An element of the container's own record survives the bare
      `addWindow()`: a shared record is released but kept alive by its
      other holders, and a uniquely held one is written only past `count`. */
  lemma RecordElementSurvives(h: RecHeap, c: Windows, i: nat)
    requires HeapOk(h) && Valid(h, c) && NumLocalWindows < c.count < MaxWindows && i < c.count
    ensures Load(AddWindow(h, c, Blank).0, AddWindow(h, c, Blank).1, RecSlot(c.rec, i))
            == Some(Data(h, c)[i])
  {
    var (h1, a) := OwnedRec(h, c);
    var h2 := Store(h1, a, c.count, Blank);
    assert AddWindow(h, c, Blank).0 == h2;
    if !Unique(h, c.rec) {
      assert a != c.rec;
      assert c.rec in h1.objs;
    }
  }

  /** The discrepancy: when the container holds exactly `NumLocalWindows`
      rectangles, appending its own first element reads the inline slot
      after the record pointer has replaced it. */
  lemma AddWindowAsWrittenAliased(h: RecHeap, c: Windows)
    requires HeapOk(h) && Valid(h, c) && c.count == NumLocalWindows
    ensures AddWindowAsWritten(h, c, Element(0)) == None
  {
    assert AddWindow(h, c, Blank).1.count == NumLocalWindows + 1;
  }

  /** In every other case the code as written appends the rectangle the
      argument denoted when the call began, exactly as `AddWindow` does. */
  lemma AddWindowAsWrittenElsewhere(h: RecHeap, c: Windows, arg: Arg)
    requires HeapOk(h) && Valid(h, c) && c.count < MaxWindows
    requires arg.Element? ==> arg.i < c.count
    requires !(arg.Element? && c.count == NumLocalWindows)
    ensures AddWindowAsWritten(h, c, arg) == Some(AddWindow(h, c, ArgValue(h, c, arg)))
  {
    var (h1, c1) := AddWindow(h, c, Blank);
    if arg.Element? {
      RecordElementSurvives(h, c, arg.i);
    }
    ReserveThenSet(h, c, ArgValue(h, c, arg));
  }

  /** The intended behaviour, which `AddWindow` has because it takes the
      rectangle by value: appending an element of the container itself
      appends a copy of that element, whatever the count. */
  lemma AppendOwnElement(h: RecHeap, c: Windows, i: nat)
    requires HeapOk(h) && Valid(h, c) && i < c.count < MaxWindows
    ensures var (h', c') := AddWindow(h, c, Data(h, c)[i]);
            Abs(h', c') == Value(c.mode, Data(h, c) + [Data(h, c)[i]])
  {
  }
}
