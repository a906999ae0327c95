/** Sequences of appends, and assignment followed by an append: values,
    sharing and copy-on-write over several operations. */
module Appending {
  import opened Rects
  import W = WindowRectangles
  import opened Containers

  /** Append `windows` one at a time, in order. */
  function AddWindows(w: World, id: Cid, windows: seq<Rect>): (w': World)
    requires Inv(w) && id in w.slots && w.slots[id].count + |windows| <= W.MaxWindows
    ensures Inv(w') && w'.slots.Keys == w.slots.Keys
    ensures AbsOf(w', id) == W.Value(AbsOf(w, id).mode, AbsOf(w, id).rects + windows)
    ensures forall j :: j in w.slots && j != id ==> AbsOf(w', j) == AbsOf(w, j)
    decreases |windows|
  {
    if windows == [] then
      w
    else
      AddWindowKeepsInv(w, id, windows[0]);
      CopyOnWriteIsolation(w, id, windows[0]);
      AppendFront(AbsOf(w, id).rects, windows);
      var w1 := AddWindow(w, id, windows[0]);
      AddWindows(w1, id, windows[1..])
  }

  /** Appending the head, then the tail, is appending the whole sequence. */
  lemma AppendFront(s: seq<Rect>, t: seq<Rect>)
    requires t != []
    ensures (s + [t[0]]) + t[1..] == s + t
  {
    assert t == [t[0]] + t[1..];
  }

  /** B = A followed by an append to A alone: A gains the rectangle, B keeps
      exactly the value A had, and the two are no longer equal, although B
      took A's record rather than a copy of it. */
  lemma AssignThenAppend(w: World, a: Cid, b: Cid, window: Rect)
    requires Inv(w) && a in w.slots && b in w.slots && a != b
    requires w.slots[a].count < W.MaxWindows
    ensures var w1 := Assign(w, b, a);
            Inv(w1) && Equals(w1, a, b) &&
            (W.RecOf(w.slots[a]).Some? ==> Shares(w1.slots[a], w1.slots[b])) &&
            w1.slots[a].count < W.MaxWindows &&
            var w2 := AddWindow(w1, a, window);
            Inv(w2) &&
            AbsOf(w2, a) == W.Value(AbsOf(w, a).mode, AbsOf(w, a).rects + [window]) &&
            AbsOf(w2, b) == AbsOf(w, a) &&
            !Equals(w2, a, b)
  {
    AssignShares(w, b, a);
    AssignKeepsInv(w, b, a);
    var w1 := Assign(w, b, a);
    assert AbsOf(w1, a) == AbsOf(w, a);
    assert w1.slots[a] == w.slots[a];
    AddWindowKeepsInv(w1, a, window);
    CopyOnWriteIsolation(w1, a, window);
    var w2 := AddWindow(w1, a, window);
    assert |AbsOf(w2, a).rects| != |AbsOf(w2, b).rects|;
  }

  /** Order matters: appending two distinct rectangles to one container and
      the same two in the opposite order to another leaves them unequal,
      whatever their modes and earlier contents, since their last rectangles
      differ. */
  lemma OrderSensitive(w: World, a: Cid, b: Cid, r: Rect, s: Rect)
    requires Inv(w) && a in w.slots && b in w.slots && a != b && r != s
    requires w.slots[a].count + 2 <= W.MaxWindows && w.slots[b].count + 2 <= W.MaxWindows
    ensures var w1 := AddWindows(AddWindows(w, a, [r, s]), b, [s, r]);
            AbsOf(w1, a) != AbsOf(w1, b) && !Equals(w1, a, b)
  {
    var wa := AddWindows(w, a, [r, s]);
    var w1 := AddWindows(wa, b, [s, r]);
    var ra, rb := AbsOf(w1, a).rects, AbsOf(w1, b).rects;
    assert ra == AbsOf(w, a).rects + [r, s];
    assert rb == AbsOf(w, b).rects + [s, r];
    assert ra[|ra| - 1] == s && rb[|rb| - 1] == r;
  }
}
