# GrWindowRectangles in Dafny

This project models Skia's `GrWindowRectangles`: a value type that holds up to
`kMaxWindows` (8) integer rectangles ("windows") and an `Exclusive`/`Inclusive`
mode. While it holds at most `kNumLocalWindows` (1) rectangle, the rectangle
lives inline in the object. Beyond that, the rectangles live in a heap `Rec`.
The `Rec` is reference-counted and shared between copies. Assignment shares
the record instead of copying it. `addWindow` clones a shared record before
writing to it (copy-on-write). Equality compares mode and count, then checks
whether both containers point at the same record, and only then compares the
rectangles.

The heap is modelled explicitly, as a value. A `RefCount.Heap` maps addresses
to live objects, each with a payload and a reference count. Freeing an object
removes its address, and addresses are never reused. A container
(`WindowRectangles.Windows`) holds its mode, its count, the inline slot and a
record address. Each operation takes the heap and returns the new heap, so
pointer identity, sharing, reference counts and freeing all appear in pure
contracts. `WindowRectangles.Abs` maps a container to its meaning, a `Value`
made of the mode and the rectangles in append order.

`Containers.World` is a whole program's containers (a map from container
addresses to containers) plus the heap. `Containers.Holders` gives, for each
record, the containers that hold a reference to it. `Containers.Inv` states
the bookkeeping invariant:

- every live record's count equals its number of holders;
- every held record is live;
- containers that share a record agree on mode and count.

The lemmas prove that each operation keeps this invariant. They also state
what each operation does to the container it is applied to and to every other
container.

Files:

- `rects.dfy`: the rectangle record.
- `refcount.dfy`: reference-counted heap objects (`new`, `ref`, `unref`,
  `SkSafeUnref`, `unique`).
- `window_rectangles.dfy`: one container and the heap. Covers the
  constructors, `data()`, `rec()`, `disabled()`, `reset`, `operator=`, both
  `addWindow` overloads, `operator==`/`!=`, the destructor and the `Rec`
  constructor.
- `containers.dfy`: many containers, the invariant, and the lemmas about
  sharing, isolation and reference counts.
- `appending.dfy`: sequences of appends, assign-then-append, and order
  sensitivity.
- `aliasing.dfy`: `addWindow(const SkIRect&)` when its argument refers into
  the container's own storage.

## Model

| member | source | states |
|---|---|---|
| RefCount.New | src/gpu/GrWindowRectangles.h:92 | A new record gets an address that was not live, with a reference count of one. No other live object changes. |
| RefCount.Ref | src/gpu/GrWindowRectangles.h:81 | `SkRef` adds one to the record's count and leaves its payload and every other object unchanged. |
| RefCount.Unref | src/gpu/GrWindowRectangles.h:94 | `unref()` frees the record exactly when it was uniquely held; otherwise the count drops by one and the payload is kept. No other object changes. |
| RefCount.SafeUnref | src/gpu/GrWindowRectangles.h:69 | `SkSafeUnref` of null leaves the heap unchanged. For a non-null record, the record is freed exactly when it was uniquely held; otherwise its count drops by one and its payload is kept. No other object changes. |
| RefCount.Unique | src/gpu/GrWindowRectangles.h:93 | `unique()`: the reference count is one. Its meaning in terms of holders is stated by `Containers.UniqueIffSoleHolder`. |
| WindowRectangles.Init | src/gpu/GrWindowRectangles.h:23 | The constructor: an empty container in the given mode, `kExclusive` by default, with nothing allocated. Its meaning is stated by `Containers.ConstructKeepsInv`. |
| WindowRectangles.RecOf | src/gpu/GrWindowRectangles.h:45 | `rec()`: null while at most `kNumLocalWindows` rectangles are held, and `fRec` otherwise. That such a record is live and counts the container is stated by `Containers.StorageForm`. |
| WindowRectangles.Disabled | src/gpu/GrWindowRectangles.h:29 | `disabled()`. Its meaning is stated by `WindowRectangles.DisabledIffEmptyExclusive`. |
| WindowRectangles.DisabledIffEmptyExclusive | src/gpu/GrWindowRectangles.h:29 | `disabled()` holds exactly when the value is the exclusive mode with no rectangles. |
| WindowRectangles.Data | src/gpu/GrWindowRectangles.h:64-66 | `data()` exposes exactly `count` rectangles. |
| WindowRectangles.NewRecData | src/gpu/GrWindowRectangles.h:56-59 | The `Rec` constructor requires `numWindows < kMaxWindows`. Its array has `kMaxWindows` slots, and the first `numWindows` of them are the given rectangles. |
| WindowRectangles.Reset | src/gpu/GrWindowRectangles.h:68-72 | After `reset(mode)` the value is `mode` with no rectangles, and no record is held. The only heap change is one released reference to the previously held record. No rectangles in the heap change. |
| WindowRectangles.Destroy | src/gpu/GrWindowRectangles.h:25 | The destructor's only heap change is one released reference to the held record, if any. |
| WindowRectangles.AssignAsWritten | src/gpu/GrWindowRectangles.h:74-84 | `operator=` as written touches freed memory exactly when `this` held the only reference to the very record `that` holds. In every other case its result equals the corrected `Assign`. |
| WindowRectangles.Assign | src/gpu/GrWindowRectangles.h:74-84 | After assignment the container has `that`'s value. It holds `that`'s own record (or none when `that` is inline); the record is not copied. |
| WindowRectangles.SelfAssignIsIdentity | src/gpu/GrWindowRectangles.h:74-84 | Assigning a container to itself (reference taken first) leaves the container and the heap exactly as they were. |
| WindowRectangles.AssignRebinds | src/gpu/GrWindowRectangles.h:74-84 | Assignment moves exactly one reference from the old record to `that`'s record. A record is freed exactly when its count reaches zero. No rectangles in the heap change. |
| WindowRectangles.OwnedRec | src/gpu/GrWindowRectangles.h:91-96 | From count 1 or more, this yields a record the container holds uniquely, with its `count` rectangles in the first slots. At count 1 the record is new. A shared record is released and cloned. Reading the shared record after the release is safe. The result is an already-live record exactly when the container held its record uniquely. In that case heap and record are returned unchanged, with no allocation. |
| WindowRectangles.Store | src/gpu/GrWindowRectangles.h:97 | Writing slot `i` of a live record changes that slot only. The set of live records stays the same. |
| WindowRectangles.AddWindow | src/gpu/GrWindowRectangles.h:86-98 | `addWindow(r)` requires `count < kMaxWindows`. The new value is the old one with `r` appended, in the same mode. This covers the inline case, the inline-to-record transition and the record case. |
| WindowRectangles.AddWindowRebinds | src/gpu/GrWindowRectangles.h:91-97 | Appending moves the container's one reference from its old record to its new one. Rectangles are written only into a record the container held uniquely before the call and still holds. A uniquely held record is kept, and no object is allocated or freed. At the inline-to-record transition, or with a shared record, the container ends up in a fresh record. |
| WindowRectangles.Equals | src/gpu/GrWindowRectangles.h:100-108 | `operator==` is true exactly when the two values are equal: same mode and the same rectangles in the same order. This includes the record-identity fast path. |
| WindowRectangles.NotEquals | src/gpu/GrWindowRectangles.h:38 | `operator!=` is true exactly when the values differ. |
| Containers.ConstructKeepsInv | src/gpu/GrWindowRectangles.h:23 | A new container is empty in the requested mode and allocates nothing. The invariant holds and no other container changes. |
| Containers.CopyConstructKeepsInv | src/gpu/GrWindowRectangles.h:24 | The copy constructor adds exactly the new container, keeps the invariant, and changes no existing container. |
| Containers.CopyConstruct | src/gpu/GrWindowRectangles.h:24 | The copy constructor: construct empty, then assign. Its meaning is stated by `Containers.CopyConstructShares`, `Containers.CopyConstructKeepsInv` and `Containers.CopyConstructAsWritten`. |
| Containers.CopyConstructAsWritten | src/gpu/GrWindowRectangles.h:24 | The copy constructor's `operator=` call, in the source's release-then-reference order, never touches freed memory. It gives the same result as the corrected assignment. |
| Containers.CopyConstructShares | src/gpu/GrWindowRectangles.h:24 | A copy equals its source and shares the source's record. That record's count goes up by exactly one. |
| Containers.AssignAsWrittenDistinct | src/gpu/GrWindowRectangles.h:74-84 | Between two distinct containers, `operator=` as written never touches freed memory and agrees with the corrected assignment. |
| Containers.AssignKeepsInv | src/gpu/GrWindowRectangles.h:74-84 | Assignment keeps the invariant and changes no container except the destination. |
| Containers.AssignShares | src/gpu/GrWindowRectangles.h:74-84 | After `a = b`, `a == b` and `a` holds `b`'s record. The record's count goes up by one, or stays the same if `a` already held it. |
| Containers.SelfAssignmentAsWritten | src/gpu/GrWindowRectangles.h:74-84 | `x = x` as written touches freed memory exactly when `x` holds the only reference to a record. In every other case it changes nothing. |
| Containers.SelfAssignment | src/gpu/GrWindowRectangles.h:74-84 | With the reference taken before the release, `x = x` changes nothing. |
| Containers.StorageForm | src/gpu/GrWindowRectangles.h:45-52 | A container in record form holds a live record that counts it among its holders. An inline container is counted by no record. |
| Containers.UniqueIffSoleHolder | src/gpu/GrWindowRectangles.h:93 | `unique()` holds exactly when no other container holds the record. |
| Containers.NoLeaks | src/gpu/GrWindowRectangles.h:25 | A record is live exactly when some container holds it: nothing leaks and nothing dangles. |
| Containers.SharersAreEqual | src/gpu/GrWindowRectangles.h:104-105 | Containers that share a record have equal values. So the identity fast path agrees with comparing the rectangles. |
| Containers.ResetKeepsInv | src/gpu/GrWindowRectangles.h:68-72 | `reset(mode)` empties the container and releases exactly one reference, freeing the record if it was the last. It is disabled exactly when `mode` is `Exclusive`. No other container changes. |
| Containers.DestroyReleasesOne | src/gpu/GrWindowRectangles.h:25 | The destructor releases exactly one reference, freeing the record if it was the last. No other object changes. |
| Containers.DestroyKeepsInv | src/gpu/GrWindowRectangles.h:25 | Destroying a container keeps the invariant for the containers that remain. |
| Containers.DestroyIsolation | src/gpu/GrWindowRectangles.h:25 | Destroying a container changes no other container's value. |
| Containers.AddWindowKeepsInv | src/gpu/GrWindowRectangles.h:86-98 | `addWindow` appends the rectangle, raises the count by one and keeps the invariant. |
| Containers.AddWindowWritesPrivately | src/gpu/GrWindowRectangles.h:93-97 | `addWindow` writes only into a record that no other container holds. |
| Containers.AddWindowUnshared | src/gpu/GrWindowRectangles.h:91-96 | After `addWindow`, no other container shares the appending container's record. |
| Containers.CopyOnWriteIsolation | src/gpu/GrWindowRectangles.h:93-96 | Appending to one container changes no other container's value, including one that shared its record. |
| Appending.AddWindows | src/gpu/GrWindowRectangles.h:86-98 | Appending a sequence of rectangles one at a time yields the old rectangles followed by the sequence, in order. No other container changes. |
| Appending.AssignThenAppend | src/gpu/GrWindowRectangles.h:74-98 | After `b = a`, the two are equal and share the record. Appending to `a` then gives `a` the extra rectangle, leaves `b` with `a`'s old value, and makes them unequal. |
| Appending.OrderSensitive | src/gpu/GrWindowRectangles.h:107 | Appending two distinct rectangles to one container, and the same two in the opposite order to another, leaves them unequal. This holds for any modes and earlier contents, given room for two more rectangles. |
| Aliasing.ElementLocReads | src/gpu/GrWindowRectangles.h:64-66 | A reference taken to `data()[i]` reads back `data()[i]`, inline or in a record, while the container is unchanged. This ties the reference model (`Aliasing.Load`) to `data()`. |
| Aliasing.SetLast | src/gpu/GrWindowRectangles.h:35 | Assigning through the reference the bare `addWindow()` returns replaces the last rectangle and nothing else. For an inline container the heap is untouched. Otherwise only the container's own record changes, and the set of live records stays the same. |
| Aliasing.AddWindowAsWritten | src/gpu/GrWindowRectangles.h:35 | `addWindow(const SkIRect&)` as written: reserve the slot with the bare `addWindow()`, then read the argument through its reference, then store it. Its meaning is stated by `Aliasing.AddWindowAsWrittenAliased` and `Aliasing.AddWindowAsWrittenElsewhere`. |
| Aliasing.ReserveThenSet | src/gpu/GrWindowRectangles.h:35 | Reserving the new slot with `addWindow()` and then assigning to it equals appending the rectangle directly. |
| Aliasing.RecordElementSurvives | src/gpu/GrWindowRectangles.h:93-97 | An element of the container's own record is still readable, and unchanged, after the bare `addWindow()`. A shared record stays alive through its other holders, and a unique one is written only past `count`. |
| Aliasing.AddWindowAsWrittenAliased | src/gpu/GrWindowRectangles.h:35 | At `count == kNumLocalWindows`, `addWindow(data()[0])` reads its argument from the inline slot after line 92 has put the record pointer there. |
| Aliasing.AddWindowAsWrittenElsewhere | src/gpu/GrWindowRectangles.h:35 | In every other case `addWindow(window)` as written appends the rectangle the argument denoted when the call began, as `AddWindow` does. |
| Aliasing.AppendOwnElement | src/gpu/GrWindowRectangles.h:35 | Taking the rectangle by value, appending one of the container's own elements appends a copy of it at every count. |

## Findings

| source | as written | input that shows it | evidently intended | confidence | as-written member | corrected member |
|---|---|---|---|---|---|---|
| src/gpu/GrWindowRectangles.h:74-84 | `operator=` calls `SkSafeUnref(this->rec())` before `SkRef(that.fRec)`. | `x = x` where `x` holds two or more rectangles in a record referenced only by `x`. The release frees the record, and the reference is then taken on freed memory. | Self-assignment leaves `x` unchanged. | high; not executed | Containers.SelfAssignmentAsWritten | Containers.SelfAssignment |
| src/gpu/GrWindowRectangles.h:35 | `addWindow(const SkIRect& window)` runs the bare `addWindow()` first and reads `window` only afterwards. At one rectangle, line 92 stores the new `Rec*` in the union over `fLocalWindows[0]`. | `a.addWindow(a.data()[0])` with `a.count() == 1`. The appended rectangle is read from the slot after the pointer has been written over it. | The call appends a copy of `a.data()[0]`. | medium; not executed | Aliasing.AddWindowAsWrittenAliased | Aliasing.AppendOwnElement |

The corrected `WindowRectangles.Assign` takes the reference to `that`'s record
before it releases its own. The rest of the model uses this version. For
distinct containers it computes the same result as the code as written
(`Containers.AssignAsWrittenDistinct`).

The corrected `WindowRectangles.AddWindow` takes its rectangle by value, so
it reads the argument before anything is overwritten. `Aliasing.AddWindowAsWritten`
models the code as written, where the argument is a reference read after the
slot is reserved. The two agree except for an argument aliasing the inline
slot at the transition (`Aliasing.AddWindowAsWrittenElsewhere`).

## Left out

- Rectangle geometry: an `SkIRect` is an opaque record of four integers, compared field by field. `SkRect.h` is not part of this model. `memcpy`/`memcmp` are modelled as copying and comparing sequences.
- `GrNonAtomicRef`: its reference count is modelled as a plain number, with no atomicity and no threads. `GrNonAtomicRef.h` is not part of this model. Its `ref`/`unref`/`unique`, `SkRef` and `SkSafeUnref` are modelled from how this file uses them.
- The union of `fLocalWindows` and `fRec`: modelled as two separate fields, and only the one that `count` selects is ever read. Uninitialised slots are filled with a fixed placeholder rectangle that nothing reads.
- The `uint8_t` width of `fCount`: the count never exceeds 8, so it cannot wrap.
- The bare `addWindow()`, which returns a mutable `SkIRect&`: modelled as appending a placeholder rectangle. `Aliasing.SetLast` is the write through the returned reference. Writes through a stale reference after the call has returned are not modelled.
- WindowRectangles.AddWindow: takes the rectangle by value, which is the corrected behaviour. The by-reference argument of the source, and the aliasing it allows, are modelled only in `Aliasing`.
- The debug `SkASSERT`s are preconditions (`requires`), as the source treats violating them as a programming error. Allocation failure is not modelled.
- The mode of a copy-constructed object before its assignment runs is uninitialised in the source. It is set to `Exclusive` here, and the assignment overwrites it.
- Self-assignment of an inline container calls `memcpy` on overlapping memory. It is modelled as a plain copy, which leaves the slot unchanged.
