/** `pvector`: a growable array whose new slots are left uninitialised, and
    which publishes one descriptor for its storage. Storage is modelled as a
    sequence of cells whose length is the capacity; the addresses returned by
    the allocator are parameters. */
module Vectors {
  import opened Bytes
  import opened Descriptors

  /** `growth_factor`. */
  const GROWTH_FACTOR: nat := 2

  /** A storage slot: never written since allocation, or holding a value. */
  datatype Cell<T> = Uninit | Val(value: T)

  datatype PVector<T> = PVector(
    storage: seq<Cell<T>>,     // [start_, end_capacity_)
    size: nat,                 // end_size_ - start_
    start: u64,                // (uint64_t)start_
    elementSize: u64,          // sizeof(T_)
    desc: Handle)              // array_descriptor

  predicate VectorWF<T>(v: PVector<T>) {
    v.size <= |v.storage|
  }

  function Capacity<T>(v: PVector<T>): nat {
    |v.storage|
  }

  /** The elements in `[0, size)`. */
  function Contents<T>(v: PVector<T>): (s: seq<Cell<T>>)
    requires VectorWF(v)
    ensures |s| == v.size
  {
    v.storage[..v.size]
  }

  /** The byte address of element position k: pointer arithmetic on `T_*`
      followed by the `(uint64_t)` cast. */
  function AddressOf(start: u64, k: nat, elementSize: u64): u64 {
    (start + k * elementSize) % TWO64
  }

  datatype Made<T> = Made(arena: Arena, vector: PVector<T>)

  /** `pvector()`: no storage, and a default descriptor (empty range, element
      size 0). The vector itself still knows `sizeof(T_)`, which
      `getElementSize` reports and later address ranges are measured in. */
  function NewEmpty<T>(a: Arena, elementSize: u64): (r: Made<T>)
    ensures VectorWF(r.vector) && r.vector.size == 0 && Capacity(r.vector) == 0
    ensures r.vector.elementSize == elementSize && r.vector.start == 0
    ensures r.vector.desc == |a.descs| && |r.arena.descs| == |a.descs| + 1
    ensures r.arena.descs[r.vector.desc] == DEFAULT_DESCRIPTOR
    ensures ArenaWF(a) ==> ArenaWF(r.arena)
    ensures Extends(a, r.arena)
  {
    var d := NewDescriptor(a, 0, 0, 0);
    Made(d.arena, PVector([], 0, 0, elementSize, d.handle))
  }

  /** `pvector(n)`: n fresh slots at `start`, size equal to capacity, and a
      descriptor for `[start, start + n * sizeof(T_))`. */
  function NewSized<T>(a: Arena, n: nat, start: u64, elementSize: u64): (r: Made<T>)
    ensures VectorWF(r.vector) && r.vector.size == n && Capacity(r.vector) == n
    ensures forall k | 0 <= k < n :: r.vector.storage[k] == Uninit
    ensures r.vector.start == start && r.vector.elementSize == elementSize
    ensures r.vector.desc == |a.descs| && |r.arena.descs| == |a.descs| + 1
    ensures var d := r.arena.descs[r.vector.desc];
      && d.vaddrStart == start && d.vaddrEnd == AddressOf(start, n, elementSize)
      && d.elementSize == elementSize && d.arrayId == UNASSIGNED && d.dst == ROOT
    ensures ArenaWF(a) ==> ArenaWF(r.arena)
    ensures Extends(a, r.arena)
  {
    var v := PVector(seq(n, _ => Uninit), n, start, elementSize, |a.descs|);
    var range := GetAddressRange(v);
    var d := NewDescriptor(a, range.start, range.end, elementSize);
    Made(d.arena, v)
  }

  /** With no wrap-around, a sized vector's descriptor counts exactly n
      elements. */
  lemma NewSizedElementCount<T>(a: Arena, n: nat, start: u64, elementSize: u64)
    requires elementSize > 0 && start + n * elementSize < TWO64
    ensures var r := NewSized<T>(a, n, start, elementSize);
      var d := r.arena.descs[r.vector.desc];
      ElementCount(d.vaddrStart, d.vaddrEnd, d.elementSize) == n
  {
    ElementCountExact(start, start + n * elementSize, elementSize, n);
  }

  /** `getAddressRange`: `[start_, end_size_)`, the live elements only. */
  function GetAddressRange<T>(v: PVector<T>): (r: AddressRange)
    ensures r.start == v.start
    ensures v.start + v.size * v.elementSize < TWO64 ==>
      r.end - r.start == v.size * v.elementSize
  {
    AddressRange(v.start, AddressOf(v.start, v.size, v.elementSize))
  }

  /** `reserve(k)`: when k exceeds the capacity, move the live elements to a
      new allocation of k slots at `newStart`; otherwise do nothing. The
      descriptor is not touched. */
  function Reserve<T>(v: PVector<T>, k: nat, newStart: u64): (r: PVector<T>)
    requires VectorWF(v)
    ensures VectorWF(r) && r.size == v.size && r.desc == v.desc
    ensures r.elementSize == v.elementSize
    ensures Contents(r) == Contents(v)
    ensures k > Capacity(v) ==> Capacity(r) == k && r.start == newStart
    ensures k > Capacity(v) ==> forall i | v.size <= i < k :: r.storage[i] == Uninit
    ensures k <= Capacity(v) ==> r == v
  {
    if k > Capacity(v) then
      v.(storage := v.storage[..v.size] + seq(k - v.size, _ => Uninit), start := newStart)
    else v
  }

  /** `empty()`. */
  function Empty<T>(v: PVector<T>): (b: bool)
    ensures b <==> v.size == 0
  {
    v.start + v.size == v.start
  }

  /** `clear()`: size 0, storage and capacity kept. */
  function Clear<T>(v: PVector<T>): (r: PVector<T>)
    requires VectorWF(v)
    ensures VectorWF(r) && Empty(r)
    ensures r.storage == v.storage && Capacity(r) == Capacity(v)
    ensures r.start == v.start && r.elementSize == v.elementSize && r.desc == v.desc
  {
    v.(size := 0)
  }

  /** `resize(k)`: reserve k, then make exactly k elements live. Slots that
      become live again after a shrink show what they held before. */
  function Resize<T>(v: PVector<T>, k: nat, newStart: u64): (r: PVector<T>)
    requires VectorWF(v)
    ensures VectorWF(r) && r.size == k && Capacity(r) >= k
    ensures Capacity(r) >= Capacity(v)
    ensures forall i | 0 <= i < k && i < v.size :: r.storage[i] == v.storage[i]
    ensures k <= Capacity(v) ==> r.storage == v.storage
    ensures r.desc == v.desc
  {
    Reserve(v, k, newStart).(size := k)
  }

  /** The capacity `push_back` grows a full vector to. */
  function GrownCapacity(capacity: nat): (c: nat)
    ensures c > capacity
    ensures capacity == 0 ==> c == 1
    ensures capacity > 0 ==> c == GROWTH_FACTOR * capacity
  {
    if capacity == 0 then 1 else capacity * GROWTH_FACTOR
  }

  /** `push_back(val)`: grow when full, then store the value after the last
      element. */
  function PushBack<T>(v: PVector<T>, x: T, newStart: u64): (r: PVector<T>)
    requires VectorWF(v)
    ensures VectorWF(r) && r.size == v.size + 1
    ensures Contents(r) == Contents(v) + [Val(x)]
    ensures v.size < Capacity(v) ==> Capacity(r) == Capacity(v) && r.start == v.start
    ensures v.size == Capacity(v) ==> Capacity(r) == GrownCapacity(Capacity(v)) && r.start == newStart
    ensures r.desc == v.desc && r.elementSize == v.elementSize
  {
    var w := if v.size == Capacity(v) then Reserve(v, GrownCapacity(Capacity(v)), newStart) else v;
    assert w.storage[..w.size] == v.storage[..v.size];
    var r := w.(storage := w.storage[w.size := Val(x)], size := w.size + 1);
    assert r.storage[..r.size] == w.storage[..w.size] + [Val(x)];
    r
  }

  predicate IsPowerOfTwo(n: nat) {
    n == 1 || (n > 1 && n % 2 == 0 && IsPowerOfTwo(n / 2))
  }

  /** Starting from an empty vector, push_back keeps the capacity a power of
      two (or zero), so the number of reallocations is logarithmic. */
  lemma PushBackKeepsPowerOfTwo<T>(v: PVector<T>, x: T, newStart: u64)
    requires VectorWF(v) && (Capacity(v) == 0 || IsPowerOfTwo(Capacity(v)))
    ensures IsPowerOfTwo(Capacity(PushBack(v, x, newStart)))
  {
    var c := Capacity(v);
    if v.size == c && c > 0 {
      assert (2 * c) / 2 == c;
    }
  }

  /** Pushing values one after another onto an empty vector makes them its
      contents, in order. */
  function PushAll<T>(v: PVector<T>, xs: seq<T>, newStart: u64): (r: PVector<T>)
    requires VectorWF(v)
    ensures VectorWF(r) && r.size == v.size + |xs|
    decreases |xs|
  {
    if |xs| == 0 then v else PushAll(PushBack(v, xs[0], newStart), xs[1..], newStart)
  }

  lemma {:induction false} PushAllContents<T>(v: PVector<T>, xs: seq<T>, newStart: u64)
    requires VectorWF(v)
    ensures Contents(PushAll(v, xs, newStart)) == Contents(v) + seq(|xs|, i requires 0 <= i < |xs| => Val(xs[i]))
    decreases |xs|
  {
    if |xs| > 0 {
      var w := PushBack(v, xs[0], newStart);
      PushAllContents(w, xs[1..], newStart);
      assert seq(|xs|, i requires 0 <= i < |xs| => Val(xs[i]))
          == [Val(xs[0])] + seq(|xs[1..]|, i requires 0 <= i < |xs[1..]| => Val(xs[1..][i]));
    }
  }

  /** Pushing keeps the element size and the descriptor; once the storage
      has moved to `newStart` (or must move there on the first push), it
      stays there. */
  lemma {:induction false} PushAllFrame<T>(v: PVector<T>, xs: seq<T>, newStart: u64)
    requires VectorWF(v)
    ensures PushAll(v, xs, newStart).elementSize == v.elementSize
    ensures PushAll(v, xs, newStart).desc == v.desc
    ensures (v.start == newStart || (|xs| > 0 && v.size == Capacity(v))) ==>
      PushAll(v, xs, newStart).start == newStart
    decreases |xs|
  {
    if |xs| > 0 {
      PushAllFrame(PushBack(v, xs[0], newStart), xs[1..], newStart);
    }
  }

  /** A default-constructed vector filled by `push_back` spans, without
      wrap-around, exactly `|xs|` elements of `sizeof(T_)` bytes from where
      its storage was allocated: the element size the default constructor
      keeps is what the address range is measured in. */
  lemma NewEmptyPushAllRange<T>(a: Arena, elementSize: u64, xs: seq<T>, newStart: u64)
    requires |xs| > 0 && newStart + |xs| * elementSize < TWO64
    ensures var v := PushAll(NewEmpty<T>(a, elementSize).vector, xs, newStart);
      var range := GetAddressRange(v);
      && range.start == newStart
      && range.end - range.start == |xs| * elementSize
  {
    var e := NewEmpty<T>(a, elementSize).vector;
    PushAllFrame(e, xs, newStart);
  }

  /** `fill(val)`: every live element becomes the value; spare capacity is
      left alone. */
  method Fill<T>(v: PVector<T>, x: T) returns (r: PVector<T>)
    requires VectorWF(v)
    ensures VectorWF(r) && r.size == v.size && Capacity(r) == Capacity(v)
    ensures forall i | 0 <= i < v.size :: r.storage[i] == Val(x)
    ensures forall i | v.size <= i < Capacity(v) :: r.storage[i] == v.storage[i]
    ensures r.start == v.start && r.desc == v.desc && r.elementSize == v.elementSize
  {
    var storage := v.storage;
    var i := 0;
    while i < v.size
      invariant 0 <= i <= v.size
      invariant |storage| == |v.storage|
      invariant forall k | 0 <= k < i :: storage[k] == Val(x)
      invariant forall k | i <= k < |storage| :: storage[k] == v.storage[k]
    {
      storage := storage[i := Val(x)];
      i := i + 1;
    }
    r := v.(storage := storage);
  }

  /** `pvector(n, init_val)`: a sized vector, then filled. */
  method NewFilled<T>(a: Arena, n: nat, x: T, start: u64, elementSize: u64)
    returns (a': Arena, v: PVector<T>)
    ensures VectorWF(v) && v.size == n && Capacity(v) == n
    ensures Contents(v) == seq(n, _ => Val(x))
    ensures v.desc == |a.descs| && |a'.descs| == |a.descs| + 1
    ensures a'.descs[v.desc].vaddrEnd == AddressOf(start, n, elementSize)
  {
    var m := NewSized<T>(a, n, start, elementSize);
    a' := m.arena;
    v := Fill(m.vector, x);
  }

  /** `indexedBy(d)`: d's dst becomes this vector's descriptor id. */
  function VectorIndexedBy<T>(a: Arena, v: PVector<T>, d: Handle): (r: Arena)
    requires Valid(a, v.desc) && Valid(a, d)
    ensures |r.descs| == |a.descs|
    ensures r.descs[d].dst == r.descs[v.desc].arrayId
    ensures IsAssigned(a, v.desc) ==> r.descs[d].dst == a.descs[v.desc].arrayId
    ensures d != v.desc ==> r.descs[d].(dst := a.descs[d].dst) == a.descs[d]
    ensures forall k | 0 <= k < |a.descs| && k != d && k != v.desc :: r.descs[k] == a.descs[k]
    ensures Extends(a, r)
  {
    IndexedBy(a, v.desc, d)
  }

  /** The descriptor is filled in once, by the sized constructor: after a
      `reserve` that moves the storage, the descriptor still names the old
      allocation. */
  lemma DescriptorNotMovedByReserve<T>(a: Arena, n: nat, start: u64, elementSize: u64,
                                       k: nat, newStart: u64)
    requires k > n && newStart != start
    ensures var m := NewSized<T>(a, n, start, elementSize);
      var r := Reserve(m.vector, k, newStart);
      && r.desc == m.vector.desc
      && m.arena.descs[r.desc].vaddrStart == start
      && GetAddressRange(r).start != m.arena.descs[r.desc].vaddrStart
  {
  }
}
