/** `SlidingQueue`: a fixed buffer where appends land after `shared_in` and
    become visible only when the window slides over them. The descriptor
    covers the whole buffer. */
module Queues {
  import opened Bytes
  import opened Descriptors
  import opened Vectors

  datatype Queue<T> = Queue(
    shared: seq<Cell<T>>,      // the alloc_size slots of `shared`
    sharedIn: nat,
    outStart: nat,             // shared_out_start
    outEnd: nat,               // shared_out_end
    start: u64,                // (uint64_t)shared
    elementSize: u64,          // sizeof(T)
    desc: Handle)

  /** The window lies before the append point, which lies inside the buffer. */
  predicate QueueWF<T>(q: Queue<T>) {
    q.outStart <= q.outEnd <= q.sharedIn <= |q.shared|
  }

  /** The elements between `begin()` and `end()`. */
  function Window<T>(q: Queue<T>): seq<Cell<T>>
    requires QueueWF(q)
  {
    q.shared[q.outStart..q.outEnd]
  }

  /** `getAddressRange`: the whole allocation, `[shared, shared + alloc_size)`,
      whatever the window. */
  function QueueAddressRange<T>(q: Queue<T>): (r: AddressRange)
    ensures r.start == q.start
    ensures q.start + |q.shared| * q.elementSize < TWO64 ==>
      r.end - r.start == |q.shared| * q.elementSize
  {
    AddressRange(q.start, AddressOf(q.start, |q.shared|, q.elementSize))
  }

  datatype MadeQueue<T> = MadeQueue(arena: Arena, queue: Queue<T>)

  /** `SlidingQueue(shared_size)`: a fresh buffer, all positions reset, and a
      descriptor for the whole buffer. */
  function NewQueue<T>(a: Arena, sharedSize: nat, start: u64, elementSize: u64): (r: MadeQueue<T>)
    ensures QueueWF(r.queue) && |r.queue.shared| == sharedSize
    ensures r.queue.sharedIn == 0 && r.queue.outStart == 0 && r.queue.outEnd == 0
    ensures r.queue.desc == |a.descs| && |r.arena.descs| == |a.descs| + 1
    ensures var d := r.arena.descs[r.queue.desc];
      && d.vaddrStart == start && d.vaddrEnd == AddressOf(start, sharedSize, elementSize)
      && d.elementSize == elementSize && d.arrayId == UNASSIGNED && d.dst == ROOT
    ensures ArenaWF(a) ==> ArenaWF(r.arena)
    ensures Extends(a, r.arena)
  {
    var q := Reset(Queue(seq(sharedSize, _ => Uninit), 0, 0, 0, start, elementSize, |a.descs|));
    var range := QueueAddressRange(q);
    var d := NewDescriptor(a, range.start, range.end, elementSize);
    MadeQueue(d.arena, q)
  }

  /** With no wrap-around, the queue's descriptor counts every slot of the
      buffer, not only the window. */
  lemma NewQueueElementCount<T>(a: Arena, sharedSize: nat, start: u64, elementSize: u64)
    requires elementSize > 0 && start + sharedSize * elementSize < TWO64
    ensures var r := NewQueue<T>(a, sharedSize, start, elementSize);
      var d := r.arena.descs[r.queue.desc];
      ElementCount(d.vaddrStart, d.vaddrEnd, d.elementSize) == sharedSize
  {
    ElementCountExact(start, start + sharedSize * elementSize, elementSize, sharedSize);
  }

  /** `reset()`: all three positions back to 0; the buffer is kept. */
  function Reset<T>(q: Queue<T>): (r: Queue<T>)
    ensures QueueWF(r) && QueueEmpty(r) && QueueSize(r) == 0
    ensures r.shared == q.shared && r.desc == q.desc && r.start == q.start
  {
    q.(sharedIn := 0, outStart := 0, outEnd := 0)
  }

  /** `push_back(x)`: store at `shared_in` and advance it. There is no bound
      check, so a full buffer is outside what the source allows. */
  function QueuePush<T>(q: Queue<T>, x: T): (r: Queue<T>)
    requires QueueWF(q) && q.sharedIn < |q.shared|
    ensures QueueWF(r) && r.sharedIn == q.sharedIn + 1 && |r.shared| == |q.shared|
    ensures r.shared[q.sharedIn] == Val(x)
    ensures forall i | 0 <= i < |q.shared| && i != q.sharedIn :: r.shared[i] == q.shared[i]
    ensures Window(r) == Window(q) && QueueSize(r) == QueueSize(q)
    ensures r.start == q.start && r.elementSize == q.elementSize && r.desc == q.desc
  {
    var r := q.(shared := q.shared[q.sharedIn := Val(x)], sharedIn := q.sharedIn + 1);
    assert Window(r) == Window(q);
    r
  }

  /** `empty()`: nothing between `begin()` and `end()`. */
  function QueueEmpty<T>(q: Queue<T>): (b: bool)
    ensures QueueWF(q) ==> (b <==> Window(q) == [])
  {
    q.outStart == q.outEnd
  }

  /** `size()`, i.e. `end() - begin()`. */
  function QueueSize<T>(q: Queue<T>): (n: int)
    ensures QueueWF(q) ==> n == |Window(q)|
    ensures n == 0 <==> QueueEmpty(q)
  {
    q.outEnd - q.outStart
  }

  /** `slide_window()`: the old window is retired and everything appended
      since becomes the new window. */
  function SlideWindow<T>(q: Queue<T>): (r: Queue<T>)
    requires QueueWF(q)
    ensures QueueWF(r)
    ensures Window(r) == q.shared[q.outEnd..q.sharedIn]
    ensures r.shared == q.shared && r.sharedIn == q.sharedIn
    ensures r.start == q.start && r.elementSize == q.elementSize && r.desc == q.desc
  {
    q.(outStart := q.outEnd, outEnd := q.sharedIn)
  }

  /** Appends, in order. */
  function PushAllQueue<T>(q: Queue<T>, xs: seq<T>): (r: Queue<T>)
    requires QueueWF(q) && q.sharedIn + |xs| <= |q.shared|
    ensures QueueWF(r) && r.sharedIn == q.sharedIn + |xs|
    ensures r.outStart == q.outStart && r.outEnd == q.outEnd && |r.shared| == |q.shared|
    decreases |xs|
  {
    if |xs| == 0 then q else PushAllQueue(QueuePush(q, xs[0]), xs[1..])
  }

  /** The appended values sit, in order, right after the old append point. */
  lemma {:induction false} PushAllQueueStores<T>(q: Queue<T>, xs: seq<T>)
    requires QueueWF(q) && q.sharedIn + |xs| <= |q.shared|
    ensures var r := PushAllQueue(q, xs);
      && r.shared[..q.sharedIn] == q.shared[..q.sharedIn]
      && forall i | 0 <= i < |xs| :: r.shared[q.sharedIn + i] == Val(xs[i])
    decreases |xs|
  {
    if |xs| > 0 {
      var w := QueuePush(q, xs[0]);
      PushAllQueueStores(w, xs[1..]);
      var r := PushAllQueue(w, xs[1..]);
      assert r.shared[..q.sharedIn] == w.shared[..q.sharedIn];
      forall i | 0 <= i < |xs|
        ensures r.shared[q.sharedIn + i] == Val(xs[i])
      {
        if i > 0 {
          assert r.shared[w.sharedIn + (i - 1)] == Val(xs[1..][i - 1]);
        }
      }
    }
  }

  /** Appending values to a slid queue and sliding again shows exactly those
      values, in order: nothing appended before the previous slide, and
      nothing lost. */
  lemma PushThenSlide<T>(q: Queue<T>, xs: seq<T>)
    requires QueueWF(q) && q.outEnd == q.sharedIn && q.sharedIn + |xs| <= |q.shared|
    ensures Window(SlideWindow(PushAllQueue(q, xs))) == seq(|xs|, i requires 0 <= i < |xs| => Val(xs[i]))
    ensures QueueSize(SlideWindow(PushAllQueue(q, xs))) == |xs|
  {
    PushAllQueueStores(q, xs);
  }

  /** A window slid twice with no appends in between is empty. */
  lemma SlideWithoutPushIsEmpty<T>(q: Queue<T>)
    requires QueueWF(q)
    ensures QueueEmpty(SlideWindow(SlideWindow(q)))
  {
  }
}
