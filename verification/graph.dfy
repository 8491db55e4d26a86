/** `CSRGraph` as a descriptor provider: the four arrays of a compressed
    sparse row graph (in/out index, in/out neighbors), their address ranges,
    the descriptors built for them and the index -> neighbors relations, plus
    the degree and offset arithmetic on the index arrays.

    A `DestID_*` pointer is modelled as an element number p into the
    neighbor storage; its byte address is p * sizeof(DestID_). The index
    arrays hold such element numbers; their own address is a byte address. */
module Graphs {
  import opened Bytes
  import opened Descriptors

  /** `sizeof(DestID_*)`: the element size of an index array. */
  const POINTER_BYTES: u64 := 8

  /** The `(uint64_t)` cast of a pointer-sized integer. */
  function Wrap64(x: int): (r: u64)
    ensures 0 <= x < TWO64 ==> r == x
    ensures (r - x) % TWO64 == 0
  {
    x % TWO64
  }

  /** C++ signed division, which truncates toward zero. */
  function DivTrunc(x: int, y: int): (q: int)
    requires y > 0
    ensures x >= 0 ==> q >= 0 && q * y <= x < (q + 1) * y
    ensures x < 0 ==> q <= 0 && q * y >= x > (q - 1) * y
  {
    if x >= 0 then
      DivBounds(x, y);
      x / y
    else
      DivBounds(-x, y);
      NegMul((-x) / y, y);
      -((-x) / y)
  }

  lemma NegMul(a: int, y: int)
    ensures (-a) * y == -(a * y) && (-a - 1) * y == -((a + 1) * y)
  {
  }

  datatype CSRGraph = CSRGraph(
    directed: bool,
    numNodes: nat,
    numEdges: int,
    outIndex: seq<int>,        // out_index_[v]: first out-neighbor of v
    inIndex: seq<int>,
    outNeighbors: int,         // out_neighbors_
    inNeighbors: int,
    outIndexAddr: u64,         // (uint64_t)out_index_
    inIndexAddr: u64,
    destSize: u64,             // sizeof(DestID_)
    inIndexDesc: Handle,
    outIndexDesc: Handle,
    inNeighborsDesc: Handle,
    outNeighborsDesc: Handle)

  /** `[index, index + num_nodes + 1)` in bytes. */
  function IndexRange(addr: u64, numNodes: nat): (r: AddressRange)
    ensures addr + (numNodes + 1) * 8 < TWO64 ==>
      r.start <= r.end && r.end - r.start == (numNodes + 1) * POINTER_BYTES
  {
    AddressRange(addr, Wrap64(addr + (numNodes + 1) * 8))
  }

  /** `[neighbors, neighbors + num_edges)` in bytes. */
  function NeighborsRange(neighbors: int, numEdges: int, destSize: u64): (r: AddressRange)
    ensures 0 <= neighbors && 0 <= numEdges && (neighbors + numEdges) * destSize < TWO64 ==>
      r.start == neighbors * destSize && r.start <= r.end && r.end - r.start == numEdges * destSize
  {
    AddressRange(Wrap64(neighbors * destSize), Wrap64((neighbors + numEdges) * destSize))
  }

  function OutIndexRange(g: CSRGraph): AddressRange {
    IndexRange(g.outIndexAddr, g.numNodes)
  }

  function InIndexRange(g: CSRGraph): AddressRange {
    IndexRange(g.inIndexAddr, g.numNodes)
  }

  function OutNeighborsRange(g: CSRGraph): AddressRange {
    NeighborsRange(g.outNeighbors, g.numEdges, g.destSize)
  }

  function InNeighborsRange(g: CSRGraph): AddressRange {
    NeighborsRange(g.inNeighbors, g.numEdges, g.destSize)
  }

  /** The descriptor `constructArrayDescriptors` fills in for one array. */
  predicate Describes(d: ArrayDescriptor, r: AddressRange, elementSize: u64) {
    && d.vaddrStart == r.start && d.vaddrEnd == r.end && d.elementSize == elementSize
    && d.accessType == SingleElement && d.addressingMode == Pointer
  }

  /** The graph's four descriptors exist, are distinct, and its index arrays
      have one entry per vertex plus the end marker. */
  predicate GraphWF(a: Arena, g: CSRGraph) {
    && Valid(a, g.inIndexDesc) && Valid(a, g.outIndexDesc)
    && Valid(a, g.inNeighborsDesc) && Valid(a, g.outNeighborsDesc)
    && g.inIndexDesc != g.outIndexDesc && g.inIndexDesc != g.inNeighborsDesc
    && g.inIndexDesc != g.outNeighborsDesc && g.outIndexDesc != g.inNeighborsDesc
    && g.outIndexDesc != g.outNeighborsDesc && g.inNeighborsDesc != g.outNeighborsDesc
    && |g.outIndex| == g.numNodes + 1 && |g.inIndex| == g.numNodes + 1
  }

  datatype Built = Built(arena: Arena, graph: CSRGraph)

  /** `constructArrayDescriptors`: four fresh descriptors, created in the
      order in-index, out-index, in-neighbors, out-neighbors, each covering
      its array. */
  function ConstructArrayDescriptors(a: Arena, g: CSRGraph): (r: Built)
    ensures |r.arena.descs| == |a.descs| + 4 && r.arena.nextId == a.nextId
    ensures r.arena.descs[..|a.descs|] == a.descs
    ensures r.graph == g.(inIndexDesc := |a.descs|, outIndexDesc := |a.descs| + 1,
                          inNeighborsDesc := |a.descs| + 2, outNeighborsDesc := |a.descs| + 3)
    ensures Describes(r.arena.descs[|a.descs|], InIndexRange(g), POINTER_BYTES)
    ensures Describes(r.arena.descs[|a.descs| + 1], OutIndexRange(g), POINTER_BYTES)
    ensures Describes(r.arena.descs[|a.descs| + 2], InNeighborsRange(g), g.destSize)
    ensures Describes(r.arena.descs[|a.descs| + 3], OutNeighborsRange(g), g.destSize)
    ensures forall k | |a.descs| <= k < |r.arena.descs| ::
      r.arena.descs[k].arrayId == UNASSIGNED && r.arena.descs[k].dst == ROOT
    ensures ArenaWF(a) ==> ArenaWF(r.arena)
  {
    var inIdx := InIndexRange(g);
    var outIdx := OutIndexRange(g);
    var inNb := InNeighborsRange(g);
    var outNb := OutNeighborsRange(g);
    var d0 := NewDescriptor(a, inIdx.start, inIdx.end, POINTER_BYTES);
    var d1 := NewDescriptor(d0.arena, outIdx.start, outIdx.end, POINTER_BYTES);
    var d2 := NewDescriptor(d1.arena, inNb.start, inNb.end, g.destSize);
    var d3 := NewDescriptor(d2.arena, outNb.start, outNb.end, g.destSize);
    assert d3.arena.descs[..|a.descs|] == d2.arena.descs[..|a.descs|];
    assert d2.arena.descs[..|a.descs|] == d1.arena.descs[..|a.descs|];
    Built(d3.arena, g.(inIndexDesc := d0.handle, outIndexDesc := d1.handle,
                       inNeighborsDesc := d2.handle, outNeighborsDesc := d3.handle))
  }

  /** The graph arrays an `indexedBy` call can name. */
  datatype GraphArray = InIndex | OutIndex | InNeighbors | OutNeighbors

  function DescOf(g: CSRGraph, x: GraphArray): Handle {
    match x
    case InIndex => g.inIndexDesc
    case OutIndex => g.outIndexDesc
    case InNeighbors => g.inNeighborsDesc
    case OutNeighbors => g.outNeighborsDesc
  }

  /** `inIndexIndexedBy`, `outIndexIndexedBy`, `inNeighborsIndexedBy` and
      `outNeighborsIndexedBy`: d's `dst_indexing_array_id` becomes the id of
      the named graph array (assigned now if it had none). Only d's dst and
      that array's id change. */
  function ArrayIndexedBy(a: Arena, g: CSRGraph, x: GraphArray, d: Handle): (r: Arena)
    requires GraphWF(a, g) && Valid(a, d)
    ensures |r.descs| == |a.descs|
    ensures r.descs[d].dst == r.descs[DescOf(g, x)].arrayId != UNASSIGNED || a.nextId == UNASSIGNED
    ensures IsAssigned(a, DescOf(g, x)) ==> r.descs[d].dst == a.descs[DescOf(g, x)].arrayId
    ensures d != DescOf(g, x) ==> r.descs[d].(dst := a.descs[d].dst) == a.descs[d]
    ensures d != DescOf(g, x) ==>
      r.descs[DescOf(g, x)].(arrayId := a.descs[DescOf(g, x)].arrayId) == a.descs[DescOf(g, x)]
    ensures forall k | 0 <= k < |a.descs| && k != d && k != DescOf(g, x) :: r.descs[k] == a.descs[k]
    ensures Extends(a, r)
  {
    IndexedBy(a, DescOf(g, x), d)
  }

  /** `constructArrayRelations`: each index array is indexed by its neighbor
      array, so each neighbor array is assigned an id here, in-neighbors
      first. */
  function ConstructArrayRelations(a: Arena, g: CSRGraph): (r: Arena)
    requires GraphWF(a, g)
  {
    var a1 := ArrayIndexedBy(a, g, InNeighbors, g.inIndexDesc);
    ArrayIndexedBy(a1, g, OutNeighbors, g.outIndexDesc)
  }

  /** Both constructors: record the fields, then build and relate the
      descriptors. */
  function Construct(a: Arena, g: CSRGraph): (r: Built)
    requires |g.outIndex| == g.numNodes + 1 && |g.inIndex| == g.numNodes + 1
    ensures GraphWF(r.arena, r.graph)
    ensures r.graph == g.(inIndexDesc := |a.descs|, outIndexDesc := |a.descs| + 1,
                          inNeighborsDesc := |a.descs| + 2, outNeighborsDesc := |a.descs| + 3)
  {
    var b := ConstructArrayDescriptors(a, g);
    Built(ConstructArrayRelations(b.arena, b.graph), b.graph)
  }

  /** The undirected constructor: in and out arrays are the same storage and
      `num_edges_` is half the number of stored neighbor entries. */
  function NewUndirected(a: Arena, numNodes: nat, index: seq<int>, neighbors: int,
                         indexAddr: u64, destSize: u64): (r: Built)
    requires |index| == numNodes + 1
    ensures GraphWF(r.arena, r.graph)
    ensures !r.graph.directed && r.graph.numNodes == numNodes
    ensures r.graph.outIndex == r.graph.inIndex == index
    ensures r.graph.outNeighbors == r.graph.inNeighbors == neighbors
    ensures r.graph.outIndexAddr == r.graph.inIndexAddr == indexAddr && r.graph.destSize == destSize
    ensures r.graph.numEdges == DivTrunc(index[numNodes] - index[0], 2)
    ensures neighbors == index[0] ==> UndirectedShape(r.graph)
  {
    var g := CSRGraph(false, numNodes, DivTrunc(index[numNodes] - index[0], 2),
                      index, index, neighbors, neighbors, indexAddr, indexAddr, destSize, 0, 0, 0, 0);
    Construct(a, g)
  }

  /** The directed constructor: separate in and out arrays, and `num_edges_`
      is the number of stored out-neighbor entries. */
  function NewDirected(a: Arena, numNodes: nat,
                       outIndex: seq<int>, outNeighbors: int, inIndex: seq<int>, inNeighbors: int,
                       outIndexAddr: u64, inIndexAddr: u64, destSize: u64): (r: Built)
    requires |outIndex| == numNodes + 1 && |inIndex| == numNodes + 1
    ensures GraphWF(r.arena, r.graph)
    ensures r.graph.directed && r.graph.numNodes == numNodes
    ensures r.graph.outIndex == outIndex && r.graph.inIndex == inIndex
    ensures r.graph.outNeighbors == outNeighbors && r.graph.inNeighbors == inNeighbors
    ensures r.graph.outIndexAddr == outIndexAddr && r.graph.inIndexAddr == inIndexAddr
    ensures r.graph.destSize == destSize
    ensures r.graph.numEdges == outIndex[numNodes] - outIndex[0]
  {
    var g := CSRGraph(true, numNodes, outIndex[numNodes] - outIndex[0],
                      outIndex, inIndex, outNeighbors, inNeighbors, outIndexAddr, inIndexAddr,
                      destSize, 0, 0, 0, 0);
    Construct(a, g)
  }

  /** After construction: four new descriptors covering the four arrays; each
      index descriptor points at its neighbor descriptor, which now has an id
      (in-neighbors before out-neighbors) and keeps root as its own dst; the
      index descriptors themselves have no id yet; older descriptors are
      untouched. */
  lemma ConstructWiring(a: Arena, g: CSRGraph)
    requires |g.outIndex| == g.numNodes + 1 && |g.inIndex| == g.numNodes + 1
    requires ArenaWF(a) && Headroom(a, 2)
    ensures var r := Construct(a, g); var h := r.graph; var ds := r.arena.descs;
      && |ds| == |a.descs| + 4
      && (forall k | 0 <= k < |a.descs| :: ds[k] == a.descs[k])
      && h.inIndexDesc == |a.descs| && h.outIndexDesc == |a.descs| + 1
      && h.inNeighborsDesc == |a.descs| + 2 && h.outNeighborsDesc == |a.descs| + 3
      && Describes(ds[h.inIndexDesc], InIndexRange(g), POINTER_BYTES)
      && Describes(ds[h.outIndexDesc], OutIndexRange(g), POINTER_BYTES)
      && Describes(ds[h.inNeighborsDesc], InNeighborsRange(g), g.destSize)
      && Describes(ds[h.outNeighborsDesc], OutNeighborsRange(g), g.destSize)
      && ds[h.inNeighborsDesc].arrayId == a.nextId
      && ds[h.outNeighborsDesc].arrayId == a.nextId + 1
      && ds[h.inIndexDesc].dst == ds[h.inNeighborsDesc].arrayId
      && ds[h.outIndexDesc].dst == ds[h.outNeighborsDesc].arrayId
      && ds[h.inNeighborsDesc].dst == ROOT && ds[h.outNeighborsDesc].dst == ROOT
      && ds[h.inIndexDesc].arrayId == UNASSIGNED && ds[h.outIndexDesc].arrayId == UNASSIGNED
      && ArenaWF(r.arena) && r.arena.nextId == a.nextId + 2
  {
    var b := ConstructArrayDescriptors(a, g);
    var n := |a.descs|;
    assert forall k | 0 <= k < n :: b.arena.descs[k] == a.descs[k] by {
      assert forall k | 0 <= k < n :: b.arena.descs[k] == b.arena.descs[..n][k];
    }
    RelationsWiring(b.arena, b.graph);
  }

  /** `constructArrayRelations` on four fresh descriptors: the neighbor
      descriptors take the next two ids and the index descriptors record
      them as dst; nothing else changes. */
  lemma RelationsWiring(a: Arena, g: CSRGraph)
    requires GraphWF(a, g) && ArenaWF(a) && Headroom(a, 2)
    requires !IsAssigned(a, g.inNeighborsDesc) && !IsAssigned(a, g.outNeighborsDesc)
    ensures var r := ConstructArrayRelations(a, g);
      && |r.descs| == |a.descs|
      && (forall k | 0 <= k < |a.descs| && k != g.inIndexDesc && k != g.outIndexDesc
            && k != g.inNeighborsDesc && k != g.outNeighborsDesc :: r.descs[k] == a.descs[k])
      && r.descs[g.inNeighborsDesc] == a.descs[g.inNeighborsDesc].(arrayId := a.nextId)
      && r.descs[g.outNeighborsDesc] == a.descs[g.outNeighborsDesc].(arrayId := a.nextId + 1)
      && r.descs[g.inIndexDesc] == a.descs[g.inIndexDesc].(dst := a.nextId)
      && r.descs[g.outIndexDesc] == a.descs[g.outIndexDesc].(dst := a.nextId + 1)
      && ArenaWF(r) && r.nextId == a.nextId + 2
  {
    var a1 := ArrayIndexedBy(a, g, InNeighbors, g.inIndexDesc);
    GetArrayIdKeepsWF(a, g.inNeighborsDesc);
    var a2 := ArrayIndexedBy(a1, g, OutNeighbors, g.outIndexDesc);
    GetArrayIdKeepsWF(a1, g.outNeighborsDesc);
  }

  /** An index descriptor covers exactly `num_nodes + 1` pointers. */
  lemma IndexRangeCount(addr: u64, numNodes: nat)
    requires addr + (numNodes + 1) * 8 < TWO64
    ensures var r := IndexRange(addr, numNodes);
      ElementCount(r.start, r.end, POINTER_BYTES) == numNodes + 1
  {
    var r := IndexRange(addr, numNodes);
    ElementCountExact(r.start, r.end, POINTER_BYTES, numNodes + 1);
  }

  /** A neighbor descriptor covers exactly `num_edges_` neighbor entries. */
  lemma NeighborsRangeCount(neighbors: int, numEdges: int, destSize: u64)
    requires 0 <= neighbors && 0 <= numEdges && destSize > 0
    requires (neighbors + numEdges) * destSize < TWO64
    ensures var r := NeighborsRange(neighbors, numEdges, destSize);
      ElementCount(r.start, r.end, destSize) == numEdges
  {
    var r := NeighborsRange(neighbors, numEdges, destSize);
    ElementCountExact(r.start, r.end, destSize, numEdges);
  }

  /** The fields as the undirected constructor leaves them, for a graph
      whose index starts at the beginning of its neighbor storage. */
  predicate UndirectedShape(g: CSRGraph) {
    && !g.directed && |g.outIndex| == g.numNodes + 1
    && g.outIndex[0] == g.outNeighbors
    && g.numEdges == DivTrunc(g.outIndex[g.numNodes] - g.outIndex[0], 2)
  }

  /** For an undirected graph the neighbor storage holds `2 * num_edges_`
      entries (every edge in both directions), yet the neighbor descriptors
      cover only `num_edges_` of them: with at least one edge, the last stored
      entry lies outside the described range. */
  lemma UndirectedNeighborsRangeIsHalf(g: CSRGraph)
    requires UndirectedShape(g) && g.destSize > 0 && 0 <= g.outNeighbors
    requires g.outIndex[g.numNodes] - g.outIndex[0] >= 2
    requires g.outIndex[g.numNodes] * g.destSize < TWO64
    ensures NumEdgesDirected(g) >= g.outIndex[g.numNodes] - g.outIndex[0] - 1
    ensures OutNeighborsRange(g).start == g.outIndex[0] * g.destSize
    ensures OutNeighborsRange(g).end <= (g.outIndex[g.numNodes] - 1) * g.destSize
  {
    var total := g.outIndex[g.numNodes] - g.outIndex[0];
    HalfRangeMissesLastEntry(g.outNeighbors, total, g.destSize);
  }

  lemma HalfRangeMissesLastEntry(neighbors: int, total: int, destSize: u64)
    requires destSize > 0 && 0 <= neighbors && total >= 2
    requires (neighbors + total) * destSize < TWO64
    ensures var r := NeighborsRange(neighbors, DivTrunc(total, 2), destSize);
      r.start == neighbors * destSize && r.end <= (neighbors + total - 1) * destSize
  {
    var half := DivTrunc(total, 2);
    assert 0 <= half && neighbors + half <= neighbors + total - 1;
    MulMonotone(neighbors + half, neighbors + total - 1, destSize);
    MulMonotone(neighbors + half, neighbors + total, destSize);
  }

  /** `num_edges_directed`: edges counted once per direction. */
  function NumEdgesDirected(g: CSRGraph): (m: int)
    ensures g.directed ==> m == g.numEdges
    ensures !g.directed ==> m == 2 * g.numEdges
  {
    if g.directed then g.numEdges else 2 * g.numEdges
  }

  /** `out_degree(v)`: the length of v's slice of the neighbor array. */
  function OutDegree(g: CSRGraph, v: nat): int
    requires v < g.numNodes && |g.outIndex| == g.numNodes + 1
  {
    g.outIndex[v + 1] - g.outIndex[v]
  }

  /** `in_degree(v)`, the same on the in-arrays. */
  function InDegree(g: CSRGraph, v: nat): int
    requires v < g.numNodes && |g.inIndex| == g.numNodes + 1
  {
    g.inIndex[v + 1] - g.inIndex[v]
  }

  /** Out-degrees of the first k vertices, added up. */
  function OutDegreeSum(g: CSRGraph, k: nat): int
    requires k <= g.numNodes && |g.outIndex| == g.numNodes + 1
  {
    if k == 0 then 0 else OutDegreeSum(g, k - 1) + OutDegree(g, k - 1)
  }

  /** The degrees telescope: the first k out-degrees add up to the number of
      neighbor entries before vertex k. */
  lemma {:induction false} OutDegreeSumTelescopes(g: CSRGraph, k: nat)
    requires k <= g.numNodes && |g.outIndex| == g.numNodes + 1
    ensures OutDegreeSum(g, k) == g.outIndex[k] - g.outIndex[0]
  {
    if k > 0 {
      OutDegreeSumTelescopes(g, k - 1);
    }
  }

  /** For a directed graph the out-degrees add up to `num_edges_directed`;
      for an undirected one they do whenever the stored entry count is even,
      as it is when every edge is stored in both directions. */
  lemma DegreesAddUpToDirectedEdges(g: CSRGraph)
    requires |g.outIndex| == g.numNodes + 1
    requires g.directed ==> g.numEdges == g.outIndex[g.numNodes] - g.outIndex[0]
    requires !g.directed ==> g.numEdges == DivTrunc(g.outIndex[g.numNodes] - g.outIndex[0], 2)
    requires !g.directed ==> (g.outIndex[g.numNodes] - g.outIndex[0]) % 2 == 0
    ensures OutDegreeSum(g, g.numNodes) == NumEdgesDirected(g)
  {
    OutDegreeSumTelescopes(g, g.numNodes);
  }

  /** The vertex's index slice is in order. */
  predicate MonotoneAt(index: seq<int>, v: nat)
    requires v + 1 < |index|
  {
    index[v] <= index[v + 1]
  }

  /** `[begin, end)` of a `Neighborhood`, as element numbers. */
  datatype Neighborhood = Neighborhood(begin: int, end: int)

  /** The `Neighborhood` constructor: the start offset is clamped to the
      unsigned distance `end() - begin()`, and `begin()` is the vertex's first
      entry plus the clamped offset. */
  function MakeNeighborhood(index: seq<int>, v: nat, startOffset: u64): (r: Neighborhood)
    requires v + 1 < |index|
    ensures r.end == index[v + 1]
    ensures MonotoneAt(index, v) && index[v + 1] - index[v] < TWO64 ==>
      && index[v] <= r.begin <= r.end
      && r.begin - index[v] == if startOffset <= index[v + 1] - index[v] then startOffset
                               else index[v + 1] - index[v]
  {
    var maxOffset := Wrap64(index[v + 1] - index[v]);
    var offset := if startOffset < maxOffset then startOffset else maxOffset;
    Neighborhood(index[v] + offset, index[v + 1])
  }

  /** `out_neigh(v, start_offset)`. */
  function OutNeigh(g: CSRGraph, v: nat, startOffset: u64): (r: Neighborhood)
    requires v < g.numNodes && |g.outIndex| == g.numNodes + 1
    ensures MonotoneAt(g.outIndex, v) && OutDegree(g, v) < TWO64 ==>
      r.end - r.begin <= OutDegree(g, v)
  {
    MakeNeighborhood(g.outIndex, v, startOffset)
  }

  /** `in_neigh(v, start_offset)`. */
  function InNeigh(g: CSRGraph, v: nat, startOffset: u64): (r: Neighborhood)
    requires v < g.numNodes && |g.inIndex| == g.numNodes + 1
    ensures MonotoneAt(g.inIndex, v) && InDegree(g, v) < TWO64 ==>
      r.end - r.begin <= InDegree(g, v)
  {
    MakeNeighborhood(g.inIndex, v, startOffset)
  }

  /** A zero start offset gives the whole slice of an in-order vertex. */
  lemma NeighborhoodFromZero(index: seq<int>, v: nat)
    requires v + 1 < |index| && MonotoneAt(index, v) && index[v + 1] - index[v] < TWO64
    ensures MakeNeighborhood(index, v, 0) == Neighborhood(index[v], index[v + 1])
  {
  }

  /** `VertexOffsets(in_graph)`: each vertex's first entry as an offset from
      vertex 0's first entry. */
  method VertexOffsets(g: CSRGraph, inGraph: bool) returns (offsets: seq<int>)
    requires |g.outIndex| == g.numNodes + 1 && |g.inIndex| == g.numNodes + 1
    ensures |offsets| == g.numNodes + 1
    ensures offsets[0] == 0
    ensures var index := if inGraph then g.inIndex else g.outIndex;
      && offsets[g.numNodes] == index[g.numNodes] - index[0]
      && forall v | 0 <= v < g.numNodes :: offsets[v + 1] - offsets[v] == index[v + 1] - index[v]
  {
    var index := if inGraph then g.inIndex else g.outIndex;
    offsets := [];
    var n := 0;
    while n < g.numNodes + 1
      invariant 0 <= n <= g.numNodes + 1
      invariant |offsets| == n
      invariant forall k | 0 <= k < n :: offsets[k] == index[k] - index[0]
    {
      offsets := offsets + [index[n] - index[0]];
      n := n + 1;
    }
  }

  /** `GenIndex(offsets, neighs)`: an index array whose entry n points
      `offsets[n]` elements into `neighs`. */
  method GenIndex(offsets: seq<int>, neighbors: int) returns (index: seq<int>)
    ensures |index| == |offsets|
    ensures forall n | 0 <= n < |offsets| :: index[n] - neighbors == offsets[n]
  {
    index := [];
    var n := 0;
    while n < |offsets|
      invariant 0 <= n <= |offsets|
      invariant |index| == n
      invariant forall k | 0 <= k < n :: index[k] == neighbors + offsets[k]
    {
      index := index + [neighbors + offsets[n]];
      n := n + 1;
    }
  }

  /** Offsets and `GenIndex` are inverse: rebuilding an index from its
      offsets and its own first entry gives the index back. */
  method RebuildIndex(g: CSRGraph, inGraph: bool) returns (index: seq<int>)
    requires |g.outIndex| == g.numNodes + 1 && |g.inIndex| == g.numNodes + 1
    ensures index == if inGraph then g.inIndex else g.outIndex
  {
    var original := if inGraph then g.inIndex else g.outIndex;
    var offsets := VertexOffsets(g, inGraph);
    OffsetsDetermineIndex(original, offsets);
    index := GenIndex(offsets, original[0]);
  }

  lemma OffsetsDetermineIndex(index: seq<int>, offsets: seq<int>)
    requires |index| == |offsets| > 0 && offsets[0] == 0
    requires forall v | 0 <= v < |index| - 1 :: offsets[v + 1] - offsets[v] == index[v + 1] - index[v]
    ensures forall v | 0 <= v < |index| :: offsets[v] == index[v] - index[0]
  {
    forall v | 0 <= v < |index| {
      OffsetAt(index, offsets, v);
    }
  }

  /** Differences that agree from the same origin give the same offsets. */
  lemma {:induction false} OffsetAt(index: seq<int>, offsets: seq<int>, v: nat)
    requires |index| == |offsets| > 0 && offsets[0] == 0 && v < |index|
    requires forall v | 0 <= v < |index| - 1 :: offsets[v + 1] - offsets[v] == index[v + 1] - index[v]
    ensures offsets[v] == index[v] - index[0]
  {
    if v > 0 {
      OffsetAt(index, offsets, v - 1);
    }
  }

  /** The graph seen with its edge directions reversed: in and out swap. */
  function Reverse(g: CSRGraph): (r: CSRGraph)
    ensures r.numNodes == g.numNodes && r.numEdges == g.numEdges && r.directed == g.directed
  {
    g.(outIndex := g.inIndex, inIndex := g.outIndex,
       outNeighbors := g.inNeighbors, inNeighbors := g.outNeighbors,
       outIndexAddr := g.inIndexAddr, inIndexAddr := g.outIndexAddr,
       inIndexDesc := g.outIndexDesc, outIndexDesc := g.inIndexDesc,
       inNeighborsDesc := g.outNeighborsDesc, outNeighborsDesc := g.inNeighborsDesc)
  }

  /** Reversing swaps which arrays the accessors name and keeps the graph
      well formed. */
  lemma ReverseSwapsArrays(a: Arena, g: CSRGraph)
    ensures DescOf(Reverse(g), InIndex) == DescOf(g, OutIndex)
    ensures DescOf(Reverse(g), InNeighbors) == DescOf(g, OutNeighbors)
    ensures DescOf(Reverse(g), OutIndex) == DescOf(g, InIndex)
    ensures DescOf(Reverse(g), OutNeighbors) == DescOf(g, InNeighbors)
    ensures GraphWF(a, g) <==> GraphWF(a, Reverse(g))
    ensures Reverse(Reverse(g)) == g
  {
  }
}
