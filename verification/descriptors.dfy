/** `PickleArrayDescriptor`: one array's address range, element size, access
    pattern and the id of the array that indexes it. Descriptors are shared
    between containers and jobs, so they live in an arena and are addressed by
    handle; the process-wide id counter is part of the arena. */
module Descriptors {
  import opened Bytes
  import opened Results

  /** `-1ULL`: "no relation" for `dst`, and the root entry of every rename map. */
  const ROOT: u64 := TWO64 - 1
  /** Id 0 marks a descriptor whose id has not been assigned yet. */
  const UNASSIGNED: u64 := 0
  /** Initial value of the process-wide id counter. */
  const FIRST_ID: u64 := 1

  datatype AccessType = SingleElement | Ranged
  datatype AddressingMode = Pointer | Index

  /** Enumerator value of an access type (`SingleElement = 0, Ranged = 1`). */
  function AccessTypeCode(t: AccessType): (c: u64)
    ensures c < 2
    ensures c == 1 <==> t == Ranged
  {
    match t
    case SingleElement => 0
    case Ranged => 1
  }

  /** Enumerator value of an addressing mode (`Pointer = 0, Index = 1`). */
  function AddressingModeCode(m: AddressingMode): (c: u64)
    ensures c < 2
    ensures c == 1 <==> m == Index
  {
    match m
    case Pointer => 0
    case Index => 1
  }

  datatype ArrayDescriptor = ArrayDescriptor(
    arrayId: u64,
    dst: u64,              // dst_indexing_array_id
    vaddrStart: u64,
    vaddrEnd: u64,
    elementSize: u64,
    accessType: AccessType,
    addressingMode: AddressingMode)

  /** What the default constructor produces. */
  const DEFAULT_DESCRIPTOR: ArrayDescriptor :=
    ArrayDescriptor(UNASSIGNED, ROOT, 0, 0, 0, SingleElement, Pointer)

  /** A half-open byte range `[start, end)`. */
  datatype AddressRange = AddressRange(start: u64, end: u64)

  type Handle = nat

  /** All descriptors ever created, plus the next id to hand out. */
  datatype Arena = Arena(descs: seq<ArrayDescriptor>, nextId: u64)

  const EMPTY_ARENA: Arena := Arena([], FIRST_ID)

  predicate Valid(a: Arena, h: Handle) {
    h < |a.descs|
  }

  predicate IsAssigned(a: Arena, h: Handle)
    requires Valid(a, h)
  {
    a.descs[h].arrayId != UNASSIGNED
  }

  /** The counter is in its normal range and every assigned id is a distinct
      value below it, so no id collides with another or with ROOT. */
  ghost predicate ArenaWF(a: Arena) {
    && FIRST_ID <= a.nextId <= ROOT
    && (forall h | 0 <= h < |a.descs| :: a.descs[h].arrayId < a.nextId)
    && (forall h1, h2 | 0 <= h1 < |a.descs| && 0 <= h2 < |a.descs| && h1 != h2 ::
          a.descs[h1].arrayId != UNASSIGNED ==> a.descs[h1].arrayId != a.descs[h2].arrayId)
  }

  /** There are at least k ids left before the counter would hand out ROOT. */
  predicate Headroom(a: Arena, k: nat) {
    a.nextId + k <= ROOT
  }

  /** a' is a later state of a: nothing was removed and no assigned id changed. */
  ghost predicate Extends(a: Arena, a': Arena) {
    && |a.descs| <= |a'.descs|
    && forall h | 0 <= h < |a.descs| && a.descs[h].arrayId != UNASSIGNED ::
         a'.descs[h].arrayId == a.descs[h].arrayId
  }

  lemma ExtendsTransitive(a: Arena, b: Arena, c: Arena)
    requires Extends(a, b) && Extends(b, c)
    ensures Extends(a, c)
  {
  }

  datatype Allocated = Allocated(arena: Arena, handle: Handle)

  /** `new PickleArrayDescriptor()` followed by setting the address range and
      element size, as every container does when it builds its descriptor. */
  function NewDescriptor(a: Arena, start: u64, end: u64, elementSize: u64): (r: Allocated)
    ensures r.handle == |a.descs| && |r.arena.descs| == |a.descs| + 1
    ensures r.arena.descs[..|a.descs|] == a.descs && r.arena.nextId == a.nextId
    ensures var d := r.arena.descs[r.handle];
      && d.arrayId == UNASSIGNED && d.dst == ROOT
      && d.vaddrStart == start && d.vaddrEnd == end && d.elementSize == elementSize
      && d.accessType == SingleElement && d.addressingMode == Pointer
    ensures ArenaWF(a) ==> ArenaWF(r.arena)
    ensures Extends(a, r.arena)
  {
    var d := DEFAULT_DESCRIPTOR.(vaddrStart := start, vaddrEnd := end, elementSize := elementSize);
    Allocated(Arena(a.descs + [d], a.nextId), |a.descs|)
  }

  datatype IdGrant = IdGrant(arena: Arena, id: u64)

  /** `getArrayId`: returns the descriptor's id, taking the counter's current
      value (and advancing the counter) the first time it is asked. */
  function GetArrayId(a: Arena, h: Handle): (r: IdGrant)
    requires Valid(a, h)
    ensures |r.arena.descs| == |a.descs|
    ensures r.arena.descs[h].arrayId == r.id
    ensures forall k | 0 <= k < |a.descs| && k != h :: r.arena.descs[k] == a.descs[k]
    ensures r.arena.descs[h].(arrayId := a.descs[h].arrayId) == a.descs[h]
    ensures IsAssigned(a, h) ==> r == IdGrant(a, a.descs[h].arrayId)
    ensures !IsAssigned(a, h) ==> r.id == a.nextId && r.arena.nextId == Add64(a.nextId, 1)
    ensures Extends(a, r.arena)
  {
    if a.descs[h].arrayId == UNASSIGNED then
      var id := a.nextId;
      IdGrant(Arena(a.descs[h := a.descs[h].(arrayId := id)], Add64(a.nextId, 1)), id)
    else
      IdGrant(a, a.descs[h].arrayId)
  }

  /** Asking twice gives the same id and the second call changes nothing. */
  lemma GetArrayIdIdempotent(a: Arena, h: Handle)
    requires Valid(a, h)
    requires ArenaWF(a)
    ensures var r := GetArrayId(a, h); GetArrayId(r.arena, h) == r
  {
  }

  /** In a well-formed arena with room left, an assigned id is at least 1, below
      the new counter, and never ROOT; the arena stays well-formed. */
  lemma GetArrayIdKeepsWF(a: Arena, h: Handle)
    requires Valid(a, h)
    requires ArenaWF(a) && (IsAssigned(a, h) || Headroom(a, 1))
    ensures var r := GetArrayId(a, h);
      && ArenaWF(r.arena)
      && FIRST_ID <= r.id < r.arena.nextId
      && r.id != ROOT
      && IsAssigned(r.arena, h)
  {
  }

  /** Ids are handed out in first-access order: a descriptor first asked after
      another gets a strictly larger id. */
  lemma IdsIncreaseInFirstAccessOrder(a: Arena, h1: Handle, h2: Handle)
    requires Valid(a, h1) && Valid(a, h2) && h1 != h2
    requires ArenaWF(a) && Headroom(a, 2)
    requires !IsAssigned(a, h1) && !IsAssigned(a, h2)
    ensures var r1 := GetArrayId(a, h1);
      var r2 := GetArrayId(r1.arena, h2);
      FIRST_ID <= r1.id < r2.id && r2.arena.nextId == a.nextId + 2
  {
  }

  /** `setAccessType` on the descriptor behind h. */
  function SetAccessType(a: Arena, h: Handle, t: AccessType): (r: Arena)
    requires Valid(a, h)
    ensures |r.descs| == |a.descs| && r.nextId == a.nextId
    ensures r.descs[h].accessType == t
    ensures r.descs[h].(accessType := a.descs[h].accessType) == a.descs[h]
    ensures forall k | 0 <= k < |a.descs| && k != h :: r.descs[k] == a.descs[k]
  {
    a.(descs := a.descs[h := a.descs[h].(accessType := t)])
  }

  /** `setAddressingMode` on the descriptor behind h. */
  function SetAddressingMode(a: Arena, h: Handle, m: AddressingMode): (r: Arena)
    requires Valid(a, h)
    ensures |r.descs| == |a.descs| && r.nextId == a.nextId
    ensures r.descs[h].addressingMode == m
    ensures r.descs[h].(addressingMode := a.descs[h].addressingMode) == a.descs[h]
    ensures forall k | 0 <= k < |a.descs| && k != h :: r.descs[k] == a.descs[k]
  {
    a.(descs := a.descs[h := a.descs[h].(addressingMode := m)])
  }

  /** A write to the public `dst_indexing_array_id` field. */
  function SetDst(a: Arena, h: Handle, dst: u64): (r: Arena)
    requires Valid(a, h)
    ensures |r.descs| == |a.descs| && r.nextId == a.nextId
    ensures r.descs[h].dst == dst
    ensures r.descs[h].(dst := a.descs[h].dst) == a.descs[h]
    ensures forall k | 0 <= k < |a.descs| && k != h :: r.descs[k] == a.descs[k]
  {
    a.(descs := a.descs[h := a.descs[h].(dst := dst)])
  }

  /** The setters never touch ids, so they keep every arena invariant. */
  lemma SettersKeepWF(a: Arena, h: Handle, t: AccessType, m: AddressingMode, dst: u64)
    requires Valid(a, h) && ArenaWF(a)
    ensures ArenaWF(SetAccessType(a, h, t)) && Extends(a, SetAccessType(a, h, t))
    ensures ArenaWF(SetAddressingMode(a, h, m)) && Extends(a, SetAddressingMode(a, h, m))
    ensures ArenaWF(SetDst(a, h, dst)) && Extends(a, SetDst(a, h, dst))
  {
  }

  /** The descriptor-provider operation `indexedBy(d)`: store the provider's
      own id (assigning it if needed) as d's `dst_indexing_array_id`. */
  function IndexedBy(a: Arena, provider: Handle, d: Handle): (r: Arena)
    requires Valid(a, provider) && Valid(a, d)
    ensures |r.descs| == |a.descs|
    ensures r.descs[d].dst == r.descs[provider].arrayId == GetArrayId(a, provider).id
    ensures d != provider ==> r.descs[d].(dst := a.descs[d].dst) == a.descs[d]
    ensures d != provider ==> r.descs[provider].(arrayId := a.descs[provider].arrayId) == a.descs[provider]
    ensures forall k | 0 <= k < |a.descs| && k != d && k != provider :: r.descs[k] == a.descs[k]
    ensures Extends(a, r)
    ensures ArenaWF(a) && (IsAssigned(a, provider) || Headroom(a, 1)) ==>
      ArenaWF(r) && r.descs[d].dst != UNASSIGNED && r.descs[d].dst != ROOT
  {
    var g := GetArrayId(a, provider);
    GetArrayIdKeepsWFIf(a, provider);
    SetDst(g.arena, d, g.id)
  }

  lemma GetArrayIdKeepsWFIf(a: Arena, h: Handle)
    requires Valid(a, h)
    ensures ArenaWF(a) && (IsAssigned(a, h) || Headroom(a, 1)) ==>
      var r := GetArrayId(a, h); ArenaWF(r.arena) && FIRST_ID <= r.id < ROOT
  {
    if ArenaWF(a) && (IsAssigned(a, h) || Headroom(a, 1)) {
      GetArrayIdKeepsWF(a, h);
    }
  }

  /** The tuple `getTuple(rename_map)` returns: renamed id, renamed dst,
      addressing-mode bit, access-type bit, start address, element count and
      element size. */
  datatype WireTuple = WireTuple(
    id: u64, dst: u64, indexMode: bool, ranged: bool,
    start: u64, count: u64, elementSize: u64)

  /** `(vaddr_end - vaddr_start) / element_size`: the number of whole elements
      in the byte range, with the subtraction wrapping as `uint64_t` does. */
  function ElementCount(start: u64, end: u64, elementSize: u64): (c: u64)
    requires elementSize > 0
    ensures c * elementSize <= Sub64(end, start) < (c + 1) * elementSize
  {
    Quotient(Sub64(end, start), elementSize)
  }

  /** Integer division of naturals, characterised by its bounds. */
  function Quotient(x: nat, y: nat): (q: nat)
    requires y > 0
    ensures q <= x
    ensures q * y <= x < (q + 1) * y
  {
    DivAtMost(x, y);
    DivBounds(x, y);
    x / y
  }

  /** `getTuple(rename_map)`: both ids must be keys of the rename map (a miss is
      the `out_of_range` that `at` throws); the element count is the byte span
      divided by the element size. */
  function GetTuple(d: ArrayDescriptor, rename: map<u64, u64>): (r: Result<WireTuple>)
    requires d.elementSize > 0
    ensures r.Ok? <==> d.arrayId in rename && d.dst in rename
    ensures r.Err? ==> r.failure == KeyNotFound
    ensures r.Ok? ==>
      && r.value.id == rename[d.arrayId] && r.value.dst == rename[d.dst]
      && (r.value.indexMode <==> d.addressingMode == Index)
      && (r.value.ranged <==> d.accessType == Ranged)
      && r.value.start == d.vaddrStart && r.value.elementSize == d.elementSize
      && r.value.count == ElementCount(d.vaddrStart, d.vaddrEnd, d.elementSize)
  {
    if d.arrayId !in rename || d.dst !in rename then Err(KeyNotFound)
    else
      Ok(WireTuple(rename[d.arrayId], rename[d.dst],
                   d.addressingMode == Index, d.accessType == Ranged,
                   d.vaddrStart, ElementCount(d.vaddrStart, d.vaddrEnd, d.elementSize),
                   d.elementSize))
  }

  /** When the range holds exactly n elements, the count is n. */
  lemma ElementCountExact(start: u64, end: u64, elementSize: u64, n: nat)
    requires elementSize > 0 && end == start + n * elementSize
    ensures ElementCount(start, end, elementSize) == n
  {
    MulDivCancel(n, elementSize);
  }

  lemma DivAtMost(x: nat, y: nat)
    requires y > 0
    ensures x / y <= x
  {
    var q := x / y;
    DivBounds(x, y);
    MulAtLeast(q, y);
  }

  lemma {:induction false} MulAtLeast(q: nat, y: nat)
    requires y > 0
    ensures q <= q * y
  {
    if y > 1 {
      MulAtLeast(q, y - 1);
      assert q * y == q * (y - 1) + q;
    }
  }

  lemma DivBounds(x: nat, y: nat)
    requires y > 0
    ensures 0 <= x / y
    ensures (x / y) * y <= x < (x / y + 1) * y
  {
    assert x == (x / y) * y + x % y && 0 <= x % y < y;
  }

  lemma MulDivCancel(n: nat, k: nat)
    requires k > 0
    ensures (n * k) / k == n
  {
    var q := (n * k) / k;
    DivBounds(n * k, k);
    if q < n {
      MulMonotone(q + 1, n, k);
    }
  }

  lemma MulMonotone(x: int, y: int, k: nat)
    requires x <= y
    ensures x * k <= y * k
  {
  }
}
