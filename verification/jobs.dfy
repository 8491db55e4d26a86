/** `PickleJob`: the descriptors one kernel launch hands to the device, the
    dense renaming of their sparse global ids, and the job descriptor bytes. */
module Jobs {
  import opened Bytes
  import opened Results
  import opened Descriptors
  import opened Wire

  datatype Job = Job(
    kernelName: seq<byte>,
    arrays: seq<Handle>,            // registration order = wire order
    renameMap: map<u64, u64>,       // global id -> dense id, plus ROOT -> ROOT
    renameCount: u64)

  /** `PickleJob(kernel_name)`; the default constructor passes the empty name. */
  function NewJob(kernelName: seq<byte>): (j: Job)
    ensures j.kernelName == kernelName && |j.arrays| == 0 && j.renameCount == 0
    ensures j.renameMap.Keys == {ROOT}
  {
    Job(kernelName, [], map[ROOT := ROOT], 0)
  }

  function DescOf(a: Arena, h: Handle): ArrayDescriptor
    requires Valid(a, h)
  {
    a.descs[h]
  }

  function IdOf(a: Arena, h: Handle): u64
    requires Valid(a, h)
  {
    a.descs[h].arrayId
  }

  /** Every registered handle names an existing descriptor whose id is set;
      `addArrayDescriptor` guarantees this, so later `getArrayId` calls on
      registered descriptors only read. */
  predicate Registered(a: Arena, j: Job) {
    forall i | 0 <= i < |j.arrays| :: Valid(a, j.arrays[i]) && IsAssigned(a, j.arrays[i])
  }

  /** The ids of the given descriptors. */
  function RegisteredIds(a: Arena, hs: seq<Handle>): set<u64>
    requires forall i | 0 <= i < |hs| :: Valid(a, hs[i])
  {
    set i | 0 <= i < |hs| :: IdOf(a, hs[i])
  }

  /** Each registered id is mapped to a position at or after every position at
      which it was registered, holding a descriptor with that id: the LAST
      registration wins. */
  ghost predicate MapsToLastPosition(a: Arena, j: Job)
    requires Registered(a, j)
  {
    forall i | 0 <= i < |j.arrays| ::
      && IdOf(a, j.arrays[i]) in j.renameMap
      && var v := j.renameMap[IdOf(a, j.arrays[i])];
         i <= v < |j.arrays| && IdOf(a, j.arrays[v]) == IdOf(a, j.arrays[i])
  }

  /** The job's bookkeeping is consistent: one dense id per registration, the
      root entry present, and nothing else in the rename map. */
  ghost predicate JobWF(a: Arena, j: Job) {
    && Registered(a, j)
    && |j.arrays| < TWO64 && j.renameCount == |j.arrays|
    && ROOT in j.renameMap && j.renameMap[ROOT] == ROOT
    && j.renameMap.Keys == {ROOT} + RegisteredIds(a, j.arrays)
    && MapsToLastPosition(a, j)
  }

  /** A fresh job is well formed in any arena. */
  lemma NewJobWF(a: Arena, kernelName: seq<byte>)
    ensures JobWF(a, NewJob(kernelName))
  {
    assert RegisteredIds(a, []) == {};
  }

  lemma RegisteredIdsSnoc(a: Arena, hs: seq<Handle>, h: Handle)
    requires forall i | 0 <= i < |hs| :: Valid(a, hs[i])
    requires Valid(a, h)
    ensures RegisteredIds(a, hs + [h]) == RegisteredIds(a, hs) + {IdOf(a, h)}
  {
    var hs' := hs + [h];
    forall x | x in RegisteredIds(a, hs')
      ensures x in RegisteredIds(a, hs) + {IdOf(a, h)}
    {
      var i :| 0 <= i < |hs'| && x == IdOf(a, hs'[i]);
      if i < |hs| {
        assert hs'[i] == hs[i];
      }
    }
    forall x | x in RegisteredIds(a, hs) + {IdOf(a, h)}
      ensures x in RegisteredIds(a, hs')
    {
      if x == IdOf(a, h) {
        assert hs'[|hs|] == h;
      } else {
        var i :| 0 <= i < |hs| && x == IdOf(a, hs[i]);
        assert hs'[i] == hs[i];
      }
    }
  }

  /** Arena changes that keep assigned ids keep a job well formed. */
  lemma JobWFStable(a: Arena, a': Arena, j: Job)
    requires JobWF(a, j) && Extends(a, a')
    ensures JobWF(a', j)
  {
    forall i | 0 <= i < |j.arrays|
      ensures IdOf(a', j.arrays[i]) == IdOf(a, j.arrays[i])
    {
    }
    assert RegisteredIds(a', j.arrays) == RegisteredIds(a, j.arrays);
  }

  /** The job half of `addArrayDescriptor`, once the id is known. */
  function Register(j: Job, id: u64, h: Handle): (j': Job)
    ensures j'.kernelName == j.kernelName
    ensures j'.arrays == j.arrays + [h]
    ensures j'.renameCount == Add64(j.renameCount, 1)
    ensures j'.renameMap.Keys == j.renameMap.Keys + {id}
    ensures j'.renameMap[id] == j.renameCount
    ensures forall k | k in j.renameMap && k != id :: j'.renameMap[k] == j.renameMap[k]
  {
    j.(renameMap := j.renameMap[id := j.renameCount],
       renameCount := Add64(j.renameCount, 1),
       arrays := j.arrays + [h])
  }

  lemma RegisterKeepsWF(a: Arena, j: Job, h: Handle)
    requires JobWF(a, j) && Valid(a, h) && IsAssigned(a, h) && IdOf(a, h) != ROOT
    requires |j.arrays| + 1 < TWO64
    ensures JobWF(a, Register(j, IdOf(a, h), h))
  {
    var j' := Register(j, IdOf(a, h), h);
    RegisteredIdsSnoc(a, j.arrays, h);
    RegisterLastPosition(a, j, h);
  }

  lemma RegisterLastPosition(a: Arena, j: Job, h: Handle)
    requires Registered(a, j) && MapsToLastPosition(a, j) && j.renameCount == |j.arrays|
    requires Valid(a, h) && IsAssigned(a, h)
    ensures Registered(a, Register(j, IdOf(a, h), h))
    ensures MapsToLastPosition(a, Register(j, IdOf(a, h), h))
  {
    var id := IdOf(a, h);
    var j' := Register(j, id, h);
    var n := |j.arrays|;
    forall i | 0 <= i < |j'.arrays|
      ensures && IdOf(a, j'.arrays[i]) in j'.renameMap
              && var v := j'.renameMap[IdOf(a, j'.arrays[i])];
                 i <= v < |j'.arrays| && IdOf(a, j'.arrays[v]) == IdOf(a, j'.arrays[i])
    {
      if IdOf(a, j'.arrays[i]) != id {
        assert j'.arrays[i] == j.arrays[i];
        var v := j.renameMap[IdOf(a, j.arrays[i])];
        assert j'.arrays[v] == j.arrays[v];
      }
    }
  }

  datatype Step = Step(arena: Arena, job: Job)

  /** `addArrayDescriptor`: take the descriptor's id (assigning it if needed),
      map it to the current rename count, bump the count and append the
      handle. A handle added before is appended again and its id re-mapped. */
  function AddArrayDescriptor(a: Arena, j: Job, h: Handle): (r: Step)
    requires Valid(a, h)
    ensures r.arena == GetArrayId(a, h).arena
    ensures r.job == Register(j, IdOf(r.arena, h), h)
  {
    var g := GetArrayId(a, h);
    Step(g.arena, Register(j, g.id, h))
  }

  /** Registration keeps both the arena and the job well formed, and the new
      entry is the dense id |arrays| (before the call). */
  lemma AddKeepsWF(a: Arena, j: Job, h: Handle)
    requires Valid(a, h) && ArenaWF(a) && JobWF(a, j)
    requires IsAssigned(a, h) || Headroom(a, 1)
    requires |j.arrays| + 1 < TWO64
    ensures var r := AddArrayDescriptor(a, j, h);
      && ArenaWF(r.arena) && JobWF(r.arena, r.job)
      && Extends(a, r.arena)
      && r.job.renameMap[IdOf(r.arena, h)] == |j.arrays|
  {
    var g := GetArrayId(a, h);
    GetArrayIdKeepsWF(a, h);
    JobWFStable(a, g.arena, j);
    RegisterKeepsWF(g.arena, j, h);
  }

  /** Registers the handles one after another. */
  function AddAll(a: Arena, j: Job, hs: seq<Handle>): (r: Step)
    requires forall i | 0 <= i < |hs| :: Valid(a, hs[i])
    ensures |r.arena.descs| == |a.descs|
    ensures forall k | 0 <= k < |a.descs| ::
      r.arena.descs[k].(arrayId := a.descs[k].arrayId) == a.descs[k]
    ensures r.job.kernelName == j.kernelName
    ensures r.job.arrays == j.arrays + hs
    decreases |hs|
  {
    if |hs| == 0 then Step(a, j)
    else
      var s := AddArrayDescriptor(a, j, hs[0]);
      assert forall i | 0 <= i < |hs| - 1 :: hs[1..][i] == hs[i + 1] && Valid(a, hs[i + 1]);
      SnocThenRest(j.arrays, hs);
      AddAll(s.arena, s.job, hs[1..])
  }

  ghost predicate Distinct(hs: seq<Handle>) {
    forall i, k | 0 <= i < k < |hs| :: hs[i] != hs[k]
  }

  /** Registering distinct descriptors (with ids to spare) lists them in order
      and maps the id of the one registered at position p to p. */
  lemma {:induction false} AddAllDense(a: Arena, j: Job, hs: seq<Handle>)
    requires forall i | 0 <= i < |hs| :: Valid(a, hs[i])
    requires ArenaWF(a) && JobWF(a, j) && Headroom(a, |hs|)
    requires Distinct(j.arrays + hs)
    requires |j.arrays| + |hs| < TWO64
    ensures var r := AddAll(a, j, hs);
      && ArenaWF(r.arena) && JobWF(r.arena, r.job) && Extends(a, r.arena)
    decreases |hs|
  {
    if |hs| > 0 {
      var s := AddArrayDescriptor(a, j, hs[0]);
      AddStep(a, j, hs);
      AddAllDense(s.arena, s.job, hs[1..]);
      ExtendsTransitive(a, s.arena, AddAll(s.arena, s.job, hs[1..]).arena);
    }
  }

  /** One step of `AddAll` keeps the preconditions of `AddAllDense`. */
  lemma AddStep(a: Arena, j: Job, hs: seq<Handle>)
    requires |hs| > 0 && forall i | 0 <= i < |hs| :: Valid(a, hs[i])
    requires ArenaWF(a) && JobWF(a, j) && Headroom(a, |hs|)
    requires Distinct(j.arrays + hs)
    requires |j.arrays| + |hs| < TWO64
    ensures var s := AddArrayDescriptor(a, j, hs[0]);
      && (forall i | 0 <= i < |hs| - 1 :: Valid(s.arena, hs[1..][i]))
      && ArenaWF(s.arena) && JobWF(s.arena, s.job) && Headroom(s.arena, |hs| - 1)
      && Distinct(s.job.arrays + hs[1..])
      && Extends(a, s.arena)
      && AddAll(a, j, hs) == AddAll(s.arena, s.job, hs[1..])
  {
    var s := AddArrayDescriptor(a, j, hs[0]);
    AddKeepsWF(a, j, hs[0]);
    SnocThenRest(j.arrays, hs);
    assert forall i | 0 <= i < |hs| - 1 :: hs[1..][i] == hs[i + 1] && Valid(a, hs[i + 1]);
  }

  lemma SnocThenRest(xs: seq<Handle>, hs: seq<Handle>)
    requires |hs| > 0
    ensures (xs + [hs[0]]) + hs[1..] == xs + hs
  {
  }

  /** After registering distinct descriptors into a job over distinct
      descriptors, the one at position p has dense id p. */
  lemma AddAllDenseIds(a: Arena, j: Job, hs: seq<Handle>)
    requires forall i | 0 <= i < |hs| :: Valid(a, hs[i])
    requires ArenaWF(a) && JobWF(a, j) && Headroom(a, |hs|)
    requires Distinct(j.arrays + hs)
    requires |j.arrays| + |hs| < TWO64
    ensures var r := AddAll(a, j, hs);
      && JobWF(r.arena, r.job)
      && |r.job.arrays| == |j.arrays| + |hs|
      && r.job.renameCount == |j.arrays| + |hs|
      && forall p | 0 <= p < |r.job.arrays| ::
           IdOf(r.arena, r.job.arrays[p]) in r.job.renameMap
           && r.job.renameMap[IdOf(r.arena, r.job.arrays[p])] == p
  {
    AddAllDense(a, j, hs);
    var r := AddAll(a, j, hs);
    forall p | 0 <= p < |r.job.arrays|
      ensures IdOf(r.arena, r.job.arrays[p]) in r.job.renameMap
      ensures r.job.renameMap[IdOf(r.arena, r.job.arrays[p])] == p
    {
      DistinctDenseId(r.arena, r.job, p);
    }
  }

  /** In a well-formed job over distinct descriptors, the descriptor registered
      at position i has dense id i. */
  lemma DistinctDenseId(a: Arena, j: Job, i: nat)
    requires ArenaWF(a) && JobWF(a, j) && Distinct(j.arrays) && i < |j.arrays|
    ensures IdOf(a, j.arrays[i]) in j.renameMap
    ensures j.renameMap[IdOf(a, j.arrays[i])] == i
  {
  }

  /** With distinct descriptors the dense ids are exactly 0 .. k-1, plus the
      root entry. */
  lemma DenseIdsContiguous(a: Arena, j: Job)
    requires ArenaWF(a) && JobWF(a, j) && Distinct(j.arrays)
    ensures forall v: u64 :: v in j.renameMap.Values <==> v == ROOT || v < |j.arrays|
  {
    var n := |j.arrays|;
    forall v: u64 | v in j.renameMap.Values
      ensures v == ROOT || v < n
    {
      var k :| k in j.renameMap && j.renameMap[k] == v;
      if k != ROOT {
        var i :| 0 <= i < n && k == IdOf(a, j.arrays[i]);
        DistinctDenseId(a, j, i);
      }
    }
    forall v: u64 | v == ROOT || v < n
      ensures v in j.renameMap.Values
    {
      if v != ROOT {
        DistinctDenseId(a, j, v);
      }
    }
  }

  /** Registering the same descriptor twice is not idempotent: the handle is
      listed twice and its id now maps to the second position. */
  lemma ReAddAppendsDuplicate(a: Arena, j: Job, h: Handle)
    requires Valid(a, h) && ArenaWF(a) && JobWF(a, j)
    requires IsAssigned(a, h) || Headroom(a, 1)
    requires |j.arrays| + 2 < TWO64
    ensures var r1 := AddArrayDescriptor(a, j, h);
      var r2 := AddArrayDescriptor(r1.arena, r1.job, h);
      && r2.job.arrays == j.arrays + [h, h]
      && r2.arena == r1.arena
      && r2.job.renameCount == |j.arrays| + 2
      && r2.job.renameMap[IdOf(r2.arena, h)] == |j.arrays| + 1
  {
    AddKeepsWF(a, j, h);
  }

  /** Index of the first registered descriptor with the given id. */
  function FirstMatch(a: Arena, hs: seq<Handle>, arrayId: u64): (r: Option<nat>)
    requires forall i | 0 <= i < |hs| :: Valid(a, hs[i])
    ensures r.None? <==> forall i | 0 <= i < |hs| :: IdOf(a, hs[i]) != arrayId
    ensures r.Some? ==> r.value < |hs| && IdOf(a, hs[r.value]) == arrayId
    ensures r.Some? ==> forall i | 0 <= i < r.value :: IdOf(a, hs[i]) != arrayId
  {
    if |hs| == 0 then None
    else if IdOf(a, hs[0]) == arrayId then Some(0)
    else
      match FirstMatch(a, hs[1..], arrayId)
      case None => None
      case Some(k) => Some(k + 1)
  }

  /** The search loop shared by the two `change...ByArrayId` operations. */
  method FindArray(a: Arena, j: Job, arrayId: u64) returns (found: Option<nat>)
    requires Registered(a, j)
    ensures found == FirstMatch(a, j.arrays, arrayId)
  {
    var i := 0;
    while i < |j.arrays|
      invariant 0 <= i <= |j.arrays|
      invariant forall k | 0 <= k < i :: IdOf(a, j.arrays[k]) != arrayId
    {
      if IdOf(a, j.arrays[i]) == arrayId {
        found := Some(i);
        FirstMatchIs(a, j.arrays, arrayId, i);
        return;
      }
      i := i + 1;
    }
    found := None;
  }

  lemma FirstMatchIs(a: Arena, hs: seq<Handle>, arrayId: u64, i: nat)
    requires forall k | 0 <= k < |hs| :: Valid(a, hs[k])
    requires i < |hs| && IdOf(a, hs[i]) == arrayId
    requires forall k | 0 <= k < i :: IdOf(a, hs[k]) != arrayId
    ensures FirstMatch(a, hs, arrayId) == Some(i)
  {
  }

  /** `changeAccessTypeByArrayId`: sets the access type of the first registered
      descriptor with that id; when there is none it only warns (found is false)
      and nothing changes. It never fails. */
  method ChangeAccessTypeByArrayId(a: Arena, j: Job, arrayId: u64, t: AccessType)
    returns (a': Arena, found: bool)
    requires Registered(a, j)
    ensures found <==> exists i | 0 <= i < |j.arrays| :: IdOf(a, j.arrays[i]) == arrayId
    ensures !found ==> a' == a
    ensures found ==> exists i | 0 <= i < |j.arrays| ::
      && IdOf(a, j.arrays[i]) == arrayId
      && (forall k | 0 <= k < i :: IdOf(a, j.arrays[k]) != arrayId)
      && a' == SetAccessType(a, j.arrays[i], t)
  {
    var m := FindArray(a, j, arrayId);
    if m.Some? {
      a', found := SetAccessType(a, j.arrays[m.value], t), true;
    } else {
      a', found := a, false;
    }
  }

  /** `changeAddressingModeByArrayId`, the same search with the other setter. */
  method ChangeAddressingModeByArrayId(a: Arena, j: Job, arrayId: u64, m: AddressingMode)
    returns (a': Arena, found: bool)
    requires Registered(a, j)
    ensures found <==> exists i | 0 <= i < |j.arrays| :: IdOf(a, j.arrays[i]) == arrayId
    ensures !found ==> a' == a
    ensures found ==> exists i | 0 <= i < |j.arrays| ::
      && IdOf(a, j.arrays[i]) == arrayId
      && (forall k | 0 <= k < i :: IdOf(a, j.arrays[k]) != arrayId)
      && a' == SetAddressingMode(a, j.arrays[i], m)
  {
    var r := FindArray(a, j, arrayId);
    if r.Some? {
      a', found := SetAddressingMode(a, j.arrays[r.value], m), true;
    } else {
      a', found := a, false;
    }
  }

  /** Both ids of every registered descriptor are keys of the rename map. */
  ghost predicate Resolvable(a: Arena, j: Job)
    requires Registered(a, j)
  {
    forall i | 0 <= i < |j.arrays| ::
      IdOf(a, j.arrays[i]) in j.renameMap && DescOf(a, j.arrays[i]).dst in j.renameMap
  }

  /** The wire record of one descriptor: renamed id, renamed dst, range,
      element size and the two enumerators widened to 64 bits. */
  function RecordOf(d: ArrayDescriptor, rename: map<u64, u64>): WireRecord
    requires d.arrayId in rename && d.dst in rename
  {
    WireRecord(rename[d.arrayId], rename[d.dst], d.vaddrStart, d.vaddrEnd, d.elementSize,
               AccessTypeCode(d.accessType), AddressingModeCode(d.addressingMode))
  }

  /** The records of the given handles, failing on the first lookup miss. */
  function RecordsOf(a: Arena, hs: seq<Handle>, rename: map<u64, u64>): (r: Result<seq<WireRecord>>)
    requires forall i | 0 <= i < |hs| :: Valid(a, hs[i])
    ensures r.Ok? <==> forall i | 0 <= i < |hs| ::
      DescOf(a, hs[i]).arrayId in rename && DescOf(a, hs[i]).dst in rename
    ensures r.Err? ==> r.failure == KeyNotFound
    ensures r.Ok? ==> |r.value| == |hs|
    ensures r.Ok? ==> forall i | 0 <= i < |hs| :: r.value[i] == RecordOf(DescOf(a, hs[i]), rename)
  {
    if |hs| == 0 then Ok([])
    else
      var d := DescOf(a, hs[0]);
      if d.arrayId !in rename || d.dst !in rename then Err(KeyNotFound)
      else
        match RecordsOf(a, hs[1..], rename)
        case Err(e) => Err(e)
        case Ok(rest) =>
          assert forall i | 1 <= i < |hs| :: hs[i] == hs[1..][i - 1];
          Ok([RecordOf(d, rename)] + rest)
  }

  /** `getJobDescriptor`: the job's records in registration order, encoded as
      the device expects, followed by the kernel name. A descriptor whose id
      or dst is missing from the rename map makes it fail. */
  function GetJobDescriptor(a: Arena, j: Job): (r: Result<seq<byte>>)
    requires Registered(a, j)
    ensures r.Ok? <==> Resolvable(a, j)
    ensures r.Err? ==> r.failure == KeyNotFound
    ensures r.Ok? ==> |r.value| == 1 + 56 * |j.arrays| + |j.kernelName|
    ensures r.Ok? ==> r.value[0] == |j.arrays| % 256
    ensures r.Ok? ==> r.value == EncodeJob(RecordsOf(a, j.arrays, j.renameMap).value, j.kernelName)
  {
    match RecordsOf(a, j.arrays, j.renameMap)
    case Err(e) => Err(e)
    case Ok(rs) => Ok(EncodeJob(rs, j.kernelName))
  }

  /** Record i of the descriptor bytes decodes to the i-th registered
      descriptor's renamed ids, range, element size and enumerators. */
  lemma JobDescriptorRecord(a: Arena, j: Job, i: nat)
    requires Registered(a, j) && Resolvable(a, j) && i < |j.arrays|
    ensures var s := GetJobDescriptor(a, j).value;
      DecodeRecord(s[1 + 56 * i .. 1 + 56 * (i + 1)]) == RecordOf(DescOf(a, j.arrays[i]), j.renameMap)
  {
    var rs := RecordsOf(a, j.arrays, j.renameMap).value;
    EncodeJobRecord(rs, j.kernelName, i);
    DecodeEncodeRecord(rs[i]);
  }

  /** With fewer than 256 descriptors, the device decodes exactly the job's
      records in registration order and its kernel name. */
  lemma JobDescriptorDecodes(a: Arena, j: Job)
    requires Registered(a, j) && Resolvable(a, j) && |j.arrays| < 256
    ensures var s := GetJobDescriptor(a, j).value;
      && DecodeJob(s).Some?
      && DecodeJob(s).value.name == j.kernelName
      && |DecodeJob(s).value.records| == |j.arrays|
      && forall i | 0 <= i < |j.arrays| ::
           DecodeJob(s).value.records[i] == RecordOf(DescOf(a, j.arrays[i]), j.renameMap)
  {
    var rs := RecordsOf(a, j.arrays, j.renameMap).value;
    DecodeEncodeJob(rs, j.kernelName);
  }

  /** A descriptor whose `dst` names an array not registered in the job makes
      serialization fail; no default id is substituted. */
  lemma UnregisteredDstFails(a: Arena, j: Job, i: nat)
    requires Registered(a, j) && i < |j.arrays|
    requires DescOf(a, j.arrays[i]).dst !in j.renameMap
    ensures GetJobDescriptor(a, j) == Err(KeyNotFound)
  {
  }

  /** In a well-formed job, a dst that is neither the root nor a registered
      id makes serialization fail. */
  lemma UnlistedDstFails(a: Arena, j: Job, i: nat)
    requires JobWF(a, j) && i < |j.arrays|
    requires DescOf(a, j.arrays[i]).dst != ROOT
    requires DescOf(a, j.arrays[i]).dst !in RegisteredIds(a, j.arrays)
    ensures GetJobDescriptor(a, j) == Err(KeyNotFound)
  {
    UnregisteredDstFails(a, j, i);
  }

  /** In a well-formed job, serialization succeeds exactly when every
      registered descriptor's dst is the root or the id of a registered
      descriptor. */
  lemma SerializesIffDstsRegistered(a: Arena, j: Job)
    requires JobWF(a, j)
    ensures GetJobDescriptor(a, j).Ok? <==>
      forall i | 0 <= i < |j.arrays| ::
        DescOf(a, j.arrays[i]).dst == ROOT || DescOf(a, j.arrays[i]).dst in RegisteredIds(a, j.arrays)
  {
    forall i | 0 <= i < |j.arrays|
      ensures IdOf(a, j.arrays[i]) in j.renameMap
    {
      assert IdOf(a, j.arrays[i]) in RegisteredIds(a, j.arrays);
    }
  }
}

/** A two-array job, worked end to end: a 16-byte array of two 8-byte
    elements indexes a 96-byte array of six 16-byte elements. */
module JobExample {
  import opened Bytes
  import opened Results
  import opened Descriptors
  import opened Jobs

  /** "bfs" as bytes. */
  const BFS: seq<byte> := [98, 102, 115]

  /** Two fresh descriptors: 8-byte elements over `[1000, 1016)` and 16-byte
      elements over `[2000, 2096)`. */
  function TwoAllocated(): (a: Arena)
    ensures |a.descs| == 2 && ArenaWF(a) && a.nextId == FIRST_ID
    ensures a.descs[0] == DEFAULT_DESCRIPTOR.(vaddrStart := 1000, vaddrEnd := 1016, elementSize := 8)
    ensures a.descs[1] == DEFAULT_DESCRIPTOR.(vaddrStart := 2000, vaddrEnd := 2096, elementSize := 16)
  {
    NewDescriptor(NewDescriptor(EMPTY_ARENA, 1000, 1016, 8).arena, 2000, 2096, 16).arena
  }

  /** The second descriptor indexed by the first. */
  function TwoWired(): (a: Arena)
    ensures |a.descs| == 2 && ArenaWF(a) && Headroom(a, 2)
    ensures a.descs[0].(arrayId := UNASSIGNED) == TwoAllocated().descs[0]
    ensures a.descs[1].(dst := ROOT) == TwoAllocated().descs[1]
    ensures a.descs[0].dst == ROOT && a.descs[1].dst == a.descs[0].arrayId != UNASSIGNED
  {
    IndexedBy(TwoAllocated(), 0, 1)
  }

  /** Both descriptors added, in order, to a fresh "bfs" job. */
  function TwoArrays(): Step
  {
    AddAll(TwoWired(), NewJob(BFS), [0, 1])
  }

  /** Both descriptors are registered; the provider is renamed to 0 with the
      root as its dst and the indexed one to 1 with dst 0, and the counts
      come from the byte ranges. */
  lemma TwoArrayJob()
    ensures var r := TwoArrays();
      && r.job.arrays == [0, 1]
      && Registered(r.arena, r.job)
      && GetTuple(r.arena.descs[0], r.job.renameMap) == Ok(WireTuple(0, ROOT, false, false, 1000, 2, 8))
      && GetTuple(r.arena.descs[1], r.job.renameMap) == Ok(WireTuple(1, 0, false, false, 2000, 6, 16))
  {
    var w := TwoWired();
    NewJobWF(w, BFS);
    AddAllDenseIds(w, NewJob(BFS), [0, 1]);
    var r := TwoArrays();
    assert r.job.arrays == [0, 1];
    assert r.job.renameMap[IdOf(r.arena, 0)] == 0;
    assert r.job.renameMap[IdOf(r.arena, 1)] == 1;
    assert r.arena.descs[1].dst == w.descs[1].dst == w.descs[0].arrayId == IdOf(r.arena, 0);
    ElementCountExact(1000, 1016, 8, 2);
    ElementCountExact(2000, 2096, 16, 6);
  }

  /** The job serializes to the count byte, two 56-byte records and the
      three bytes of the kernel name. */
  lemma TwoArrayJobBytes()
    ensures var r := TwoArrays();
      && Registered(r.arena, r.job)
      && GetJobDescriptor(r.arena, r.job).Ok?
      && |GetJobDescriptor(r.arena, r.job).value| == 116
  {
    TwoArrayJob();
    var r := TwoArrays();
    assert GetTuple(r.arena.descs[r.job.arrays[0]], r.job.renameMap).Ok?;
    assert GetTuple(r.arena.descs[r.job.arrays[1]], r.job.renameMap).Ok?;
  }
}
