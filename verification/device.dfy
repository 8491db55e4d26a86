/** `write_command_to_device`: the two-phase write of one command to the
    device file. The operating system's answers are parameters. */
module LowLevel {
  import opened Bytes

  const HEADER_BYTES: nat := 16
  /** The file offset the payload is written at. */
  const PAYLOAD_OFFSET: nat := 1

  /** One `pwrite` call: the bytes and the file offset they go to. */
  datatype DeviceWrite = DeviceWrite(offset: nat, data: seq<byte>)

  /** What the system calls return: whether `open` succeeds, and the raw
      (signed) results of the two `pwrite` calls. */
  datatype WriteOracle = WriteOracle(opens: bool, headerResult: int, payloadResult: int)

  datatype CommandOutcome = CommandOutcome(writes: seq<DeviceWrite>, ok: bool)

  /** The header: command type, then command length, two little-endian
      `uint64_t` fields. */
  function CommandHeader(kind: u64, length: u64): (h: seq<byte>)
    ensures |h| == HEADER_BYTES
  {
    Le64(kind) + Le64(length)
  }

  /** The header decodes back to the type and the length. */
  lemma CommandHeaderDecodes(kind: u64, length: u64)
    ensures DecodeLe64(CommandHeader(kind, length)[..8]) == kind
    ensures DecodeLe64(CommandHeader(kind, length)[8..]) == length
  {
    var h := CommandHeader(kind, length);
    assert h[..8] == Le64(kind) && h[8..] == Le64(length);
    DecodeLe64OfLe64(kind);
    DecodeLe64OfLe64(length);
  }

  /** A `pwrite` result compared with an unsigned count: the signed result is
      converted to `uint64_t`, so -1 becomes 2^64 - 1. */
  function AsU64(x: int): (r: u64)
    ensures 0 <= x < TWO64 ==> r == x
    ensures x == -1 ==> r == TWO64 - 1
  {
    x % TWO64
  }

  /** Open the device; write the 16-byte header at offset 0 and stop unless
      all 16 bytes went out; then write the payload at offset 1 and succeed
      exactly when all of it went out. */
  function WriteCommand(kind: u64, payload: seq<byte>, o: WriteOracle): (r: CommandOutcome)
    requires |payload| < TWO64
    ensures r.ok <==> o.opens && AsU64(o.headerResult) == HEADER_BYTES && AsU64(o.payloadResult) == |payload|
    ensures !o.opens ==> r.writes == []
    ensures o.opens ==> 1 <= |r.writes| <= 2 && r.writes[0] == DeviceWrite(0, CommandHeader(kind, |payload|))
    ensures |r.writes| == 2 <==> o.opens && AsU64(o.headerResult) == HEADER_BYTES
    ensures |r.writes| == 2 ==> r.writes[1] == DeviceWrite(PAYLOAD_OFFSET, payload)
  {
    if !o.opens then CommandOutcome([], false)
    else
      var header := DeviceWrite(0, CommandHeader(kind, |payload|));
      if AsU64(o.headerResult) != HEADER_BYTES then CommandOutcome([header], false)
      else
        CommandOutcome([header, DeviceWrite(PAYLOAD_OFFSET, payload)],
                       AsU64(o.payloadResult) == |payload|)
  }

  /** The payload goes to offset 1, inside the 16 bytes the header was just
      written to, not after them: a driver reading the file linearly would
      see bytes 1..15 of the header replaced by the payload. */
  lemma PayloadOverlapsHeader(kind: u64, payload: seq<byte>, o: WriteOracle)
    requires |payload| < TWO64
    requires WriteCommand(kind, payload, o).ok
    ensures var w := WriteCommand(kind, payload, o).writes;
      w[0].offset < w[1].offset < w[0].offset + |w[0].data|
  {
  }
}

/** `PickleDeviceManager`: a cache of uncacheable pages keyed by mmap id, and
    the commands it sends. System calls are oracle parameters. The trace
    records the page mappings, address queries, page stores and unmappings,
    and each `write_command_to_device` call together with the `pwrite` calls
    it made. */
module Device {
  import opened Bytes
  import opened Results
  import opened Descriptors
  import opened Jobs
  import opened LowLevel

  /** `PickleDeviceCommand`. */
  const ADD_WATCH_RANGE: u64 := 1
  const SEND_JOB_DESCRIPTOR: u64 := 2

  const PAGE_BYTES: u64 := 4096
  /** The length of a watch range. */
  const WATCH_SPAN: u64 := 0x1000
  /** `mmap_ptr[0] = 0xDECAF` stores into a `uint8_t`: only the low byte. */
  const TOUCH_VALUE: byte := 0xDECAF % 256
  /** `exit(1)`. */
  const FATAL: Failure := ProcessExit(1)

  /** What the program does to the outside world, in order. */
  datatype Event =
    | MapPage(mmapId: u64)                     // allocate_uncacheable_page
    | QueryPaddr(mmapId: u64)                  // get_mmap_paddr
    | Touch(ptr: u64, value: byte)             // the first-byte store
    | Command(kind: u64, payload: seq<byte>, writes: seq<DeviceWrite>)
                                               // write_command_to_device and its pwrites
    | Unmap(ptr: u64, length: u64)             // munmap

  /** The two maps of the manager, and the trace so far. */
  datatype Manager = Manager(ptrs: map<u64, u64>, paddrs: map<u64, u64>, trace: seq<Event>)

  const EMPTY_MANAGER: Manager := Manager(map[], map[], [])

  /** The system's answers to one page request: the mapped address, or None
      when opening or mapping fails; the physical address, or None when the
      query fails. */
  datatype PageOracle = PageOracle(mapped: Option<u64>, paddr: Option<u64>)

  datatype PageGrant = PageGrant(manager: Manager, ptr: u64)
  datatype WriteResult = WriteResult(manager: Manager, ok: bool)

  /** One `write_command_to_device(kind, payload)` call, with the writes the
      system let through. */
  function Call(kind: u64, payload: seq<byte>, o: WriteOracle): Event
    requires |payload| < TWO64
  {
    Command(kind, payload, WriteCommand(kind, payload, o).writes)
  }

  /** What a recorded call did to the device file: nothing when the file
      does not open; the header at offset 0 and then the payload at offset 1
      when the call reports success. */
  lemma CallWrites(kind: u64, payload: seq<byte>, o: WriteOracle)
    requires |payload| < TWO64
    ensures !o.opens ==> Call(kind, payload, o).writes == []
    ensures WriteCommand(kind, payload, o).ok ==>
      Call(kind, payload, o).writes ==
        [DeviceWrite(0, CommandHeader(kind, |payload|)), DeviceWrite(PAYLOAD_OFFSET, payload)]
  {
  }

  /** The `write_command_to_device` calls in a trace, in order. */
  function Commands(t: seq<Event>): (c: seq<Event>)
    ensures |c| <= |t|
    ensures forall i | 0 <= i < |c| :: c[i].Command?
  {
    if |t| == 0 then []
    else if t[|t| - 1].Command? then Commands(t[..|t| - 1]) + [t[|t| - 1]]
    else Commands(t[..|t| - 1])
  }

  /** Every call in the trace is kept, as often as it occurs, and nothing
      else: `Commands` drops exactly the events that are not calls. */
  lemma {:induction false} CommandsCount(t: seq<Event>, e: Event)
    ensures multiset(Commands(t))[e] == if e.Command? then multiset(t)[e] else 0
    decreases |t|
  {
    if |t| > 0 {
      var init := t[..|t| - 1];
      assert t == init + [t[|t| - 1]];
      CommandsCount(init, e);
    }
  }

  /** A trace without commands has no commands. */
  lemma {:induction false} NoCommands(t: seq<Event>)
    requires forall i | 0 <= i < |t| :: !t[i].Command?
    ensures Commands(t) == []
    decreases |t|
  {
    if |t| > 0 {
      NoCommands(t[..|t| - 1]);
    }
  }

  lemma {:induction false} CommandsAppend(t: seq<Event>, u: seq<Event>)
    ensures Commands(t + u) == Commands(t) + Commands(u)
    decreases |u|
  {
    if |u| == 0 {
      assert t + u == t;
    } else {
      var u' := u[..|u| - 1];
      assert (t + u)[..|t + u| - 1] == t + u';
      CommandsAppend(t, u');
    }
  }

  /** `registerUncacheablePage`: records both addresses and changes nothing
      else. */
  function RegisterUncacheablePage(m: Manager, mmapId: u64, ptr: u64, paddr: u64): (r: Manager)
    ensures mmapId in r.ptrs && r.ptrs[mmapId] == ptr
    ensures mmapId in r.paddrs && r.paddrs[mmapId] == paddr
    ensures r.ptrs.Keys == m.ptrs.Keys + {mmapId} && r.paddrs.Keys == m.paddrs.Keys + {mmapId}
    ensures forall k | k in m.ptrs && k != mmapId :: r.ptrs[k] == m.ptrs[k]
    ensures forall k | k in m.paddrs && k != mmapId :: r.paddrs[k] == m.paddrs[k]
    ensures r.trace == m.trace
  {
    m.(ptrs := m.ptrs[mmapId := ptr], paddrs := m.paddrs[mmapId := paddr])
  }

  /** `getUCPagePtr`: a cached id returns its pointer and does nothing else;
      a new id is mapped, its physical address queried, both recorded, and
      its first byte written; a failed map or query ends the process. */
  function GetUCPagePtr(m: Manager, mmapId: u64, o: PageOracle): (r: Result<PageGrant>)
    ensures mmapId in m.ptrs ==> r == Ok(PageGrant(m, m.ptrs[mmapId]))
    ensures r.Err? <==> mmapId !in m.ptrs && (o.mapped.None? || o.paddr.None?)
    ensures r.Err? ==> r.failure == FATAL
    ensures r.Ok? ==> mmapId in r.value.manager.ptrs && r.value.manager.ptrs[mmapId] == r.value.ptr
    ensures r.Ok? && mmapId !in m.ptrs ==>
      && r.value.ptr == o.mapped.value
      && r.value.manager == RegisterUncacheablePage(m, mmapId, o.mapped.value, o.paddr.value).(
           trace := m.trace + [MapPage(mmapId), QueryPaddr(mmapId), Touch(o.mapped.value, 0xAF)])
  {
    if mmapId in m.ptrs then Ok(PageGrant(m, m.ptrs[mmapId]))
    else
      var mapped := m.(trace := m.trace + [MapPage(mmapId)]);
      if o.mapped.None? then Err(FATAL)
      else
        var ptr := o.mapped.value;
        var queried := mapped.(trace := mapped.trace + [QueryPaddr(mmapId)]);
        if o.paddr.None? then Err(FATAL)
        else
          var registered := RegisterUncacheablePage(queried, mmapId, ptr, o.paddr.value);
          var touched := registered.(trace := registered.trace + [Touch(ptr, TOUCH_VALUE)]);
          Ok(PageGrant(touched, touched.ptrs[mmapId]))
  }

  /** The payload of an ADD_WATCH_RANGE command: start and end (start +
      0x1000, in 64-bit arithmetic) as two little-endian words. */
  function WatchRangePayload(paddr: u64): (p: seq<byte>)
    ensures |p| == 16
  {
    Le64(paddr) + Le64(Add64(paddr, WATCH_SPAN))
  }

  /** The watch-range payload decodes to the page's physical range. */
  lemma WatchRangePayloadDecodes(paddr: u64)
    ensures DecodeLe64(WatchRangePayload(paddr)[..8]) == paddr
    ensures DecodeLe64(WatchRangePayload(paddr)[8..]) == Add64(paddr, WATCH_SPAN)
    ensures paddr + WATCH_SPAN < TWO64 ==>
      DecodeLe64(WatchRangePayload(paddr)[8..]) - DecodeLe64(WatchRangePayload(paddr)[..8]) == 0x1000
  {
    var p := WatchRangePayload(paddr);
    assert p[..8] == Le64(paddr) && p[8..] == Le64(Add64(paddr, WATCH_SPAN));
    DecodeLe64OfLe64(paddr);
    DecodeLe64OfLe64(Add64(paddr, WATCH_SPAN));
  }

  /** `writeUncacheablePagePaddr`: reading the physical address with
      `operator[]` inserts 0 for an unknown id; then one ADD_WATCH_RANGE
      command for that address, whose success is the result. */
  function WriteUncacheablePagePaddr(m: Manager, mmapId: u64, o: WriteOracle): (r: WriteResult)
    ensures mmapId in r.manager.paddrs
    ensures mmapId in m.paddrs ==> r.manager.paddrs == m.paddrs
    ensures mmapId !in m.paddrs ==> r.manager.paddrs == m.paddrs[mmapId := 0]
    ensures r.manager.ptrs == m.ptrs
    ensures r.manager.trace == m.trace + [Call(ADD_WATCH_RANGE, WatchRangePayload(r.manager.paddrs[mmapId]), o)]
    ensures r.ok <==> o.opens && AsU64(o.headerResult) == HEADER_BYTES && AsU64(o.payloadResult) == 16
  {
    var paddrs := if mmapId in m.paddrs then m.paddrs else m.paddrs[mmapId := 0];
    var payload := WatchRangePayload(paddrs[mmapId]);
    WriteResult(m.(paddrs := paddrs, trace := m.trace + [Call(ADD_WATCH_RANGE, payload, o)]),
                WriteCommand(ADD_WATCH_RANGE, payload, o).ok)
  }

  /** `writeJobToPickleDevice`: one SEND_JOB_DESCRIPTOR command carrying the
      bytes, whose success is the result. */
  function WriteJobToPickleDevice(m: Manager, bytes: seq<byte>, o: WriteOracle): (r: WriteResult)
    requires |bytes| < TWO64
    ensures r.manager.ptrs == m.ptrs && r.manager.paddrs == m.paddrs
    ensures r.manager.trace == m.trace + [Call(SEND_JOB_DESCRIPTOR, bytes, o)]
    ensures r.ok <==> o.opens && AsU64(o.headerResult) == HEADER_BYTES && AsU64(o.payloadResult) == |bytes|
    ensures !o.opens ==> Call(SEND_JOB_DESCRIPTOR, bytes, o).writes == []
    ensures r.ok ==>
      Call(SEND_JOB_DESCRIPTOR, bytes, o).writes ==
        [DeviceWrite(0, CommandHeader(SEND_JOB_DESCRIPTOR, |bytes|)), DeviceWrite(PAYLOAD_OFFSET, bytes)]
  {
    WriteResult(m.(trace := m.trace + [Call(SEND_JOB_DESCRIPTOR, bytes, o)]),
                WriteCommand(SEND_JOB_DESCRIPTOR, bytes, o).ok)
  }

  /** `sendJob`: serialize the job (a missing rename key propagates as an
      exception) and send it. */
  function SendJob(m: Manager, a: Arena, j: Job, o: WriteOracle): (r: Result<WriteResult>)
    requires Registered(a, j) && 1 + 56 * |j.arrays| + |j.kernelName| < TWO64
    ensures r.Err? <==> GetJobDescriptor(a, j).Err?
    ensures r.Err? ==> r.failure == KeyNotFound
    ensures r.Ok? ==> r.value.manager == m.(trace := m.trace + [Call(SEND_JOB_DESCRIPTOR, GetJobDescriptor(a, j).value, o)])
    ensures r.Ok? ==> (r.value.ok <==> o.opens && AsU64(o.headerResult) == HEADER_BYTES
                                       && AsU64(o.payloadResult) == |GetJobDescriptor(a, j).value|)
    ensures r.Ok? && r.value.ok ==>
      Call(SEND_JOB_DESCRIPTOR, GetJobDescriptor(a, j).value, o).writes ==
        [DeviceWrite(0, CommandHeader(SEND_JOB_DESCRIPTOR, |GetJobDescriptor(a, j).value|)),
         DeviceWrite(PAYLOAD_OFFSET, GetJobDescriptor(a, j).value)]
  {
    var bytes :- GetJobDescriptor(a, j);
    Ok(WriteJobToPickleDevice(m, bytes, o))
  }

  /** The constructor: page 0 through `getUCPagePtr`, then its watch range.
      The result of the watch-range write is ignored. */
  function New(page: PageOracle, o: WriteOracle): (r: Result<Manager>)
    ensures r.Err? <==> page.mapped.None? || page.paddr.None?
    ensures r.Err? ==> r.failure == FATAL
  {
    var g :- GetUCPagePtr(EMPTY_MANAGER, 0, page);
    Ok(WriteUncacheablePagePaddr(g.manager, 0, o).manager)
  }

  /** The destructor: unmap whatever `operator[]` finds for page 0 (inserting
      a null pointer if there is none), one page long. */
  function Teardown(m: Manager): (r: Manager)
    ensures 0 in r.ptrs && r.paddrs == m.paddrs
    ensures 0 in m.ptrs ==> r.ptrs == m.ptrs
    ensures 0 !in m.ptrs ==> r.ptrs == m.ptrs[0 := 0]
    ensures r.trace == m.trace + [Unmap(r.ptrs[0], PAGE_BYTES)]
  {
    var ptrs := if 0 in m.ptrs then m.ptrs else m.ptrs[0 := 0];
    m.(ptrs := ptrs, trace := m.trace + [Unmap(ptrs[0], PAGE_BYTES)])
  }

  // ---------------------------------------------------------------------
  // Properties

  /** A page already in the cache: the pointer comes back, and the manager and
      trace are unchanged, whatever the system would have answered. */
  lemma CachedPageIsStable(m: Manager, mmapId: u64, o1: PageOracle, o2: PageOracle)
    requires GetUCPagePtr(m, mmapId, o1).Ok?
    ensures var g := GetUCPagePtr(m, mmapId, o1).value;
      GetUCPagePtr(g.manager, mmapId, o2) == Ok(g)
  {
  }

  /** Asking for the same page twice: the same pointer both times, at most
      one mapping and one physical-address query for it, and no command to
      the device. */
  lemma SamePageTwice(m: Manager, mmapId: u64, o1: PageOracle, o2: PageOracle)
    requires GetUCPagePtr(m, mmapId, o1).Ok?
    ensures var g1 := GetUCPagePtr(m, mmapId, o1).value;
      && GetUCPagePtr(g1.manager, mmapId, o2).Ok?
      && var g2 := GetUCPagePtr(g1.manager, mmapId, o2).value;
      && g2.ptr == g1.ptr
      && multiset(g2.manager.trace)[MapPage(mmapId)] ==
           multiset(m.trace)[MapPage(mmapId)] + (if mmapId in m.ptrs then 0 else 1)
      && multiset(g2.manager.trace)[QueryPaddr(mmapId)] ==
           multiset(m.trace)[QueryPaddr(mmapId)] + (if mmapId in m.ptrs then 0 else 1)
      && Commands(g2.manager.trace) == Commands(m.trace)
  {
    var g1 := GetUCPagePtr(m, mmapId, o1).value;
    CachedPageIsStable(m, mmapId, o1, o2);
    if mmapId !in m.ptrs {
      var ev := [MapPage(mmapId), QueryPaddr(mmapId), Touch(o1.mapped.value, 0xAF)];
      assert g1.manager.trace == m.trace + ev;
      CommandsAppend(m.trace, ev);
      NoCommands(ev);
    }
  }

  /** Page requests never talk to the device: the commands in the trace are
      the same before and after. */
  lemma PageRequestsSendNoCommands(m: Manager, mmapId: u64, o: PageOracle)
    requires GetUCPagePtr(m, mmapId, o).Ok?
    ensures Commands(GetUCPagePtr(m, mmapId, o).value.manager.trace) == Commands(m.trace)
  {
    if mmapId !in m.ptrs {
      var ev := [MapPage(mmapId), QueryPaddr(mmapId), Touch(o.mapped.value, 0xAF)];
      CommandsAppend(m.trace, ev);
      NoCommands(ev);
    }
  }

  /** Construction maps page 0, queries its physical address, touches it,
      and then sends exactly one command: the watch range of page 0. */
  lemma NewManagerTrace(page: PageOracle, o: WriteOracle)
    requires New(page, o).Ok?
    ensures var m := New(page, o).value;
      && m.ptrs == map[0 := page.mapped.value] && m.paddrs == map[0 := page.paddr.value]
      && m.trace == [MapPage(0), QueryPaddr(0), Touch(page.mapped.value, 0xAF),
                     Call(ADD_WATCH_RANGE, WatchRangePayload(page.paddr.value), o)]
      && Commands(m.trace) == [Call(ADD_WATCH_RANGE, WatchRangePayload(page.paddr.value), o)]
  {
    var m := New(page, o).value;
    var pre := [MapPage(0), QueryPaddr(0), Touch(page.mapped.value, 0xAF)];
    var watch := Call(ADD_WATCH_RANGE, WatchRangePayload(page.paddr.value), o);
    assert m.trace == pre + [watch];
    NoCommands(pre);
    CommandsAppend(pre, [watch]);
    assert [watch][..0] == [];
  }

  /** Sending a job adds exactly one command, a SEND_JOB_DESCRIPTOR, to the
      commands already sent; the page cache is untouched. */
  lemma SendJobAddsOneCommand(m: Manager, a: Arena, j: Job, o: WriteOracle)
    requires Registered(a, j) && 1 + 56 * |j.arrays| + |j.kernelName| < TWO64
    requires SendJob(m, a, j, o).Ok?
    ensures var r := SendJob(m, a, j, o).value.manager;
      && r.ptrs == m.ptrs && r.paddrs == m.paddrs
      && Commands(r.trace) == Commands(m.trace) + [Call(SEND_JOB_DESCRIPTOR, GetJobDescriptor(a, j).value, o)]
  {
    var e := Call(SEND_JOB_DESCRIPTOR, GetJobDescriptor(a, j).value, o);
    CommandsAppend(m.trace, [e]);
    assert [e][..0] == [];
  }

  /** Only page 0 ever gets a watch range: after construction, any sequence
      of page requests leaves the watch-range commands exactly as the
      constructor left them. */
  lemma OnlyPageZeroIsWatched(page: PageOracle, o: WriteOracle, ids: seq<u64>, oracles: seq<PageOracle>)
    requires New(page, o).Ok? && |ids| == |oracles|
    ensures var r := RequestPages(New(page, o).value, ids, oracles);
      r.Ok? ==> Commands(r.value.trace) == [Call(ADD_WATCH_RANGE, WatchRangePayload(page.paddr.value), o)]
  {
    NewManagerTrace(page, o);
    RequestPagesSendNoCommands(New(page, o).value, ids, oracles);
  }

  /** A sequence of `getUCPagePtr` calls, each with its own system answers. */
  function RequestPages(m: Manager, ids: seq<u64>, oracles: seq<PageOracle>): (r: Result<Manager>)
    requires |ids| == |oracles|
    decreases |ids|
  {
    if |ids| == 0 then Ok(m)
    else
      var g :- GetUCPagePtr(m, ids[0], oracles[0]);
      RequestPages(g.manager, ids[1..], oracles[1..])
  }

  lemma {:induction false} RequestPagesSendNoCommands(m: Manager, ids: seq<u64>, oracles: seq<PageOracle>)
    requires |ids| == |oracles|
    ensures RequestPages(m, ids, oracles).Ok? ==> Commands(RequestPages(m, ids, oracles).value.trace) == Commands(m.trace)
    decreases |ids|
  {
    if |ids| > 0 && GetUCPagePtr(m, ids[0], oracles[0]).Ok? {
      var g := GetUCPagePtr(m, ids[0], oracles[0]).value;
      PageRequestsSendNoCommands(m, ids[0], oracles[0]);
      RequestPagesSendNoCommands(g.manager, ids[1..], oracles[1..]);
    }
  }

  /** Teardown of a constructed manager unmaps the page the constructor
      mapped, 4096 bytes, and nothing else. */
  lemma TeardownUnmapsPageZero(page: PageOracle, o: WriteOracle)
    requires New(page, o).Ok?
    ensures var m := New(page, o).value;
      Teardown(m).trace == m.trace + [Unmap(page.mapped.value, 4096)]
  {
    NewManagerTrace(page, o);
  }
}
