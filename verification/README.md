# Pickle job library and device manager, modelled in Dafny

This project models the user-space side of the Pickle prefetcher. Applications
describe their arrays with `PickleArrayDescriptor`s. The descriptors come from
GAPBS containers: the CSR graph, `pvector` and `SlidingQueue`. Descriptors are
related through `dst_indexing_array_id`. A `PickleJob` collects them, renames
their ids to dense positions and serializes them into the job descriptor
bytes. The `PickleDeviceManager` sends those bytes to the device after
registering an uncacheable page and its watch range.

Files and modules:

- `bytes.dfy`
  - `Bytes`: 64-bit unsigned arithmetic with explicit wrap-around, and
    little-endian encoding of `uint64_t`.
  - `Results`: the `Result`/`Option` wrappers. A failure is either a missing
    rename-map key (`std::out_of_range` from `at`) or a process exit.
- `descriptors.dfy`, module `Descriptors`: the descriptor and the process-wide
  id counter.
  - Descriptors are shared through `shared_ptr`, so they live in an arena
    addressed by handle.
  - The static `nextID` is the arena's counter.
- `wire.dfy`, module `Wire`: the byte layout of a job descriptor, with its
  decoder.
- `jobs.dfy`, module `Jobs`: `PickleJob`, covering registration, renaming, the
  `change...ByArrayId` searches and serialization.
- `graph.dfy`, module `Graphs`: the CSR graph's descriptors, their relations,
  degrees, neighborhoods and index rebuilding.
- `pvector.dfy`, module `Vectors`: `pvector` and its descriptor.
- `sliding_queue.dfy`, module `Queues`: `SlidingQueue` and its descriptor.
- `wrapper.dfy`, module `GraphJobs`: the two graph job builders.
- `device.dfy`:
  - `LowLevel`: the two-`pwrite` command protocol.
  - `Device`: the manager as a state machine. System calls are oracle
    parameters. A trace records the page mappings, physical-address queries,
    page stores and unmappings. It also records each `write_command_to_device`
    call, together with the `pwrite` calls that call made.

Modelling conventions:

- Every `uint64_t` is a `u64`, and each place the source can wrap around is
  written out with `% 2^64`. This covers the id counter, `renameCount`,
  pointer casts, `range[0] + 0x1000` and the `uint8_t` array count.
- Properties that need "no wrap-around" carry a headroom precondition, such as
  "at least k ids left".
- Graph index entries are modelled as element positions into the neighbor
  storage. Descriptor ranges are byte addresses.
- Storage slots are `Uninit` or `Val(x)`. Allocator results are parameters:
  the start address of a new allocation is passed in.

Behaviour of the code worth noting:

- Registering a descriptor twice is not idempotent. The handle is listed twice
  and its id is re-mapped to the later position (`Jobs.ReAddAppendsDuplicate`).
- Only page 0, the one the constructor requests, gets an ADD_WATCH_RANGE
  command. Later `getUCPagePtr` calls make no `write_command_to_device` call
  (`Device.OnlyPageZeroIsWatched`).
- `getUCPagePtr` queries the physical address and registers the page before it
  touches the page.
- Allocation failures end the process with `exit(1)`, modelled as
  `ProcessExit(1)`, not as an error code.
- The command payload is written at file offset 1, inside the 16 header bytes
  just written at offset 0 (`LowLevel.PayloadOverlapsHeader`).

## Model

| member | source | states |
|---|---|---|
| Bytes.Add64 | include/pickle_job.h:33-38 | `uint64_t` addition: the mathematical sum reduced modulo 2^64, so `nextID += 1` at the top value gives 0 |
| Bytes.Le64 | include/pickle_job.h:129-139 | a `uint64_t` is written as 8 bytes whose little-endian value is the number |
| Bytes.DecodeLe64OfLe64 | include/pickle_job.h:129-139 | reading the 8 written bytes back as little-endian gives the original value |
| Bytes.Le64Injective | include/pickle_job.h:129-139 | different values are written as different byte strings |
| Bytes.LeValueOfLeBytes | include/pickle_job.h:129-139 | encoding then decoding n little-endian bytes gives the value back, whenever it fits in n bytes |
| Descriptors.AccessTypeCode | include/pickle_job.h:26 | the enumerator is 0 or 1, and it is 1 exactly for `Ranged` |
| Descriptors.AddressingModeCode | include/pickle_job.h:27 | the enumerator is 0 or 1, and it is 1 exactly for `Index` |
| Descriptors.NewDescriptor | include/pickle_job.h:48-56 | a new descriptor has no id yet, dst root, single-element access and pointer addressing; it leaves older descriptors, the counter and the arena invariant alone |
| Descriptors.GetArrayId | include/pickle_job.h:57-62 | an assigned id is returned with no change; otherwise the counter's value is taken as the id and the counter advances by one (mod 2^64); no other descriptor changes |
| Descriptors.GetArrayIdIdempotent | include/pickle_job.h:57-62 | a second `getArrayId` returns the same id and changes nothing |
| Descriptors.GetArrayIdKeepsWF | include/pickle_job.h:33-38 | with ids to spare, the ids handed out stay distinct, non-zero and below the counter |
| Descriptors.IdsIncreaseInFirstAccessOrder | include/pickle_job.h:33-38 | of two fresh descriptors, the one asked first gets the smaller id, and the second id is the next one |
| Descriptors.SetAccessType | include/pickle_job.h:63-66 | only that descriptor's access type changes |
| Descriptors.SetAddressingMode | include/pickle_job.h:67-70 | only that descriptor's addressing mode changes |
| Descriptors.SettersKeepWF | include/pickle_job.h:63-70 | the setters and writes to `dst_indexing_array_id` keep every id invariant |
| Descriptors.IndexedBy | include/graphs/gapbs/pvector.h:200-202 | the indexed descriptor's dst becomes the provider's id, assigned now if needed; only these two descriptors change |
| Descriptors.ElementCount | include/pickle_job.h:83-94 | the element count is the number of whole elements in the (wrapped) byte distance from start to end |
| Descriptors.GetTuple | include/pickle_job.h:83-94 | the renamed tuple exists exactly when both the id and the dst are rename-map keys (otherwise a key error); its fields are the renamed ids, the enumerator flags, the start, the element count and the element size |
| Descriptors.ElementCountExact | include/pickle_job.h:83-94 | a range holding exactly n elements has count n |
| Wire.EncodeRecordFields | include/pickle_job.h:200-209 | a record is 56 bytes in which field k (id, dst, start, end, element size, access type, addressing mode) takes bytes 8k to 8k+8 as a little-endian `uint64_t` |
| Wire.DecodeEncodeRecord | include/pickle_job.h:200-209 | decoding an encoded record gives it back |
| Wire.DecodeEncodeRecords | include/pickle_job.h:200-209 | decoding the encoded records gives back the list |
| Wire.EncodeDecodeRecords | include/pickle_job.h:200-209 | any byte string of n whole records is the encoding of its n decoded records |
| Wire.DecodeJobRecords | include/pickle_job.h:193-212 | the records read from a buffer are exactly the ones whose encoding fills the bytes after the count byte |
| Wire.EncodeJob | include/pickle_job.h:193-212 | a job descriptor is one count byte (the array count mod 256), then 56 bytes per array, then the kernel name bytes |
| Wire.DecodeJob | include/pickle_job.h:193-212 | a buffer decodes exactly when it holds the records its count byte announces |
| Wire.EncodeDecodedJob | include/pickle_job.h:193-212 | every decodable buffer is the encoding of what it decodes to |
| Wire.DecodeEncodeJob | include/pickle_job.h:193-212 | with fewer than 256 arrays, decoding the descriptor gives back the records and the kernel name |
| Wire.EncodeRecordsInjective | include/pickle_job.h:200-209 | record lists with the same encoding are equal, so the bytes determine the records |
| Wire.EncodeJobCountWraps | include/pickle_job.h:197-199 | with 256 or more arrays the count byte wraps: the device decodes only the first count-mod-256 records, and a different job than the one sent |
| Jobs.NewJob | include/pickle_job.h:147-158 | a new job has no arrays, a rename count of 0 and only the root entry (-1 to -1) in its rename map |
| Jobs.NewJobWF | include/pickle_job.h:147-158 | a new job is consistent in any arena |
| Jobs.JobWFStable | include/pickle_job.h:183-192 | arena changes that keep assigned ids keep a job consistent |
| Jobs.Register | include/pickle_job.h:189-191 | the id is mapped to the old rename count, the count advances and the handle is appended; other map entries keep their values |
| Jobs.AddArrayDescriptor | include/pickle_job.h:183-192 | registration takes the descriptor's id, assigning one if needed, then registers it |
| Jobs.AddKeepsWF | include/pickle_job.h:183-192 | registration keeps the arena and the job consistent and maps the new id to the old array count |
| Jobs.AddAll | include/pickle_job.h:183-192 | registering a list appends it to the job's arrays and changes no descriptor field except ids |
| Jobs.AddAllDense | include/pickle_job.h:185-187 | registering distinct descriptors keeps both structures consistent |
| Jobs.AddAllDenseIds | include/pickle_job.h:185-187 | after distinct registrations, the descriptor at position p is renamed to p: the dense ids the prefetcher assumes |
| Jobs.DistinctDenseId | include/pickle_job.h:185-187 | in a consistent job over distinct descriptors, position i has dense id i |
| Jobs.DenseIdsContiguous | include/pickle_job.h:185-187 | over distinct descriptors the rename values are exactly 0..N-1 plus the root |
| Jobs.ReAddAppendsDuplicate | include/pickle_job.h:183-192 | registering the same descriptor twice lists it twice, adds no new id, and maps its id to the second position |
| Jobs.FirstMatch | include/pickle_job.h:159-170 | the search finds the first registered array with the id, or reports that none has it |
| Jobs.FindArray | include/pickle_job.h:159-170 | the loop computes exactly the first match |
| Jobs.ChangeAccessTypeByArrayId | include/pickle_job.h:159-170 | if an array has the id, the first one gets the new access type; otherwise the method only warns and nothing changes |
| Jobs.ChangeAddressingModeByArrayId | include/pickle_job.h:171-182 | the same search, setting the addressing mode |
| Jobs.RecordsOf | include/pickle_job.h:200-209 | the records exist exactly when every id and dst is a rename-map key; record i belongs to array i |
| Jobs.GetJobDescriptor | include/pickle_job.h:193-212 | serialization succeeds exactly when every id and dst resolves (otherwise a key error); the bytes have length 1 + 56N + name, start with N mod 256, and are the encoding of the renamed records |
| Jobs.JobDescriptorRecord | include/pickle_job.h:200-209 | bytes 1+56i .. 1+56(i+1) decode to the i-th registered descriptor's renamed record |
| Jobs.JobDescriptorDecodes | include/pickle_job.h:193-212 | with fewer than 256 arrays, the device decodes exactly the job's records, in registration order, and its kernel name |
| Jobs.UnregisteredDstFails | include/pickle_job.h:203 | a dst that is not a rename-map key makes serialization fail; no default is substituted |
| Jobs.UnlistedDstFails | include/pickle_job.h:203 | in a consistent job, a dst that is neither root nor a registered array's id makes serialization fail |
| Jobs.SerializesIffDstsRegistered | include/pickle_job.h:193-212 | a consistent job serializes exactly when every dst is root or the id of one of its own arrays |
| JobExample.TwoArrayJob | include/pickle_job.h:183-212 | two descriptors, the second indexed by the first, added to a fresh job, are both registered and rename to (0, root) and (1, 0), with element counts 2 and 6 taken from their byte ranges |
| JobExample.TwoArrayJobBytes | include/pickle_job.h:193-212 | that job serializes, to 1 + 2*56 + 3 bytes |
| Graphs.Wrap64 | include/graphs/gapbs/graph.h:324-326 | the pointer cast keeps values that fit and otherwise reduces mod 2^64 |
| Graphs.DivTrunc | include/graphs/gapbs/graph.h:184 | C++ signed division rounds toward zero for either sign |
| Graphs.IndexRange | include/graphs/gapbs/graph.h:324-326 | an index array's range spans num_nodes + 1 pointers |
| Graphs.NeighborsRange | include/graphs/gapbs/graph.h:350-352 | a neighbor array's range spans num_edges elements from the neighbor storage |
| Graphs.ConstructArrayDescriptors | include/graphs/gapbs/graph.h:138-168 | four fresh descriptors in the order in-index, out-index, in-neighbors, out-neighbors, each covering its array with its element size, no id and dst root |
| Graphs.ArrayIndexedBy | include/graphs/gapbs/graph.h:333-374 | d's dst becomes the named graph array's id, assigned now if needed; only d's dst and that array's id change |
| Graphs.Construct | include/graphs/gapbs/graph.h:180-196 | construction yields four distinct valid descriptors at the next four handles |
| Graphs.ConstructWiring | include/graphs/gapbs/graph.h:138-173 | after construction, each index descriptor's dst is its neighbor descriptor's id; the neighbor descriptors take the next two ids (in first) and keep dst root; index descriptors have no id; older descriptors are untouched |
| Graphs.RelationsWiring | include/graphs/gapbs/graph.h:170-173 | the relations step gives in-neighbors then out-neighbors the next two ids and records them as the index arrays' dst, and changes nothing else |
| Graphs.NewUndirected | include/graphs/gapbs/graph.h:180-186 | in and out arrays are the same storage, and num_edges is half the stored entry count, rounded toward zero |
| Graphs.NewDirected | include/graphs/gapbs/graph.h:188-196 | separate in and out arrays, and num_edges is the number of stored out-neighbor entries |
| Graphs.IndexRangeCount | include/graphs/gapbs/graph.h:324-342 | an index descriptor counts exactly num_nodes + 1 elements |
| Graphs.NeighborsRangeCount | include/graphs/gapbs/graph.h:350-368 | a neighbor descriptor counts exactly num_edges elements |
| Graphs.UndirectedNeighborsRangeIsHalf | include/graphs/gapbs/graph.h:180-186 | for an undirected graph with edges, the neighbor descriptor covers only half the stored entries, so the last entry lies outside it |
| Graphs.NumEdgesDirected | include/graphs/gapbs/graph.h:258-260 | edges are counted once per direction: num_edges for directed graphs, twice that otherwise |
| Graphs.OutDegreeSumTelescopes | include/graphs/gapbs/graph.h:262-264 | the first k out-degrees add up to the number of entries before vertex k |
| Graphs.DegreesAddUpToDirectedEdges | include/graphs/gapbs/graph.h:258-264 | the out-degrees add up to num_edges_directed (for undirected graphs, when the stored entry count is even) |
| Graphs.MakeNeighborhood | include/graphs/gapbs/graph.h:105-119 | a neighborhood ends at the vertex's last entry and begins at its first entry plus the start offset, clamped to the degree |
| Graphs.OutNeigh | include/graphs/gapbs/graph.h:271-274 | over an index that is in order at v, an out-neighborhood never spans more than the out-degree |
| Graphs.InNeigh | include/graphs/gapbs/graph.h:275-278 | over an index that is in order at v, an in-neighborhood never spans more than the in-degree |
| Graphs.NeighborhoodFromZero | include/graphs/gapbs/graph.h:105-119 | offset 0 gives the vertex's whole slice |
| Graphs.VertexOffsets | include/graphs/gapbs/graph.h:309-317 | the offsets start at 0, and consecutive offsets differ exactly as the index entries do |
| Graphs.GenIndex | include/graphs/gapbs/graph.h:299-307 | entry n points offsets[n] elements into the neighbor storage |
| Graphs.RebuildIndex | include/graphs/gapbs/graph.h:299-317 | `GenIndex(VertexOffsets(), neighbors)` rebuilds the original index |
| Graphs.OffsetsDetermineIndex | include/graphs/gapbs/graph.h:309-317 | offsets with the index's differences, starting at 0, are the index minus its first entry |
| Graphs.ReverseSwapsArrays | include/graphs/gapbs/graph.h:330-374 | reversing edge directions swaps the in and out arrays, keeps the graph well formed, and is an involution |
| Vectors.Contents | include/graphs/gapbs/pvector.h:165-167 | the live elements are size many |
| Vectors.NewEmpty | include/graphs/gapbs/pvector.h:32-36 | an empty vector has no storage and a default descriptor, but still measures its elements in sizeof(T_) bytes |
| Vectors.NewSized | include/graphs/gapbs/pvector.h:38-50 | n fresh slots, size equal to capacity, and a descriptor for [start, start + n*sizeof(T)) with no id and dst root |
| Vectors.NewSizedElementCount | include/graphs/gapbs/pvector.h:38-50 | without wrap-around, the descriptor counts exactly n elements |
| Vectors.GetAddressRange | include/graphs/gapbs/pvector.h:188-190 | the range covers the live elements only, not the spare capacity |
| Vectors.Reserve | include/graphs/gapbs/pvector.h:104-116 | a larger request moves the live elements to a new allocation of that many slots; a smaller one changes nothing; the descriptor handle is kept |
| Vectors.Empty | include/graphs/gapbs/pvector.h:124-126 | empty exactly when the size is 0 |
| Vectors.Clear | include/graphs/gapbs/pvector.h:128-130 | the size becomes 0 while storage, capacity, start address, element size and descriptor are kept |
| Vectors.Resize | include/graphs/gapbs/pvector.h:132-136 | exactly k elements become live; surviving slots keep their values; capacity never shrinks |
| Vectors.GrownCapacity | include/graphs/gapbs/pvector.h:147-150 | a full vector grows to capacity 1 from 0, and to twice its capacity otherwise |
| Vectors.PushBack | include/graphs/gapbs/pvector.h:146-153 | the contents become the old contents plus the value; the vector reallocates, to the new allocation, only when full |
| Vectors.PushBackKeepsPowerOfTwo | include/graphs/gapbs/pvector.h:146-153 | growing from empty keeps the capacity a power of two |
| Vectors.PushAllContents | include/graphs/gapbs/pvector.h:146-153 | successive push_backs append the values in order |
| Vectors.PushAllFrame | include/graphs/gapbs/pvector.h:146-153 | successive push_backs keep the element size and descriptor, and once the storage has moved it stays at the new allocation |
| Vectors.NewEmptyPushAllRange | include/graphs/gapbs/pvector.h:32-36 | a default-constructed vector filled by push_back spans exactly one element size per value from its allocation, when nothing wraps |
| Vectors.Fill | include/graphs/gapbs/pvector.h:155-159 | every live element becomes the value, and spare capacity is untouched |
| Vectors.NewFilled | include/graphs/gapbs/pvector.h:52-54 | a sized vector whose n elements all hold the value |
| Vectors.VectorIndexedBy | include/graphs/gapbs/pvector.h:200-202 | d's dst becomes the vector descriptor's id; only d's dst and that id change |
| Vectors.DescriptorNotMovedByReserve | include/graphs/gapbs/pvector.h:104-116 | after a reserve that moves the storage, the descriptor still names the old allocation |
| Queues.QueueAddressRange | include/graphs/gapbs/sliding_queue.h:100-102 | the range covers the whole allocation, whatever the window |
| Queues.NewQueue | include/graphs/gapbs/sliding_queue.h:41-52 | a queue starts with all positions at 0 and a descriptor for the whole buffer |
| Queues.NewQueueElementCount | include/graphs/gapbs/sliding_queue.h:41-52 | the descriptor counts every slot of the buffer |
| Queues.Reset | include/graphs/gapbs/sliding_queue.h:67-71 | after a reset the queue is empty and the buffer is kept |
| Queues.QueuePush | include/graphs/gapbs/sliding_queue.h:59-61 | the value is stored at the append point, which advances; the visible window, the start address, the element size and the descriptor are unchanged |
| Queues.QueueEmpty | include/graphs/gapbs/sliding_queue.h:63-65 | empty exactly when the window is empty |
| Queues.QueueSize | include/graphs/gapbs/sliding_queue.h:88-90 | the size is the length of the window |
| Queues.SlideWindow | include/graphs/gapbs/sliding_queue.h:73-76 | the new window is exactly what was appended since the last slide; the buffer, start address, element size and descriptor are kept |
| Queues.PushAllQueueStores | include/graphs/gapbs/sliding_queue.h:59-61 | appended values sit in order after the old append point, and nothing before it changes |
| Queues.PushThenSlide | include/graphs/gapbs/sliding_queue.h:59-76 | values pushed between two slides are exactly the next window, in order |
| Queues.SlideWithoutPushIsEmpty | include/graphs/gapbs/sliding_queue.h:73-76 | two slides with no push leave the queue empty |
| GraphJobs.AddWiredKeepsWF | include/graphs/gapbs/wrapper.h:26-27 | registering an array and wiring a relation keeps arena and job consistent and appends the array |
| GraphJobs.AddWiredDescs | include/graphs/gapbs/wrapper.h:26-27 | the target's dst becomes the provider's id, and nothing else but the new array's id changes |
| GraphJobs.OutgoingIsIncomingOfReverse | include/graphs/gapbs/wrapper.h:42-71 | the outgoing builder on a graph is the incoming builder on the reversed graph |
| GraphJobs.GraphPartWF | include/graphs/gapbs/wrapper.h:17-20 | after the first two registrations the job lists the index then the neighbor array, with an empty kernel name |
| GraphJobs.GraphPartDescs | include/graphs/gapbs/wrapper.h:17-20 | both graph arrays get ids; no dst and no other descriptor changes |
| GraphJobs.SelectorPartDescs | include/graphs/gapbs/wrapper.h:22-29 | the selector's dst becomes the index array's id; no other dst changes |
| GraphJobs.BuildJobWF | include/graphs/gapbs/wrapper.h:11-40 | a built job is consistent and lists index, neighbors, selector and consumer in that order |
| GraphJobs.BuildJobShape | include/graphs/gapbs/wrapper.h:11-40 | a built job holds 2 to 4 arrays with dense ids 0.. in registration order and an empty name; its bytes, when they resolve, are 1 + 56N long |
| GraphJobs.BuildJobWiring | include/graphs/gapbs/wrapper.h:22-37 | selector.dst becomes id(index) and neighbors.dst becomes id(consumer); without a consumer, neighbors.dst is kept |
| GraphJobs.BuildJobFrame | include/graphs/gapbs/wrapper.h:11-40 | descriptors not given to the builder are left exactly as they were |
| GraphJobs.BuildJobSerializes | include/graphs/gapbs/wrapper.h:11-40 | with the graph's own relations and a consumer whose dst is root, a built job always serializes |
| GraphJobs.StaleConsumerBlocksSerialization | include/graphs/gapbs/wrapper.h:30-37 | a consumer relation outlives its job: a later job built without that consumer fails to serialize |
| GraphJobs.FreshGraphIncomingJobSerializes | include/graphs/gapbs/wrapper.h:11-40 | on a freshly constructed graph, the incoming job with any fresh selector and consumer serializes, 56 bytes per array |
| LowLevel.CommandHeader | src/pickle_device_low_level.cpp:153-158 | the header is 16 bytes |
| LowLevel.CommandHeaderDecodes | src/pickle_device_low_level.cpp:153-158 | the header decodes back to the command type and the length |
| LowLevel.AsU64 | src/pickle_device_low_level.cpp:176-177 | the signed pwrite result is compared as unsigned, so -1 becomes 2^64 - 1 |
| LowLevel.WriteCommand | src/pickle_device_low_level.cpp:148-189 | nothing is written if open fails; the header goes to offset 0; the payload follows only if all 16 header bytes went out; success exactly when open worked and both writes were complete |
| LowLevel.PayloadOverlapsHeader | src/pickle_device_low_level.cpp:168-176 | the payload's offset lies inside the header just written |
| Device.CommandsCount | src/pickle_device_manager.cpp:79-95 | the calls extracted from a trace hold every `write_command_to_device` call as often as it occurs, and no other event |
| Device.CommandsAppend | src/pickle_device_manager.cpp:79-95 | the calls of a trace followed by more events are the earlier calls followed by the later ones, so the order is kept |
| Device.CallWrites | src/pickle_device_low_level.cpp:160-184 | a recorded call wrote nothing if the device did not open; if it reports success, it wrote the header at offset 0 and then the payload at offset 1 |
| Device.RegisterUncacheablePage | src/pickle_device_manager.cpp:65-73 | both addresses are recorded for the id, other entries are kept, and nothing is sent |
| Device.GetUCPagePtr | src/pickle_device_manager.cpp:40-63 | a cached id returns its pointer with no effect; otherwise the page is mapped, its address queried and recorded, and 0xAF (0xDECAF truncated to `uint8_t`) stored in its first byte; a failed map or query exits with status 1 |
| Device.WatchRangePayload | src/pickle_device_manager.cpp:79-89 | the payload is 16 bytes |
| Device.WatchRangePayloadDecodes | src/pickle_device_manager.cpp:80-84 | the payload decodes to the page's physical start and start + 0x1000 (mod 2^64) |
| Device.WriteUncacheablePagePaddr | src/pickle_device_manager.cpp:79-89 | one `write_command_to_device` call, ADD_WATCH_RANGE with the recorded address (0, inserted, if none is recorded), recorded with its `pwrite` calls; success exactly when the device opened and all 16 header and 16 payload bytes went out |
| Device.WriteJobToPickleDevice | src/pickle_device_manager.cpp:91-95 | one `write_command_to_device` call, SEND_JOB_DESCRIPTOR with the bytes, recorded with its `pwrite` calls: none if the device does not open, and the header at offset 0 then the bytes at offset 1 when it reports success; the caches are kept |
| Device.SendJob | src/pickle_device_manager.cpp:34-38 | a job whose ids do not resolve fails with a key error before `write_command_to_device` is called; otherwise it is called once with exactly the descriptor bytes, and when it reports success the device received the header at offset 0 and those bytes at offset 1 |
| Device.New | src/pickle_device_manager.cpp:26-30 | construction fails (exit 1) exactly when page 0 cannot be mapped or its address read |
| Device.Teardown | src/pickle_device_manager.cpp:75-77 | teardown unmaps 4096 bytes at page 0's pointer; with no page 0 it first inserts a null entry and unmaps the null pointer |
| Device.CachedPageIsStable | src/pickle_device_manager.cpp:40-63 | once a page is granted, asking again returns the same pointer and changes nothing, whatever the system would answer |
| Device.SamePageTwice | src/pickle_device_manager.cpp:40-63 | asking for the same page twice maps and queries it at most once and returns the same pointer both times |
| Device.PageRequestsSendNoCommands | src/pickle_device_manager.cpp:40-63 | page requests never call `write_command_to_device` |
| Device.NewManagerTrace | src/pickle_device_manager.cpp:26-30 | construction maps page 0, queries its address, stores 0xAF in its first byte and calls `write_command_to_device` with its watch range, in that order |
| Device.SendJobAddsOneCommand | src/pickle_device_manager.cpp:34-38 | sending a job adds exactly one `write_command_to_device` call, carrying the job descriptor, after the calls made so far |
| Device.OnlyPageZeroIsWatched | src/pickle_device_manager.cpp:26-63 | after construction, any sequence of page requests leaves the watch-range call for page 0 as the only `write_command_to_device` call |
| Device.RequestPagesSendNoCommands | src/pickle_device_manager.cpp:40-63 | a sequence of page requests makes no `write_command_to_device` call |
| Device.TeardownUnmapsPageZero | src/pickle_device_manager.cpp:26-32 | tearing down a constructed manager unmaps the page the constructor mapped |

## Left out

- `print()`, `print(rename_map)` and all console output (`std::cout`, `std::cerr`, `perror`): output only, with no effect on state.
- The unrenamed `getTuple()` (pickle_job.h:71-82): used only by `print()`.
- `renameCount` and the `uint8_t` array count are modelled with wrap-around. The array count is covered by `Wire.EncodeJobCountWraps`. Jobs with 2^64 arrays are excluded by preconditions.
- The id counter wraps in `Descriptors.GetArrayId`. The lemmas that need distinct ids ask for ids to spare (`Headroom`), since a wrapped counter would hand out 0 and then reused ids.
- `getPerfPagePtr`, the performance page and the device-specs queries in `pickle_device_manager.h`, and `pickle_device_low_level.cpp` other than `write_command_to_device`: left out because system access is modelled only as oracle answers.
- File descriptors, `open`, `close`, `mmap`, `munmap` and `/proc` reads are outside the model: their results are oracle parameters, and their effects are trace events.
- `pickle_graph.h`, `pickle_utils.h` and `pickle_driver.h` are not part of this model.
- `QueueBuffer` and `SlidingQueue::write`: thread-local buffering and file output.
- `SlidingQueue::indexedBy` calls a `getArrayId()` that `SlidingQueue` does not declare, so its meaning is undefined. A queue can still be the provider through `Descriptors.IndexedBy` on its descriptor.
- The `pvector` iterator-range constructor, `swap`, `leak`, `data`, `begin`/`end`, `operator[]` and the `num` field: access to raw storage, or ownership changes.
- The default `CSRGraph` constructor, move construction and assignment, `ReleaseResources`, `PrintStats`, `PrintTopology`, the `Write*` dumps and `vertices()`: ownership and output.
- OpenMP parallel loops (`fill`, `reserve`, `GenIndex`, the iterator constructor) are modelled as sequential loops, since each iteration writes its own slot.
- `Graphs.NumEdgesDirected`: `int64_t` overflow of `2 * num_edges_` is not modelled, because counts are unbounded integers.
- `Vectors.GrownCapacity`: `size_t` overflow of the doubled capacity is not modelled.
- `Vectors.Reserve`: the descriptor is not updated after a reallocation. The model keeps that behaviour and states it in `Vectors.DescriptorNotMovedByReserve`.
- `Device.WriteJobToPickleDevice`: the out-of-class definition (pickle_device_manager.cpp:91-92) takes `const std::vector<uint8_t>` by value, but the class declares only `writeJobToPickleDevice(const std::vector<uint8_t>&)` (pickle_device_manager.h:52). That definition matches no declaration, so the file as written does not compile. The model follows the evident intent: the bytes are sent unchanged.
- `Device.SendJob` requires the descriptor length to fit in 64 bits, which any real job satisfies.
- `GraphJobs.BuildIncomingJob` and `GraphJobs.BuildOutgoingJob` carry no property of their own beyond the descriptor count. Their properties are proved for `BuildJob`, which both unfold to, and `GraphJobs.OutgoingIsIncomingOfReverse` relates the two builders.
- `Queues.QueuePush` requires a free slot (`shared_in` below the buffer size). `push_back` (sliding_queue.h:59-61) has no bound check and writes past the buffer when it is full, which is undefined behaviour in C++; the model does not promise anything for that case.
- `Graphs.VertexOffsets` returns a plain sequence. The source builds a `pvector<SGOffset>`, which also allocates a fresh descriptor in the arena with no id and root as its dst. That descriptor is never registered or assigned an id, so no job can observe it, and the model leaves it out.
- `Descriptors.GetTuple` and `Descriptors.ElementCount` require a non-zero element size. The source divides by it, and a zero divisor (the default descriptor's) is undefined behaviour in C++.
