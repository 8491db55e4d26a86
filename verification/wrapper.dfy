/** The graph job builders: a job over one direction of a CSR graph, with an
    optional selector (an array indexed by the graph's index array) and an
    optional consumer (an array the graph's neighbor array indexes). */
module GraphJobs {
  import opened Bytes
  import opened Results
  import opened Descriptors
  import opened Jobs
  import opened Graphs

  /** Register h, then make `target` indexed by `provider`. */
  function AddWired(s: Step, h: Handle, provider: Handle, target: Handle): (r: Step)
    requires Valid(s.arena, h) && Valid(s.arena, provider) && Valid(s.arena, target)
    ensures r.job == AddArrayDescriptor(s.arena, s.job, h).job
    ensures |r.arena.descs| == |s.arena.descs|
  {
    var t := AddArrayDescriptor(s.arena, s.job, h);
    Step(IndexedBy(t.arena, provider, target), t.job)
  }

  /** Registering h and wiring `target` keeps the arena and the job well
      formed, and appends h to the job. */
  lemma AddWiredKeepsWF(s: Step, h: Handle, provider: Handle, target: Handle)
    requires Valid(s.arena, h) && Valid(s.arena, provider) && Valid(s.arena, target)
    requires ArenaWF(s.arena) && JobWF(s.arena, s.job)
    requires IsAssigned(s.arena, h) || Headroom(s.arena, 1)
    requires |s.job.arrays| + 1 < TWO64
    requires provider == h || IsAssigned(s.arena, provider)
    ensures var r := AddWired(s, h, provider, target);
      && ArenaWF(r.arena) && JobWF(r.arena, r.job) && Extends(s.arena, r.arena)
      && r.job.arrays == s.job.arrays + [h] && r.job.kernelName == s.job.kernelName
      && (Headroom(s.arena, 1) ==> r.arena.nextId <= s.arena.nextId + 1)
  {
    var t := AddArrayDescriptor(s.arena, s.job, h);
    AddKeepsWF(s.arena, s.job, h);
    var r := AddWired(s, h, provider, target);
    JobWFStable(t.arena, r.arena, t.job);
    ExtendsTransitive(s.arena, t.arena, r.arena);
  }

  /** What registering h and wiring `target` does to the descriptors: target's
      dst becomes the provider's id, h gets an id, and nothing else changes. */
  lemma AddWiredDescs(s: Step, h: Handle, provider: Handle, target: Handle)
    requires Valid(s.arena, h) && Valid(s.arena, provider) && Valid(s.arena, target)
    requires provider == h || (IsAssigned(s.arena, provider) && provider != target)
    ensures var r := AddWired(s, h, provider, target);
      && r.arena.descs[target].dst == IdOf(r.arena, provider)
      && (provider != h ==> IdOf(r.arena, provider) == IdOf(s.arena, provider))
      && (forall k | 0 <= k < |s.arena.descs| && k != h && k != target :: r.arena.descs[k] == s.arena.descs[k])
      && (target != h ==> r.arena.descs[h].dst == s.arena.descs[h].dst)
  {
  }

  /** The first two registrations of both builders: a fresh job with an
      empty kernel name, then the index array, then the neighbor array. */
  function GraphPart(a: Arena, index: Handle, neighbors: Handle): (r: Step)
    requires Valid(a, index) && Valid(a, neighbors)
    ensures |r.arena.descs| == |a.descs|
  {
    var s1 := AddArrayDescriptor(a, NewJob([]), index);
    AddArrayDescriptor(s1.arena, s1.job, neighbors)
  }

  /** Then the selector, if any, indexed by the index array. */
  function SelectorPart(a: Arena, index: Handle, neighbors: Handle, selector: Option<Handle>): (r: Step)
    requires Valid(a, index) && Valid(a, neighbors)
    requires selector.Some? ==> Valid(a, selector.value)
    ensures |r.arena.descs| == |a.descs|
  {
    var s2 := GraphPart(a, index, neighbors);
    if selector.Some? then AddWired(s2, selector.value, index, selector.value) else s2
  }

  /** The direction-independent body of both builders: after the graph part
      and the selector, the consumer, if any, which indexes the neighbor
      array. */
  function BuildJob(a: Arena, index: Handle, neighbors: Handle,
                    selector: Option<Handle>, consumer: Option<Handle>): (r: Step)
    requires Valid(a, index) && Valid(a, neighbors)
    requires selector.Some? ==> Valid(a, selector.value)
    requires consumer.Some? ==> Valid(a, consumer.value)
    ensures |r.arena.descs| == |a.descs|
  {
    var s3 := SelectorPart(a, index, neighbors, selector);
    if consumer.Some? then AddWired(s3, consumer.value, consumer.value, neighbors) else s3
  }

  /** `createGraphJobUsingIncomingEdges`. */
  function BuildIncomingJob(a: Arena, g: CSRGraph, selector: Option<Handle>, consumer: Option<Handle>): (r: Step)
    requires GraphWF(a, g)
    requires selector.Some? ==> Valid(a, selector.value)
    requires consumer.Some? ==> Valid(a, consumer.value)
    ensures |r.arena.descs| == |a.descs|
  {
    BuildJob(a, Graphs.DescOf(g, InIndex), Graphs.DescOf(g, InNeighbors), selector, consumer)
  }

  /** `createGraphJobUsingOutgoingEdges`. */
  function BuildOutgoingJob(a: Arena, g: CSRGraph, selector: Option<Handle>, consumer: Option<Handle>): (r: Step)
    requires GraphWF(a, g)
    requires selector.Some? ==> Valid(a, selector.value)
    requires consumer.Some? ==> Valid(a, consumer.value)
    ensures |r.arena.descs| == |a.descs|
  {
    BuildJob(a, Graphs.DescOf(g, OutIndex), Graphs.DescOf(g, OutNeighbors), selector, consumer)
  }

  /** The two builders are mirror images: the outgoing job of a graph is the
      incoming job of the reversed graph. */
  lemma OutgoingIsIncomingOfReverse(a: Arena, g: CSRGraph, selector: Option<Handle>, consumer: Option<Handle>)
    requires GraphWF(a, g)
    requires selector.Some? ==> Valid(a, selector.value)
    requires consumer.Some? ==> Valid(a, consumer.value)
    ensures GraphWF(a, Reverse(g))
    ensures BuildOutgoingJob(a, g, selector, consumer) == BuildIncomingJob(a, Reverse(g), selector, consumer)
  {
    ReverseSwapsArrays(a, g);
  }

  /** The optional array as a 0- or 1-element list. */
  function AsSeq(o: Option<Handle>): (s: seq<Handle>)
    ensures |s| <= 1 && (o.Some? <==> |s| == 1) && (o.Some? ==> s[0] == o.value)
  {
    if o.Some? then [o.value] else []
  }

  /** The arrays a builder may be given: distinct, existing, and not yet
      part of any relation the builder would overwrite. */
  predicate BuilderInputs(a: Arena, index: Handle, neighbors: Handle,
                          selector: Option<Handle>, consumer: Option<Handle>) {
    && Valid(a, index) && Valid(a, neighbors) && index != neighbors
    && (selector.Some? ==>
          Valid(a, selector.value) && selector.value != index && selector.value != neighbors)
    && (consumer.Some? ==>
          Valid(a, consumer.value) && consumer.value != index && consumer.value != neighbors)
    && (selector.Some? && consumer.Some? ==> selector.value != consumer.value)
  }

  /** Registering one array uses up at most one fresh id. */
  lemma AddUsesAtMostOneId(a: Arena, j: Job, h: Handle)
    requires Valid(a, h) && Headroom(a, 1)
    ensures AddArrayDescriptor(a, j, h).arena.nextId <= a.nextId + 1
  {
  }

  /** After the graph part the arena and job are well formed, with the two
      graph arrays registered in order. */
  lemma GraphPartWF(a: Arena, index: Handle, neighbors: Handle)
    requires Valid(a, index) && Valid(a, neighbors)
    requires ArenaWF(a) && Headroom(a, 4)
    ensures var r := GraphPart(a, index, neighbors);
      && ArenaWF(r.arena) && JobWF(r.arena, r.job) && Extends(a, r.arena)
      && r.job.arrays == [index, neighbors] && r.job.kernelName == []
      && Headroom(r.arena, 2)
  {
    var j0 := NewJob([]);
    NewJobWF(a, []);
    var s1 := AddArrayDescriptor(a, j0, index);
    AddKeepsWF(a, j0, index);
    AddUsesAtMostOneId(a, j0, index);
    AddKeepsWF(s1.arena, s1.job, neighbors);
    AddUsesAtMostOneId(s1.arena, s1.job, neighbors);
    ExtendsTransitive(a, s1.arena, GraphPart(a, index, neighbors).arena);
  }

  /** The graph part assigns both graph arrays an id, touches no dst and
      changes no other descriptor. */
  lemma GraphPartDescs(a: Arena, index: Handle, neighbors: Handle)
    requires Valid(a, index) && Valid(a, neighbors) && index != neighbors
    requires ArenaWF(a) && Headroom(a, 2)
    ensures var r := GraphPart(a, index, neighbors);
      && IsAssigned(r.arena, index) && IsAssigned(r.arena, neighbors)
      && r.arena.descs[index].dst == a.descs[index].dst
      && r.arena.descs[neighbors].dst == a.descs[neighbors].dst
      && (forall k | 0 <= k < |a.descs| && k != index && k != neighbors :: r.arena.descs[k] == a.descs[k])
  {
  }

  lemma SelectorPartWF(a: Arena, index: Handle, neighbors: Handle, selector: Option<Handle>)
    requires Valid(a, index) && Valid(a, neighbors)
    requires selector.Some? ==> Valid(a, selector.value)
    requires ArenaWF(a) && Headroom(a, 4)
    ensures var r := SelectorPart(a, index, neighbors, selector);
      && ArenaWF(r.arena) && JobWF(r.arena, r.job) && Extends(a, r.arena)
      && r.job.arrays == [index, neighbors] + AsSeq(selector) && r.job.kernelName == []
      && Headroom(r.arena, 1)
  {
    var s2 := GraphPart(a, index, neighbors);
    GraphPartWF(a, index, neighbors);
    if selector.Some? {
      AddWiredKeepsWF(s2, selector.value, index, selector.value);
      ExtendsTransitive(a, s2.arena, SelectorPart(a, index, neighbors, selector).arena);
    }
  }

  /** The selector part sets the selector's dst to the index array's id and
      touches no other dst. */
  lemma SelectorPartDescs(a: Arena, index: Handle, neighbors: Handle, selector: Option<Handle>)
    requires BuilderInputs(a, index, neighbors, selector, None)
    requires ArenaWF(a) && Headroom(a, 4)
    ensures var r := SelectorPart(a, index, neighbors, selector);
      && IsAssigned(r.arena, index)
      && r.arena.descs[index].dst == a.descs[index].dst
      && r.arena.descs[neighbors].dst == a.descs[neighbors].dst
      && (selector.Some? ==> r.arena.descs[selector.value].dst == IdOf(r.arena, index))
      && (forall k | 0 <= k < |a.descs| && k != index && k != neighbors && selector != Some(k) ::
            r.arena.descs[k] == a.descs[k])
  {
    var s2 := GraphPart(a, index, neighbors);
    GraphPartDescs(a, index, neighbors);
    if selector.Some? {
      AddWiredDescs(s2, selector.value, index, selector.value);
    }
  }

  /** A built job is well formed, its arrays in registration order. */
  lemma BuildJobWF(a: Arena, index: Handle, neighbors: Handle,
                   selector: Option<Handle>, consumer: Option<Handle>)
    requires BuilderInputs(a, index, neighbors, selector, consumer)
    requires ArenaWF(a) && Headroom(a, 4)
    ensures var r := BuildJob(a, index, neighbors, selector, consumer);
      && ArenaWF(r.arena) && JobWF(r.arena, r.job) && Extends(a, r.arena)
      && r.job.arrays == [index, neighbors] + AsSeq(selector) + AsSeq(consumer)
      && r.job.kernelName == []
  {
    var s3 := SelectorPart(a, index, neighbors, selector);
    SelectorPartWF(a, index, neighbors, selector);
    var r := BuildJob(a, index, neighbors, selector, consumer);
    if consumer.Some? {
      var c := consumer.value;
      assert r == AddWired(s3, c, c, neighbors);
      AddWiredKeepsWF(s3, c, c, neighbors);
      ExtendsTransitive(a, s3.arena, r.arena);
    } else {
      assert r == s3;
    }
  }

  /** What a builder produces: the index and neighbor arrays registered first
      with dense ids 0 and 1, then the selector, then the consumer, each with
      the next dense id; the kernel name is empty, so the job holds 2 to 4
      descriptors and its descriptor bytes, when they resolve, have length
      1 + 56 N. */
  lemma BuildJobShape(a: Arena, index: Handle, neighbors: Handle,
                      selector: Option<Handle>, consumer: Option<Handle>)
    requires BuilderInputs(a, index, neighbors, selector, consumer)
    requires ArenaWF(a) && Headroom(a, 4)
    ensures var r := BuildJob(a, index, neighbors, selector, consumer);
      && r.job.arrays == [index, neighbors] + AsSeq(selector) + AsSeq(consumer)
      && 2 <= |r.job.arrays| <= 4 && r.job.kernelName == []
      && Registered(r.arena, r.job)
      && (forall p | 0 <= p < |r.job.arrays| ::
            IdOf(r.arena, r.job.arrays[p]) in r.job.renameMap
            && r.job.renameMap[IdOf(r.arena, r.job.arrays[p])] == p)
      && (GetJobDescriptor(r.arena, r.job).Ok? ==> |GetJobDescriptor(r.arena, r.job).value| == 1 + 56 * |r.job.arrays|)
  {
    var r := BuildJob(a, index, neighbors, selector, consumer);
    BuildJobWF(a, index, neighbors, selector, consumer);
    BuiltJobDistinct(index, neighbors, selector, consumer);
    forall p | 0 <= p < |r.job.arrays|
      ensures IdOf(r.arena, r.job.arrays[p]) in r.job.renameMap
      ensures r.job.renameMap[IdOf(r.arena, r.job.arrays[p])] == p
    {
      DistinctDenseId(r.arena, r.job, p);
    }
  }

  /** The relations a builder sets up: the selector's dst is the index array's
      id; the neighbor array's dst is the consumer's id when there is a
      consumer and is left as it was otherwise; the index array's and the
      consumer's own dst are left as they were. */
  lemma BuildJobWiring(a: Arena, index: Handle, neighbors: Handle,
                       selector: Option<Handle>, consumer: Option<Handle>)
    requires BuilderInputs(a, index, neighbors, selector, consumer)
    requires ArenaWF(a) && Headroom(a, 4)
    ensures var r := BuildJob(a, index, neighbors, selector, consumer);
      && (selector.Some? ==> r.arena.descs[selector.value].dst == IdOf(r.arena, index))
      && (consumer.Some? ==> r.arena.descs[neighbors].dst == IdOf(r.arena, consumer.value))
      && (consumer.None? ==> r.arena.descs[neighbors].dst == a.descs[neighbors].dst)
      && r.arena.descs[index].dst == a.descs[index].dst
      && (consumer.Some? ==> r.arena.descs[consumer.value].dst == a.descs[consumer.value].dst)
  {
    var s3 := SelectorPart(a, index, neighbors, selector);
    SelectorPartDescs(a, index, neighbors, selector);
    var r := BuildJob(a, index, neighbors, selector, consumer);
    if consumer.Some? {
      var c := consumer.value;
      assert r == AddWired(s3, c, c, neighbors);
      AddWiredDescs(s3, c, c, neighbors);
      assert r.arena.descs[index] == s3.arena.descs[index];
    } else {
      assert r == s3;
    }
  }

  /** A builder changes no descriptor it was not given. */
  lemma BuildJobFrame(a: Arena, index: Handle, neighbors: Handle,
                      selector: Option<Handle>, consumer: Option<Handle>)
    requires BuilderInputs(a, index, neighbors, selector, consumer)
    requires ArenaWF(a) && Headroom(a, 4)
    ensures var r := BuildJob(a, index, neighbors, selector, consumer);
      forall k | 0 <= k < |a.descs| && k != index && k != neighbors
                 && selector != Some(k) && consumer != Some(k) :: r.arena.descs[k] == a.descs[k]
  {
    var s3 := SelectorPart(a, index, neighbors, selector);
    SelectorPartDescs(a, index, neighbors, selector);
    if consumer.Some? {
      AddWiredDescs(s3, consumer.value, consumer.value, neighbors);
    }
  }

  /** With the relations the graph constructor sets up (the index array
      indexed by the neighbor array, whose own dst is the root) and a consumer
      whose dst is the root, a built job always serializes: each of its dst
      values is the root or the id of one of its own arrays. */
  lemma BuildJobSerializes(a: Arena, index: Handle, neighbors: Handle,
                           selector: Option<Handle>, consumer: Option<Handle>)
    requires BuilderInputs(a, index, neighbors, selector, consumer)
    requires ArenaWF(a) && Headroom(a, 4)
    requires IsAssigned(a, neighbors) && a.descs[index].dst == a.descs[neighbors].arrayId
    requires a.descs[neighbors].dst == ROOT
    requires consumer.Some? ==> a.descs[consumer.value].dst == ROOT
    ensures var r := BuildJob(a, index, neighbors, selector, consumer);
      && Registered(r.arena, r.job)
      && GetJobDescriptor(r.arena, r.job).Ok?
      && |GetJobDescriptor(r.arena, r.job).value| == 1 + 56 * |r.job.arrays|
  {
    var r := BuildJob(a, index, neighbors, selector, consumer);
    BuildJobWF(a, index, neighbors, selector, consumer);
    BuildJobWiring(a, index, neighbors, selector, consumer);
    assert IdOf(r.arena, neighbors) == IdOf(a, neighbors);
    BuiltDstsRegistered(r, index, neighbors, selector, consumer);
    SerializesIffDstsRegistered(r.arena, r.job);
  }

  /** The dst values a builder leaves behind all name arrays of the job (or
      the root). */
  lemma BuiltDstsRegistered(r: Step, index: Handle, neighbors: Handle,
                            selector: Option<Handle>, consumer: Option<Handle>)
    requires Registered(r.arena, r.job)
    requires r.job.arrays == [index, neighbors] + AsSeq(selector) + AsSeq(consumer)
    requires Valid(r.arena, index) && Valid(r.arena, neighbors)
    requires selector.Some? ==> Valid(r.arena, selector.value)
    requires consumer.Some? ==> Valid(r.arena, consumer.value)
    requires r.arena.descs[index].dst == IdOf(r.arena, neighbors)
    requires consumer.None? ==> r.arena.descs[neighbors].dst == ROOT
    requires consumer.Some? ==> r.arena.descs[neighbors].dst == IdOf(r.arena, consumer.value)
    requires consumer.Some? ==> r.arena.descs[consumer.value].dst == ROOT
    requires selector.Some? ==> r.arena.descs[selector.value].dst == IdOf(r.arena, index)
    ensures forall i | 0 <= i < |r.job.arrays| ::
      Jobs.DescOf(r.arena, r.job.arrays[i]).dst == ROOT
      || Jobs.DescOf(r.arena, r.job.arrays[i]).dst in RegisteredIds(r.arena, r.job.arrays)
  {
    var hs := r.job.arrays;
    var ids := RegisteredIds(r.arena, hs);
    assert IdOf(r.arena, hs[0]) in ids && IdOf(r.arena, hs[1]) in ids;
    assert IdOf(r.arena, hs[|hs| - 1]) in ids;
  }

  /** An assigned descriptor outside the list has an id that is not the root
      and that no listed descriptor has. */
  lemma UnlistedIdNotRegistered(ar: Arena, hs: seq<Handle>, h: Handle)
    requires ArenaWF(ar) && Valid(ar, h) && IsAssigned(ar, h)
    requires forall i | 0 <= i < |hs| :: Valid(ar, hs[i]) && hs[i] != h
    ensures IdOf(ar, h) != ROOT && IdOf(ar, h) !in RegisteredIds(ar, hs)
  {
  }

  /** The consumer relation outlives the job that made it: if the neighbor
      array still points at some other array's id, a job built without that
      array as consumer cannot be serialized. */
  lemma StaleConsumerBlocksSerialization(a: Arena, index: Handle, neighbors: Handle,
                                         selector: Option<Handle>, oldConsumer: Handle)
    requires BuilderInputs(a, index, neighbors, selector, None)
    requires ArenaWF(a) && Headroom(a, 4)
    requires Valid(a, oldConsumer) && IsAssigned(a, oldConsumer)
    requires oldConsumer != index && oldConsumer != neighbors && selector != Some(oldConsumer)
    requires a.descs[neighbors].dst == a.descs[oldConsumer].arrayId
    ensures var r := BuildJob(a, index, neighbors, selector, None);
      && Registered(r.arena, r.job)
      && GetJobDescriptor(r.arena, r.job) == Err(KeyNotFound)
  {
    var r := BuildJob(a, index, neighbors, selector, None);
    BuildJobWF(a, index, neighbors, selector, None);
    BuildJobWiring(a, index, neighbors, selector, None);
    StaleDstFails(r, index, neighbors, selector, oldConsumer);
  }

  /** The core of the previous lemma, stated on the built step alone. */
  lemma StaleDstFails(r: Step, index: Handle, neighbors: Handle, selector: Option<Handle>, h: Handle)
    requires ArenaWF(r.arena) && JobWF(r.arena, r.job)
    requires r.job.arrays == [index, neighbors] + AsSeq(selector) + AsSeq(None)
    requires Valid(r.arena, index) && (selector.Some? ==> Valid(r.arena, selector.value))
    requires Valid(r.arena, h) && IsAssigned(r.arena, h)
    requires h != index && h != neighbors && selector != Some(h)
    requires Valid(r.arena, neighbors) && r.arena.descs[neighbors].dst == IdOf(r.arena, h)
    ensures Registered(r.arena, r.job)
    ensures GetJobDescriptor(r.arena, r.job) == Err(KeyNotFound)
  {
    var hs := r.job.arrays;
    BuiltArraysOmit(r.arena, index, neighbors, selector, None, h);
    UnlistedIdNotRegistered(r.arena, hs, h);
    UnlistedDstFails(r.arena, r.job, 1);
  }

  /** End to end: on a freshly constructed graph, with a selector and a
      consumer that existed before the graph and whose dst is the root, the
      incoming builder produces a job that serializes, 56 bytes per array. */
  lemma FreshGraphIncomingJobSerializes(a: Arena, g0: CSRGraph, selector: Option<Handle>, consumer: Option<Handle>)
    requires |g0.outIndex| == g0.numNodes + 1 && |g0.inIndex| == g0.numNodes + 1
    requires ArenaWF(a) && Headroom(a, 6)
    requires selector.Some? ==> Valid(a, selector.value)
    requires consumer.Some? ==> Valid(a, consumer.value) && a.descs[consumer.value].dst == ROOT
    requires selector.Some? && consumer.Some? ==> selector.value != consumer.value
    ensures var b := Construct(a, g0);
      && var r := BuildIncomingJob(b.arena, b.graph, selector, consumer);
      && Registered(r.arena, r.job) && GetJobDescriptor(r.arena, r.job).Ok?
      && |GetJobDescriptor(r.arena, r.job).value| == 1 + 56 * |r.job.arrays|
  {
    var b := Construct(a, g0);
    var g := b.graph;
    FreshGraphRelations(a, g0, selector, consumer);
    BuildJobSerializes(b.arena, g.inIndexDesc, g.inNeighborsDesc, selector, consumer);
  }

  /** What construction leaves for the incoming builder: in_index points at
      in_neighbors, which has an id and points at the root, and arrays from
      before the graph are distinct from the graph's and unchanged. */
  lemma FreshGraphRelations(a: Arena, g0: CSRGraph, selector: Option<Handle>, consumer: Option<Handle>)
    requires |g0.outIndex| == g0.numNodes + 1 && |g0.inIndex| == g0.numNodes + 1
    requires ArenaWF(a) && Headroom(a, 6)
    requires selector.Some? ==> Valid(a, selector.value)
    requires consumer.Some? ==> Valid(a, consumer.value) && a.descs[consumer.value].dst == ROOT
    requires selector.Some? && consumer.Some? ==> selector.value != consumer.value
    ensures var b := Construct(a, g0); var g := b.graph;
      && ArenaWF(b.arena) && Headroom(b.arena, 4)
      && BuilderInputs(b.arena, g.inIndexDesc, g.inNeighborsDesc, selector, consumer)
      && IsAssigned(b.arena, g.inNeighborsDesc)
      && b.arena.descs[g.inIndexDesc].dst == b.arena.descs[g.inNeighborsDesc].arrayId
      && b.arena.descs[g.inNeighborsDesc].dst == ROOT
      && (consumer.Some? ==> b.arena.descs[consumer.value].dst == ROOT)
  {
    ConstructWiring(a, g0);
  }

  lemma BuiltArraysOmit(ar: Arena, index: Handle, neighbors: Handle,
                        selector: Option<Handle>, consumer: Option<Handle>, h: Handle)
    requires Valid(ar, index) && Valid(ar, neighbors)
    requires selector.Some? ==> Valid(ar, selector.value)
    requires consumer.Some? ==> Valid(ar, consumer.value)
    requires h != index && h != neighbors && selector != Some(h) && consumer != Some(h)
    ensures var hs := [index, neighbors] + AsSeq(selector) + AsSeq(consumer);
      forall i | 0 <= i < |hs| :: Valid(ar, hs[i]) && hs[i] != h
  {
  }

  lemma BuiltJobDistinct(index: Handle, neighbors: Handle, selector: Option<Handle>, consumer: Option<Handle>)
    requires index != neighbors
    requires selector.Some? ==> selector.value != index && selector.value != neighbors
    requires consumer.Some? ==> consumer.value != index && consumer.value != neighbors
    requires selector.Some? && consumer.Some? ==> selector.value != consumer.value
    ensures Distinct([index, neighbors] + AsSeq(selector) + AsSeq(consumer))
  {
  }
}
