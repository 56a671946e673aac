/** Recorded chains are chains of the heap, and a leak is found exactly if the heap has a chain for it. */
module Detection {
  import opened Wrappers
  import opened LeakBits
  import opened DataStruct
  import opened Recording
  import opened Taint
  import opened Holding
  import opened Passes
  import opened Search
  import opened Reached
  import opened Distance

  // ---- Recorded chains come from the heap ----

  /** Recorded references lead from node `n` to a root. */
  predicate RefChain(nodes: seq<Node>, n: NodeId, chain: seq<Ref>)
    decreases chain
  {
    && n < |nodes| && chain != [] && chain[0] in nodes[n].refs
    && if |chain| == 1 then IsRootReference(chain[0].kind)
       else !IsRootReference(chain[0].kind) && chain[0].node.Some? && RefChain(nodes, chain[0].node.value, chain[1..])
  }

  /** The recorded chain shows these heap references: their kinds and their information, in order. */
  predicate Shows(chain: seq<Ref>, heapChain: seq<HeapRef>) {
    && |chain| == |heapChain|
    && forall j | 0 <= j < |chain| ::
         && chain[j].kind == heapChain[j].kind
         && chain[j].info == if heapChain[j].info.Some? then heapChain[j].info.value else NO_INFO
  }

  /** The heap reference was recorded on some node. */
  ghost predicate WasRecorded(cfg: Config, s0: State, s: State, r: HeapRef)
    requires TagsOk(s0) && |s.nodes| == |s.owner|
  {
    exists k: NodeId, ref: Ref :: k < |s.nodes| && ref in s.nodes[k].refs && IsOrigin(cfg, s0, s, r, k, ref)
  }

  /** Heap references without a root among them but the last. */
  predicate Direct(chain: seq<HeapRef>) { forall j | 0 <= j < |chain| - 1 :: !IsRootReference(chain[j].kind) }

  /** Behind every recorded chain there is a chain of the heap. */
  lemma {:induction false} ChainTraced(cfg: Config, s0: State, s: State, heap: seq<HeapRef>, n: NodeId, chain: seq<Ref>)
      returns (heapChain: seq<HeapRef>)
    requires Traced(cfg, s0, s, heap) && RefChain(s.nodes, n, chain)
    ensures RootChain(heap, s.owner[n], heapChain) && Direct(heapChain) && Shows(chain, heapChain)
    ensures forall r <- heapChain :: WasRecorded(cfg, s0, s, r)
    decreases chain
  {
    assert HasOrigin(cfg, s0, s, heap, n, chain[0]);
    var r: HeapRef :| r in heap && IsOrigin(cfg, s0, s, r, n, chain[0]);
    assert WasRecorded(cfg, s0, s, r);
    if |chain| == 1 {
      heapChain := [r];
    } else {
      var rest := ChainTraced(cfg, s0, s, heap, chain[0].node.value, chain[1..]);
      heapChain := [r] + rest;
      RootChainMore(heap, r, rest);
      ShowsMore(chain[0], chain[1..], r, rest);
      assert chain == [chain[0]] + chain[1..];
    }
  }

  lemma RootChainMore(heap: seq<HeapRef>, r: HeapRef, rest: seq<HeapRef>)
    requires r in heap && !IsRootReference(r.kind) && r.referrer.Some? && RootChain(heap, r.referrer.value, rest)
    requires Direct(rest)
    ensures RootChain(heap, r.target, [r] + rest) && Direct([r] + rest)
  {
    var chain := [r] + rest;
    forall j | 0 < j < |chain| ensures chain[j - 1].referrer == Some(chain[j].target) {
      assert j > 1 ==> rest[j - 2].referrer == Some(rest[j - 1].target);
    }
    forall j | 0 <= j < |chain| - 1 ensures !IsRootReference(chain[j].kind) {
      assert j > 0 ==> !IsRootReference(rest[j - 1].kind);
    }
  }

  lemma ShowsMore(ref: Ref, refs: seq<Ref>, r: HeapRef, rest: seq<HeapRef>)
    requires Shows(refs, rest) && Shows([ref], [r])
    ensures Shows([ref] + refs, [r] + rest)
  {
  }

  /** What the search finds is a recorded chain. */
  lemma {:induction false} FoundIsRecorded(q: Query, has: set<NodeId>, n: NodeId, chain: seq<Ref>)
    requires IsChain(q, has, n, chain)
    ensures RefChain(q.nodes, n, chain)
    decreases chain
  {
    if |chain| > 1 {
      FoundIsRecorded(q, has, chain[0].node.value, chain[1..]);
    }
  }

  /** A chain of the heap that the report may show for the object. */
  ghost predicate HeapWay(cfg: Config, heap: seq<HeapRef>, o: Obj, chain: seq<Ref>, heapChain: seq<HeapRef>) {
    && RootChain(heap, o, heapChain) && Direct(heapChain) && Shows(chain, heapChain)
    && forall r <- heapChain :: !LocalOfAgent(cfg, r)
  }

  /** Whatever the search finds after the passes, under any setting, is a chain of the heap from the leak to its first
      root, and no reference of it is a local of the agent. */
  lemma FoundIsInHeap(cfg: Config, s: State, heap: seq<HeapRef>, left: nat, q: Query, i: nat)
    requires Start(cfg, s) && Shaped(heap) && i < cfg.leaks && IsAbout(q, PassLoop(cfg, s, heap, left), i)
    ensures WellLinked(q.nodes) && i < |q.nodes|
    ensures TopSearch(q, i).chain.Some? ==>
              exists heapChain: seq<HeapRef> :: HeapWay(cfg, heap, s.owner[i], TopSearch(q, i).chain.value, heapChain)
  {
    var s' := PassLoop(cfg, s, heap, left);
    LoopReaches(cfg, s, heap, left);
    InvLinked(cfg, s');
    SearchIsExact(q, i);
    if TopSearch(q, i).chain.Some? {
      var chain := TopSearch(q, i).chain.value;
      FoundIsRecorded(q, Carriers(q.nodes, i), i, chain);
      var heapChain := ChainTraced(cfg, s, s', heap, i, chain);
      assert HeapWay(cfg, heap, s.owner[i], chain, heapChain);
    }
  }

  // ---- What finished a leak ----

  lemma {:induction false} WayToRefs(nodes: seq<Node>, path: seq<NodeId>, j: nat) returns (chain: seq<Ref>)
    requires j < |path| && HasRoot(nodes, path[|path| - 1])
    requires forall k | 0 < k < |path| :: Leads(nodes, path[k - 1], path[k])
    ensures RefChain(nodes, path[j], chain)
    decreases |path| - j
  {
    if j == |path| - 1 {
      var ref :| ref in nodes[path[j]].refs && IsRootReference(ref.kind);
      chain := [ref];
    } else {
      assert Leads(nodes, path[j + 1 - 1], path[j + 1]);
      var ref :| ref in nodes[path[j]].refs && !IsRootReference(ref.kind) && ref.node == Some(path[j + 1]);
      var rest := WayToRefs(nodes, path, j + 1);
      chain := [ref] + rest;
      assert chain[1..] == rest;
    }
  }

  /** What keeps the callback from a reference to a holder of the leak does so from the beginning. */
  ghost predicate Fixed(h: Hunt) { SteadyFor(h.cfg, h.s0, h.heap, h.leak) && FilterFor(h.cfg, h.s0, h.heap, h.leak) }

  /** Nothing was in the way of what was recorded. */
  lemma RecordedIsOpen(h: Hunt, s: State, r: HeapRef)
    requires Reachable(h.cfg, h.s0, s, h.heap) && Fixed(h)
    requires r in h.heap && Holds(h.heap, r.target, h.s0.owner[h.leak]) && WasRecorded(h.cfg, h.s0, s, r)
    ensures Open(h, r)
  {
    var k: NodeId, ref: Ref :| k < |s.nodes| && ref in s.nodes[k].refs && IsOrigin(h.cfg, h.s0, s, r, k, ref);
    SameFilter(h.cfg, h.s0, s, h.heap, h.leak, r);
    assert NodeSized(h.cfg, h.s0, h.heap, s.owner[k], s.nodes[k]);
    HolderSize(h.cfg, h.s0, h.heap, h.leak, r.target);
  }

  /** A chain of heap references from the leak to its first root, with nothing but the fan-in limit in its way. */
  predicate OpenChain(h: Hunt, chain: seq<HeapRef>) {
    && h.leak < |h.s0.owner| && RootChain(h.heap, h.s0.owner[h.leak], chain) && Direct(chain)
    && forall r <- chain :: Open(h, r)
  }

  /** The passes finish a leak only if there is such a chain. */
  lemma FinishedHasChain(h: Hunt, left: nat)
    requires Start(h.cfg, h.s0) && Shaped(h.heap) && Fixed(h)
    ensures h.leak in PassLoop(h.cfg, h.s0, h.heap, left).finished.raw ==> exists chain :: OpenChain(h, chain)
  {
    var s := PassLoop(h.cfg, h.s0, h.heap, left);
    LoopReaches(h.cfg, h.s0, h.heap, left);
    if h.leak in s.finished.raw {
      var path := FinishedWay(s, h.leak);
      var refs := WayToRefs(s.nodes, path, 0);
      RecordedHasChain(h, s, refs);
    }
  }

  lemma RecordedHasChain(h: Hunt, s: State, refs: seq<Ref>)
    requires Reachable(h.cfg, h.s0, s, h.heap) && Fixed(h) && RefChain(s.nodes, h.leak, refs)
    ensures exists chain :: OpenChain(h, chain)
  {
    assert s.owner[h.leak] == h.s0.owner[h.leak];
    var chain := ChainTraced(h.cfg, h.s0, s, h.heap, h.leak, refs);
    forall j | 0 <= j < |chain| ensures Open(h, chain[j]) {
      DirectIsHeld(h.heap, h.s0.owner[h.leak], chain, j);
      RecordedIsOpen(h, s, chain[j]);
    }
    assert OpenChain(h, chain);
  }

  lemma {:induction false} DirectIsHeld(heap: seq<HeapRef>, o: Obj, chain: seq<HeapRef>, j: nat)
    requires RootChain(heap, o, chain) && Direct(chain) && j < |chain|
    ensures Holds(heap, chain[j].target, o)
  {
    if j == 0 {
      HoldsItself(heap, o);
    } else {
      DirectIsHeld(heap, o, chain, j - 1);
      assert chain[j - 1].referrer == Some(chain[j].target);
      HoldsMore(heap, chain[j - 1], o);
    }
  }

  // ---- Detection ----

  /** A single leak shares no holder, and its size is that of all its holders. */
  lemma OneIsSteady(h: Hunt)
    requires Inv(h.cfg, h.s0) && h.cfg.leaks == 1 && h.leak == 0 && h.s0.nodes[0].size >= 0
    ensures Alone(h) && SteadyFor(h.cfg, h.s0, h.heap, h.leak)
  {
    OneIsAlone(h);
    SteadyAlone(h.cfg, h.s0, h.heap, 0);
  }

  predicate RoomyChain(h: Hunt, chain: seq<HeapRef>) { OpenChain(h, chain) && forall r <- chain :: FanInRoom(h, r) }

  /** If there is an open chain, then also one on which the fan-in limit does not cut in. */
  ghost predicate RoomOnTheWay(h: Hunt) {
    (exists chain :: OpenChain(h, chain)) ==> exists chain :: RoomyChain(h, chain)
  }

  lemma ChainIsDetected(h: Hunt, chain: seq<HeapRef>, left: nat)
    requires Start(h.cfg, h.s0) && Shaped(h.heap) && Alone(h)
    requires RoomyChain(h, chain) && EndsItself(h.cfg, h.s0, h.heap, left)
    ensures h.leak in PassLoop(h.cfg, h.s0, h.heap, left).finished.raw
  {
    var max := if left < |chain| then |chain| else left;
    ChainLengthIsDistance(h, chain, max);
    MoreIsSame(h.cfg, h.s0, h.heap, left, max);
  }

  /** If the cap does not cut the passes short, the agent finds that a leak "reached static" exactly if the heap has
      such a chain for it: unless another leak is held by one of its holders, the fan-in limit closes every way, or what
      is filtered or ignored on the way changes during the run. */
  lemma DetectedExactly(h: Hunt, left: nat)
    requires Start(h.cfg, h.s0) && Shaped(h.heap) && Alone(h) && Fixed(h) && RoomOnTheWay(h)
    requires EndsItself(h.cfg, h.s0, h.heap, left)
    ensures h.leak in PassLoop(h.cfg, h.s0, h.heap, left).finished.raw <==> exists chain :: OpenChain(h, chain)
  {
    FinishedHasChain(h, left);
    if chain :| RoomyChain(h, chain) {
      ChainIsDetected(h, chain, left);
    }
  }

  /** And if no object was collected since, it prints a chain exactly then, provided that locals count or hold no holder
      of the leak. */
  lemma ReportedExactly(h: Hunt, left: nat, q: Query)
    requires Start(h.cfg, h.s0) && Shaped(h.heap) && Alone(h) && Fixed(h) && RoomOnTheWay(h)
    requires EndsItself(h.cfg, h.s0, h.heap, left)
    requires IsAbout(q, PassLoop(h.cfg, h.s0, h.heap, left), h.leak) && AllLive(q)
    requires q.considerLocal || LocalsApart(h.cfg, h.s0, h.heap, h.leak)
    ensures WellLinked(q.nodes) && h.leak < |q.nodes|
    ensures TopSearch(q, h.leak).chain.Some? <==> exists chain :: OpenChain(h, chain)
  {
    var s := PassLoop(h.cfg, h.s0, h.heap, left);
    LoopReaches(h.cfg, h.s0, h.heap, left);
    InvLinked(h.cfg, s);
    DetectedExactly(h, left);
    if exists chain :: OpenChain(h, chain) {
      AloneHasRoom(h);
      ReachedStaticIsPrinted(h.cfg, h.s0, h.heap, left, q, h.leak);
    }
    SearchIsExact(q, h.leak);
    if TopSearch(q, h.leak).chain.Some? {
      FoundIsRecorded(q, Carriers(q.nodes, h.leak), h.leak, TopSearch(q, h.leak).chain.value);
      RecordedHasChain(h, s, TopSearch(q, h.leak).chain.value);
    }
  }
}
