/** From recording to reporting: when does a leak that "reached static" get its chain printed? */
module Reached {
  import opened Wrappers
  import opened LeakBits
  import opened DataStruct
  import opened Recording
  import opened Taint
  import opened Holding
  import opened Search

  predicate HasRoot(nodes: seq<Node>, m: NodeId) {
    m < |nodes| && exists ref <- nodes[m].refs :: IsRootReference(ref.kind)
  }

  /** A tainted chain leads from leak `i` to a node with a root reference. */
  ghost predicate ReachesRoot(nodes: seq<Node>, i: nat) {
    exists m: NodeId, path: seq<NodeId> :: TaintPath(nodes, i, m, path) && HasRoot(nodes, m)
  }

  /** A leak is only finished by a root reference on a node that it taints. */
  ghost predicate FinishedSound(s: State) {
    forall i <- s.finished.raw :: ReachesRoot(s.nodes, i)
  }

  lemma StepFinished(cfg: Config, s: State, r: HeapRef)
    requires Inv(cfg, s) && WellShaped(r) && BitsSound(cfg, s) && FinishedSound(s)
    ensures FinishedSound(Step(cfg, s, r))
  {
    var s' := Step(cfg, s, r);
    StepGrows(cfg, s, r);
    forall i <- s'.finished.raw ensures ReachesRoot(s'.nodes, i) {
      if i in s.finished.raw {
        var m: NodeId, path :| TaintPath(s.nodes, i, m, path) && HasRoot(s.nodes, m);
        PathGrows(s, s', i, m, path);
        assert NodeGrows(s.nodes[m], s'.nodes[m]);
        assert TaintPath(s'.nodes, i, m, path) && HasRoot(s'.nodes, m);
      } else {
        var t := s.tags[r.target];
        NewlyFinished(cfg, s, r, i);
        var path :| TaintPath(s.nodes, i, t, path);
        PathGrows(s, s', i, t, path);
        assert TaintPath(s'.nodes, i, t, path) && HasRoot(s'.nodes, t);
      }
    }
  }

  lemma NewlyFinished(cfg: Config, s: State, r: HeapRef, i: nat)
    requires Inv(cfg, s) && WellShaped(r) && i in Step(cfg, s, r).finished.raw && i !in s.finished.raw
    ensures Judge(cfg, s, r) == Accept && i in s.nodes[s.tags[r.target]].leaks.raw
    ensures HasRoot(Step(cfg, s, r).nodes, s.tags[r.target])
  {
    var t := s.tags[r.target];
    CountedInv(cfg, s, r);
    LinkedRest(cfg, Counted(cfg, s, r), r);
    StepGrows(cfg, s, r);
    AcceptedNode(cfg, s, r, t);
    var refs := Step(cfg, s, r).nodes[t].refs;
    assert refs[|refs| - 1] == RefOf(s, r);
  }

  lemma VisitFinished(cfg: Config, s: State, heap: seq<HeapRef>, from: nat)
    requires Inv(cfg, s) && Shaped(heap) && from <= |heap|
    requires BitsSound(cfg, s) && FinishedSound(s)
    ensures BitsSound(cfg, Visit(cfg, s, heap, from)) && FinishedSound(Visit(cfg, s, heap, from))
    decreases |heap| - from
  {
    if from < |heap| {
      StepInv(cfg, s, heap[from]);
      StepBits(cfg, s, heap[from]);
      StepFinished(cfg, s, heap[from]);
      VisitFinished(cfg, Step(cfg, s, heap[from]), heap, from + 1);
    }
  }

  lemma PassLoopFinished(cfg: Config, s: State, heap: seq<HeapRef>, left: nat)
    requires Inv(cfg, s) && Shaped(heap) && BitsSound(cfg, s) && FinishedSound(s)
    ensures BitsSound(cfg, PassLoop(cfg, s, heap, left)) && FinishedSound(PassLoop(cfg, s, heap, left))
    decreases left
  {
    if left > 0 {
      PassFacts(cfg, s, heap);
      ResetInv(cfg, s);
      VisitFinished(cfg, Reset(s), heap, 0);
      if HasUnfinished(cfg, Pass(cfg, s, heap)) {
        PassLoopFinished(cfg, Pass(cfg, s, heap), heap, left - 1);
      }
    }
  }

  // ---- Chains and tainted paths ----

  /** A query about leak `i` in the graph of `s`, whatever objects still live and whether or not locals count. */
  predicate IsAbout(q: Query, s: State, i: nat) { q.nodes == s.nodes && q.leak == i }

  predicate AllLive(q: Query) { forall k: NodeId | k < |q.nodes| :: !IsDead(q, k) }

  /** Node `m` has a root reference that the search considers. */
  predicate EndsInRoot(q: Query, m: NodeId) {
    m < |q.nodes| && exists ref <- q.nodes[m].refs :: IsRootReference(ref.kind) && Considered(q, ref)
  }

  /** A reference that is no root leads from `from` to its referrer `to`. */
  predicate Leads(nodes: seq<Node>, from: NodeId, to: NodeId) {
    && from < |nodes| && to < |nodes|
    && exists ref <- nodes[from].refs :: !IsRootReference(ref.kind) && ref.node == Some(to)
  }

  /** The bit of the leak is set on the node, and the object of the node lives. */
  predicate OnWay(q: Query, m: NodeId) { m < |q.nodes| && q.leak in q.nodes[m].leaks.raw && !IsDead(q, m) }

  /** A tainted path over living nodes, along references that are no roots, from the leak to a considered root. */
  ghost predicate RootPath(q: Query, path: seq<NodeId>) {
    && path != [] && path[0] == q.leak
    && (forall j | 0 <= j < |path| :: OnWay(q, path[j]))
    && (forall j | 0 < j < |path| :: Leads(q.nodes, path[j - 1], path[j]))
    && EndsInRoot(q, path[|path| - 1])
  }

  /** A path over nodes whose bit the search can see. */
  ghost predicate Visible(nodes: seq<Node>, i: nat, path: seq<NodeId>) {
    forall j | 0 <= j < |path| :: path[j] < |nodes| && Contains(nodes[path[j]].leaks, i)
  }

  /** A step that the search can take unless it finds a root first. */
  predicate Onward(q: Query, from: NodeId, to: NodeId) {
    from < |q.nodes| &&
    exists ref <- q.nodes[from].refs :: ref.node == Some(to) && (IsRootReference(ref.kind) ==> Considered(q, ref))
  }

  lemma {:induction false} PathToChain(q: Query, i: nat, path: seq<NodeId>, j: nat) returns (chain: seq<Ref>)
    requires q.leak == i && WellLinked(q.nodes) && j < |path| && Visible(q.nodes, i, path)
    requires forall k | 0 <= k < |path| :: !IsDead(q, path[k])
    requires forall k | 0 < k < |path| :: Onward(q, path[k - 1], path[k])
    requires EndsInRoot(q, path[|path| - 1])
    ensures IsChain(q, Carriers(q.nodes, i), path[j], chain)
    decreases |path| - j
  {
    var n := path[j];
    if EndsInRoot(q, n) {
      var ref :| ref in q.nodes[n].refs && IsRootReference(ref.kind) && Considered(q, ref);
      chain := [ref];
    } else {
      assert Onward(q, path[j + 1 - 1], path[j + 1]);
      var ref :| ref in q.nodes[n].refs && ref.node == Some(path[j + 1])
                 && (IsRootReference(ref.kind) ==> Considered(q, ref));
      var rest := PathToChain(q, i, path, j + 1);
      chain := [ref] + rest;
      assert chain[1..] == rest;
    }
  }

  lemma {:induction false} ChainToPath(q: Query, i: nat, n: NodeId, chain: seq<Ref>) returns (path: seq<NodeId>)
    requires q.leak == i && WellLinked(q.nodes) && IsChain(q, Carriers(q.nodes, i), n, chain)
    ensures path != [] && path[0] == n && Visible(q.nodes, i, path)
    ensures forall k | 0 <= k < |path| :: OnWay(q, path[k])
    ensures forall k | 0 < k < |path| :: Leads(q.nodes, path[k - 1], path[k])
    ensures EndsInRoot(q, path[|path| - 1])
    decreases chain
  {
    if |chain| == 1 {
      path := [n];
    } else {
      var rest := ChainToPath(q, i, chain[0].node.value, chain[1..]);
      path := [n] + rest;
      forall k | 0 < k < |path| ensures Leads(q.nodes, path[k - 1], path[k]) {
        if k > 1 {
          assert Leads(q.nodes, rest[k - 1 - 1], rest[k - 1]);
        }
      }
    }
  }

  lemma InvLinked(cfg: Config, s: State)
    requires Inv(cfg, s)
    ensures WellLinked(s.nodes)
  {
    forall k: NodeId, ref | k < |s.nodes| && ref in s.nodes[k].refs
      ensures if ref.node.None? then IsRootReference(ref.kind) else ref.node.value < |s.nodes|
    {
      assert NodeOk(cfg, s, k);
    }
  }

  /** What the search sees of a tainted path: all of it, unless it passes the node of a lower-numbered leak. */
  lemma VisibleExactly(cfg: Config, s: State, i: nat, path: seq<NodeId>)
    requires Inv(cfg, s) && AgentSizes(cfg, s) && i < cfg.leaks
    ensures Visible(s.nodes, i, path) <==> Carried(s.nodes, i, path) && forall j | 0 <= j < |path| :: path[j] >= i
  {
  }

  /** With the agent's own sizes, leak `i` gets its chain exactly when a tainted path over living nodes that avoids the
      nodes of all lower-numbered leaks leads from it to a root reference that the settings consider. */
  lemma PrintedExactly(cfg: Config, s: State, q: Query, i: nat)
    requires Inv(cfg, s) && AgentSizes(cfg, s) && i < cfg.leaks && IsAbout(q, s, i)
    ensures WellLinked(q.nodes)
    ensures TopSearch(q, i).chain.Some? <==>
            exists path: seq<NodeId> :: RootPath(q, path) && forall j | 0 <= j < |path| :: path[j] >= i
  {
    InvLinked(cfg, s);
    SearchIsExact(q, i);
    if HasChain(q, i) {
      var chain: seq<Ref> :| IsChain(q, Carriers(q.nodes, q.leak), i, chain);
      var path := ChainToPath(q, i, i, chain);
      VisibleExactly(cfg, s, i, path);
      assert RootPath(q, path);
    }
    if path: seq<NodeId> :| RootPath(q, path) && forall j | 0 <= j < |path| :: path[j] >= i {
      VisibleExactly(cfg, s, i, path);
      RootPathFound(q, path);
    }
  }

  /** The search finds a root path whose bits it can see. */
  lemma RootPathFound(q: Query, path: seq<NodeId>)
    requires WellLinked(q.nodes) && RootPath(q, path) && Visible(q.nodes, q.leak, path)
    ensures q.leak < |q.nodes| && TopSearch(q, q.leak).chain.Some?
  {
    assert OnWay(q, path[0]);
    SearchIsExact(q, q.leak);
    forall k | 0 < k < |path| ensures Onward(q, path[k - 1], path[k]) {
      assert Leads(q.nodes, path[k - 1], path[k]);
    }
    var chain := PathToChain(q, q.leak, path, 0);
  }

  // ---- Where all holders of a leak have room for its bit ----

  predicate IsLocal(kind: Kind) { kind.StackLocal? || kind.JniLocal? }

  /** Locals are heap roots: the JVM reports them without a referrer. */
  predicate LocalsUnheld(heap: seq<HeapRef>) { forall r <- heap :: IsLocal(r.kind) ==> r.referrer.None? }

  predicate LocalRefsUnheld(nodes: seq<Node>) {
    forall k: NodeId, ref | k < |nodes| && ref in nodes[k].refs :: IsLocal(ref.kind) ==> ref.node.None?
  }

  lemma StepUnheld(cfg: Config, s: State, r: HeapRef)
    requires Inv(cfg, s) && WellShaped(r) && LocalRefsUnheld(s.nodes) && (IsLocal(r.kind) ==> r.referrer.None?)
    ensures LocalRefsUnheld(Step(cfg, s, r).nodes)
  {
    var s' := Step(cfg, s, r);
    forall k: NodeId, ref | k < |s'.nodes| && ref in s'.nodes[k].refs ensures IsLocal(ref.kind) ==> ref.node.None? {
      StepNode(cfg, s, r, k);
      if Judge(cfg, s, r) == Accept {
        AcceptedNode(cfg, s, r, k);
      }
    }
  }

  lemma {:induction false} VisitUnheld(cfg: Config, s: State, heap: seq<HeapRef>, from: nat)
    requires Inv(cfg, s) && Shaped(heap) && from <= |heap| && LocalRefsUnheld(s.nodes) && LocalsUnheld(heap)
    ensures LocalRefsUnheld(Visit(cfg, s, heap, from).nodes)
    decreases |heap| - from
  {
    if from < |heap| {
      StepInv(cfg, s, heap[from]);
      StepUnheld(cfg, s, heap[from]);
      VisitUnheld(cfg, Step(cfg, s, heap[from]), heap, from + 1);
    }
  }

  lemma {:induction false} LoopUnheld(cfg: Config, s: State, heap: seq<HeapRef>, left: nat)
    requires Inv(cfg, s) && Shaped(heap) && LocalRefsUnheld(s.nodes) && LocalsUnheld(heap)
    ensures LocalRefsUnheld(PassLoop(cfg, s, heap, left).nodes)
    decreases left
  {
    if left > 0 {
      PassFacts(cfg, s, heap);
      ResetInv(cfg, s);
      VisitUnheld(cfg, Reset(s), heap, 0);
      if HasUnfinished(cfg, Pass(cfg, s, heap)) {
        LoopUnheld(cfg, Pass(cfg, s, heap), heap, left - 1);
      }
    }
  }

  /** A tainted node has a root reference that the settings consider. */
  ghost predicate RootSeen(q: Query) {
    exists m: NodeId :: m < |q.nodes| && q.leak in q.nodes[m].leaks.raw && EndsInRoot(q, m)
  }

  lemma TaintedStep(q: Query, from: NodeId, to: NodeId)
    requires Edge(q.nodes, from, to) && (q.considerLocal || LocalRefsUnheld(q.nodes))
    ensures EndsInRoot(q, from) || Leads(q.nodes, from, to)
  {
    var ref :| ref in q.nodes[from].refs && ref.node == Some(to);
    assert IsLocal(ref.kind) ==> q.considerLocal;
  }

  /** A tainted path to a root leads over references that are no roots up to the first root on it. */
  lemma {:induction false} CutAtRoot(q: Query, path: seq<NodeId>, from: nat) returns (cut: seq<NodeId>)
    requires from < |path| && Carried(q.nodes, q.leak, path) && EndsInRoot(q, path[|path| - 1])
    requires forall j | 0 < j < |path| :: Edge(q.nodes, path[j - 1], path[j])
    requires q.considerLocal || LocalRefsUnheld(q.nodes)
    ensures cut != [] && cut[0] == path[from] && Carried(q.nodes, q.leak, cut)
    ensures (forall j | 0 < j < |cut| :: Leads(q.nodes, cut[j - 1], cut[j])) && EndsInRoot(q, cut[|cut| - 1])
    decreases |path| - from
  {
    if EndsInRoot(q, path[from]) {
      cut := [path[from]];
    } else {
      assert Edge(q.nodes, path[from + 1 - 1], path[from + 1]);
      TaintedStep(q, path[from], path[from + 1]);
      var rest := CutAtRoot(q, path, from + 1);
      cut := [path[from]] + rest;
      forall j | 0 < j < |cut| ensures Leads(q.nodes, cut[j - 1], cut[j]) {
        assert j > 1 ==> Leads(q.nodes, rest[j - 1 - 1], rest[j - 1]);
      }
    }
  }

  /** The node of a holder has a holder of the leak for its referrer. */
  lemma LeadsHolds(cfg: Config, s0: State, s: State, heap: seq<HeapRef>, from: NodeId, to: NodeId, o: Obj)
    requires Traced(cfg, s0, s, heap) && Leads(s.nodes, from, to) && Holds(heap, s.owner[from], o)
    ensures Holds(heap, s.owner[to], o)
  {
    var ref :| ref in s.nodes[from].refs && !IsRootReference(ref.kind) && ref.node == Some(to);
    assert HasOrigin(cfg, s0, s, heap, from, ref);
    var r: HeapRef :| r in heap && IsOrigin(cfg, s0, s, r, from, ref);
    HoldsMore(heap, r, o);
  }

  /** All nodes of a root path are those of holders. */
  lemma {:induction false} PathHolds(cfg: Config, s0: State, s: State, heap: seq<HeapRef>, path: seq<NodeId>, j: nat)
    requires Traced(cfg, s0, s, heap) && j < |path| && path[0] < |s.nodes|
    requires forall k | 0 < k < |path| :: Leads(s.nodes, path[k - 1], path[k])
    ensures path[j] < |s.nodes| && Holds(heap, s.owner[path[j]], s.owner[path[0]])
  {
    if j == 0 {
      HoldsItself(heap, s.owner[path[0]]);
    } else {
      PathHolds(cfg, s0, s, heap, path, j - 1);
      assert Leads(s.nodes, path[j - 1], path[j]);
      LeadsHolds(cfg, s0, s, heap, path[j - 1], path[j], s.owner[path[0]]);
    }
  }

  /** If holders have room for the bit, the search sees all of it. */
  lemma HoldersVisible(cfg: Config, s0: State, s: State, heap: seq<HeapRef>, q: Query, path: seq<NodeId>)
    requires Reachable(cfg, s0, s, heap) && RoomFor(cfg, s0, heap, q.leak) && q.nodes == s.nodes && RootPath(q, path)
    ensures Visible(q.nodes, q.leak, path)
  {
    forall j | 0 <= j < |path| ensures path[j] < |q.nodes| && Contains(q.nodes[path[j]].leaks, q.leak) {
      assert OnWay(q, path[j]) && OnWay(q, path[0]);
      PathHolds(cfg, s0, s, heap, path, j);
      HolderHasRoom(cfg, s0, s, heap, q.leak, path[j]);
    }
  }

  /** If all holders of leak `i` have room for its bit and all objects live, a considered root suffices. */
  lemma RoomSuffices(cfg: Config, s0: State, s: State, heap: seq<HeapRef>, q: Query, i: nat)
    requires Reachable(cfg, s0, s, heap) && RoomFor(cfg, s0, heap, i) && BitsSound(cfg, s)
    requires IsAbout(q, s, i) && AllLive(q) && (q.considerLocal || LocalRefsUnheld(q.nodes))
    ensures WellLinked(q.nodes) && i < |q.nodes| && (TopSearch(q, i).chain.Some? <==> RootSeen(q))
  {
    InvLinked(cfg, s);
    SearchIsExact(q, i);
    if HasChain(q, i) {
      var chain: seq<Ref> :| IsChain(q, Carriers(q.nodes, q.leak), i, chain);
      var path := ChainToPath(q, i, i, chain);
      assert OnWay(q, path[|path| - 1]);
    }
    if RootSeen(q) {
      var m: NodeId :| m < |q.nodes| && i in q.nodes[m].leaks.raw && EndsInRoot(q, m);
      SeenIsFound(cfg, s0, s, heap, q, m);
    }
  }

  lemma SeenIsFound(cfg: Config, s0: State, s: State, heap: seq<HeapRef>, q: Query, m: NodeId)
    requires Reachable(cfg, s0, s, heap) && RoomFor(cfg, s0, heap, q.leak) && BitsSound(cfg, s)
    requires q.nodes == s.nodes && AllLive(q) && (q.considerLocal || LocalRefsUnheld(q.nodes))
    requires m < |q.nodes| && q.leak in q.nodes[m].leaks.raw && EndsInRoot(q, m)
    ensures WellLinked(q.nodes) && q.leak < |q.nodes| && TopSearch(q, q.leak).chain.Some?
  {
    InvLinked(cfg, s);
    var path :| TaintPath(s.nodes, q.leak, m, path);
    var cut := CutIsRootPath(q, path);
    HoldersVisible(cfg, s0, s, heap, q, cut);
    RootPathFound(q, cut);
  }

  lemma CutIsRootPath(q: Query, path: seq<NodeId>) returns (cut: seq<NodeId>)
    requires path != [] && path[0] == q.leak && TaintPath(q.nodes, q.leak, path[|path| - 1], path)
    requires EndsInRoot(q, path[|path| - 1]) && AllLive(q) && (q.considerLocal || LocalRefsUnheld(q.nodes))
    ensures RootPath(q, cut)
  {
    cut := CutAtRoot(q, path, 0);
    assert forall j | 0 <= j < |cut| :: OnWay(q, cut[j]);
  }

  /** Under any setting for locals, and while all objects live: a leak whose holders have room for its bit (for the
      agent's own bitsets: that no lower-numbered leak holds) gets its chain exactly if the passes recorded, on some
      node that it taints, a root reference that the setting considers. */
  lemma RootSeenIsPrinted(cfg: Config, s: State, heap: seq<HeapRef>, left: nat, q: Query, i: nat)
    requires Start(cfg, s) && Shaped(heap) && LocalsUnheld(heap) && RoomFor(cfg, s, heap, i)
    requires IsAbout(q, PassLoop(cfg, s, heap, left), i) && AllLive(q)
    ensures WellLinked(q.nodes) && i < |q.nodes|
    ensures TopSearch(q, i).chain.Some? <==> RootSeen(q)
  {
    LoopReaches(cfg, s, heap, left);
    LoopUnheld(cfg, s, heap, left);
    RoomSuffices(cfg, s, PassLoop(cfg, s, heap, left), heap, q, i);
  }

  /** No holder of the leak is held by a local, but for those of the agent. */
  ghost predicate LocalsApart(cfg: Config, s0: State, heap: seq<HeapRef>, i: nat) {
    && i < |s0.owner|
    && forall r: HeapRef | r in heap && IsLocal(r.kind) && Holds(heap, r.target, s0.owner[i]) :: LocalOfAgent(cfg, r)
  }

  /** If locals count or hold no holder of it, every such leak that the passes finish gets its chain. */
  lemma ReachedStaticIsPrinted(cfg: Config, s: State, heap: seq<HeapRef>, left: nat, q: Query, i: nat)
    requires Start(cfg, s) && Shaped(heap) && RoomFor(cfg, s, heap, i)
    requires i in PassLoop(cfg, s, heap, left).finished.raw
    requires IsAbout(q, PassLoop(cfg, s, heap, left), i) && AllLive(q)
    requires q.considerLocal || LocalsApart(cfg, s, heap, i)
    ensures WellLinked(q.nodes) && i < |q.nodes| && TopSearch(q, i).chain.Some?
  {
    var s' := PassLoop(cfg, s, heap, left);
    LoopReaches(cfg, s, heap, left);
    InvLinked(cfg, s');
    var path := FinishedWay(s', i);
    WayIsRootPath(cfg, s, s', heap, q, path);
    HoldersVisible(cfg, s, s', heap, q, path);
    RootPathFound(q, path);
  }

  /** What finished a leak: a tainted path along references that are no roots, up to its first root reference. */
  lemma FinishedWay(s: State, i: nat) returns (path: seq<NodeId>)
    requires FinishedSound(s) && i in s.finished.raw
    ensures path != [] && path[0] == i && Carried(s.nodes, i, path) && HasRoot(s.nodes, path[|path| - 1])
    ensures forall j | 0 < j < |path| :: Leads(s.nodes, path[j - 1], path[j])
  {
    assert ReachesRoot(s.nodes, i);
    var m: NodeId, way :| TaintPath(s.nodes, i, m, way) && HasRoot(s.nodes, m);
    var q := Query(s.nodes, map[], true, i);
    var ref :| ref in s.nodes[m].refs && IsRootReference(ref.kind);
    assert Considered(q, ref);
    path := CutAtRoot(q, way, 0);
  }

  lemma WayIsRootPath(cfg: Config, s0: State, s: State, heap: seq<HeapRef>, q: Query, path: seq<NodeId>)
    requires Traced(cfg, s0, s, heap) && q.nodes == s.nodes && AllLive(q) && q.leak < |s0.owner| && s0.owner <= s.owner
    requires q.considerLocal || LocalsApart(cfg, s0, heap, q.leak)
    requires path != [] && path[0] == q.leak && Carried(s.nodes, q.leak, path) && HasRoot(s.nodes, path[|path| - 1])
    requires forall j | 0 < j < |path| :: Leads(s.nodes, path[j - 1], path[j])
    ensures RootPath(q, path)
  {
    PathHolds(cfg, s0, s, heap, path, |path| - 1);
    RootIsConsidered(cfg, s0, s, heap, q, path[|path| - 1]);
    assert forall j | 0 <= j < |path| :: OnWay(q, path[j]);
  }

  lemma RootIsConsidered(cfg: Config, s0: State, s: State, heap: seq<HeapRef>, q: Query, m: NodeId)
    requires Traced(cfg, s0, s, heap) && q.nodes == s.nodes && HasRoot(s.nodes, m) && q.leak < |s0.owner|
    requires Holds(heap, s.owner[m], s0.owner[q.leak])
    requires q.considerLocal || LocalsApart(cfg, s0, heap, q.leak)
    ensures EndsInRoot(q, m)
  {
    var ref :| ref in s.nodes[m].refs && IsRootReference(ref.kind);
    assert HasOrigin(cfg, s0, s, heap, m, ref);
    var r: HeapRef :| r in heap && IsOrigin(cfg, s0, s, r, m, ref);
    assert Considered(q, ref);
  }

  lemma LoopReaches(cfg: Config, s: State, heap: seq<HeapRef>, left: nat)
    requires Start(cfg, s) && Shaped(heap)
    ensures var s' := PassLoop(cfg, s, heap, left);
            Reachable(cfg, s, s', heap) && BitsSound(cfg, s') && FinishedSound(s')
  {
    StartReachable(cfg, s, heap);
    LoopReachable(cfg, s, s, heap, left);
    StartSound(cfg, s, seq(cfg.leaks, k requires 0 <= k < cfg.leaks => s.nodes[k].size));
    PassLoopFinished(cfg, s, heap, left);
  }
}
