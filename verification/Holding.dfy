/** Who holds a leak, in terms of the heap that the JVM reports: where unfinished bits and sizes can travel, and which
    heap reference each recorded one comes from.  `s0` is the state in which the passes begin. */
module Holding {
  import opened Wrappers
  import opened LeakBits
  import opened DataStruct
  import opened Recording
  import opened Taint

  // ---- Chains of heap references ----

  /** References that are no roots lead from `o` to its direct or indirect referrer `p`. */
  predicate HeldVia(heap: seq<HeapRef>, o: Obj, p: Obj, chain: seq<HeapRef>)
    decreases |chain|
  {
    if chain == [] then o == p
    else
      var last := chain[|chain| - 1];
      && last in heap && !IsRootReference(last.kind) && last.referrer == Some(p)
      && HeldVia(heap, o, last.target, chain[..|chain| - 1])
  }

  /** `p` is `o`, or holds it directly or indirectly. */
  ghost predicate Holds(heap: seq<HeapRef>, p: Obj, o: Obj) {
    exists chain: seq<HeapRef> :: HeldVia(heap, o, p, chain)
  }

  lemma HoldsItself(heap: seq<HeapRef>, o: Obj)
    ensures Holds(heap, o, o)
  {
    assert HeldVia(heap, o, o, []);
  }

  lemma HoldsMore(heap: seq<HeapRef>, r: HeapRef, o: Obj)
    requires r in heap && !IsRootReference(r.kind) && r.referrer.Some? && Holds(heap, r.target, o)
    ensures Holds(heap, r.referrer.value, o)
  {
    var chain :| HeldVia(heap, o, r.target, chain);
    assert (chain + [r])[..|chain|] == chain;
    assert HeldVia(heap, o, r.referrer.value, chain + [r]);
  }

  /** A holder other than the object itself refers to a holder. */
  lemma HolderRefers(heap: seq<HeapRef>, p: Obj, o: Obj)
    requires Holds(heap, p, o) && p != o
    ensures exists r: HeapRef ::
              r in heap && !IsRootReference(r.kind) && r.referrer == Some(p) && Holds(heap, r.target, o)
  {
    var chain: seq<HeapRef> :| HeldVia(heap, o, p, chain);
    var last := chain[|chain| - 1];
    assert HeldVia(heap, o, last.target, chain[..|chain| - 1]);
  }

  /** The object holds a leak, so the callback may follow the references to it. */
  ghost predicate HoldsLeak(cfg: Config, s0: State, heap: seq<HeapRef>, o: Obj) {
    cfg.leaks <= |s0.owner| && exists i: nat :: i < cfg.leaks && Holds(heap, o, s0.owner[i])
  }

  // ---- Unfinished bits ----

  /** Bits of unfinished leaks are found on holders of the leak only: a root reference would have finished it. */
  ghost predicate Held(cfg: Config, s0: State, s: State, heap: seq<HeapRef>) {
    && cfg.leaks <= |s0.owner| && |s.owner| == |s.nodes|
    && forall m: NodeId, i: nat | m < |s.nodes| && i in s.nodes[m].leaks.raw && i !in s.finished.raw ::
         i < cfg.leaks && Holds(heap, s.owner[m], s0.owner[i])
  }

  /** The target of a wanted callback holds a leak. */
  lemma WantedHolds(cfg: Config, s0: State, s: State, heap: seq<HeapRef>, r: HeapRef)
    requires Inv(cfg, s) && Held(cfg, s0, s, heap) && Wanted(cfg, s, r)
    ensures HoldsLeak(cfg, s0, heap, r.target)
  {
    WantedExactly(cfg, s, r);
    var t := s.tags[r.target];
    assert s.owner[t] == r.target;
    var i :| i in s.nodes[t].leaks.raw && i !in s.finished.raw;
    assert Holds(heap, s.owner[t], s0.owner[i]);
  }

  lemma StepHeld(cfg: Config, s0: State, s: State, heap: seq<HeapRef>, r: HeapRef)
    requires Inv(cfg, s) && WellShaped(r) && r in heap && Held(cfg, s0, s, heap)
    ensures Held(cfg, s0, Step(cfg, s, r), heap)
  {
    var s' := Step(cfg, s, r);
    StepGrows(cfg, s, r);
    forall m: NodeId, i: nat | m < |s'.nodes| && i in s'.nodes[m].leaks.raw && i !in s'.finished.raw
      ensures i < cfg.leaks && Holds(heap, s'.owner[m], s0.owner[i])
    {
      StepNode(cfg, s, r, m);
      if !(m < |s.nodes| && i in s.nodes[m].leaks.raw) {
        FlowHeld(cfg, s0, s, heap, r, m, i);
      }
    }
  }

  /** An unfinished bit that a callback passes on. */
  lemma FlowHeld(cfg: Config, s0: State, s: State, heap: seq<HeapRef>, r: HeapRef, m: NodeId, i: nat)
    requires Inv(cfg, s) && WellShaped(r) && r in heap && Held(cfg, s0, s, heap)
    requires Judge(cfg, s, r) == Accept && ReferrerNode(s, r) == Some(m) && i in s.nodes[s.tags[r.target]].leaks.raw
    requires i !in Step(cfg, s, r).finished.raw
    ensures m < |Step(cfg, s, r).owner| && i < cfg.leaks && Holds(heap, Step(cfg, s, r).owner[m], s0.owner[i])
  {
    CountedInv(cfg, s, r);
    LinkedRest(cfg, Counted(cfg, s, r), r);
    assert s.owner[s.tags[r.target]] == r.target;
    HoldsMore(heap, r, s0.owner[i]);
  }

  lemma StartHeld(cfg: Config, s: State, heap: seq<HeapRef>)
    requires Start(cfg, s)
    ensures Held(cfg, s, s, heap)
  {
    forall m: NodeId | m < |s.nodes| ensures Holds(heap, s.owner[m], s.owner[m]) {
      HoldsItself(heap, s.owner[m]);
    }
  }

  // ---- Room for the bits ----

  /** Whoever holds leak `i` when the passes begin has room for its bit. */
  ghost predicate RoomFor(cfg: Config, s0: State, heap: seq<HeapRef>, i: nat) {
    && i < cfg.leaks <= |s0.nodes| == |s0.owner|
    && forall k: NodeId | k < |s0.nodes| && Holds(heap, s0.owner[k], s0.owner[i]) :: i < s0.nodes[k].leaks.size
  }

  ghost predicate RoomForAll(cfg: Config, s0: State, heap: seq<HeapRef>) {
    forall i: nat | i < cfg.leaks :: RoomFor(cfg, s0, heap, i)
  }

  /** With the agent's own sizes there is room exactly if no lower-numbered leak holds the leak. */
  lemma RoomExactly(cfg: Config, s0: State, heap: seq<HeapRef>, i: nat)
    requires Inv(cfg, s0) && AgentSizes(cfg, s0) && i < cfg.leaks
    ensures RoomFor(cfg, s0, heap, i) <==> forall f: nat | f < i :: !Holds(heap, s0.owner[f], s0.owner[i])
  {
    if RoomFor(cfg, s0, heap, i) {
      forall f: nat | f < i ensures !Holds(heap, s0.owner[f], s0.owner[i]) {
        assert s0.nodes[f].leaks.size == f + 1;
      }
    }
  }

  /** A holder of the leak has room for its bit in every later state. */
  lemma HolderHasRoom(cfg: Config, s0: State, s: State, heap: seq<HeapRef>, i: nat, m: NodeId)
    requires Inv(cfg, s0) && Inv(cfg, s) && Grows(s0, s) && RoomFor(cfg, s0, heap, i)
    requires m < |s.nodes| && Holds(heap, s.owner[m], s0.owner[i])
    ensures i < s.nodes[m].leaks.size
  {
    assert NodeOk(cfg, s, m);
    if m < |s0.nodes| {
      assert NodeGrows(s0.nodes[m], s.nodes[m]);
      assert s.owner[m] == s0.owner[m];
    }
  }

  // ---- Ignore lists ----

  /** `s` came from `s0` by callbacks: nothing was taken away, and new nodes ignore nothing. */
  predicate Later(s0: State, s: State) {
    Grows(s0, s) && forall k: NodeId | |s0.nodes| <= k < |s.nodes| :: s.nodes[k].ignore == []
  }

  lemma StepLater(cfg: Config, s0: State, s: State, r: HeapRef)
    requires Inv(cfg, s) && WellShaped(r) && Later(s0, s)
    ensures Later(s0, Step(cfg, s, r))
  {
    var s' := Step(cfg, s, r);
    StepGrows(cfg, s, r);
    GrowsTransitive(s0, s, s');
    forall k: NodeId | |s0.nodes| <= k < |s'.nodes| ensures s'.nodes[k].ignore == [] {
      if k < |s.nodes| {
        assert NodeGrows(s.nodes[k], s'.nodes[k]);
      } else {
        AcceptedNode(cfg, s, r, k);
      }
    }
  }

  lemma SameIgnore(s0: State, s: State, o: Obj)
    requires TagsOk(s0) && TagsOk(s) && Later(s0, s) && o in s.tags
    ensures s.nodes[s.tags[o]].ignore == if o in s0.tags then s0.nodes[s0.tags[o]].ignore else []
  {
    var k := s.tags[o];
    if k < |s0.nodes| {
      assert s0.owner[k] == s.owner[k] == o;
      assert NodeGrows(s0.nodes[k], s.nodes[k]);
    }
  }

  /** What is ignored at a given size never changes. */
  lemma SameIgnored(cfg: Config, s0: State, s: State, r: HeapRef, size: int)
    requires TagsOk(s0) && TagsOk(s) && Later(s0, s)
    ensures IgnoredAt(cfg, s, r, size) <==> IgnoredAt(cfg, s0, r, size)
  {
    if ClassTagged(cfg, s, r) {
      SameIgnore(s0, s, ClassObj(cfg, r));
    }
    if ReferrerTagged(s, r) {
      SameIgnore(s0, s, r.referrer.value);
    }
  }

  /** Larger nodes are ignored less. */
  lemma IgnoredLess(cfg: Config, s: State, r: HeapRef, small: int, large: int)
    requires TagsOk(s) && small <= large && IgnoredAt(cfg, s, r, large)
    ensures IgnoredAt(cfg, s, r, small)
  {
  }

  // ---- Sizes ----

  /** References to holders lead from `o` to its direct or indirect referrer `p`.  Sizes are passed on with root
      references, too. */
  ghost predicate SizeVia(cfg: Config, s0: State, heap: seq<HeapRef>, o: Obj, p: Obj, chain: seq<HeapRef>)
    decreases |chain|
  {
    if chain == [] then o == p
    else
      var last := chain[|chain| - 1];
      && last in heap && last.referrer == Some(p) && HoldsLeak(cfg, s0, heap, last.target)
      && SizeVia(cfg, s0, heap, o, last.target, chain[..|chain| - 1])
  }

  /** What is passed on from `o` can reach `p`. */
  ghost predicate SizeReaches(cfg: Config, s0: State, heap: seq<HeapRef>, o: Obj, p: Obj) {
    exists chain: seq<HeapRef> :: SizeVia(cfg, s0, heap, o, p, chain)
  }

  lemma ReachesItself(cfg: Config, s0: State, heap: seq<HeapRef>, o: Obj)
    ensures SizeReaches(cfg, s0, heap, o, o)
  {
    assert SizeVia(cfg, s0, heap, o, o, []);
  }

  lemma ReachesMore(cfg: Config, s0: State, heap: seq<HeapRef>, o: Obj, r: HeapRef)
    requires r in heap && r.referrer.Some? && HoldsLeak(cfg, s0, heap, r.target)
    requires SizeReaches(cfg, s0, heap, o, r.target)
    ensures SizeReaches(cfg, s0, heap, o, r.referrer.value)
  {
    var chain: seq<HeapRef> :| SizeVia(cfg, s0, heap, o, r.target, chain);
    assert (chain + [r])[..|chain|] == chain;
    assert SizeVia(cfg, s0, heap, o, r.referrer.value, chain + [r]);
  }

  /** It reaches all holders. */
  lemma {:induction false} HeldIsReached(cfg: Config, s0: State, heap: seq<HeapRef>, i: nat, p: Obj,
                                         chain: seq<HeapRef>)
    requires i < cfg.leaks <= |s0.owner| && HeldVia(heap, s0.owner[i], p, chain)
    ensures SizeReaches(cfg, s0, heap, s0.owner[i], p)
    decreases |chain|
  {
    if chain == [] {
      ReachesItself(cfg, s0, heap, p);
    } else {
      var last, before := chain[|chain| - 1], chain[..|chain| - 1];
      HeldIsReached(cfg, s0, heap, i, last.target, before);
      assert Holds(heap, last.target, s0.owner[i]);
      ReachesMore(cfg, s0, heap, s0.owner[i], last);
    }
  }

  /** A size that the node of `p` can have once it is tainted: that of a leak from which sizes can reach it.  (Were
      there a leak of negative size, its referrers would keep their own size 0.) */
  ghost predicate TaintSize(cfg: Config, s0: State, heap: seq<HeapRef>, p: Obj, size: int) {
    && cfg.leaks <= |s0.nodes| == |s0.owner|
    && exists j: nat ::
         && j < cfg.leaks && SizeReaches(cfg, s0, heap, s0.owner[j], p)
         && (s0.nodes[j].size == size || (size == 0 && s0.nodes[j].size < 0))
  }

  /** A leak's own size is one of these on all of its holders. */
  lemma HolderSize(cfg: Config, s0: State, heap: seq<HeapRef>, i: nat, p: Obj)
    requires i < cfg.leaks <= |s0.nodes| == |s0.owner| && Holds(heap, p, s0.owner[i])
    ensures TaintSize(cfg, s0, heap, p, s0.nodes[i].size)
  {
    var chain: seq<HeapRef> :| HeldVia(heap, s0.owner[i], p, chain);
    HeldIsReached(cfg, s0, heap, i, p, chain);
  }

  /** Nodes with references are tainted, tainted nodes have such sizes, and the others have none or such a one. */
  ghost predicate Sized(cfg: Config, s0: State, s: State, heap: seq<HeapRef>) {
    && |s.owner| == |s.nodes|
    && forall m: NodeId | m < |s.nodes| :: NodeSized(cfg, s0, heap, s.owner[m], s.nodes[m])
  }

  ghost predicate NodeSized(cfg: Config, s0: State, heap: seq<HeapRef>, p: Obj, n: Node) {
    && (n.refs != [] ==> n.leaks.raw != {})
    && (n.leaks.raw != {} ==> TaintSize(cfg, s0, heap, p, n.size))
    && (n.size == 0 || TaintSize(cfg, s0, heap, p, n.size))
  }

  lemma LargerSize(cfg: Config, s0: State, heap: seq<HeapRef>, p: Obj, own: int, from: int)
    requires (own == 0 || TaintSize(cfg, s0, heap, p, own)) && TaintSize(cfg, s0, heap, p, from)
    ensures TaintSize(cfg, s0, heap, p, if own < from then from else own)
  {
  }

  /** A size goes to the referrer. */
  lemma SizeMoves(cfg: Config, s0: State, heap: seq<HeapRef>, r: HeapRef, size: int)
    requires r in heap && r.referrer.Some? && HoldsLeak(cfg, s0, heap, r.target)
    requires TaintSize(cfg, s0, heap, r.target, size)
    ensures TaintSize(cfg, s0, heap, r.referrer.value, size)
  {
    var j: nat :|
      && j < cfg.leaks && SizeReaches(cfg, s0, heap, s0.owner[j], r.target)
      && (s0.nodes[j].size == size || (size == 0 && s0.nodes[j].size < 0));
    ReachesMore(cfg, s0, heap, s0.owner[j], r);
  }

  lemma StepSized(cfg: Config, s0: State, s: State, heap: seq<HeapRef>, r: HeapRef)
    requires Inv(cfg, s) && WellShaped(r) && r in heap && Held(cfg, s0, s, heap) && Sized(cfg, s0, s, heap)
    ensures Sized(cfg, s0, Step(cfg, s, r), heap)
  {
    var s' := Step(cfg, s, r);
    StepGrows(cfg, s, r);
    forall m: NodeId | m < |s'.nodes| ensures NodeSized(cfg, s0, heap, s'.owner[m], s'.nodes[m]) {
      if Judge(cfg, s, r) != Accept {
        assert NodeSized(cfg, s0, heap, s.owner[m], s.nodes[m]);
      } else {
        AcceptedSized(cfg, s0, s, heap, r, m);
      }
    }
  }

  lemma AcceptedSized(cfg: Config, s0: State, s: State, heap: seq<HeapRef>, r: HeapRef, m: NodeId)
    requires Inv(cfg, s) && Judge(cfg, s, r) == Accept && r in heap && Held(cfg, s0, s, heap) && Sized(cfg, s0, s, heap)
    requires m < |Step(cfg, s, r).nodes| == |Step(cfg, s, r).owner| && s.owner <= Step(cfg, s, r).owner
    ensures NodeSized(cfg, s0, heap, Step(cfg, s, r).owner[m], Step(cfg, s, r).nodes[m])
  {
    AcceptedNode(cfg, s, r, m);
    WantedExactly(cfg, s, r);
    if m < |s.nodes| {
      assert NodeSized(cfg, s0, heap, s.owner[m], s.nodes[m]);
    }
    if ReferrerNode(s, r) == Some(m) {
      WantedHolds(cfg, s0, s, heap, r);
      FlowSized(cfg, s0, s, heap, r, m);
    }
  }

  /** The size that the referrer gets. */
  lemma FlowSized(cfg: Config, s0: State, s: State, heap: seq<HeapRef>, r: HeapRef, m: NodeId)
    requires Inv(cfg, s) && Judge(cfg, s, r) == Accept && r in heap && Sized(cfg, s0, s, heap)
    requires HoldsLeak(cfg, s0, heap, r.target) && ReferrerNode(s, r) == Some(m)
    requires m < |Step(cfg, s, r).owner|
    ensures var from, own := s.nodes[s.tags[r.target]].size, if m < |s.nodes| then s.nodes[m].size else 0;
            TaintSize(cfg, s0, heap, Step(cfg, s, r).owner[m], if own < from then from else own)
  {
    AcceptedReferrer(cfg, s, r);
    WantedExactly(cfg, s, r);
    var t := s.tags[r.target];
    assert s.owner[t] == r.target && NodeSized(cfg, s0, heap, s.owner[t], s.nodes[t]);
    SizeMoves(cfg, s0, heap, r, s.nodes[t].size);
    if m < |s.nodes| {
      assert s.owner[m] == r.referrer.value && NodeSized(cfg, s0, heap, s.owner[m], s.nodes[m]);
    }
    LargerSize(cfg, s0, heap, r.referrer.value, if m < |s.nodes| then s.nodes[m].size else 0, s.nodes[t].size);
  }

  lemma StartSized(cfg: Config, s: State, heap: seq<HeapRef>)
    requires Start(cfg, s)
    ensures Sized(cfg, s, s, heap)
  {
    forall m: NodeId | m < cfg.leaks ensures TaintSize(cfg, s, heap, s.owner[m], s.nodes[m].size) {
      ReachesItself(cfg, s, heap, s.owner[m]);
    }
  }

  /** No ignore entry for a reference to a holder of leak `i` has its threshold between two sizes that reach that
      holder. */
  ghost predicate SteadyFor(cfg: Config, s0: State, heap: seq<HeapRef>, i: nat) {
    && TagsOk(s0) && i < cfg.leaks <= |s0.owner|
    && forall r: HeapRef, a: int, b: int
         | && r in heap && Holds(heap, r.target, s0.owner[i])
           && TaintSize(cfg, s0, heap, r.target, a) && TaintSize(cfg, s0, heap, r.target, b) ::
         IgnoredAt(cfg, s0, r, a) ==> IgnoredAt(cfg, s0, r, b)
  }

  ghost predicate Steady(cfg: Config, s0: State, heap: seq<HeapRef>) {
    TagsOk(s0) && forall i: nat | i < cfg.leaks :: SteadyFor(cfg, s0, heap, i)
  }

  /** If sizes of other leaks reach no holder of leak `i`, these have one size only. */
  lemma SteadyAlone(cfg: Config, s0: State, heap: seq<HeapRef>, i: nat)
    requires Inv(cfg, s0) && i < cfg.leaks && s0.nodes[i].size >= 0
    requires forall j: nat, p: Obj | j < cfg.leaks && j != i && Holds(heap, p, s0.owner[i]) ::
               !SizeReaches(cfg, s0, heap, s0.owner[j], p)
    ensures SteadyFor(cfg, s0, heap, i)
  {
  }

  lemma SteadyGiven(cfg: Config, s0: State, heap: seq<HeapRef>)
    requires Inv(cfg, s0) && NothingIgnored(s0)
    ensures Steady(cfg, s0, heap)
  {
    forall i: nat | i < cfg.leaks ensures SteadyFor(cfg, s0, heap, i) {
      NothingIsSteady(cfg, s0, heap, i);
    }
  }

  lemma NothingIsSteady(cfg: Config, s0: State, heap: seq<HeapRef>, i: nat)
    requires Inv(cfg, s0) && NothingIgnored(s0) && i < cfg.leaks
    ensures SteadyFor(cfg, s0, heap, i)
  {
    forall r: HeapRef, a: int ensures !IgnoredAt(cfg, s0, r, a) {
    }
  }

  // ---- New tags ----

  /** Whatever was tagged since refers to a holder. */
  ghost predicate Entered(cfg: Config, s0: State, s: State, heap: seq<HeapRef>) {
    forall o <- s.tags :: o in s0.tags || RefersToHolder(cfg, s0, heap, o)
  }

  ghost predicate RefersToHolder(cfg: Config, s0: State, heap: seq<HeapRef>, o: Obj) {
    exists r: HeapRef :: r in heap && r.referrer == Some(o) && HoldsLeak(cfg, s0, heap, r.target)
  }

  lemma StepEntered(cfg: Config, s0: State, s: State, heap: seq<HeapRef>, r: HeapRef)
    requires Inv(cfg, s) && r in heap && Held(cfg, s0, s, heap) && Entered(cfg, s0, s, heap)
    ensures Entered(cfg, s0, Step(cfg, s, r), heap)
  {
    if Judge(cfg, s, r) == Accept {
      CountedInv(cfg, s, r);
      LinkedRest(cfg, Counted(cfg, s, r), r);
      WantedHolds(cfg, s0, s, heap, r);
    }
  }

  /** The class of a holder of leak `i` that is untagged when the passes begin does not refer to a holder, so it cannot
      be tagged later. */
  ghost predicate FilterFor(cfg: Config, s0: State, heap: seq<HeapRef>, i: nat) {
    && i < cfg.leaks <= |s0.owner|
    && forall r: HeapRef | r in heap && Holds(heap, r.target, s0.owner[i]) && r.target in cfg.classOf ::
         cfg.classOf[r.target] in s0.tags || !RefersToHolder(cfg, s0, heap, cfg.classOf[r.target])
  }

  ghost predicate FilterFixed(cfg: Config, s0: State, heap: seq<HeapRef>) {
    forall i: nat | i < cfg.leaks :: FilterFor(cfg, s0, heap, i)
  }

  /** Then the filter lets the same references through in every later pass. */
  lemma SameFilter(cfg: Config, s0: State, s: State, heap: seq<HeapRef>, i: nat, r: HeapRef)
    requires Entered(cfg, s0, s, heap) && FilterFor(cfg, s0, heap, i)
    requires r in heap && Holds(heap, r.target, s0.owner[i])
    requires r.target in cfg.classOf && cfg.classOf[r.target] in s.tags
    ensures cfg.classOf[r.target] in s0.tags
  {
  }

  // ---- Where recorded references come from ----

  /** The recorded reference `ref` to node `k` is the heap reference `r`, which the callback had no reason to turn down
      but the fan-in limit. */
  predicate IsOrigin(cfg: Config, s0: State, s: State, r: HeapRef, k: NodeId, ref: Ref)
    requires TagsOk(s0) && k < |s.nodes| == |s.owner|
  {
    && r.target == s.owner[k] && r.kind == ref.kind
    && ref.info == (if r.info.Some? then r.info.value else NO_INFO)
    && (if ref.node.None? then r.referrer == None
        else ref.node.value < |s.owner| && r.referrer == Some(s.owner[ref.node.value]))
    && !LocalOfAgent(cfg, r) && r.target in cfg.classOf && cfg.classOf[r.target] in s.tags
    && !IgnoredAt(cfg, s0, r, s.nodes[k].size)
  }

  ghost predicate HasOrigin(cfg: Config, s0: State, s: State, heap: seq<HeapRef>, k: NodeId, ref: Ref)
    requires TagsOk(s0) && k < |s.nodes| == |s.owner|
  {
    exists r: HeapRef :: r in heap && IsOrigin(cfg, s0, s, r, k, ref)
  }

  /** Every recorded reference comes from the heap. */
  ghost predicate Traced(cfg: Config, s0: State, s: State, heap: seq<HeapRef>) {
    && TagsOk(s0) && |s.nodes| == |s.owner|
    && forall k: NodeId, ref: Ref | k < |s.nodes| && ref in s.nodes[k].refs :: HasOrigin(cfg, s0, s, heap, k, ref)
  }

  lemma OriginStays(cfg: Config, s0: State, s: State, s': State, heap: seq<HeapRef>, k: NodeId, ref: Ref)
    requires TagsOk(s0) && Inv(cfg, s) && Inv(cfg, s') && Grows(s, s') && k < |s.nodes|
    requires HasOrigin(cfg, s0, s, heap, k, ref)
    ensures HasOrigin(cfg, s0, s', heap, k, ref)
  {
    var r :| r in heap && IsOrigin(cfg, s0, s, r, k, ref);
    assert NodeGrows(s.nodes[k], s'.nodes[k]);
    if IgnoredAt(cfg, s0, r, s'.nodes[k].size) {
      IgnoredLess(cfg, s0, r, s.nodes[k].size, s'.nodes[k].size);
    }
    assert IsOrigin(cfg, s0, s', r, k, ref);
  }

  /** The new reference of an accepted callback. */
  lemma AcceptedOrigin(cfg: Config, s0: State, s: State, heap: seq<HeapRef>, r: HeapRef)
    requires TagsOk(s0) && Inv(cfg, s) && WellShaped(r) && r in heap && Later(s0, s) && Judge(cfg, s, r) == Accept
    ensures Inv(cfg, Step(cfg, s, r)) && s.tags[r.target] < |Step(cfg, s, r).nodes|
    ensures HasOrigin(cfg, s0, Step(cfg, s, r), heap, s.tags[r.target], RefOf(s, r))
  {
    var s' := Step(cfg, s, r);
    var t := s.tags[r.target];
    StepGrows(cfg, s, r);
    AcceptedReferrer(cfg, s, r);
    SameIgnored(cfg, s0, s, r, s.nodes[t].size);
    assert NodeGrows(s.nodes[t], s'.nodes[t]);
    if IgnoredAt(cfg, s0, r, s'.nodes[t].size) {
      IgnoredLess(cfg, s0, r, s.nodes[t].size, s'.nodes[t].size);
    }
    assert s.owner[t] == r.target;
    assert IsOrigin(cfg, s0, s', r, t, RefOf(s, r));
  }

  /** The referrer of an accepted reference has its tag and address afterwards. */
  lemma AcceptedReferrer(cfg: Config, s: State, r: HeapRef)
    requires Inv(cfg, s) && Judge(cfg, s, r) == Accept
    ensures r.referrer.Some? ==>
              var s' := Step(cfg, s, r);
              var f := ReferrerNode(s, r).value;
              && r.referrer.value in s'.tags && s'.tags[r.referrer.value] == f
              && f < |s'.owner| && s'.owner[f] == r.referrer.value
  {
    CountedInv(cfg, s, r);
    LinkedRest(cfg, Counted(cfg, s, r), r);
  }

  lemma StepTraced(cfg: Config, s0: State, s: State, heap: seq<HeapRef>, r: HeapRef)
    requires Inv(cfg, s) && WellShaped(r) && r in heap && Later(s0, s) && Traced(cfg, s0, s, heap)
    ensures Traced(cfg, s0, Step(cfg, s, r), heap)
  {
    var s' := Step(cfg, s, r);
    StepGrows(cfg, s, r);
    forall k: NodeId, ref: Ref | k < |s'.nodes| && ref in s'.nodes[k].refs
      ensures HasOrigin(cfg, s0, s', heap, k, ref)
    {
      StepNode(cfg, s, r, k);
      if k < |s.nodes| && ref in s.nodes[k].refs {
        OriginStays(cfg, s0, s, s', heap, k, ref);
      } else {
        AcceptedOrigin(cfg, s0, s, heap, r);
        AcceptedAppends(cfg, s, r);
      }
    }
  }

  lemma AcceptedAppends(cfg: Config, s: State, r: HeapRef)
    requires Inv(cfg, s) && WellShaped(r) && Judge(cfg, s, r) == Accept
    ensures s.tags[r.target] < |Step(cfg, s, r).nodes|
    ensures Step(cfg, s, r).nodes[s.tags[r.target]].refs == s.nodes[s.tags[r.target]].refs + [RefOf(s, r)]
  {
    StepGrows(cfg, s, r);
    AcceptedNode(cfg, s, r, s.tags[r.target]);
  }

  // ---- All of it, over a run ----

  /** What a run of callbacks from `s0` keeps. */
  ghost predicate Reachable(cfg: Config, s0: State, s: State, heap: seq<HeapRef>) {
    && Inv(cfg, s0) && Inv(cfg, s) && Later(s0, s)
    && Held(cfg, s0, s, heap) && Sized(cfg, s0, s, heap) && Traced(cfg, s0, s, heap)
    && Entered(cfg, s0, s, heap)
  }

  lemma StartReachable(cfg: Config, s: State, heap: seq<HeapRef>)
    requires Start(cfg, s)
    ensures Reachable(cfg, s, s, heap)
  {
    StartHeld(cfg, s, heap);
    StartSized(cfg, s, heap);
  }

  lemma StepReachable(cfg: Config, s0: State, s: State, heap: seq<HeapRef>, r: HeapRef)
    requires Shaped(heap) && r in heap && Reachable(cfg, s0, s, heap)
    ensures Reachable(cfg, s0, Step(cfg, s, r), heap)
  {
    StepInv(cfg, s, r);
    StepLater(cfg, s0, s, r);
    StepHeld(cfg, s0, s, heap, r);
    StepSized(cfg, s0, s, heap, r);
    StepEntered(cfg, s0, s, heap, r);
    StepTraced(cfg, s0, s, heap, r);
  }

  lemma {:induction false} VisitReachable(cfg: Config, s0: State, s: State, heap: seq<HeapRef>, from: nat)
    requires Shaped(heap) && from <= |heap| && Reachable(cfg, s0, s, heap)
    ensures Reachable(cfg, s0, Visit(cfg, s, heap, from), heap)
    decreases |heap| - from
  {
    if from < |heap| {
      StepReachable(cfg, s0, s, heap, heap[from]);
      VisitReachable(cfg, s0, Step(cfg, s, heap[from]), heap, from + 1);
    }
  }

  lemma ResetReachable(cfg: Config, s0: State, s: State, heap: seq<HeapRef>)
    requires Reachable(cfg, s0, s, heap)
    ensures Reachable(cfg, s0, Reset(s), heap)
  {
    ResetInv(cfg, s);
    forall k: NodeId, ref: Ref | k < |s.nodes| && ref in s.nodes[k].refs
      ensures HasOrigin(cfg, s0, Reset(s), heap, k, ref)
    {
      OriginStays(cfg, s0, s, Reset(s), heap, k, ref);
    }
  }

  lemma PassReachable(cfg: Config, s0: State, s: State, heap: seq<HeapRef>)
    requires Shaped(heap) && Reachable(cfg, s0, s, heap)
    ensures Reachable(cfg, s0, Pass(cfg, s, heap), heap)
  {
    ResetReachable(cfg, s0, s, heap);
    VisitReachable(cfg, s0, Reset(s), heap, 0);
  }

  lemma {:induction false} LoopReachable(cfg: Config, s0: State, s: State, heap: seq<HeapRef>, left: nat)
    requires Shaped(heap) && Reachable(cfg, s0, s, heap)
    ensures Reachable(cfg, s0, PassLoop(cfg, s, heap, left), heap)
    decreases left
  {
    if left > 0 {
      PassReachable(cfg, s0, s, heap);
      if HasUnfinished(cfg, Pass(cfg, s, heap)) {
        LoopReachable(cfg, s0, Pass(cfg, s, heap), heap, left - 1);
      }
    }
  }
}
