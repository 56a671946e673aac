/** What `reference_chain_length` means: if no other leak has a holder in common with a leak, as many passes as a chain
    of heap references from it to a root has references find it; and only such a chain does. */
module Distance {
  import opened Wrappers
  import opened LeakBits
  import opened DataStruct
  import opened Recording
  import opened Taint
  import opened Counts
  import opened Holding
  import opened Passes

  // ---- What is hunted ----

  /** A leak, the heap, and the state in which the passes begin. */
  datatype Hunt = Hunt(cfg: Config, s0: State, heap: seq<HeapRef>, leak: nat)

  predicate Use(cfg: Config, r: HeapRef, o: Obj, c: Obj) {
    r.target == o && HasClass(cfg, r) && ClassObj(cfg, r) == c
  }

  /** How often instances of `c` refer to `o`. */
  function Uses(cfg: Config, heap: seq<HeapRef>, o: Obj, c: Obj): nat {
    if heap == [] then 0
    else (if Use(cfg, heap[0], o, c) then 1 else 0) + Uses(cfg, heap[1..], o, c)
  }

  /** Nothing but the fan-in limit keeps the callback from following such a reference: it is no local of the agent, the
      class filter lets it through, and no ignore entry names it for nodes of the leak's size. */
  predicate Open(h: Hunt, r: HeapRef) {
    && TagsOk(h.s0) && h.leak < |h.s0.nodes|
    && !LocalOfAgent(h.cfg, r)
    && r.target in h.cfg.classOf && h.cfg.classOf[r.target] in h.s0.tags
    && !IgnoredAt(h.cfg, h.s0, r, h.s0.nodes[h.leak].size)
  }

  /** The target has fewer than `maxFanIn` references from instances of the class of this referrer. */
  predicate FanInRoom(h: Hunt, r: HeapRef) {
    HasClass(h.cfg, r) ==> Uses(h.cfg, h.heap, r.target, ClassObj(h.cfg, r)) < h.cfg.maxFanIn
  }

  predicate Passable(h: Hunt, r: HeapRef) { Open(h, r) && FanInRoom(h, r) }

  /** Heap references lead from `o` to a root. */
  predicate RootChain(heap: seq<HeapRef>, o: Obj, chain: seq<HeapRef>) {
    && chain != [] && chain[0].target == o
    && (forall j | 0 <= j < |chain| :: chain[j] in heap)
    && (forall j | 0 < j < |chain| :: chain[j - 1].referrer == Some(chain[j].target))
    && IsRootReference(chain[|chain| - 1].kind)
  }

  /** A chain of heap references from `o` to a root, all of them passable. */
  predicate HeapChain(h: Hunt, o: Obj, chain: seq<HeapRef>) {
    RootChain(h.heap, o, chain) && forall r <- chain :: Passable(h, r)
  }

  /** No other leak is held by an object that holds this one. */
  ghost predicate Alone(h: Hunt) {
    && h.leak < h.cfg.leaks <= |h.s0.owner|
    && forall j: nat, p: Obj | j < h.cfg.leaks && j != h.leak && Holds(h.heap, p, h.s0.owner[h.leak]) ::
         !Holds(h.heap, p, h.s0.owner[j])
  }

  ghost predicate Begins(h: Hunt) { Inv(h.cfg, h.s0) && Shaped(h.heap) && Alone(h) }

  /** Then all holders of the leak have room for its bit, whatever the sizes of the bitsets. */
  lemma AloneHasRoom(h: Hunt)
    requires Begins(h)
    ensures RoomFor(h.cfg, h.s0, h.heap, h.leak)
  {
    forall k: NodeId | k < |h.s0.nodes| && Holds(h.heap, h.s0.owner[k], h.s0.owner[h.leak])
      ensures h.leak < h.s0.nodes[k].leaks.size
    {
      assert NodeOk(h.cfg, h.s0, k);
      HoldsItself(h.heap, h.s0.owner[k]);
    }
  }

  lemma {:induction false} UsesConcat(cfg: Config, a: seq<HeapRef>, b: seq<HeapRef>, o: Obj, c: Obj)
    ensures Uses(cfg, a + b, o, c) == Uses(cfg, a, o, c) + Uses(cfg, b, o, c)
  {
    if a == [] {
      assert a + b == b;
    } else {
      assert (a + b)[1..] == a[1..] + b;
      UsesConcat(cfg, a[1..], b, o, c);
    }
  }

  // ---- What a run keeps ----

  predicate Carries(h: Hunt, s: State, o: Obj) {
    o in s.tags && s.tags[o] < |s.nodes| && h.leak in s.nodes[s.tags[o]].leaks.raw
  }

  /** The callback has done with `r` what it ever will. */
  predicate Processed(h: Hunt, s: State, r: HeapRef) {
    || h.leak in s.finished.raw
    || (!IsRootReference(r.kind) && r.referrer.Some? && Carries(h, s, r.referrer.value))
  }

  predicate AllProcessed(h: Hunt, s: State, part: seq<HeapRef>, o: Obj) {
    forall r <- part | r.target == o && Passable(h, r) :: Processed(h, s, r)
  }

  /** A node that was counted or referred to holds a leak whose bit it has. */
  ghost predicate Touched(h: Hunt, s: State, k: NodeId)
    requires k < |s.nodes| && k < |s.owner|
  {
    exists j: nat ::
      j in s.nodes[k].leaks.raw && j < h.cfg.leaks <= |h.s0.owner| && Holds(h.heap, s.owner[k], h.s0.owner[j])
  }

  /** References to nodes with the bit lead to nodes with the bit. */
  predicate Closed(h: Hunt, s: State) {
    h.leak !in s.finished.raw ==>
      forall k: NodeId, ref | k < |s.nodes| && h.leak in s.nodes[k].leaks.raw && ref in s.nodes[k].refs ::
        && !IsRootReference(ref.kind) && ref.node.Some? && ref.node.value < |s.nodes|
        && h.leak in s.nodes[ref.node.value].leaks.raw
  }

  /** Nodes with the bit are as large as the leak. */
  predicate LargeEnough(h: Hunt, s: State)
    requires h.leak < |h.s0.nodes|
  {
    forall k: NodeId | k < |s.nodes| && h.leak in s.nodes[k].leaks.raw ::
      h.s0.nodes[h.leak].size <= s.nodes[k].size
  }

  ghost predicate Simple(h: Hunt, s: State) {
    && Begins(h) && Inv(h.cfg, s) && Later(h.s0, s) && Held(h.cfg, h.s0, s, h.heap)
    && LargeEnough(h, s) && Closed(h, s)
    && forall k: NodeId | k < |s.nodes| && (s.nodes[k].fanIn != [] || s.nodes[k].refs != []) :: Touched(h, s, k)
  }

  /** Since `o` was tainted, the references to it in `heap[a..q]` and `heap[b..]` were visited once each. */
  ghost predicate Lap(h: Hunt, s: State, q: nat, o: Obj, a: nat, b: nat)
    requires Inv(h.cfg, s) && o in s.tags
  {
    && a <= q <= b <= |h.heap| && (a == 0 || b == |h.heap|)
    && AllProcessed(h, s, h.heap[a..q], o) && AllProcessed(h, s, h.heap[b..], o)
    && forall c: Obj :: CountOf(s.nodes[s.tags[o]].fanIn, c) <=
                        Uses(h.cfg, h.heap[a..q], o, c) + Uses(h.cfg, h.heap[b..], o, c)
  }

  /** All references to `o` are done, or it is on its first lap; with `early`, since before the pass began. */
  ghost predicate OnLap(h: Hunt, s: State, q: nat, o: Obj, early: bool)
    requires Inv(h.cfg, s) && o in s.tags
  {
    AllProcessed(h, s, h.heap, o) || exists a: nat, b: nat :: Lap(h, s, q, o, a, b) && (early ==> a == 0)
  }

  lemma ProcessedGrows(h: Hunt, s: State, s': State, r: HeapRef)
    requires Grows(s, s') && Processed(h, s, r)
    ensures Processed(h, s', r)
  {
    if r.referrer.Some? && Carries(h, s, r.referrer.value) {
      assert NodeGrows(s.nodes[s.tags[r.referrer.value]], s'.nodes[s.tags[r.referrer.value]]);
    }
  }

  /** Only the counters of a wanted target change. */
  lemma StepFan(cfg: Config, s: State, r: HeapRef, k: NodeId)
    requires Inv(cfg, s) && WellShaped(r) && k < |Step(cfg, s, r).nodes|
    ensures var s' := Step(cfg, s, r);
            s'.nodes[k].fanIn ==
              if k >= |s.nodes| then []
              else if Judge(cfg, s, r) != Ignore && k == s.tags[r.target] && ClassTagged(cfg, s, r)
                then Bump(s.nodes[k].fanIn, ClassObj(cfg, r))
              else s.nodes[k].fanIn
  {
    if Judge(cfg, s, r) == Accept {
      CountedInv(cfg, s, r);
      LinkedNodes(cfg, Counted(cfg, s, r), r);
    }
  }

  /** An accepted root reference to a node with the bit finishes the leak. */
  lemma AcceptedRoot(h: Hunt, s: State, r: HeapRef)
    requires Inv(h.cfg, s) && Judge(h.cfg, s, r) == Accept && Carries(h, s, r.target) && IsRootReference(r.kind)
    ensures h.leak in Step(h.cfg, s, r).finished.raw
  {
    CountedInv(h.cfg, s, r);
    LinkedRest(h.cfg, Counted(h.cfg, s, r), r);
  }

  /** Any other taints the referrer. */
  lemma AcceptedTaint(h: Hunt, s: State, r: HeapRef)
    requires Simple(h, s) && WellShaped(r) && r in h.heap && Judge(h.cfg, s, r) == Accept && Carries(h, s, r.target)
    requires h.leak !in s.finished.raw && !IsRootReference(r.kind)
    ensures var s' := Step(h.cfg, s, r);
            Carries(h, s', r.referrer.value) && s'.tags[r.referrer.value] == ReferrerNode(s, r).value
  {
    StepGrows(h.cfg, s, r);
    AcceptedReferrer(h.cfg, s, r);
    AcceptedFlow(h, s, r, ReferrerNode(s, r).value);
  }

  lemma AcceptedFlow(h: Hunt, s: State, r: HeapRef, f: NodeId)
    requires Simple(h, s) && WellShaped(r) && r in h.heap && Judge(h.cfg, s, r) == Accept && Carries(h, s, r.target)
    requires h.leak !in s.finished.raw && !IsRootReference(r.kind) && ReferrerNode(s, r) == Some(f)
    requires f < |Step(h.cfg, s, r).nodes|
    ensures h.leak in Step(h.cfg, s, r).nodes[f].leaks.raw
  {
    AloneHasRoom(h);
    BothHaveRoom(h, s, r, f);
    BitFlows(h.cfg, s, r, f, h.leak);
  }

  /** The nodes on both ends of a reference that leads from a holder have room for the bit. */
  lemma BothHaveRoom(h: Hunt, s: State, r: HeapRef, f: NodeId)
    requires Inv(h.cfg, h.s0) && Inv(h.cfg, s) && Grows(h.s0, s) && RoomFor(h.cfg, h.s0, h.heap, h.leak)
    requires Held(h.cfg, h.s0, s, h.heap) && h.leak !in s.finished.raw && Carries(h, s, r.target)
    requires WellShaped(r) && r in h.heap && !IsRootReference(r.kind) && ReferrerNode(s, r) == Some(f)
    ensures h.leak < s.nodes[s.tags[r.target]].leaks.size
    ensures f < |s.nodes| ==> h.leak < s.nodes[f].leaks.size
  {
    assert s.owner[s.tags[r.target]] == r.target;
    HoldsMore(h.heap, r, h.s0.owner[h.leak]);
    HolderHasRoom(h.cfg, h.s0, s, h.heap, h.leak, s.tags[r.target]);
    if f < |s.nodes| {
      assert s.owner[f] == r.referrer.value;
      HolderHasRoom(h.cfg, h.s0, s, h.heap, h.leak, f);
    }
  }

  /** An unfinished bit that both nodes have room for is passed on. */
  lemma BitFlows(cfg: Config, s: State, r: HeapRef, f: NodeId, i: nat)
    requires Inv(cfg, s) && Judge(cfg, s, r) == Accept && ReferrerNode(s, r) == Some(f) && i < cfg.leaks
    requires i in s.nodes[s.tags[r.target]].leaks.raw && i !in s.finished.raw && f < |Step(cfg, s, r).nodes|
    requires i < s.nodes[s.tags[r.target]].leaks.size && (f < |s.nodes| ==> i < s.nodes[f].leaks.size)
    ensures i in Step(cfg, s, r).nodes[f].leaks.raw
  {
    AcceptedNode(cfg, s, r, f);
    BitAfter(cfg, s, r, f, i);
  }

  lemma BitAfter(cfg: Config, s: State, r: HeapRef, f: NodeId, i: nat)
    requires Inv(cfg, s) && r.target in s.tags && ReferrerNode(s, r) == Some(f) && f <= |s.nodes| && i < cfg.leaks
    requires i in s.nodes[s.tags[r.target]].leaks.raw && i !in s.finished.raw
    requires i < s.nodes[s.tags[r.target]].leaks.size && (f < |s.nodes| ==> i < s.nodes[f].leaks.size)
    ensures i in NodeAfter(cfg, s, r, f).leaks.raw
  {
  }

  /** Only the referrer of an accepted reference gains a bit, and the target does not. */
  lemma NewBit(cfg: Config, s: State, r: HeapRef, k: NodeId, i: nat)
    requires Inv(cfg, s) && WellShaped(r) && k < |Step(cfg, s, r).nodes| && i in Step(cfg, s, r).nodes[k].leaks.raw
    requires !(k < |s.nodes| && i in s.nodes[k].leaks.raw)
    ensures Judge(cfg, s, r) == Accept && s.tags[r.target] != k
  {
    StepNode(cfg, s, r, k);
  }

  /** A holder of the leak that was counted or referred to has the bit. */
  lemma TouchedHas(h: Hunt, s: State, k: NodeId)
    requires Begins(h) && k < |s.nodes| && k < |s.owner| && Touched(h, s, k)
    requires Holds(h.heap, s.owner[k], h.s0.owner[h.leak])
    ensures h.leak in s.nodes[k].leaks.raw
  {
  }

  /** A node that gains the bit, while the leak stays unfinished, was neither counted nor referred to before. */
  lemma NewlyTainted(h: Hunt, s: State, r: HeapRef, k: NodeId)
    requires Simple(h, s) && WellShaped(r) && r in h.heap && k < |Step(h.cfg, s, r).nodes|
    requires h.leak in Step(h.cfg, s, r).nodes[k].leaks.raw && h.leak !in Step(h.cfg, s, r).finished.raw
    requires !(k < |s.nodes| && h.leak in s.nodes[k].leaks.raw)
    ensures Judge(h.cfg, s, r) == Accept && s.tags[r.target] != k
    ensures k < |s.nodes| ==> s.nodes[k].fanIn == [] && s.nodes[k].refs == []
  {
    NewBit(h.cfg, s, r, k, h.leak);
    if k < |s.nodes| {
      TaintedHolds(h, s, r, k);
      if Touched(h, s, k) {
        TouchedHas(h, s, k);
      }
    }
  }

  lemma TaintedHolds(h: Hunt, s: State, r: HeapRef, k: NodeId)
    requires Inv(h.cfg, s) && WellShaped(r) && r in h.heap && Held(h.cfg, h.s0, s, h.heap) && k < |s.nodes|
    requires k < |Step(h.cfg, s, r).nodes|
    requires h.leak in Step(h.cfg, s, r).nodes[k].leaks.raw && h.leak !in Step(h.cfg, s, r).finished.raw
    ensures h.leak < |h.s0.owner| && k < |s.owner| && Holds(h.heap, s.owner[k], h.s0.owner[h.leak])
  {
    StepGrows(h.cfg, s, r);
    StepHeld(h.cfg, h.s0, s, h.heap, r);
    OwnerHolds(h, s, Step(h.cfg, s, r), k);
  }

  lemma OwnerHolds(h: Hunt, s: State, s': State, k: NodeId)
    requires s.owner <= s'.owner && k < |s.owner| && Held(h.cfg, h.s0, s', h.heap)
    requires h.leak in s'.nodes[k].leaks.raw && h.leak !in s'.finished.raw
    ensures h.leak < |h.s0.owner| && Holds(h.heap, s.owner[k], h.s0.owner[h.leak])
  {
  }

  lemma StepClosed(h: Hunt, s: State, r: HeapRef, k: NodeId, ref: Ref)
    requires Simple(h, s) && WellShaped(r) && r in h.heap
    requires h.leak !in Step(h.cfg, s, r).finished.raw && k < |Step(h.cfg, s, r).nodes|
    requires h.leak in Step(h.cfg, s, r).nodes[k].leaks.raw && ref in Step(h.cfg, s, r).nodes[k].refs
    ensures var s' := Step(h.cfg, s, r);
            && !IsRootReference(ref.kind) && ref.node.Some? && ref.node.value < |s'.nodes|
            && h.leak in s'.nodes[ref.node.value].leaks.raw
  {
    var s' := Step(h.cfg, s, r);
    StepGrows(h.cfg, s, r);
    StepNode(h.cfg, s, r, k);
    if !(k < |s.nodes| && h.leak in s.nodes[k].leaks.raw) {
      NewlyTainted(h, s, r, k);
    } else if ref in s.nodes[k].refs {
      assert NodeGrows(s.nodes[ref.node.value], s'.nodes[ref.node.value]);
    } else {
      AcceptedAppends(h.cfg, s, r);
      NewRefClosed(h, s, r);
    }
  }

  lemma NewRefClosed(h: Hunt, s: State, r: HeapRef)
    requires Simple(h, s) && WellShaped(r) && r in h.heap && Judge(h.cfg, s, r) == Accept && Carries(h, s, r.target)
    requires h.leak !in Step(h.cfg, s, r).finished.raw && h.leak !in s.finished.raw
    ensures var s' := Step(h.cfg, s, r);
            && !IsRootReference(r.kind) && ReferrerNode(s, r).Some? && ReferrerNode(s, r).value < |s'.nodes|
            && h.leak in s'.nodes[ReferrerNode(s, r).value].leaks.raw
  {
    if IsRootReference(r.kind) {
      AcceptedRoot(h, s, r);
    } else {
      AcceptedTaint(h, s, r);
    }
  }

  lemma StepTouched(h: Hunt, s: State, r: HeapRef, k: NodeId)
    requires Simple(h, s) && WellShaped(r) && r in h.heap && k < |Step(h.cfg, s, r).nodes|
    requires Inv(h.cfg, Step(h.cfg, s, r))
    requires Step(h.cfg, s, r).nodes[k].fanIn != [] || Step(h.cfg, s, r).nodes[k].refs != []
    ensures Touched(h, Step(h.cfg, s, r), k)
  {
    StepGrows(h.cfg, s, r);
    StepFan(h.cfg, s, r, k);
    StepNode(h.cfg, s, r, k);
    if s.nodes[k].fanIn == [] && s.nodes[k].refs == [] {
      WantedTouched(h, s, r);
    }
    TouchedGrows(h, s, Step(h.cfg, s, r), k);
  }

  lemma TouchedGrows(h: Hunt, s: State, s': State, k: NodeId)
    requires Grows(s, s') && k < |s.nodes| && k < |s.owner| && Touched(h, s, k)
    ensures Touched(h, s', k)
  {
    assert NodeGrows(s.nodes[k], s'.nodes[k]) && s'.owner[k] == s.owner[k];
    var j: nat :| j in s.nodes[k].leaks.raw && j < h.cfg.leaks && Holds(h.heap, s.owner[k], h.s0.owner[j]);
    assert j in s'.nodes[k].leaks.raw;
  }

  /** The target of a wanted callback has an unfinished bit. */
  lemma WantedTouched(h: Hunt, s: State, r: HeapRef)
    requires Inv(h.cfg, s) && Held(h.cfg, h.s0, s, h.heap) && Judge(h.cfg, s, r) != Ignore
    ensures Touched(h, s, s.tags[r.target])
  {
    WantedExactly(h.cfg, s, r);
    var j :| j in s.nodes[s.tags[r.target]].leaks.raw && j !in s.finished.raw;
  }

  lemma StepLarge(h: Hunt, s: State, r: HeapRef, k: NodeId)
    requires Inv(h.cfg, s) && WellShaped(r) && h.leak < |h.s0.nodes| && LargeEnough(h, s)
    requires k < |Step(h.cfg, s, r).nodes|
    requires h.leak in Step(h.cfg, s, r).nodes[k].leaks.raw
    ensures h.s0.nodes[h.leak].size <= Step(h.cfg, s, r).nodes[k].size
  {
    StepGrows(h.cfg, s, r);
    if k < |s.nodes| && h.leak in s.nodes[k].leaks.raw {
      assert NodeGrows(s.nodes[k], Step(h.cfg, s, r).nodes[k]);
    } else {
      NewBit(h.cfg, s, r, k, h.leak);
      AcceptedLarge(h, s, r, k);
    }
  }

  lemma AcceptedLarge(h: Hunt, s: State, r: HeapRef, k: NodeId)
    requires Inv(h.cfg, s) && Judge(h.cfg, s, r) == Accept && h.leak < |h.s0.nodes| && LargeEnough(h, s)
    requires k < |Step(h.cfg, s, r).nodes| && h.leak in Step(h.cfg, s, r).nodes[k].leaks.raw
    requires !(k < |s.nodes| && h.leak in s.nodes[k].leaks.raw)
    ensures h.s0.nodes[h.leak].size <= Step(h.cfg, s, r).nodes[k].size
  {
    AcceptedNode(h.cfg, s, r, k);
  }

  lemma StepSimple(h: Hunt, s: State, r: HeapRef)
    requires Simple(h, s) && r in h.heap
    ensures Simple(h, Step(h.cfg, s, r))
  {
    var s' := Step(h.cfg, s, r);
    StepInv(h.cfg, s, r);
    StepLater(h.cfg, h.s0, s, r);
    StepHeld(h.cfg, h.s0, s, h.heap, r);
    forall k: NodeId, ref | h.leak !in s'.finished.raw && k < |s'.nodes| && h.leak in s'.nodes[k].leaks.raw
                            && ref in s'.nodes[k].refs
      ensures !IsRootReference(ref.kind) && ref.node.Some? && ref.node.value < |s'.nodes|
      ensures h.leak in s'.nodes[ref.node.value].leaks.raw
    {
      StepClosed(h, s, r, k, ref);
    }
    forall k: NodeId | k < |s'.nodes| && (s'.nodes[k].fanIn != [] || s'.nodes[k].refs != [])
      ensures Touched(h, s', k)
    {
      StepTouched(h, s, r, k);
    }
    forall k: NodeId | k < |s'.nodes| && h.leak in s'.nodes[k].leaks.raw
      ensures h.s0.nodes[h.leak].size <= s'.nodes[k].size
    {
      StepLarge(h, s, r, k);
    }
  }

  // ---- Laps ----

  /** What no ignore entry names at the start is never ignored. */
  lemma NeverIgnored(h: Hunt, s: State, r: HeapRef)
    requires Simple(h, s) && Carries(h, s, r.target) && Passable(h, r)
    ensures Reported(h.cfg, s, r) && !IgnoredField(h.cfg, s, r)
  {
    var size := s.nodes[s.tags[r.target]].size;
    SameIgnored(h.cfg, h.s0, s, r, size);
    if IgnoredAt(h.cfg, h.s0, r, size) {
      IgnoredLess(h.cfg, h.s0, r, h.s0.nodes[h.leak].size, size);
    }
  }

  /** A visit under the fan-in limit deals with the reference. */
  lemma Visited(h: Hunt, s: State, r: HeapRef)
    requires Simple(h, s) && r in h.heap && Carries(h, s, r.target) && !OverFanIn(h.cfg, s, r) && Passable(h, r)
    ensures Processed(h, Step(h.cfg, s, r), r)
  {
    StepGrows(h.cfg, s, r);
    if h.leak !in s.finished.raw {
      NeverIgnored(h, s, r);
      WantedExactly(h.cfg, s, r);
      if Judge(h.cfg, s, r) == Accept {
        if IsRootReference(r.kind) {
          AcceptedRoot(h, s, r);
        } else {
          AcceptedTaint(h, s, r);
        }
      } else {
        KnownIsProcessed(h, s, r);
        ProcessedGrows(h, s, Step(h.cfg, s, r), r);
      }
    }
  }

  /** What was recorded before was processed. */
  lemma KnownIsProcessed(h: Hunt, s: State, r: HeapRef)
    requires Simple(h, s) && Carries(h, s, r.target) && Duplicate(h.cfg, s, r)
    ensures Processed(h, s, r)
  {
  }

  lemma PartGrows(h: Hunt, s: State, s': State, part: seq<HeapRef>, o: Obj)
    requires Grows(s, s') && AllProcessed(h, s, part, o)
    ensures AllProcessed(h, s', part, o)
  {
    forall r <- part | r.target == o && Passable(h, r) ensures Processed(h, s', r) {
      ProcessedGrows(h, s, s', r);
    }
  }

  lemma Window(cfg: Config, heap: seq<HeapRef>, q: nat, o: Obj, a: nat, b: nat, c: Obj)
    requires a <= q < b <= |heap|
    ensures Uses(cfg, heap[a..q + 1], o, c) == Uses(cfg, heap[a..q], o, c) + (if Use(cfg, heap[q], o, c) then 1 else 0)
    ensures Uses(cfg, heap[a..q + 1], o, c) + Uses(cfg, heap[b..], o, c) <= Uses(cfg, heap, o, c)
  {
    assert heap[a..q + 1] == heap[a..q] + [heap[q]];
    UsesConcat(cfg, heap[a..q], [heap[q]], o, c);
    assert heap == (heap[..a] + heap[a..q + 1]) + (heap[q + 1..b] + heap[b..]);
    UsesConcat(cfg, heap[..a] + heap[a..q + 1], heap[q + 1..b] + heap[b..], o, c);
    UsesConcat(cfg, heap[..a], heap[a..q + 1], o, c);
    UsesConcat(cfg, heap[q + 1..b], heap[b..], o, c);
  }

  /** The count of a class on its lap, before and after `heap[q]`. */
  lemma CountInWindow(h: Hunt, q: nat, o: Obj, a: nat, b: nat, c: Obj, fanIn: seq<ClassCount>)
    requires a <= q < b <= |h.heap|
    requires CountOf(fanIn, c) <= Uses(h.cfg, h.heap[a..q], o, c) + Uses(h.cfg, h.heap[b..], o, c)
    ensures CountOf(fanIn, c) <= Uses(h.cfg, h.heap[a..q + 1], o, c) + Uses(h.cfg, h.heap[b..], o, c)
    ensures h.heap[q].target == o && HasClass(h.cfg, h.heap[q]) ==>
              CountOf(Bump(fanIn, ClassObj(h.cfg, h.heap[q])), c) <=
              Uses(h.cfg, h.heap[a..q + 1], o, c) + Uses(h.cfg, h.heap[b..], o, c)
    ensures Use(h.cfg, h.heap[q], o, c) && FanInRoom(h, h.heap[q]) ==> CountOf(fanIn, c) + 1 < h.cfg.maxFanIn
  {
    Window(h.cfg, h.heap, q, o, a, b, c);
    if HasClass(h.cfg, h.heap[q]) {
      BumpCounts(fanIn, ClassObj(h.cfg, h.heap[q]), c);
    }
  }

  lemma LapCounts(h: Hunt, s: State, q: nat, o: Obj, a: nat, b: nat)
    requires Simple(h, s) && q < |h.heap| && Carries(h, s, o) && Lap(h, s, q, o, a, b) && q < b
    ensures h.heap[q].target == o && FanInRoom(h, h.heap[q]) ==> !OverFanIn(h.cfg, s, h.heap[q])
    ensures Carries(h, Step(h.cfg, s, h.heap[q]), o)
    ensures forall c: Obj :: CountOf(Step(h.cfg, s, h.heap[q]).nodes[Step(h.cfg, s, h.heap[q]).tags[o]].fanIn, c) <=
                             Uses(h.cfg, h.heap[a..q + 1], o, c) + Uses(h.cfg, h.heap[b..], o, c)
  {
    var t := s.tags[o];
    assert s.owner[t] == o;
    StepGrows(h.cfg, s, h.heap[q]);
    StepFan(h.cfg, s, h.heap[q], t);
    assert NodeGrows(s.nodes[t], Step(h.cfg, s, h.heap[q]).nodes[t]);
    forall c: Obj
      ensures CountOf(Step(h.cfg, s, h.heap[q]).nodes[t].fanIn, c) <=
              Uses(h.cfg, h.heap[a..q + 1], o, c) + Uses(h.cfg, h.heap[b..], o, c)
      ensures Use(h.cfg, h.heap[q], o, c) && FanInRoom(h, h.heap[q]) ==>
                CountOf(s.nodes[t].fanIn, c) + 1 < h.cfg.maxFanIn
    {
      CountInWindow(h, q, o, a, b, c, s.nodes[t].fanIn);
    }
  }

  lemma LapStep(h: Hunt, s: State, q: nat, o: Obj, a: nat, b: nat)
    requires Simple(h, s) && q < |h.heap| && Carries(h, s, o) && Lap(h, s, q, o, a, b) && q < b
    ensures Simple(h, Step(h.cfg, s, h.heap[q])) && o in Step(h.cfg, s, h.heap[q]).tags
    ensures Lap(h, Step(h.cfg, s, h.heap[q]), q + 1, o, a, b)
  {
    StepSimple(h, s, h.heap[q]);
    LapCounts(h, s, q, o, a, b);
    LapProcesses(h, s, q, o, a, b);
  }

  lemma LapProcesses(h: Hunt, s: State, q: nat, o: Obj, a: nat, b: nat)
    requires Simple(h, s) && q < |h.heap| && Carries(h, s, o) && a <= q && b <= |h.heap|
    requires AllProcessed(h, s, h.heap[a..q], o) && AllProcessed(h, s, h.heap[b..], o)
    requires h.heap[q].target == o && FanInRoom(h, h.heap[q]) ==> !OverFanIn(h.cfg, s, h.heap[q])
    ensures AllProcessed(h, Step(h.cfg, s, h.heap[q]), h.heap[a..q + 1], o)
    ensures AllProcessed(h, Step(h.cfg, s, h.heap[q]), h.heap[b..], o)
  {
    var r := h.heap[q];
    if r.target == o && Passable(h, r) {
      Visited(h, s, r);
    }
    StepGrows(h.cfg, s, r);
    WindowProcessed(h, s, Step(h.cfg, s, r), q, o, a, b);
  }

  lemma WindowProcessed(h: Hunt, s: State, s': State, q: nat, o: Obj, a: nat, b: nat)
    requires Grows(s, s') && a <= q < |h.heap| && b <= |h.heap|
    requires AllProcessed(h, s, h.heap[a..q], o) && AllProcessed(h, s, h.heap[b..], o)
    requires h.heap[q].target == o && Passable(h, h.heap[q]) ==> Processed(h, s', h.heap[q])
    ensures AllProcessed(h, s', h.heap[a..q + 1], o) && AllProcessed(h, s', h.heap[b..], o)
  {
    PartGrows(h, s, s', h.heap[a..q], o);
    PartGrows(h, s, s', h.heap[b..], o);
    PartExtends(h, s', h.heap[a..q], h.heap[q], o);
    assert h.heap[a..q + 1] == h.heap[a..q] + [h.heap[q]];
  }

  lemma PartExtends(h: Hunt, s: State, part: seq<HeapRef>, r: HeapRef, o: Obj)
    requires AllProcessed(h, s, part, o) && (r.target == o && Passable(h, r) ==> Processed(h, s, r))
    ensures AllProcessed(h, s, part + [r], o)
  {
  }

  lemma LapComplete(h: Hunt, s: State, q: nat, o: Obj)
    requires Inv(h.cfg, s) && o in s.tags && Lap(h, s, q, o, 0, q)
    ensures AllProcessed(h, s, h.heap, o)
  {
    assert h.heap == h.heap[0..q] + h.heap[q..];
  }

  lemma OnLapEnds(h: Hunt, s: State, o: Obj)
    requires Inv(h.cfg, s) && o in s.tags && OnLap(h, s, |h.heap|, o, true)
    ensures AllProcessed(h, s, h.heap, o)
  {
    if Lap(h, s, |h.heap|, o, 0, |h.heap|) {
      LapComplete(h, s, |h.heap|, o);
    }
  }

  /** An object that the step taints starts its lap after it. */
  lemma LapBegins(h: Hunt, s: State, q: nat, o: Obj)
    requires Simple(h, s) && q < |h.heap|
    requires Inv(h.cfg, Step(h.cfg, s, h.heap[q])) && Carries(h, Step(h.cfg, s, h.heap[q]), o) && !Carries(h, s, o)
    requires h.leak !in Step(h.cfg, s, h.heap[q]).finished.raw
    ensures Lap(h, Step(h.cfg, s, h.heap[q]), q + 1, o, q + 1, |h.heap|)
  {
    StepGrows(h.cfg, s, h.heap[q]);
    NewCarrier(h, s, Step(h.cfg, s, h.heap[q]), o);
    UncountedBegins(h, s, h.heap[q], Step(h.cfg, s, h.heap[q]).tags[o]);
    UncountedLap(h, Step(h.cfg, s, h.heap[q]), q + 1, o);
  }

  lemma UncountedLap(h: Hunt, s: State, q: nat, o: Obj)
    requires Inv(h.cfg, s) && o in s.tags && q <= |h.heap| && s.nodes[s.tags[o]].fanIn == []
    ensures Lap(h, s, q, o, q, |h.heap|)
  {
  }

  lemma UncountedBegins(h: Hunt, s: State, r: HeapRef, f: NodeId)
    requires Simple(h, s) && WellShaped(r) && r in h.heap && f < |Step(h.cfg, s, r).nodes|
    requires h.leak in Step(h.cfg, s, r).nodes[f].leaks.raw && h.leak !in Step(h.cfg, s, r).finished.raw
    requires !(f < |s.nodes| && h.leak in s.nodes[f].leaks.raw)
    ensures Step(h.cfg, s, r).nodes[f].fanIn == []
  {
    NewlyTainted(h, s, r, f);
    StepFan(h.cfg, s, r, f);
  }

  lemma NewCarrier(h: Hunt, s: State, s': State, o: Obj)
    requires TagsOk(s) && TagsOk(s') && Grows(s, s') && Carries(h, s', o) && !Carries(h, s, o)
    ensures !(s'.tags[o] < |s.nodes| && h.leak in s.nodes[s'.tags[o]].leaks.raw)
  {
    var f := s'.tags[o];
    if f < |s.nodes| {
      assert s.owner[f] == s'.owner[f] == o;
    }
  }

  /** Stepping over `heap[q]` keeps an object on its lap; a tainted object starts one. */
  lemma OnLapStep(h: Hunt, s: State, q: nat, o: Obj, early: bool)
    requires Simple(h, s) && q < |h.heap| && Carries(h, Step(h.cfg, s, h.heap[q]), o)
    requires Carries(h, s, o) ==> OnLap(h, s, q, o, early)
    requires early ==> Carries(h, s, o)
    ensures Simple(h, Step(h.cfg, s, h.heap[q]))
    ensures OnLap(h, Step(h.cfg, s, h.heap[q]), q + 1, o, early)
  {
    StepSimple(h, s, h.heap[q]);
    if h.leak in Step(h.cfg, s, h.heap[q]).finished.raw {
    } else if !Carries(h, s, o) {
      LapBegins(h, s, q, o);
    } else if AllProcessed(h, s, h.heap, o) {
      StepGrows(h.cfg, s, h.heap[q]);
      PartGrows(h, s, Step(h.cfg, s, h.heap[q]), h.heap, o);
    } else {
      LapGoesOn(h, s, q, o, early);
    }
  }

  lemma LapGoesOn(h: Hunt, s: State, q: nat, o: Obj, early: bool)
    requires Simple(h, s) && q < |h.heap| && Carries(h, s, o) && Inv(h.cfg, Step(h.cfg, s, h.heap[q]))
    requires !AllProcessed(h, s, h.heap, o) && OnLap(h, s, q, o, early)
    ensures o in Step(h.cfg, s, h.heap[q]).tags && OnLap(h, Step(h.cfg, s, h.heap[q]), q + 1, o, early)
  {
    if Lap(h, s, q, o, 0, q) {
      LapComplete(h, s, q, o);
    }
    var a: nat, b: nat :| Lap(h, s, q, o, a, b) && (early ==> a == 0);
    LapStep(h, s, q, o, a, b);
  }

  // ---- Passes ----

  ghost predicate Ready(h: Hunt, s: State, q: nat, early: set<Obj>) {
    && Simple(h, s)
    && (forall o: Obj | Carries(h, s, o) :: OnLap(h, s, q, o, false))
    && (forall o <- early :: Carries(h, s, o) && OnLap(h, s, q, o, true))
  }

  lemma VisitReady(h: Hunt, s: State, q: nat, early: set<Obj>)
    requires q <= |h.heap| && Ready(h, s, q, early)
    ensures Ready(h, Visit(h.cfg, s, h.heap, q), |h.heap|, early)
    decreases |h.heap| - q
  {
    if q < |h.heap| {
      var s' := Step(h.cfg, s, h.heap[q]);
      StepGrows(h.cfg, s, h.heap[q]);
      StepSimple(h, s, h.heap[q]);
      forall o: Obj | Carries(h, s', o) ensures OnLap(h, s', q + 1, o, false) {
        OnLapStep(h, s, q, o, false);
      }
      forall o <- early ensures Carries(h, s', o) && OnLap(h, s', q + 1, o, true) {
        assert NodeGrows(s.nodes[s.tags[o]], s'.nodes[s.tags[o]]);
        OnLapStep(h, s, q, o, true);
      }
      VisitReady(h, s', q + 1, early);
    }
  }

  /** At the beginning of a pass every tainted object is early. */
  ghost predicate Begun(h: Hunt, s: State) {
    Simple(h, s) && forall o: Obj | Carries(h, s, o) :: OnLap(h, s, 0, o, true)
  }

  /** A pass deals with every passable reference to the objects that were tainted when it began. */
  lemma PassReady(h: Hunt, s: State)
    requires Begun(h, s)
    ensures Begun(h, Pass(h.cfg, s, h.heap))
    ensures forall o: Obj | Carries(h, s, o) :: AllProcessed(h, Pass(h.cfg, s, h.heap), h.heap, o)
  {
    var r := Reset(s);
    var early := set o <- s.tags | Carries(h, s, o);
    ResetReady(h, s, early);
    VisitReady(h, r, 0, early);
    var s' := Pass(h.cfg, s, h.heap);
    forall o: Obj | Carries(h, s', o) ensures OnLap(h, s', 0, o, true) {
      NextLap(h, s', o);
    }
    forall o: Obj | Carries(h, s, o) ensures AllProcessed(h, s', h.heap, o) {
      assert o in early;
      OnLapEnds(h, s', o);
    }
  }

  lemma ResetReady(h: Hunt, s: State, early: set<Obj>)
    requires Begun(h, s) && forall o: Obj :: o in early <==> Carries(h, s, o)
    ensures Ready(h, Reset(s), 0, early)
  {
    ResetSimple(h, s);
    forall o: Obj | Carries(h, Reset(s), o) ensures OnLap(h, Reset(s), 0, o, true) {
      assert Carries(h, s, o);
      ResetLap(h, s, o);
    }
  }

  lemma ResetSimple(h: Hunt, s: State)
    requires Simple(h, s)
    ensures Simple(h, Reset(s))
  {
    ResetInv(h.cfg, s);
    forall k: NodeId | k < |s.nodes| && (s.nodes[k].fanIn != [] || s.nodes[k].refs != [])
      ensures Touched(h, Reset(s), k)
    {
      assert Touched(h, s, k);
    }
  }

  lemma ResetLap(h: Hunt, s: State, o: Obj)
    requires Inv(h.cfg, s) && Inv(h.cfg, Reset(s)) && o in s.tags && OnLap(h, s, 0, o, true)
    ensures OnLap(h, Reset(s), 0, o, true)
  {
    if AllProcessed(h, s, h.heap, o) {
      PartGrows(h, s, Reset(s), h.heap, o);
    } else {
      var a: nat, b: nat :| Lap(h, s, 0, o, a, b) && a == 0;
      PartGrows(h, s, Reset(s), h.heap[a..0], o);
      PartGrows(h, s, Reset(s), h.heap[b..], o);
      assert Lap(h, Reset(s), 0, o, a, b);
    }
  }

  /** A lap that a pass began goes on in the next pass. */
  lemma NextLap(h: Hunt, s: State, o: Obj)
    requires Inv(h.cfg, s) && o in s.tags && OnLap(h, s, |h.heap|, o, false)
    ensures OnLap(h, s, 0, o, true)
  {
    if !AllProcessed(h, s, h.heap, o) {
      var a: nat, b: nat :| Lap(h, s, |h.heap|, o, a, b);
      assert h.heap[b..] == [] && h.heap[a..|h.heap|] == h.heap[a..] && h.heap[0..0] == [];
      assert Lap(h, s, 0, o, 0, a);
    }
  }

  /** A pass that finds no new node for the leak and leaves it unfinished moves its bit nowhere. */
  lemma {:induction false} IdleBit(h: Hunt, s: State, q: nat, last: State)
    requires Simple(h, s) && q <= |h.heap| && last == Visit(h.cfg, s, h.heap, q) && Inv(h.cfg, last)
    requires h.leak !in last.finished.raw && last.found[h.leak] == s.found[h.leak]
    ensures forall o: Obj | Carries(h, last, o) :: Carries(h, s, o)
    decreases |h.heap| - q
  {
    if q < |h.heap| {
      var s1 := Step(h.cfg, s, h.heap[q]);
      StepSimple(h, s, h.heap[q]);
      IdleBitStep(h, s, q, last);
      IdleBit(h, s1, q + 1, last);
      SameBit(h, s, h.heap[q]);
    }
  }

  /** The leak's target was not accepted, or it would have counted. */
  lemma IdleBitStep(h: Hunt, s: State, q: nat, last: State)
    requires Simple(h, s) && q < |h.heap| && last == Visit(h.cfg, s, h.heap, q) && Inv(h.cfg, last)
    requires Inv(h.cfg, Step(h.cfg, s, h.heap[q]))
    requires h.leak !in last.finished.raw && last.found[h.leak] == s.found[h.leak]
    ensures Judge(h.cfg, s, h.heap[q]) == Accept ==> !Carries(h, s, h.heap[q].target)
    ensures last.found[h.leak] == Step(h.cfg, s, h.heap[q]).found[h.leak]
  {
    var r := h.heap[q];
    VisitFacts(h.cfg, s, h.heap, q);
    FoundChanges(h.cfg, s, r);
    VisitFound(h.cfg, Step(h.cfg, s, r), h.heap, q + 1);
    if Judge(h.cfg, s, r) == Accept && Carries(h, s, r.target) {
      CarrierCounts(h, s, r.target);
    }
  }

  /** The bit of the leak counts on every node that has it. */
  lemma CarrierCounts(h: Hunt, s: State, o: Obj)
    requires Simple(h, s) && h.leak !in s.finished.raw && Carries(h, s, o)
    ensures Contains(s.nodes[s.tags[o]].leaks, h.leak)
  {
    AloneHasRoom(h);
    HolderHasRoom(h.cfg, h.s0, s, h.heap, h.leak, s.tags[o]);
  }

  lemma SameBit(h: Hunt, s: State, r: HeapRef)
    requires Inv(h.cfg, s) && WellShaped(r) && (Judge(h.cfg, s, r) == Accept ==> !Carries(h, s, r.target))
    ensures forall o: Obj | Carries(h, Step(h.cfg, s, r), o) :: Carries(h, s, o)
  {
    var s' := Step(h.cfg, s, r);
    StepGrows(h.cfg, s, r);
    forall o: Obj | Carries(h, s', o) ensures Carries(h, s, o) {
      var k := s'.tags[o];
      StepNode(h.cfg, s, r, k);
      assert k < |s.nodes| && s.owner[k] == s'.owner[k] == o;
    }
  }

  lemma IdlePass(h: Hunt, s: State)
    requires Simple(h, s)
    ensures Inv(h.cfg, Pass(h.cfg, s, h.heap))
    ensures var s' := Pass(h.cfg, s, h.heap);
            || h.leak in s'.finished.raw || HasUnfinished(h.cfg, s')
            || forall o: Obj | Carries(h, s', o) :: Carries(h, s, o)
  {
    PassFacts(h.cfg, s, h.heap);
    ResetSimple(h, s);
    var s' := Pass(h.cfg, s, h.heap);
    UnfinishedOrSettled(h.cfg, s');
    if h.leak !in s'.finished.raw && !HasUnfinished(h.cfg, s') {
      IdleBit(h, Reset(s), 0, s');
      assert forall o: Obj | Carries(h, Reset(s), o) :: Carries(h, s, o);
    }
  }

  // ---- Chains ----

  /** Were a pass to leave the leak unfinished without new nodes, all of the chain would have been tainted before. */
  lemma {:induction false} NoDeadEnd(h: Hunt, s: State, o: Obj, chain: seq<HeapRef>)
    requires Begun(h, s) && Carries(h, s, o) && HeapChain(h, o, chain)
    ensures Inv(h.cfg, Pass(h.cfg, s, h.heap))
    ensures h.leak in Pass(h.cfg, s, h.heap).finished.raw || HasUnfinished(h.cfg, Pass(h.cfg, s, h.heap))
    decreases |chain|
  {
    IdlePass(h, s);
    FirstProcessed(h, s, o, chain);
    if h.leak !in Pass(h.cfg, s, h.heap).finished.raw && !HasUnfinished(h.cfg, Pass(h.cfg, s, h.heap)) {
      NoDeadEnd(h, s, chain[1].target, chain[1..]);
    }
  }

  /** After a pass, the leak is finished or the rest of the chain starts at a tainted object. */
  lemma FirstProcessed(h: Hunt, s: State, o: Obj, chain: seq<HeapRef>)
    requires Begun(h, s) && Carries(h, s, o) && HeapChain(h, o, chain)
    ensures Begun(h, Pass(h.cfg, s, h.heap))
    ensures || h.leak in Pass(h.cfg, s, h.heap).finished.raw
            || (&& |chain| > 1 && Carries(h, Pass(h.cfg, s, h.heap), chain[1].target)
                && HeapChain(h, chain[1].target, chain[1..]))
  {
    PassReady(h, s);
    var s' := Pass(h.cfg, s, h.heap);
    assert AllProcessed(h, s', h.heap, o);
    assert Processed(h, s', chain[0]);
    if h.leak !in s'.finished.raw {
      RestOfChain(h, o, chain);
    }
  }

  lemma RestOfChain(h: Hunt, o: Obj, chain: seq<HeapRef>)
    requires HeapChain(h, o, chain) && !IsRootReference(chain[0].kind)
    ensures |chain| > 1 && HeapChain(h, chain[1].target, chain[1..])
  {
  }

  /** At the beginning of a pass, `o` is tainted and the rest of the chain begins there. */
  ghost predicate OnChain(h: Hunt, s: State, o: Obj, chain: seq<HeapRef>) {
    Begun(h, s) && Carries(h, s, o) && HeapChain(h, o, chain)
  }

  ghost predicate NextOnChain(h: Hunt, s: State, chain: seq<HeapRef>) {
    |chain| > 1 && OnChain(h, s, chain[1].target, chain[1..])
  }

  lemma ChainStep(h: Hunt, s: State, o: Obj, chain: seq<HeapRef>)
    requires OnChain(h, s, o, chain)
    ensures Inv(h.cfg, s) && Shaped(h.heap) && Inv(h.cfg, Pass(h.cfg, s, h.heap))
    ensures || h.leak in Pass(h.cfg, s, h.heap).finished.raw
            || (HasUnfinished(h.cfg, Pass(h.cfg, s, h.heap)) && NextOnChain(h, Pass(h.cfg, s, h.heap), chain))
  {
    FirstProcessed(h, s, o, chain);
    NoDeadEnd(h, s, o, chain);
  }

  lemma {:induction false} ChainFound(h: Hunt, s: State, o: Obj, chain: seq<HeapRef>, left: nat)
    requires OnChain(h, s, o, chain) && |chain| <= left
    ensures Finishes(h, s, left)
    decreases left
  {
    ChainStep(h, s, o, chain);
    var s' := Pass(h.cfg, s, h.heap);
    if h.leak !in s'.finished.raw {
      ChainFound(h, s', chain[1].target, chain[1..], left - 1);
    }
  }

  /** One of at most `left` passes finishes the leak, and the loop goes on until then. */
  predicate Finishes(h: Hunt, s: State, left: nat)
    decreases left
  {
    && Inv(h.cfg, s) && Shaped(h.heap) && left > 0 && Inv(h.cfg, Pass(h.cfg, s, h.heap))
    && (|| h.leak in Pass(h.cfg, s, h.heap).finished.raw
        || (HasUnfinished(h.cfg, Pass(h.cfg, s, h.heap)) && Finishes(h, Pass(h.cfg, s, h.heap), left - 1)))
  }

  lemma {:induction false} FinishedByLoop(h: Hunt, s: State, left: nat)
    requires Finishes(h, s, left)
    ensures h.leak in PassLoop(h.cfg, s, h.heap, left).finished.raw
    decreases left
  {
    var s' := Pass(h.cfg, s, h.heap);
    if h.leak !in s'.finished.raw {
      FinishedByLoop(h, s', left - 1);
    } else if HasUnfinished(h.cfg, s') {
      PassLoopFacts(h.cfg, s', h.heap, left - 1);
    }
  }

  lemma StartBegun(h: Hunt)
    requires Start(h.cfg, h.s0) && Shaped(h.heap) && Alone(h)
    ensures Begun(h, h.s0)
  {
    StartHeld(h.cfg, h.s0, h.heap);
    forall o: Obj | Carries(h, h.s0, o) ensures OnLap(h, h.s0, 0, o, true) {
      assert Lap(h, h.s0, 0, o, 0, |h.heap|);
    }
  }

  /** If some chain of `d` heap references that the callback may follow leads from the leak to a root, `d` passes finish
      the leak, and the loop does not stop before that; other leaks do not matter unless some object holds them both. */
  lemma ChainLengthIsDistance(h: Hunt, chain: seq<HeapRef>, left: nat)
    requires Start(h.cfg, h.s0) && Shaped(h.heap) && Alone(h)
    requires HeapChain(h, h.s0.owner[h.leak], chain) && |chain| <= left
    ensures h.leak in PassLoop(h.cfg, h.s0, h.heap, left).finished.raw
  {
    StartBegun(h);
    assert h.leak in h.s0.nodes[h.leak].leaks.raw && h.s0.tags[h.s0.owner[h.leak]] == h.leak;
    ChainFound(h, h.s0, h.s0.owner[h.leak], chain, left);
    FinishedByLoop(h, h.s0, left);
  }

  /** A single leak is alone. */
  lemma OneIsAlone(h: Hunt)
    requires Inv(h.cfg, h.s0) && h.cfg.leaks == 1 && h.leak == 0
    ensures Alone(h)
  {
  }
}
