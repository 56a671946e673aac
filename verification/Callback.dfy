/** What one callback does, said once more without the functions of Recording.dfy: in terms of tags, kinds, lists, bits
    and counters.  The two descriptions are proved equal; so are their consequences for whole runs. */
module Callback {
  import opened Wrappers
  import opened LeakBits
  import opened DataStruct
  import opened Recording
  import opened Taint
  import opened Holding
  import opened Passes
  import opened Fatal

  // ---- What the callback looks at ----

  /** The kinds of references that are no heap roots. */
  predicate Inner(kind: Kind) {
    kind in {ClassRef, Field, ArrayElement, ClassLoader, Signers, ProtectionDomain, Interface, Superclass}
  }

  predicate Local(kind: Kind) { kind in {StackLocal, JniLocal} }

  function TargetNode(s: State, r: HeapRef): Node
    requires r.target in s.tags && s.tags[r.target] < |s.nodes|
  {
    s.nodes[s.tags[r.target]]
  }

  /** The target and its class are tagged, the referrer is no local of the agent's thread, and the target carries a leak
      that is not finished. */
  predicate Looks(cfg: Config, s: State, r: HeapRef) {
    && r.target in s.tags && s.tags[r.target] < |s.nodes|
    && r.target in cfg.classOf && cfg.classOf[r.target] in s.tags
    && !(Local(r.kind) && r.info.Some? && r.info.value.thread == cfg.thread)
    && exists i <- TargetNode(s, r).leaks.raw :: i !in s.finished.raw
  }

  /** The class of the referrer is tagged. */
  predicate KnowsClass(cfg: Config, s: State, r: HeapRef) {
    r.referrer.Some? && r.referrer.value in cfg.classOf && cfg.classOf[r.referrer.value] in s.tags
  }

  /** With this reference, as many as `maxFanIn` have come from instances of its referrer's class. */
  predicate Crowds(cfg: Config, s: State, r: HeapRef)
    requires r.target in s.tags && s.tags[r.target] < |s.nodes|
  {
    KnowsClass(cfg, s, r) && CountOf(TargetNode(s, r).fanIn, cfg.classOf[r.referrer.value]) + 1 >= cfg.maxFanIn
  }

  /** An ignore entry of the class (for a field) or of the referrer itself (for a static field) has the number of the
      field, and its threshold is above the size of the target's node. */
  predicate Forbids(cfg: Config, s: State, r: HeapRef)
    requires TagsOk(s) && r.target in s.tags && r.info.Some?
  {
    || (r.kind == Field && KnowsClass(cfg, s, r)
        && exists g <- s.nodes[s.tags[cfg.classOf[r.referrer.value]]].ignore ::
             g.field == r.info.value.index && TargetNode(s, r).size < g.threshold)
    || (r.kind == StaticField && r.referrer.Some? && r.referrer.value in s.tags
        && exists g <- s.nodes[s.tags[r.referrer.value]].ignore ::
             g.field == r.info.value.index && TargetNode(s, r).size < g.threshold)
  }

  predicate MayFollow(cfg: Config, s: State, r: HeapRef)
    requires TagsOk(s)
  {
    Looks(cfg, s, r) && !Crowds(cfg, s, r) && (r.info.Some? ==> !Forbids(cfg, s, r))
  }

  /** The reference is in the list of its target, with its kind, its information and its referrer. */
  predicate Listed(s: State, r: HeapRef) {
    && r.target in s.tags && s.tags[r.target] < |s.nodes|
    && (r.referrer.Some? ==> r.referrer.value in s.tags)
    && exists ref <- TargetNode(s, r).refs ::
         && ref.kind == r.kind && (r.info.Some? ==> ref.info == r.info.value)
         && ref.node == if r.referrer.Some? then Some(s.tags[r.referrer.value]) else None
  }

  // ---- What it does ----

  /** The counters of the referrer's class: one more, and nothing else. */
  ghost predicate CountsOne(cfg: Config, s: State, r: HeapRef, s': State)
    requires r.target in s.tags && s.tags[r.target] < |s.nodes| <= |s'.nodes|
  {
    forall c: Obj :: CountOf(s'.nodes[s.tags[r.target]].fanIn, c) ==
                     CountOf(TargetNode(s, r).fanIn, c) +
                     if KnowsClass(cfg, s, r) && cfg.classOf[r.referrer.value] == c then 1 else 0
  }

  /** Only the counters have changed. */
  ghost predicate OnlyCounted(cfg: Config, s: State, r: HeapRef, s': State)
    requires r.target in s.tags && s.tags[r.target] < |s.nodes|
  {
    var t := s.tags[r.target];
    && |s'.nodes| == |s.nodes| && CountsOne(cfg, s, r, s')
    && s'.nodes[t] == s.nodes[t].(fanIn := s'.nodes[t].fanIn)
    && (forall k: NodeId | k < |s.nodes| && k != t :: s'.nodes[k] == s.nodes[k])
    && s'.owner == s.owner && s'.tags == s.tags && s'.finished == s.finished && s'.found == s.found
  }

  /** The node that the referrer has afterwards: a new one if it had none. */
  function ReferrerAt(s: State, r: HeapRef): Option<NodeId> {
    if r.referrer.None? then None
    else Some(if r.referrer.value in s.tags then s.tags[r.referrer.value] else |s.nodes|)
  }

  predicate IsNew(s: State, r: HeapRef) { r.referrer.Some? && r.referrer.value !in s.tags }

  /** Bit `i` lies in the bytes that bitsets of both sizes have. */
  predicate Shared(i: nat, a: nat, b: nat) { i / 8 <= a / 8 && i / 8 <= b / 8 }

  /** The new reference goes to the end of the target's list; no other list changes. */
  predicate Lists(s: State, r: HeapRef, s': State)
    requires r.target in s.tags && s.tags[r.target] < |s.nodes|
  {
    var t := s.tags[r.target];
    && |s'.nodes| == |s.nodes| + (if IsNew(s, r) then 1 else 0)
    && s'.nodes[t].refs ==
       TargetNode(s, r).refs + [Ref(r.kind, if r.info.Some? then r.info.value else Info(0, 0, 0), ReferrerAt(s, r))]
    && forall k: NodeId | k < |s'.nodes| && k != t :: s'.nodes[k].refs == if k < |s.nodes| then s.nodes[k].refs else []
  }

  /** The referrer gets the unfinished bits of the target, and its size if that is larger; nobody else gets anything. */
  ghost predicate Taints(cfg: Config, s: State, r: HeapRef, s': State)
    requires r.target in s.tags && s.tags[r.target] < |s.nodes|
    requires |s'.nodes| == |s.nodes| + (if IsNew(s, r) then 1 else 0)
  {
    && (forall k: NodeId, i: nat | k < |s'.nodes| ::
          i in s'.nodes[k].leaks.raw <==>
            || (k < |s.nodes| && i in s.nodes[k].leaks.raw)
            || (&& ReferrerAt(s, r) == Some(k) && i in TargetNode(s, r).leaks.raw && i !in s.finished.raw
                && Shared(i, s'.nodes[k].leaks.size, TargetNode(s, r).leaks.size)))
    && (forall k: NodeId | k < |s'.nodes| ::
          && s'.nodes[k].leaks.size == (if k < |s.nodes| then s.nodes[k].leaks.size else cfg.leaks)
          && s'.nodes[k].size == Larger(if k < |s.nodes| then s.nodes[k].size else 0,
                                        if ReferrerAt(s, r) == Some(k) then TargetNode(s, r).size else 0,
                                        ReferrerAt(s, r) == Some(k)))
  }

  function Larger(own: int, other: int, passed: bool): int { if passed && own < other then other else own }

  /** A root reference finishes the leaks of the target, an inner one none; each unfinished leak that the target has
      room for has one more node. */
  predicate Finishes(s: State, r: HeapRef, s': State)
    requires r.target in s.tags && s.tags[r.target] < |s.nodes|
  {
    && s'.finished.raw == s.finished.raw + (if Inner(r.kind) then {} else TargetNode(s, r).leaks.raw)
    && |s'.found| == |s.found| && forall i: nat | i < |s.found| ::
         s'.found[i] == s.found[i] +
           if i < TargetNode(s, r).leaks.size && i in TargetNode(s, r).leaks.raw && i !in s.finished.raw then 1 else 0
  }

  /** The referrer's node: tagged from now on, and referenced once more. */
  predicate Refers(s: State, r: HeapRef, s': State)
    requires |s'.nodes| == |s.nodes| + (if IsNew(s, r) then 1 else 0)
  {
    && s'.tags == (if IsNew(s, r) then s.tags[r.referrer.value := |s.nodes|] else s.tags)
    && s'.owner == (if IsNew(s, r) then s.owner + [r.referrer.value] else s.owner)
    && forall k: NodeId | k < |s'.nodes| ::
         s'.nodes[k].rc == if k == |s.nodes| then 1 else s.nodes[k].rc + if ReferrerAt(s, r) == Some(k) then 1 else 0
  }

  predicate EmptyNode(n: Node) {
    !n.visited && !n.dead && !n.isClass && n.obj == None && n.ignore == [] && n.fanIn == []
  }

  /** Nothing else changes, and a new node is otherwise empty. */
  predicate LeavesRest(s: State, r: HeapRef, s': State)
    requires r.target in s.tags
    requires |s'.nodes| == |s.nodes| + (if IsNew(s, r) then 1 else 0)
  {
    && s'.finished.size == s.finished.size
    && forall k: NodeId | k < |s'.nodes| ::
         var n := s'.nodes[k];
         if k < |s.nodes| then
           && n.visited == s.nodes[k].visited && n.dead == s.nodes[k].dead && n.isClass == s.nodes[k].isClass
           && n.obj == s.nodes[k].obj && n.ignore == s.nodes[k].ignore
           && (k != s.tags[r.target] ==> n.fanIn == s.nodes[k].fanIn)
         else EmptyNode(n)
  }

  ghost predicate Enters(cfg: Config, s: State, r: HeapRef, s': State)
    requires r.target in s.tags && s.tags[r.target] < |s.nodes|
  {
    && Lists(s, r, s') && CountsOne(cfg, s, r, s') && Taints(cfg, s, r, s')
    && Finishes(s, r, s') && Refers(s, r, s') && LeavesRest(s, r, s')
  }

  lemma KindsExactly(kind: Kind)
    ensures IsRootReference(kind) <==> !Inner(kind)
    ensures forall local: bool :: ShouldConsider(local, kind) <==> local || !Local(kind)
  {
  }

  lemma LooksExactly(cfg: Config, s: State, r: HeapRef)
    requires Inv(cfg, s)
    ensures Looks(cfg, s, r) <==> Wanted(cfg, s, r)
  {
    if r.target in s.tags {
      WantedExactly(cfg, s, r);
    }
  }

  /** The callback turns a reference down exactly if the fan-in limit is reached, an ignore entry forbids it, or it
      is in the list already. */
  lemma JudgesExactly(cfg: Config, s: State, r: HeapRef)
    requires Inv(cfg, s) && WellShaped(r)
    ensures Judge(cfg, s, r) == Ignore <==> !Looks(cfg, s, r)
    ensures Judge(cfg, s, r) == Accept <==> MayFollow(cfg, s, r) && !(r.referrer.Some? && Listed(s, r))
  {
    LooksExactly(cfg, s, r);
    if Looks(cfg, s, r) {
      KnownExactly(cfg, s, r);
      assert OverFanIn(cfg, s, r) <==> Crowds(cfg, s, r);
      assert IgnoredField(cfg, s, r) <==> r.info.Some? && Forbids(cfg, s, r);
    }
  }

  lemma KnownExactly(cfg: Config, s: State, r: HeapRef)
    requires Inv(cfg, s) && r.target in s.tags
    ensures Duplicate(cfg, s, r) <==> r.referrer.Some? && Listed(s, r)
  {
  }

  lemma CountedExactly(cfg: Config, s: State, r: HeapRef)
    requires Inv(cfg, s) && r.target in s.tags
    ensures OnlyCounted(cfg, s, r, Counted(cfg, s, r))
  {
    if ClassTagged(cfg, s, r) {
      forall c: Obj
        ensures CountOf(Bump(TargetNode(s, r).fanIn, ClassObj(cfg, r)), c) ==
                CountOf(TargetNode(s, r).fanIn, c) + if ClassObj(cfg, r) == c then 1 else 0
      {
        BumpCounts(TargetNode(s, r).fanIn, ClassObj(cfg, r), c);
      }
    }
  }

  /** What recording leaves of one node, apart from counters. */
  predicate NodeRecorded(cfg: Config, s: State, r: HeapRef, k: NodeId, n: Node)
    requires r.target in s.tags && s.tags[r.target] < |s.nodes| && k <= |s.nodes|
  {
    var from, passed := TargetNode(s, r), ReferrerAt(s, r) == Some(k);
    var own := if k < |s.nodes| then s.nodes[k] else NewNode(cfg.leaks);
    && n.refs == own.refs + (if k == s.tags[r.target] then [RefTo(s, r)] else [])
    && n.leaks.size == own.leaks.size && n.size == Larger(own.size, from.size, passed)
    && n.rc == own.rc + (if passed && k < |s.nodes| then 1 else 0)
    && n.leaks.raw == own.leaks.raw +
         set i | i in from.leaks.raw && passed && i !in s.finished.raw && Shared(i, own.leaks.size, from.leaks.size)
  }

  function RefTo(s: State, r: HeapRef): Ref {
    Ref(r.kind, if r.info.Some? then r.info.value else Info(0, 0, 0), ReferrerAt(s, r))
  }

  lemma NodeRecordedExactly(cfg: Config, s: State, r: HeapRef, k: NodeId)
    requires Inv(cfg, s) && r.target in s.tags && k <= |s.nodes| && (k == |s.nodes| ==> IsNew(s, r))
    ensures NodeRecorded(cfg, s, r, k, NodeAfter(cfg, s, r, k))
  {
    var own := if k < |s.nodes| then s.nodes[k] else NewNode(cfg.leaks);
    FlowExactly(own.leaks, TargetNode(s, r).leaks, s.finished);
  }

  lemma FlowExactly(to: Bits, from: Bits, finished: Bits)
    ensures Flow(to, from, finished) ==
            set i | i in from.raw && i !in finished.raw && Shared(i, to.size, from.size)
  {
    forall i: nat ensures i < Common(to, from) <==> Shared(i, to.size, from.size) {
    }
  }

  lemma RecordedNodes(cfg: Config, s: State, r: HeapRef)
    requires Inv(cfg, s) && Judge(cfg, s, r) == Accept
    ensures r.target in s.tags && s.tags[r.target] < |s.nodes|
    ensures AllRecorded(cfg, s, r, Step(cfg, s, r))
  {
    var s' := Step(cfg, s, r);
    CountedInv(cfg, s, r);
    LinkedNodes(cfg, Counted(cfg, s, r), r);
    forall k: NodeId | k < |s'.nodes| ensures k <= |s.nodes| && NodeRecorded(cfg, s, r, k, s'.nodes[k]) {
      AcceptedNode(cfg, s, r, k);
      NodeRecordedExactly(cfg, s, r, k);
    }
  }

  predicate AllRecorded(cfg: Config, s: State, r: HeapRef, s': State)
    requires r.target in s.tags && s.tags[r.target] < |s.nodes|
  {
    && |s'.nodes| == |s.nodes| + (if IsNew(s, r) then 1 else 0)
    && forall k: NodeId | k < |s'.nodes| :: NodeRecorded(cfg, s, r, k, s'.nodes[k])
  }

  lemma RecordedTaints(cfg: Config, s: State, r: HeapRef, s': State)
    requires Inv(cfg, s) && r.target in s.tags && AllRecorded(cfg, s, r, s')
    ensures Lists(s, r, s') && Taints(cfg, s, r, s')
  {
    assert NodeRecorded(cfg, s, r, s.tags[r.target], s'.nodes[s.tags[r.target]]);
    forall k: NodeId | k < |s'.nodes| && k != s.tags[r.target]
      ensures s'.nodes[k].refs == if k < |s.nodes| then s.nodes[k].refs else []
    {
      assert NodeRecorded(cfg, s, r, k, s'.nodes[k]);
    }
  }

  lemma RecordedFinishes(cfg: Config, s: State, r: HeapRef)
    requires Inv(cfg, s) && Judge(cfg, s, r) == Accept && s.tags[r.target] < |s.nodes|
    ensures Finishes(s, r, Step(cfg, s, r))
  {
    CountedInv(cfg, s, r);
    LinkedRest(cfg, Counted(cfg, s, r), r);
    KindsExactly(r.kind);
  }

  lemma RecordedTable(cfg: Config, s: State, r: HeapRef)
    requires Inv(cfg, s) && Judge(cfg, s, r) == Accept
    ensures Step(cfg, s, r).tags == if IsNew(s, r) then s.tags[r.referrer.value := |s.nodes|] else s.tags
    ensures Step(cfg, s, r).owner == if IsNew(s, r) then s.owner + [r.referrer.value] else s.owner
  {
    CountedInv(cfg, s, r);
    LinkedRest(cfg, Counted(cfg, s, r), r);
    assert IsNew(s, r) <==> ReferrerNode(s, r) == Some(|s.nodes|);
  }

  lemma RecordedRefers(cfg: Config, s: State, r: HeapRef, s': State)
    requires Inv(cfg, s) && Judge(cfg, s, r) == Accept && AllRecorded(cfg, s, r, s') && s' == Step(cfg, s, r)
    ensures Refers(s, r, s')
  {
    RecordedTable(cfg, s, r);
    forall k: NodeId | k < |s'.nodes| ensures NodeRecorded(cfg, s, r, k, s'.nodes[k]) {
    }
  }

  lemma RecordedCounts(cfg: Config, s: State, r: HeapRef)
    requires Inv(cfg, s) && Judge(cfg, s, r) == Accept && s.tags[r.target] < |s.nodes| <= |Step(cfg, s, r).nodes|
    ensures CountsOne(cfg, s, r, Step(cfg, s, r))
  {
    CountedInv(cfg, s, r);
    LinkedNode(cfg, Counted(cfg, s, r), r, s.tags[r.target]);
    CountedExactly(cfg, s, r);
  }

  /** An accepted callback. */
  lemma AcceptedRecords(cfg: Config, s: State, r: HeapRef)
    requires Inv(cfg, s) && WellShaped(r) && Judge(cfg, s, r) == Accept
    ensures r.target in s.tags && s.tags[r.target] < |s.nodes| && Enters(cfg, s, r, Step(cfg, s, r))
  {
    RecordedNodes(cfg, s, r);
    RecordedTaints(cfg, s, r, Step(cfg, s, r));
    RecordedFinishes(cfg, s, r);
    RecordedRefers(cfg, s, r, Step(cfg, s, r));
    RecordedCounts(cfg, s, r);
    RecordedLeavesRest(cfg, s, r, Step(cfg, s, r));
  }

  predicate LeftAt(s: State, r: HeapRef, s': State, k: NodeId)
    requires k < |s'.nodes| && r.target in s.tags
  {
    if k < |s.nodes| then
      NodeGrows(s.nodes[k], s'.nodes[k]) && (k != s.tags[r.target] ==> s'.nodes[k].fanIn == s.nodes[k].fanIn)
    else EmptyNode(s'.nodes[k])
  }

  lemma RecordedLeaves(cfg: Config, s: State, r: HeapRef, k: NodeId)
    requires Inv(cfg, s) && Judge(cfg, s, r) == Accept && k < |Step(cfg, s, r).nodes|
    ensures LeftAt(s, r, Step(cfg, s, r), k)
  {
    CountedInv(cfg, s, r);
    CountedGrows(cfg, s, r);
    AcceptedNode(cfg, s, r, k);
    if k < |s.nodes| {
      NodeAfterGrows(cfg, Counted(cfg, s, r), r, k);
    }
  }

  lemma RecordedLeavesRest(cfg: Config, s: State, r: HeapRef, s': State)
    requires Inv(cfg, s) && Judge(cfg, s, r) == Accept && s' == Step(cfg, s, r)
    requires s.tags[r.target] < |s.nodes| && |s'.nodes| == |s.nodes| + (if IsNew(s, r) then 1 else 0)
    ensures LeavesRest(s, r, s')
  {
    CountedInv(cfg, s, r);
    LinkedRest(cfg, Counted(cfg, s, r), r);
    forall k: NodeId | k < |s'.nodes| ensures LeftAt(s, r, s', k) {
      RecordedLeaves(cfg, s, r, k);
    }
    RestLeft(s, r, s');
  }

  lemma RestLeft(s: State, r: HeapRef, s': State)
    requires r.target in s.tags && |s'.nodes| == |s.nodes| + (if IsNew(s, r) then 1 else 0)
    requires s'.finished.size == s.finished.size && forall k: NodeId | k < |s'.nodes| :: LeftAt(s, r, s', k)
    ensures LeavesRest(s, r, s')
  {
    forall k: NodeId | k < |s'.nodes|
      ensures k >= |s.nodes| ==> EmptyNode(s'.nodes[k])
      ensures k < |s.nodes| ==> NodeGrows(s.nodes[k], s'.nodes[k])
      ensures k < |s.nodes| && k != s.tags[r.target] ==> s'.nodes[k].fanIn == s.nodes[k].fanIn
    {
      assert LeftAt(s, r, s', k);
    }
  }

  /** The whole callback: it looks at a reference or not; what it looks at is counted; and what neither the fan-in limit
      nor an ignore entry forbids is recorded, unless the list has it already. */
  lemma CallbackExactly(cfg: Config, s: State, r: HeapRef)
    requires Inv(cfg, s) && WellShaped(r)
    ensures var s' := Step(cfg, s, r);
            if !Looks(cfg, s, r) then s' == s
            else if MayFollow(cfg, s, r) && !(r.referrer.Some? && Listed(s, r)) then Enters(cfg, s, r, s')
            else OnlyCounted(cfg, s, r, s')
  {
    JudgesExactly(cfg, s, r);
    if Judge(cfg, s, r) == Accept {
      AcceptedRecords(cfg, s, r);
    } else if Looks(cfg, s, r) {
      CountedExactly(cfg, s, r);
    }
  }

  // ---- Over a run ----

  lemma ListedGrows(s: State, s': State, r: HeapRef)
    requires Grows(s, s') && Listed(s, r)
    ensures Listed(s', r)
  {
    assert NodeGrows(TargetNode(s, r), TargetNode(s', r));
  }

  /** What the callback may follow is in the list after it. */
  lemma FollowedIsListed(cfg: Config, s: State, r: HeapRef)
    requires Inv(cfg, s) && WellShaped(r) && MayFollow(cfg, s, r)
    ensures Listed(Step(cfg, s, r), r)
  {
    CallbackExactly(cfg, s, r);
    StepGrows(cfg, s, r);
    if r.referrer.Some? && Listed(s, r) {
      ListedGrows(s, Step(cfg, s, r), r);
    } else {
      var refs := Step(cfg, s, r).nodes[s.tags[r.target]].refs;
      assert refs[|refs| - 1] == RefTo(s, r);
    }
  }

  /** A callback of the run could follow its reference, which is in the list of its target at the end. */
  ghost predicate Kept(cfg: Config, e: Event, last: State) {
    Inv(cfg, e.before) && WellShaped(e.r) && (MayFollow(cfg, e.before, e.r) ==> Listed(last, e.r))
  }

  lemma {:induction false} VisitKeeps(cfg: Config, s: State, heap: seq<HeapRef>, from: nat, k: nat)
    requires Inv(cfg, s) && Shaped(heap) && from <= |heap| && k < |VisitEvents(cfg, s, heap, from)|
    ensures Kept(cfg, VisitEvents(cfg, s, heap, from)[k], Visit(cfg, s, heap, from))
    decreases |heap| - from
  {
    var s1 := Step(cfg, s, heap[from]);
    StepInv(cfg, s, heap[from]);
    if k > 0 {
      VisitKeeps(cfg, s1, heap, from + 1, k - 1);
    } else if MayFollow(cfg, s, heap[from]) {
      FollowedIsListed(cfg, s, heap[from]);
      VisitFacts(cfg, s1, heap, from + 1);
      ListedGrows(s1, Visit(cfg, s, heap, from), heap[from]);
    }
  }

  /** Recording is complete: whatever reference a callback of the run could follow (its target carries an unfinished
      leak, and neither the fan-in limit nor an ignore entry forbids it) is in the list of its target in the end,
      with its kind, its information and its referrer. */
  lemma {:induction false} LoopKeeps(cfg: Config, s: State, heap: seq<HeapRef>, left: nat, k: nat)
    requires Inv(cfg, s) && Shaped(heap) && k < |LoopEvents(cfg, s, heap, left)|
    ensures Kept(cfg, LoopEvents(cfg, s, heap, left)[k], PassLoop(cfg, s, heap, left))
    decreases left
  {
    PassFacts(cfg, s, heap);
    ResetInv(cfg, s);
    var s', n := Pass(cfg, s, heap), |VisitEvents(cfg, Reset(s), heap, 0)|;
    if k < n {
      VisitKeeps(cfg, Reset(s), heap, 0, k);
      if HasUnfinished(cfg, s') {
        PassLoopFacts(cfg, s', heap, left - 1);
        KeptGrows(cfg, VisitEvents(cfg, Reset(s), heap, 0)[k], s', PassLoop(cfg, s', heap, left - 1));
      }
    } else {
      LoopKeeps(cfg, s', heap, left - 1, k - n);
    }
  }

  lemma KeptGrows(cfg: Config, e: Event, s: State, s': State)
    requires Kept(cfg, e, s) && Grows(s, s')
    ensures Kept(cfg, e, s')
  {
    if Listed(s, e.r) {
      ListedGrows(s, s', e.r);
    }
  }

  /** When the loop has ended by its own test, and refusals last, the lists are complete: every reference of the
      heap that could be followed then is in one. */
  lemma EndIsComplete(cfg: Config, s: State, heap: seq<HeapRef>, left: nat)
    requires Start(cfg, s) && Shaped(heap) && EndsItself(cfg, s, heap, left) && ExitSafe(cfg, s, heap)
    ensures var last := PassLoop(cfg, s, heap, left);
            forall r <- heap | MayFollow(cfg, last, r) :: Listed(last, r)
  {
    var last := PassLoop(cfg, s, heap, left);
    StartReachable(cfg, s, heap);
    LoopEndsSilent(cfg, s, s, heap, left);
    forall r <- heap | MayFollow(cfg, last, r) ensures Listed(last, r) {
      JudgesExactly(cfg, last, r);
    }
  }

  /** A pass is the callbacks for the heap's references in order, on cleared counters. */
  lemma {:induction false} VisitInOrder(cfg: Config, s: State, heap: seq<HeapRef>, r: HeapRef, from: nat)
    requires Inv(cfg, s) && Shaped(heap) && Shaped(heap + [r]) && WellShaped(r) && from <= |heap|
    ensures Inv(cfg, Visit(cfg, s, heap, from))
    ensures Visit(cfg, s, heap + [r], from) == Step(cfg, Visit(cfg, s, heap, from), r)
    decreases |heap| - from
  {
    VisitFacts(cfg, s, heap, from);
    if from < |heap| {
      StepInv(cfg, s, heap[from]);
      VisitInOrder(cfg, Step(cfg, s, heap[from]), heap, r, from + 1);
    }
  }

  lemma PassInOrder(cfg: Config, s: State, heap: seq<HeapRef>, r: HeapRef)
    requires Inv(cfg, s) && Shaped(heap) && WellShaped(r)
    ensures Shaped(heap + [r]) && Inv(cfg, Pass(cfg, s, heap))
    ensures Pass(cfg, s, []) == s.(found := seq(|s.found|, _ => 0))
    ensures Pass(cfg, s, heap + [r]) == Step(cfg, Pass(cfg, s, heap), r)
  {
    ResetInv(cfg, s);
    assert Shaped(heap + [r]);
    VisitInOrder(cfg, Reset(s), heap, r, 0);
  }

  /** The loop ends after a pass exactly if the cap is reached or every leak is finished or has no new node. */
  lemma LoopGoesOn(cfg: Config, s: State, heap: seq<HeapRef>, left: nat)
    requires Inv(cfg, s) && Shaped(heap) && left > 0
    ensures Inv(cfg, Pass(cfg, s, heap)) && |Pass(cfg, s, heap).found| == cfg.leaks && PassLoop(cfg, s, heap, 0) == s
    ensures var s' := Pass(cfg, s, heap);
            PassLoop(cfg, s, heap, left) ==
            if forall i: nat | i < cfg.leaks :: i in s'.finished.raw || s'.found[i] == 0 then s'
            else PassLoop(cfg, s', heap, left - 1)
  {
    PassFacts(cfg, s, heap);
    UnfinishedOrSettled(cfg, Pass(cfg, s, heap));
  }
}
