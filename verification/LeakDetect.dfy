/** Leak detection as the agent runs it (`leak_detect.c`): nodes, bitsets, counters and tags are updated in place.  The
    methods are proved equal to the functions of Recording.dfy.  `cbObjectTagReferrer` is cut into small methods, from
    CountReferrer to CountNodesFound. */
module LeakDetect {
  import opened Wrappers
  import opened LeakBits
  import opened DataStruct
  import opened Recording
  import opened Taint
  import opened Fatal
  import opened NodeMemory

  /** The checks of the callback that need the referrer's node. */
  predicate Refused(cfg: Config, s: State, r: HeapRef)
    requires Inv(cfg, s) && r.target in s.tags
  {
    Duplicate(cfg, s, r) || (r.kind.StaticField? && IgnoredField(cfg, s, r))
  }

  /** Counting changes none of them. */
  lemma CountedJudges(cfg: Config, s: State, r: HeapRef)
    requires Inv(cfg, s) && r.target in s.tags
    ensures Inv(cfg, Counted(cfg, s, r)) && (Refused(cfg, Counted(cfg, s, r), r) <==> Refused(cfg, s, r))
  {
    CountedInv(cfg, s, r);
  }

  /** The tag of the referrer's class leads to a node that is no class node. */
  predicate Misplaced(cfg: Config, s: State, r: HeapRef)
    requires Inv(cfg, s)
  {
    ClassTagged(cfg, s, r) && !s.nodes[s.tags[ClassObj(cfg, r)]].isClass
  }

  /** What becomes of a reference once its count was taken. */
  function Admitted(cfg: Config, s: State, r: HeapRef): State
    requires Inv(cfg, s) && r.target in s.tags
  {
    if Refused(cfg, s, r) then s else Linked(cfg, s, r)
  }

  /** What becomes of a reference to a target with an unfinished leak. */
  function Handled(cfg: Config, s: State, r: HeapRef): State
    requires Inv(cfg, s) && r.target in s.tags
  {
    CountedInv(cfg, s, r);
    if OverFanIn(cfg, s, r) || (r.kind.Field? && IgnoredField(cfg, s, r)) then Counted(cfg, s, r)
    else Admitted(cfg, Counted(cfg, s, r), r)
  }

  lemma StepIsHandled(cfg: Config, s: State, r: HeapRef)
    requires Inv(cfg, s)
    ensures Wanted(cfg, s, r) ==> Step(cfg, s, r) == Handled(cfg, s, r)
  {
    if Wanted(cfg, s, r) {
      CountedJudges(cfg, s, r);
    }
  }

  /** What is left to do once the referrer has its node. */
  function Linking(s: State, r: HeapRef, target: NodeId, referrer: Option<NodeId>): State
    requires target < |s.nodes| && (referrer.Some? ==> referrer.value < |s.nodes|)
  {
    var ref := Ref(r.kind, if r.info.Some? then r.info.value else NO_INFO, referrer);
    var nodes1 := if referrer.None? then s.nodes
                  else s.nodes[referrer.value := Tainted(s.nodes[referrer.value], s.nodes[target], s.finished)];
    var nodes2 := nodes1[target := nodes1[target].(refs := nodes1[target].refs + [ref])];
    s.(nodes := nodes2,
       found := Found(s.found, nodes2[target].leaks, s.finished),
       finished := if IsRootReference(r.kind) then AddAll(s.finished, nodes2[target].leaks) else s.finished)
  }

  lemma LinkedIs(cfg: Config, s: State, r: HeapRef)
    requires Inv(cfg, s) && r.target in s.tags
    ensures var now, f := Attached(cfg, s, r), ReferrerNode(s, r);
            && (f.Some? ==> f.value < |now.nodes|) && s.tags[r.target] < |now.nodes|
            && Linked(cfg, s, r) == Linking(now, r, s.tags[r.target], f)
  {
  }

  /** Class nodes know their class. */
  predicate ClassesKnown(s: State) {
    |s.owner| == |s.nodes| &&
    forall k: NodeId | k < |s.nodes| :: s.nodes[k].isClass ==> s.nodes[k].obj == Some(s.owner[k])
  }

  lemma StepKnown(cfg: Config, s: State, r: HeapRef)
    requires Inv(cfg, s) && WellShaped(r) && ClassesKnown(s)
    ensures ClassesKnown(Step(cfg, s, r))
  {
    var s' := Step(cfg, s, r);
    StepGrows(cfg, s, r);
    forall k: NodeId | k < |s'.nodes| ensures s'.nodes[k].isClass ==> s'.nodes[k].obj == Some(s'.owner[k]) {
      if k < |s.nodes| {
        assert NodeGrows(s.nodes[k], s'.nodes[k]);
      } else {
        AcceptedNode(cfg, s, r, k);
      }
    }
  }

  lemma {:induction false} VisitKnown(cfg: Config, s: State, heap: seq<HeapRef>, from: nat)
    requires Inv(cfg, s) && Shaped(heap) && from <= |heap| && ClassesKnown(s)
    ensures ClassesKnown(Visit(cfg, s, heap, from))
    decreases |heap| - from
  {
    if from < |heap| {
      StepInv(cfg, s, heap[from]);
      StepKnown(cfg, s, heap[from]);
      VisitKnown(cfg, Step(cfg, s, heap[from]), heap, from + 1);
    }
  }

  /** What the callbacks find when they begin. */
  predicate Consistent(cfg: Config, s: State) { Inv(cfg, s) && ClassesKnown(s) }

  /** The callbacks from the `i`-th on lead to `all`, or one of them stops the process. */
  predicate VisitsTo(cfg: Config, s: State, heap: seq<HeapRef>, i: nat, all: State, stops: bool) {
    && Consistent(cfg, s) && Shaped(heap) && i <= |heap|
    && Visit(cfg, s, heap, i) == all && VisitStops(cfg, s, heap, i) == stops
  }

  lemma VisitsNext(cfg: Config, s: State, heap: seq<HeapRef>, i: nat, all: State, stops: bool)
    requires VisitsTo(cfg, s, heap, i, all, stops) && i < |heap|
    ensures WellShaped(heap[i])
    ensures if Stops(cfg, s, heap[i]) then stops else VisitsTo(cfg, Step(cfg, s, heap[i]), heap, i + 1, all, stops)
  {
    StepInv(cfg, s, heap[i]);
    StepKnown(cfg, s, heap[i]);
  }

  lemma VisitsEnd(cfg: Config, s: State, heap: seq<HeapRef>, all: State, stops: bool)
    requires VisitsTo(cfg, s, heap, |heap|, all, stops)
    ensures s == all && !stops
  {
  }

  /** Up to `left` more passes lead to `all`, or one of them stops the process. */
  predicate LoopsTo(cfg: Config, s: State, heap: seq<HeapRef>, left: int, all: State, stops: bool) {
    && Consistent(cfg, s) && Shaped(heap) && left >= 0
    && PassLoop(cfg, s, heap, left) == all && LoopStops(cfg, s, heap, left) == stops
  }

  lemma LoopsNext(cfg: Config, s: State, heap: seq<HeapRef>, left: int, all: State, stops: bool)
    requires LoopsTo(cfg, s, heap, left, all, stops) && left > 0
    ensures Consistent(cfg, Pass(cfg, s, heap))
    ensures var s' := Pass(cfg, s, heap);
            if PassStops(cfg, s, heap) then stops
            else if HasUnfinished(cfg, s') then LoopsTo(cfg, s', heap, left - 1, all, stops)
            else s' == all && !stops
  {
    PassFacts(cfg, s, heap);
    ResetInv(cfg, s);
    VisitKnown(cfg, Reset(s), heap, 0);
  }

  /** The agent's nodes, the JVM's tag table and `FollowReferencesData`.  `owner` is the inverse of the table. */
  class Detector {
    const td: ThreadData
    const nodesFound: array<nat>
    var tags: map<Obj, NodeId>
    ghost var owner: seq<Obj>
    var finished: Bits

    /** The value of what a pass works on. */
    ghost function St(): State
      reads this, td, td.nodes, nodesFound
    {
      State(Views(td.nodes), owner, tags, finished, nodesFound[..])
    }

    /** The nodes sit at their addresses, and each was counted when it was allocated. */
    ghost predicate Sound()
      reads this, td, td.nodes
    {
      Addressed(td.nodes) && td.nodesAllocated == |td.nodes|
    }

    /** `bitMaskSet_new` and `myAlloc` at the start of `tagReferencesChain`. */
    constructor (td: ThreadData, tags: map<Obj, NodeId>, ghost owner: seq<Obj>, leaks: nat)
      ensures this.td == td && fresh(nodesFound)
      ensures St() == State(Views(td.nodes), owner, tags, Empty(leaks), seq(leaks, _ => 0))
    {
      this.td, this.tags, this.owner, finished := td, tags, owner, Empty(leaks);
      nodesFound := new nat[leaks](_ => 0);
      new;
      assert nodesFound[..] == seq(leaks, _ => 0);
    }

    // ---- The callback ----

    /** `cbObjectTagReferrer`.  The JVM calls it for targets that its filters let through.  `stopped`: the process was
        stopped on the way. */
    method CbObjectTagReferrer(cfg: Config, r: HeapRef) returns (stopped: bool)
      requires Sound() && Consistent(cfg, St()) && WellShaped(r) && Reported(cfg, St(), r)
      modifies this, td, td.nodes, nodesFound
      ensures stopped == old(Stops(cfg, St(), r))
      ensures Sound() && St() == if stopped then old(St()) else old(Step(cfg, St(), r))
      ensures td.OnlyAdds()
    {
      ghost var s := St();
      if (r.kind.StackLocal? || r.kind.JniLocal?) && r.info.value.thread == cfg.thread {
        return false;
      }
      var target := tags[r.target];
      assert NodeOk(cfg, s, target);
      var leaks := td.nodes[target].leaks;
      if ContainsAll(finished, leaks) || IsEmpty(leaks) {
        return false;
      }
      StepIsHandled(cfg, s, r);
      stopped := HandleReferrer(cfg, r, target);
    }

    /** The callback for a target with an unfinished leak. */
    method HandleReferrer(cfg: Config, r: HeapRef, target: NodeId) returns (stopped: bool)
      requires Sound() && Consistent(cfg, St()) && WellShaped(r) && r.target in tags && target == tags[r.target]
      modifies this, td, td.nodes, nodesFound
      ensures stopped == old(Misplaced(cfg, St(), r))
      ensures Sound() && td.OnlyAdds() && St() == if stopped then old(St()) else old(Handled(cfg, St(), r))
    {
      ghost var s := St();
      CountedInv(cfg, s, r);
      var proceed := CountReferrer(cfg, r);
      if proceed.None? {
        return true;
      }
      assert Sound() && St() == Counted(cfg, s, r);
      if proceed.value {
        RecordReferrer(cfg, r, target);
        assert St() == Admitted(cfg, Counted(cfg, s, r), r);
      }
      return false;
    }

    /** The rest of the callback, once the count was taken. */
    method RecordReferrer(cfg: Config, r: HeapRef, target: NodeId)
      requires Sound() && Inv(cfg, St()) && WellShaped(r) && r.target in tags && target == tags[r.target]
      modifies this, td, td.nodes, nodesFound
      ensures Sound() && td.OnlyAdds()
      ensures St() == old(Admitted(cfg, St(), r))
    {
      var refused := RefusesReferrer(cfg, r);
      if !refused {
        AcceptReferrer(cfg, r, target);
      }
    }

    /** A reference that no check turned down. */
    method AcceptReferrer(cfg: Config, r: HeapRef, target: NodeId)
      requires Sound() && Inv(cfg, St()) && r.target in tags && target == tags[r.target]
      modifies this, td, td.nodes, nodesFound
      ensures Sound() && td.OnlyAdds() && St() == old(Linked(cfg, St(), r))
    {
      LinkedIs(cfg, St(), r);
      var referrer := AttachReferrer(cfg, r);
      LinkReferrer(r, target, referrer);
    }

    /** The fan-in count, and the checks that need the referrer's class only.  No result: the process was stopped. */
    method CountReferrer(cfg: Config, r: HeapRef) returns (proceed: Option<bool>)
      requires Addressed(td.nodes) && Consistent(cfg, St()) && WellShaped(r) && r.target in tags
      modifies td.nodes
      ensures proceed.None? == old(Misplaced(cfg, St(), r))
      ensures St() == if proceed.None? then old(St()) else old(Counted(cfg, St(), r))
      ensures proceed.Some? ==>
                proceed.value == old(!OverFanIn(cfg, St(), r) && !(r.kind.Field? && IgnoredField(cfg, St(), r)))
    {
      if r.referrer.None? || r.referrer.value !in cfg.classOf || cfg.classOf[r.referrer.value] !in tags {
        return Some(true);
      }
      ghost var s := St();
      var target := td.nodes[tags[r.target]];
      var klass := td.nodes[tags[cfg.classOf[r.referrer.value]]];
      assert klass.View() == s.nodes[tags[cfg.classOf[r.referrer.value]]];
      assert klass.isClass ==> klass.obj == Some(ClassObj(cfg, r));
      BumpCounts(target.fanIn, ClassObj(cfg, r), ClassObj(cfg, r));
      var refsFromSameClass := target.AddReferenceClass(klass);
      if refsFromSameClass.None? {
        assert Views(td.nodes) == s.nodes;
        return None;
      }
      assert Views(td.nodes) == Counted(cfg, s, r).nodes;
      if refsFromSameClass.value >= cfg.maxFanIn {
        return Some(false);
      }
      if r.kind.Field? {
        var ignored := klass.IsFieldIgnored(target, r.info.value.index);
        return Some(!ignored);
      }
      return Some(true);
    }

    /** The checks that need the referrer's node. */
    method RefusesReferrer(cfg: Config, r: HeapRef) returns (refused: bool)
      requires Addressed(td.nodes) && Inv(cfg, St()) && WellShaped(r) && r.target in tags
      ensures refused == Refused(cfg, St(), r)
    {
      if r.referrer.None? || r.referrer.value !in tags {
        return false;
      }
      ghost var s := St();
      var target := td.nodes[tags[r.target]];
      var referrer := td.nodes[tags[r.referrer.value]];
      assert target.View() == s.nodes[tags[r.target]];
      assert referrer.View() == s.nodes[tags[r.referrer.value]];
      if r.kind.StaticField? {
        var ignored := referrer.IsFieldIgnored(target, r.info.value.index);
        if ignored {
          return true;
        }
      }
      refused := target.HasReferenceFrom(referrer.id, r.kind, r.info);
    }

    /** The referrer's node, tagged now if it was not before. */
    method AttachReferrer(cfg: Config, r: HeapRef) returns (referrer: Option<NodeId>)
      requires Sound() && Inv(cfg, St())
      modifies this`tags, this`owner, td, td.nodes
      ensures Sound() && St() == old(Attached(cfg, St(), r)) && referrer == old(ReferrerNode(St(), r))
      ensures td.OnlyAdds()
    {
      ghost var s := St();
      if r.referrer.None? {
        return None;
      }
      if r.referrer.value in tags {
        var node := td.nodes[tags[r.referrer.value]];
        node.rc := node.rc + 1;
        assert Views(td.nodes) == Attached(cfg, s, r).nodes;
        return Some(node.id);
      }
      var node := td.NewMemoryNode(cfg.leaks);
      assert node == td.nodes[|s.nodes|];
      tags := tags[r.referrer.value := node.id];
      owner := owner + [r.referrer.value];
      assert Views(td.nodes) == Attached(cfg, s, r).nodes;
      return Some(node.id);
    }

    /** Taints the referrer, appends the reference, and counts and finishes leaks. */
    method LinkReferrer(r: HeapRef, target: NodeId, referrer: Option<NodeId>)
      requires Addressed(td.nodes) && target < |td.nodes| && (referrer.Some? ==> referrer.value < |td.nodes|)
      modifies this`finished, td.nodes, nodesFound
      ensures St() == old(Linking(St(), r, target, referrer))
    {
      UpdateNodes(r, target, referrer);
      assert td.nodes[target].leaks == Views(td.nodes)[target].leaks;
      CountAndFinish(r.kind, td.nodes[target].leaks);
    }

    method UpdateNodes(r: HeapRef, target: NodeId, referrer: Option<NodeId>)
      requires Addressed(td.nodes) && target < |td.nodes| && (referrer.Some? ==> referrer.value < |td.nodes|)
      modifies td.nodes
      ensures Views(td.nodes) == old(Linking(St(), r, target, referrer)).nodes
    {
      TaintReferrer(target, referrer, Views(td.nodes));
      AppendReference(r, target, referrer);
    }

    /** The counters of the unfinished leaks go up, and a root reference finishes them all. */
    method CountAndFinish(kind: Kind, leaks: Bits)
      modifies this`finished, nodesFound
      ensures nodesFound[..] == old(Found(nodesFound[..], leaks, finished))
      ensures finished == if IsRootReference(kind) then AddAll(old(finished), leaks) else old(finished)
    {
      CountNodesFound(leaks);
      if IsRootReference(kind) {
        finished := AddAll(finished, leaks);
      }
    }

    method AppendReference(r: HeapRef, target: NodeId, referrer: Option<NodeId>)
      requires Addressed(td.nodes) && target < |td.nodes|
      modifies td.nodes
      ensures var now := old(Views(td.nodes));
              var ref := Ref(r.kind, if r.info.Some? then r.info.value else NO_INFO, referrer);
              Views(td.nodes) == now[target := now[target].(refs := now[target].refs + [ref])]
    {
      ghost var now := Views(td.nodes);
      var node := td.nodes[target];
      assert node.View() == now[target];
      var ref := Ref(r.kind, if r.info.Some? then r.info.value else NO_INFO, referrer);
      node.refs := node.refs + [ref];
      assert Views(td.nodes) == now[target := now[target].(refs := now[target].refs + [ref])];
    }

    /** The referrer carries the unfinished leaks of the target from now on, and the larger size. */
    method TaintReferrer(target: NodeId, referrer: Option<NodeId>, ghost now: seq<Node>)
      requires Addressed(td.nodes) && now == Views(td.nodes)
      requires target < |td.nodes| && (referrer.Some? ==> referrer.value < |td.nodes|)
      modifies td.nodes
      ensures Views(td.nodes) == if referrer.None? then now
                else now[referrer.value := Tainted(now[referrer.value], now[target], finished)]
    {
      if referrer.None? {
        return;
      }
      var from, node := td.nodes[target], td.nodes[referrer.value];
      assert from.View() == now[target] && node.View() == now[referrer.value];
      node.leaks := AddAllWithExclusion(node.leaks, from.leaks, finished);
      if node.size < from.size {
        node.size := from.size;
      }
      assert node.View() == Tainted(now[referrer.value], now[target], finished);
    }

    /** One more node for every unfinished leak that the target carries. */
    method CountNodesFound(leaks: Bits)
      modifies nodesFound
      ensures nodesFound[..] == Found(old(nodesFound[..]), leaks, finished)
    {
      ghost var before := nodesFound[..];
      for i := 0 to nodesFound.Length
        invariant forall j: nat {:trigger nodesFound[j]} | j < nodesFound.Length ::
                    nodesFound[j] == if j < i then Found(before, leaks, finished)[j] else before[j]
      {
        if Contains(leaks, i) && !Contains(finished, i) {
          nodesFound[i] := nodesFound[i] + 1;
        }
      }
    }

    // ---- The passes ----

    /** `FollowReferences`: the callback sees the references that the filters let through, in order, until it stops the
        process. */
    method FollowReferences(cfg: Config, heap: seq<HeapRef>) returns (stopped: bool)
      requires Sound() && Consistent(cfg, St()) && Shaped(heap)
      modifies this, td, td.nodes, nodesFound
      ensures stopped == old(VisitStops(cfg, St(), heap, 0))
      ensures Sound() && (!stopped ==> St() == old(Visit(cfg, St(), heap, 0)))
      ensures td.OnlyAdds()
    {
      ghost var all, stops := Visit(cfg, St(), heap, 0), VisitStops(cfg, St(), heap, 0);
      for i := 0 to |heap|
        invariant Sound() && VisitsTo(cfg, St(), heap, i, all, stops)
        invariant td.OnlyAdds()
      {
        stopped := FollowReference(cfg, heap, i, all, stops);
        if stopped {
          return;
        }
      }
      VisitsEnd(cfg, St(), heap, all, stops);
      return false;
    }

    /** One turn of it. */
    method FollowReference(cfg: Config, heap: seq<HeapRef>, i: nat, ghost all: State, ghost stops: bool)
      returns (stopped: bool)
      requires Sound() && i < |heap| && VisitsTo(cfg, St(), heap, i, all, stops)
      modifies this, td, td.nodes, nodesFound
      ensures Sound() && if stopped then stops else VisitsTo(cfg, St(), heap, i + 1, all, stops)
      ensures td.OnlyAdds()
    {
      VisitsNext(cfg, St(), heap, i, all, stops);
      stopped := VisitReference(cfg, heap[i]);
    }

    /** One reference of the heap, with the filters for untagged objects and untagged classes. */
    method VisitReference(cfg: Config, r: HeapRef) returns (stopped: bool)
      requires Sound() && Consistent(cfg, St()) && WellShaped(r)
      modifies this, td, td.nodes, nodesFound
      ensures stopped == old(Stops(cfg, St(), r))
      ensures Sound() && St() == if stopped then old(St()) else old(Step(cfg, St(), r))
      ensures td.OnlyAdds()
    {
      if r.target !in tags || r.target !in cfg.classOf || cfg.classOf[r.target] !in tags {
        return false;
      }
      stopped := CbObjectTagReferrer(cfg, r);
    }

    /** The loop of `tagReferencesChain`: up to `referenceChainLength` passes. */
    method TagReferencesChain(cfg: Config, heap: seq<HeapRef>, referenceChainLength: int) returns (stopped: bool)
      requires Sound() && Consistent(cfg, St()) && Shaped(heap)
      modifies this, td, td.nodes, nodesFound
      ensures referenceChainLength <= 0 ==> !stopped && St() == old(St())
      ensures referenceChainLength > 0 ==>
                && stopped == old(LoopStops(cfg, St(), heap, referenceChainLength))
                && (!stopped ==> St() == old(PassLoop(cfg, St(), heap, referenceChainLength)))
      ensures Sound() && td.OnlyAdds()
    {
      ghost var limit: nat := if referenceChainLength < 0 then 0 else referenceChainLength;
      ghost var all, stops := PassLoop(cfg, St(), heap, limit), LoopStops(cfg, St(), heap, limit);
      var i := 0;
      while i < referenceChainLength
        invariant 0 <= i <= limit
        invariant Sound() && LoopsTo(cfg, St(), heap, limit - i, all, stops)
        invariant td.OnlyAdds()
      {
        var hasUnfinished;
        stopped, hasUnfinished := NextPass(cfg, heap, limit - i, all, stops);
        if stopped {
          return;
        }
        if !hasUnfinished {
          return false;
        }
        i := i + 1;
      }
      return false;
    }

    /** One turn of it. */
    method NextPass(cfg: Config, heap: seq<HeapRef>, ghost left: int, ghost all: State, ghost stops: bool)
      returns (stopped: bool, hasUnfinished: bool)
      requires Sound() && LoopsTo(cfg, St(), heap, left, all, stops) && left > 0
      modifies this, td, td.nodes, nodesFound
      ensures Sound() && td.OnlyAdds()
      ensures if stopped then stops
              else if hasUnfinished then LoopsTo(cfg, St(), heap, left - 1, all, stops)
              else St() == all && !stops
    {
      LoopsNext(cfg, St(), heap, left, all, stops);
      stopped, hasUnfinished := MakePass(cfg, heap);
    }

    /** One pass, and the test whether another one may help. */
    method MakePass(cfg: Config, heap: seq<HeapRef>) returns (stopped: bool, hasUnfinished: bool)
      requires Sound() && Consistent(cfg, St()) && Shaped(heap)
      modifies this, td, td.nodes, nodesFound
      ensures Sound() && td.OnlyAdds() && stopped == old(PassStops(cfg, St(), heap))
      ensures !stopped ==>
                && St() == old(Pass(cfg, St(), heap)) && Inv(cfg, St())
                && hasUnfinished == HasUnfinished(cfg, St())
    {
      PassFacts(cfg, St(), heap);
      ResetInv(cfg, St());
      ResetNodesFound();
      stopped := FollowReferences(cfg, heap);
      if stopped {
        return true, false;
      }
      hasUnfinished := FindUnfinished(cfg);
    }

    method ResetNodesFound()
      modifies nodesFound
      ensures St() == old(Reset(St()))
    {
      for i := 0 to nodesFound.Length
        invariant forall j | 0 <= j < i :: nodesFound[j] == 0
      {
        nodesFound[i] := 0;
      }
      assert nodesFound[..] == seq(|nodesFound[..]|, _ => 0);
    }

    method FindUnfinished(cfg: Config) returns (hasUnfinished: bool)
      requires Inv(cfg, St())
      ensures hasUnfinished == HasUnfinished(cfg, St())
    {
      for j := 0 to cfg.leaks
        invariant forall k: nat | k < j :: Contains(finished, k) || nodesFound[k] == 0
      {
        if !(Contains(finished, j) || nodesFound[j] == 0) {
          return true;
        }
      }
      return false;
    }
  }
}
