/** The counting invariants that every callback keeps: reference counts, the fan-in cap, distinct references, and one
    finished leak for every root reference. */
module Counts {
  import opened Wrappers
  import opened LeakBits
  import opened DataStruct
  import opened Recording
  import opened Taint

  // ---- Who is referenced how often ----

  function Single(node: Option<NodeId>): multiset<NodeId> {
    if node.Some? then multiset{node.value} else multiset{}
  }

  /** The nodes that `refs[i..]` point to, with multiplicity. */
  function TargetsFrom(refs: seq<Ref>, i: nat): multiset<NodeId>
    decreases |refs| - i
  {
    if i >= |refs| then multiset{} else Single(refs[i].node) + TargetsFrom(refs, i + 1)
  }

  function Targets(n: Node): multiset<NodeId> { TargetsFrom(n.refs, 0) }

  /** The nodes that the references of the first `k` nodes point to. */
  function IncomingTo(nodes: seq<Node>, k: nat): multiset<NodeId>
    requires k <= |nodes|
  {
    if k == 0 then multiset{} else IncomingTo(nodes, k - 1) + Targets(nodes[k - 1])
  }

  function Incoming(nodes: seq<Node>): multiset<NodeId> { IncomingTo(nodes, |nodes|) }

  lemma {:induction false} TargetsAppend(refs: seq<Ref>, ref: Ref, i: nat)
    requires i <= |refs|
    ensures TargetsFrom(refs + [ref], i) == TargetsFrom(refs, i) + Single(ref.node)
    decreases |refs| - i
  {
    if i < |refs| {
      TargetsAppend(refs, ref, i + 1);
    }
  }

  lemma {:induction false} TargetsHas(refs: seq<Ref>, i: nat, j: nat, f: NodeId)
    requires i <= j < |refs| && refs[j].node == Some(f)
    ensures f in TargetsFrom(refs, i)
    decreases j - i
  {
    if i < j {
      TargetsHas(refs, i + 1, j, f);
    }
  }

  lemma {:induction false} TargetsHasNot(refs: seq<Ref>, i: nat, f: NodeId)
    requires forall j: nat | i <= j < |refs| :: refs[j].node != Some(f)
    ensures f !in TargetsFrom(refs, i)
    decreases |refs| - i
  {
    if i < |refs| {
      TargetsHasNot(refs, i + 1, f);
    }
  }

  lemma InSum(a: multiset<NodeId>, b: multiset<NodeId>, f: NodeId)
    ensures f in a + b <==> f in a || f in b
  {
  }

  lemma AddNothing(x: multiset<NodeId>)
    ensures x + multiset{} == x
  {
  }

  lemma SumMoves(x: multiset<NodeId>, y: multiset<NodeId>, z: multiset<NodeId>)
    ensures (x + z) + y == x + y + z && x + (y + z) == x + y + z
  {
  }

  lemma {:induction false} IncomingHas(nodes: seq<Node>, k: nat, j: nat, f: NodeId)
    requires j < k <= |nodes| && f in Targets(nodes[j])
    ensures f in IncomingTo(nodes, k)
  {
    if j < k - 1 {
      IncomingHas(nodes, k - 1, j, f);
    }
    InSum(IncomingTo(nodes, k - 1), Targets(nodes[k - 1]), f);
  }

  lemma {:induction false} IncomingHasNot(nodes: seq<Node>, k: nat, f: NodeId)
    requires k <= |nodes| && forall j: nat | j < k :: f !in Targets(nodes[j])
    ensures f !in IncomingTo(nodes, k)
  {
    if k > 0 {
      IncomingHasNot(nodes, k - 1, f);
      InSum(IncomingTo(nodes, k - 1), Targets(nodes[k - 1]), f);
    }
  }

  lemma {:induction false} IncomingSame(nodes: seq<Node>, nodes': seq<Node>, k: nat)
    requires k <= |nodes| && k <= |nodes'|
    requires forall j: nat | j < k :: Targets(nodes[j]) == Targets(nodes'[j])
    ensures IncomingTo(nodes, k) == IncomingTo(nodes', k)
  {
    if k > 0 {
      IncomingSame(nodes, nodes', k - 1);
      assert Targets(nodes[k - 1]) == Targets(nodes'[k - 1]);
    }
  }

  /** Node `t` gains the target `one`. */
  lemma {:induction false} IncomingMore(nodes: seq<Node>, nodes': seq<Node>, t: nat, one: multiset<NodeId>, k: nat)
    requires t < k <= |nodes| && k <= |nodes'|
    requires forall j: nat | j < k && j != t :: Targets(nodes[j]) == Targets(nodes'[j])
    requires Targets(nodes'[t]) == Targets(nodes[t]) + one
    ensures IncomingTo(nodes', k) == IncomingTo(nodes, k) + one
  {
    var x, y, y' := IncomingTo(nodes, k - 1), Targets(nodes[k - 1]), Targets(nodes'[k - 1]);
    if t == k - 1 {
      IncomingSame(nodes, nodes', k - 1);
    } else {
      IncomingMore(nodes, nodes', t, one, k - 1);
      assert y == y';
    }
    SumMoves(x, y, one);
  }

  /** `reference_pointing_to_me` is the number of recorded references plus one for the handle of a leak or class. */
  predicate CountsExact(nodes: seq<Node>, handles: nat) {
    forall m: NodeId | m < |nodes| :: nodes[m].rc == Incoming(nodes)[m] + if m < handles then 1 else 0
  }

  /** What a callback does to the reference lists. */
  lemma StepTargets(cfg: Config, s: State, r: HeapRef, k: NodeId)
    requires Inv(cfg, s) && WellShaped(r) && k < |Step(cfg, s, r).nodes|
    ensures Targets(Step(cfg, s, r).nodes[k]) ==
            (if k < |s.nodes| then Targets(s.nodes[k]) else multiset{}) +
            (if Judge(cfg, s, r) == Accept && k == s.tags[r.target] then Single(ReferrerNode(s, r)) else multiset{})
  {
    StepNode(cfg, s, r, k);
    if Judge(cfg, s, r) == Accept && k == s.tags[r.target] {
      AcceptedRef(cfg, s, r, r.target);
      TargetsAppend(s.nodes[k].refs, RefOf(s, r), 0);
    }
  }

  /** One node gains a target; another may be new and have none. */
  lemma IncomingFromNone(nodes: seq<Node>, k: nat)
    requires k < |nodes| && Targets(nodes[k]) == multiset{}
    ensures IncomingTo(nodes, k + 1) == IncomingTo(nodes, k)
  {
    AddNothing(IncomingTo(nodes, k));
  }

  lemma IncomingStep(nodes: seq<Node>, nodes': seq<Node>, t: nat, one: multiset<NodeId>)
    requires t < |nodes| <= |nodes'| <= |nodes| + 1
    requires forall j: nat | j < |nodes| && j != t :: Targets(nodes[j]) == Targets(nodes'[j])
    requires Targets(nodes'[t]) == Targets(nodes[t]) + one
    requires |nodes'| > |nodes| ==> Targets(nodes'[|nodes|]) == multiset{}
    ensures Incoming(nodes') == Incoming(nodes) + one
  {
    IncomingMore(nodes, nodes', t, one, |nodes|);
    IncomingNew(nodes', |nodes|);
  }

  /** A node without targets at the end adds nothing. */
  lemma IncomingNew(nodes: seq<Node>, k: nat)
    requires k <= |nodes| <= k + 1 && (|nodes| > k ==> Targets(nodes[k]) == multiset{})
    ensures Incoming(nodes) == IncomingTo(nodes, k)
  {
    if |nodes| > k {
      IncomingFromNone(nodes, k);
    }
  }

  lemma AcceptedIncoming(cfg: Config, s: State, r: HeapRef)
    requires Inv(cfg, s) && WellShaped(r) && Judge(cfg, s, r) == Accept
    ensures Incoming(Step(cfg, s, r).nodes) == Incoming(s.nodes) + Single(ReferrerNode(s, r))
  {
    var nodes' := Step(cfg, s, r).nodes;
    AcceptedSize(cfg, s, r);
    forall j: nat | j < |s.nodes| && j != s.tags[r.target] ensures Targets(s.nodes[j]) == Targets(nodes'[j]) {
      StepTargets(cfg, s, r, j);
    }
    StepTargets(cfg, s, r, s.tags[r.target]);
    if |nodes'| > |s.nodes| {
      StepTargets(cfg, s, r, |s.nodes|);
    }
    IncomingStep(s.nodes, nodes', s.tags[r.target], Single(ReferrerNode(s, r)));
  }

  /** No reference leads outside the nodes. */
  lemma NotIncoming(cfg: Config, s: State)
    requires Inv(cfg, s)
    ensures |s.nodes| !in Incoming(s.nodes)
  {
    var f := |s.nodes|;
    forall k: nat | k < |s.nodes| ensures f !in Targets(s.nodes[k]) {
      assert NodeOk(cfg, s, k);
      TargetsHasNot(s.nodes[k].refs, 0, f);
    }
    IncomingHasNot(s.nodes, |s.nodes|, f);
  }

  lemma StepRc(cfg: Config, s: State, r: HeapRef, m: NodeId)
    requires Inv(cfg, s) && WellShaped(r) && m < |Step(cfg, s, r).nodes|
    ensures Step(cfg, s, r).nodes[m].rc ==
            (if m < |s.nodes| then s.nodes[m].rc else 0) +
            (if Judge(cfg, s, r) == Accept && ReferrerNode(s, r) == Some(m) then 1 else 0)
  {
    if Judge(cfg, s, r) == Accept {
      AcceptedNode(cfg, s, r, m);
    }
  }

  lemma StepCounts(cfg: Config, s: State, r: HeapRef, handles: nat)
    requires Inv(cfg, s) && WellShaped(r) && CountsExact(s.nodes, handles) && handles <= |s.nodes|
    ensures CountsExact(Step(cfg, s, r).nodes, handles)
  {
    var s' := Step(cfg, s, r);
    if Judge(cfg, s, r) == Accept {
      AcceptedIncoming(cfg, s, r);
      NotIncoming(cfg, s);
    } else {
      forall k: NodeId | k < |s.nodes| ensures Targets(s.nodes[k]) == Targets(s'.nodes[k]) {
        StepTargets(cfg, s, r, k);
      }
      IncomingSame(s.nodes, s'.nodes, |s.nodes|);
    }
    forall m: NodeId | m < |s'.nodes|
      ensures s'.nodes[m].rc == Incoming(s'.nodes)[m] + if m < handles then 1 else 0
    {
      StepRc(cfg, s, r, m);
      AcceptedSize(cfg, s, r);
    }
  }

  // ---- Fan-in ----

  predicate FromClass(cfg: Config, owner: seq<Obj>, ref: Ref, c: Obj) {
    && ref.node.Some? && ref.node.value < |owner|
    && owner[ref.node.value] in cfg.classOf && cfg.classOf[owner[ref.node.value]] == c
  }

  /** The number of references whose referrer is an instance of `c`. */
  function RefsFromClass(cfg: Config, owner: seq<Obj>, refs: seq<Ref>, c: Obj): nat {
    if refs == [] then 0
    else RefsFromClass(cfg, owner, refs[..|refs| - 1], c)
         + if FromClass(cfg, owner, refs[|refs| - 1], c) then 1 else 0
  }

  lemma {:induction false} RefsFromClassGrows(cfg: Config, s: State, refs: seq<Ref>, owner: seq<Obj>, c: Obj)
    requires forall ref <- refs :: ref.node.Some? ==> ref.node.value < |s.owner|
    requires s.owner <= owner
    ensures RefsFromClass(cfg, owner, refs, c) == RefsFromClass(cfg, s.owner, refs, c)
  {
    if refs != [] {
      RefsFromClassGrows(cfg, s, refs[..|refs| - 1], owner, c);
      assert refs[|refs| - 1] in refs;
    }
  }

  /** Instances of a class in `classes` contribute at most `maxFanIn - 1` references to any node. */
  predicate FanInCapped(cfg: Config, s: State, classes: set<Obj>) {
    forall t: NodeId, c | t < |s.nodes| && c in classes ::
      && RefsFromClass(cfg, s.owner, s.nodes[t].refs, c) <= CountOf(s.nodes[t].fanIn, c)
      && RefsFromClass(cfg, s.owner, s.nodes[t].refs, c) <= if cfg.maxFanIn < 1 then 0 else cfg.maxFanIn - 1
  }

  lemma StepFanIn(cfg: Config, s: State, r: HeapRef, classes: set<Obj>)
    requires Inv(cfg, s) && WellShaped(r) && FanInCapped(cfg, s, classes)
    requires forall c <- classes :: c in s.tags
    ensures FanInCapped(cfg, Step(cfg, s, r), classes)
  {
    var s' := Step(cfg, s, r);
    StepGrows(cfg, s, r);
    forall t: NodeId, c | t < |s'.nodes| && c in classes
      ensures RefsFromClass(cfg, s'.owner, s'.nodes[t].refs, c) <= CountOf(s'.nodes[t].fanIn, c)
      ensures RefsFromClass(cfg, s'.owner, s'.nodes[t].refs, c) <= if cfg.maxFanIn < 1 then 0 else cfg.maxFanIn - 1
    {
      StepNode(cfg, s, r, t);
      if t < |s.nodes| {
        assert NodeOk(cfg, s, t);
        RefsFromClassGrows(cfg, s, s.nodes[t].refs, s'.owner, c);
        if s'.nodes[t].refs != s.nodes[t].refs {
          AcceptedRef(cfg, s, r, c);
        }
      }
    }
  }

  /** The reference that an accepted callback appends, and what it costs. */
  lemma AcceptedRef(cfg: Config, s: State, r: HeapRef, c: Obj)
    requires Inv(cfg, s) && WellShaped(r) && Judge(cfg, s, r) == Accept && c in s.tags
    ensures var s' := Step(cfg, s, r);
            var t := s.tags[r.target];
            && s'.nodes[t].refs == s.nodes[t].refs + [RefOf(s, r)]
            && (FromClass(cfg, s'.owner, RefOf(s, r), c) ==>
                  && CountOf(s'.nodes[t].fanIn, c) == CountOf(s.nodes[t].fanIn, c) + 1
                  && CountOf(s'.nodes[t].fanIn, c) < cfg.maxFanIn)
  {
    var s1 := Counted(cfg, s, r);
    CountedInv(cfg, s, r);
    LinkedNodes(cfg, s1, r);
    LinkedRest(cfg, s1, r);
    if ClassTagged(cfg, s, r) {
      BumpCounts(s.nodes[s.tags[r.target]].fanIn, ClassObj(cfg, r), c);
    }
  }

  // ---- Distinct references, bounded root references ----

  /** No two references of a list agree in kind, information and (present) referrer. */
  predicate Distinct(refs: seq<Ref>) {
    forall i, j | 0 <= i < j < |refs| :: refs[i].node.Some? ==> refs[i] != refs[j]
  }

  predicate AllDistinct(nodes: seq<Node>) {
    forall t: NodeId | t < |nodes| :: Distinct(nodes[t].refs)
  }

  lemma StepDistinct(cfg: Config, s: State, r: HeapRef)
    requires Inv(cfg, s) && WellShaped(r) && AllDistinct(s.nodes)
    ensures AllDistinct(Step(cfg, s, r).nodes)
  {
    var s' := Step(cfg, s, r);
    forall t: NodeId | t < |s'.nodes| ensures Distinct(s'.nodes[t].refs) {
      StepNode(cfg, s, r, t);
      if t < |s.nodes| && s'.nodes[t].refs != s.nodes[t].refs {
        assert NodeOk(cfg, s, t);
        AcceptedRef(cfg, s, r, s.owner[t]);
      }
    }
  }

  function Roots(refs: seq<Ref>): nat {
    if refs == [] then 0
    else Roots(refs[..|refs| - 1]) + if IsRootReference(refs[|refs| - 1].kind) then 1 else 0
  }

  function AllRoots(nodes: seq<Node>): nat {
    if nodes == [] then 0 else AllRoots(nodes[..|nodes| - 1]) + Roots(nodes[|nodes| - 1].refs)
  }

  lemma {:induction false} AllRootsUpdate(nodes: seq<Node>, nodes': seq<Node>, k: nat)
    requires |nodes| == |nodes'| && k < |nodes|
    requires forall j: nat | j < |nodes| && j != k :: nodes[j].refs == nodes'[j].refs
    ensures AllRoots(nodes') - Roots(nodes'[k].refs) == AllRoots(nodes) - Roots(nodes[k].refs)
  {
    var n := |nodes| - 1;
    if k == n {
      AllRootsSame(nodes[..n], nodes'[..n]);
    } else {
      AllRootsUpdate(nodes[..n], nodes'[..n], k);
    }
  }

  lemma {:induction false} AllRootsSame(nodes: seq<Node>, nodes': seq<Node>)
    requires |nodes| == |nodes'|
    requires forall j: nat | j < |nodes| :: nodes[j].refs == nodes'[j].refs
    ensures AllRoots(nodes) == AllRoots(nodes')
  {
    if nodes != [] {
      AllRootsSame(nodes[..|nodes| - 1], nodes'[..|nodes| - 1]);
    }
  }

  /** Each recorded root reference finished at least one more leak. */
  predicate RootsBounded(s: State) { AllRoots(s.nodes) <= |s.finished.raw| }

  lemma AcceptedRoots(cfg: Config, s: State, r: HeapRef)
    requires Inv(cfg, s) && WellShaped(r) && Judge(cfg, s, r) == Accept
    ensures AllRoots(Step(cfg, s, r).nodes) == AllRoots(s.nodes) + if IsRootReference(r.kind) then 1 else 0
  {
    var s' := Step(cfg, s, r);
    var t := s.tags[r.target];
    AcceptedSize(cfg, s, r);
    AcceptedRef(cfg, s, r, s.owner[t]);
    var kept := s'.nodes[..|s.nodes|];
    forall j: nat | j < |s.nodes| && j != t ensures s.nodes[j].refs == kept[j].refs {
      StepNode(cfg, s, r, j);
    }
    AllRootsUpdate(s.nodes, kept, t);
    if |s'.nodes| != |s.nodes| {
      StepNode(cfg, s, r, |s.nodes|);
      assert s'.nodes[..|s'.nodes| - 1] == kept;
    } else {
      assert s'.nodes == kept;
    }
  }

  lemma StepRoots(cfg: Config, s: State, r: HeapRef)
    requires Inv(cfg, s) && WellShaped(r) && RootsBounded(s)
    ensures RootsBounded(Step(cfg, s, r))
  {
    if Judge(cfg, s, r) == Accept {
      AcceptedRoots(cfg, s, r);
      FinishedGrows(cfg, s, r);
    } else {
      AllRootsSame(s.nodes, Step(cfg, s, r).nodes);
    }
  }

  lemma AcceptedSize(cfg: Config, s: State, r: HeapRef)
    requires Inv(cfg, s) && WellShaped(r)
    ensures |s.nodes| <= |Step(cfg, s, r).nodes| <= |s.nodes| + 1
  {
    if Judge(cfg, s, r) == Accept {
      CountedInv(cfg, s, r);
      LinkedNodes(cfg, Counted(cfg, s, r), r);
    }
  }

  /** A root reference is only recorded for a node with an unfinished leak, which it finishes. */
  lemma FinishedGrows(cfg: Config, s: State, r: HeapRef)
    requires Inv(cfg, s) && WellShaped(r) && Judge(cfg, s, r) == Accept
    ensures var s' := Step(cfg, s, r);
            if IsRootReference(r.kind) then |s'.finished.raw| > |s.finished.raw|
            else s'.finished == s.finished
  {
    var t := s.tags[r.target];
    CountedInv(cfg, s, r);
    LinkedRest(cfg, Counted(cfg, s, r), r);
    var s' := Step(cfg, s, r);
    assert NodeOk(cfg, s, t);
    if IsRootReference(r.kind) {
      var k :| k in s.nodes[t].leaks.raw && k !in s.finished.raw;
      assert s.finished.raw + {k} <= s'.finished.raw;
      SubsetSize(s.finished.raw + {k}, s'.finished.raw);
    }
  }

  lemma {:induction false} SubsetSize<T>(a: set<T>, b: set<T>)
    requires a <= b
    ensures |a| <= |b|
  {
    if a != {} {
      var x :| x in a;
      SubsetSize(a - {x}, b - {x});
    }
  }

  lemma {:induction false} BelowSize(a: set<nat>, n: nat)
    requires forall i <- a :: i < n
    ensures |a| <= n
  {
    if n == 0 {
      assert a == {};
    } else {
      BelowSize(a - {n - 1}, n - 1);
    }
  }

  // ---- All of it, over whole runs ----

  ghost predicate Counting(cfg: Config, s: State, handles: nat, classes: set<Obj>) {
    && handles <= |s.nodes| && CountsExact(s.nodes, handles)
    && (forall c <- classes :: c in s.tags) && FanInCapped(cfg, s, classes)
    && AllDistinct(s.nodes) && RootsBounded(s)
  }

  lemma {:induction false} NoIncoming(nodes: seq<Node>, k: nat)
    requires k <= |nodes| && forall j: nat | j < k :: nodes[j].refs == []
    ensures IncomingTo(nodes, k) == multiset{}
  {
    if k > 0 {
      NoIncoming(nodes, k - 1);
    }
  }

  lemma {:induction false} NoRoots(nodes: seq<Node>)
    requires forall k: nat | k < |nodes| :: nodes[k].refs == []
    ensures AllRoots(nodes) == 0
  {
    if nodes != [] {
      NoRoots(nodes[..|nodes| - 1]);
    }
  }

  lemma StartCounting(cfg: Config, s: State)
    requires Start(cfg, s)
    ensures Counting(cfg, s, |s.nodes|, s.tags.Keys)
  {
    NoIncoming(s.nodes, |s.nodes|);
    NoRoots(s.nodes);
  }

  lemma VisitCounting(cfg: Config, s: State, heap: seq<HeapRef>, from: nat, handles: nat, classes: set<Obj>)
    requires Inv(cfg, s) && Shaped(heap) && from <= |heap|
    requires Counting(cfg, s, handles, classes)
    ensures Inv(cfg, Visit(cfg, s, heap, from))
    ensures Counting(cfg, Visit(cfg, s, heap, from), handles, classes)
    decreases |heap| - from
  {
    if from < |heap| {
      var r := heap[from];
      StepGrows(cfg, s, r);
      StepCounts(cfg, s, r, handles);
      StepFanIn(cfg, s, r, classes);
      StepDistinct(cfg, s, r);
      StepRoots(cfg, s, r);
      VisitCounting(cfg, Step(cfg, s, r), heap, from + 1, handles, classes);
    }
  }

  lemma PassLoopCounting(cfg: Config, s: State, heap: seq<HeapRef>, left: nat, handles: nat, classes: set<Obj>)
    requires Inv(cfg, s) && Shaped(heap) && Counting(cfg, s, handles, classes)
    ensures Counting(cfg, PassLoop(cfg, s, heap, left), handles, classes)
    decreases left
  {
    if left > 0 {
      PassFacts(cfg, s, heap);
      ResetInv(cfg, s);
      VisitCounting(cfg, Reset(s), heap, 0, handles, classes);
      var s' := Pass(cfg, s, heap);
      if HasUnfinished(cfg, s') {
        PassLoopCounting(cfg, s', heap, left - 1, handles, classes);
      }
    }
  }

  /** After any sequence of callbacks: exact counts, the fan-in cap for every class tagged at the start, pairwise
      distinct references, and no more root references than leaks. */
  lemma CountingHolds(cfg: Config, s: State, trace: seq<HeapRef>)
    requires Start(cfg, s) && Shaped(trace)
    ensures var s' := Visit(cfg, s, trace, 0);
            && CountsExact(s'.nodes, |s.nodes|)
            && FanInCapped(cfg, s', s.tags.Keys)
            && AllDistinct(s'.nodes)
            && AllRoots(s'.nodes) <= |s'.finished.raw| <= cfg.leaks
  {
    StartCounting(cfg, s);
    VisitCounting(cfg, s, trace, 0, |s.nodes|, s.tags.Keys);
    BelowSize(Visit(cfg, s, trace, 0).finished.raw, cfg.leaks);
  }
}
