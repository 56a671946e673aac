/** What one heap-reference callback does to the agent's state (`cbObjectTagReferrer`), and what one pass and the pass
    loop of `tagReferencesChain` make of it.  LeakDetect.dfy has the code that works in place and is proved equal to
    this. */
module Recording {
  import opened Wrappers
  import opened LeakBits
  import opened DataStruct

  /** The settings of a run, and the JVM's class of each object. */
  datatype Config = Config(leaks: nat, maxFanIn: int, thread: int, classOf: map<Obj, Obj>)

  /** One call of the heap-reference callback: `referrer` reaches `target`. */
  datatype HeapRef = HeapRef(target: Obj, kind: Kind, info: Option<Info>, referrer: Option<Obj>)

  /** `tags` is the JVM's tag table (a missing object has tag zero) and `owner` its inverse. */
  datatype State = State(nodes: seq<Node>, owner: seq<Obj>, tags: map<Obj, NodeId>, finished: Bits, found: seq<nat>)

  // ---- What the environment promises ----

  /** The JVM passes information with the kinds that carry it, and omits the referrer only for heap roots. */
  predicate WellShaped(r: HeapRef) {
    && (r.kind.Field? || r.kind.StaticField? || r.kind.StackLocal? || r.kind.JniLocal? ==> r.info.Some?)
    && (r.referrer.None? ==> IsRootReference(r.kind))
  }

  predicate Shaped(heap: seq<HeapRef>) { forall r <- heap :: WellShaped(r) }

  predicate HasClass(cfg: Config, r: HeapRef) { r.referrer.Some? && r.referrer.value in cfg.classOf }

  function ClassObj(cfg: Config, r: HeapRef): Obj
    requires HasClass(cfg, r)
  {
    cfg.classOf[r.referrer.value]
  }

  // ---- The state invariant ----

  predicate NodeOk(cfg: Config, s: State, k: NodeId)
    requires k < |s.nodes|
  {
    var n := s.nodes[k];
    && n.leaks.size <= cfg.leaks
    && (k < cfg.leaks ==> k < n.leaks.size)
    && (k >= cfg.leaks ==> n.leaks.size == cfg.leaks)
    && Fits(n.leaks) && (forall i <- n.leaks.raw :: i < cfg.leaks)
    && (forall ref <- n.refs :: if ref.node.None? then IsRootReference(ref.kind) else ref.node.value < |s.nodes|)
  }

  predicate TagsOk(s: State) {
    && |s.owner| == |s.nodes|
    && (forall o <- s.tags :: s.tags[o] < |s.nodes| && s.owner[s.tags[o]] == o)
    && (forall k: NodeId | k < |s.nodes| :: s.owner[k] in s.tags && s.tags[s.owner[k]] == k)
  }

  predicate Inv(cfg: Config, s: State) {
    && cfg.leaks <= |s.nodes|
    && TagsOk(s)
    && s.finished.size == cfg.leaks
    && (forall i <- s.finished.raw :: i < cfg.leaks)
    && |s.found| == cfg.leaks
    && (forall k: NodeId | k < |s.nodes| :: NodeOk(cfg, s, k))
  }

  /** The agent's own bitset sizes: leak `k` has room for the leaks up to `k` only (src/cpp/leak_detect.c:500-504). */
  predicate AgentSizes(cfg: Config, s: State) {
    forall k: NodeId | k < |s.nodes| :: s.nodes[k].leaks.size == if k < cfg.leaks then k + 1 else cfg.leaks
  }

  predicate NothingIgnored(s: State) {
    forall k: NodeId | k < |s.nodes| :: s.nodes[k].ignore == []
  }

  // ---- One callback ----

  datatype Verdict = Ignore | CountOnly | Accept

  predicate LocalOfAgent(cfg: Config, r: HeapRef) {
    (r.kind.StackLocal? || r.kind.JniLocal?) && r.info.Some? && r.info.value.thread == cfg.thread
  }

  /** The filters of `FollowReferences`: the target and its class are tagged. */
  predicate Reported(cfg: Config, s: State, r: HeapRef) {
    r.target in s.tags && r.target in cfg.classOf && cfg.classOf[r.target] in s.tags
  }

  /** The class of the referrer is tagged: `referrer_class_tag` is not zero. */
  predicate ClassTagged(cfg: Config, s: State, r: HeapRef) { HasClass(cfg, r) && ClassObj(cfg, r) in s.tags }

  predicate ReferrerTagged(s: State, r: HeapRef) { r.referrer.Some? && r.referrer.value in s.tags }

  function FieldIndex(r: HeapRef): int { if r.info.Some? then r.info.value.index else 0 }

  /** The node has an unfinished leak, so its referrers are of interest. */
  predicate Wanted(cfg: Config, s: State, r: HeapRef)
    requires Inv(cfg, s)
  {
    && Reported(cfg, s, r)
    && !LocalOfAgent(cfg, r)
    && var n := s.nodes[s.tags[r.target]];
       assert NodeOk(cfg, s, s.tags[r.target]);
       !ContainsAll(s.finished, n.leaks) && !IsEmpty(n.leaks)
  }

  /** The bytewise comparison sees exactly the unfinished leaks. */
  lemma WantedExactly(cfg: Config, s: State, r: HeapRef)
    requires Inv(cfg, s) && r.target in s.tags
    ensures Wanted(cfg, s, r) <==>
              && Reported(cfg, s, r) && !LocalOfAgent(cfg, r)
              && exists i <- s.nodes[s.tags[r.target]].leaks.raw :: i !in s.finished.raw
  {
    assert NodeOk(cfg, s, s.tags[r.target]);
  }

  predicate OverFanIn(cfg: Config, s: State, r: HeapRef)
    requires Inv(cfg, s) && r.target in s.tags
  {
    && ClassTagged(cfg, s, r)
    && CountOf(s.nodes[s.tags[r.target]].fanIn, ClassObj(cfg, r)) + 1 >= cfg.maxFanIn
  }

  /** Some ignore entry names the field, for nodes of this size. */
  predicate IgnoredAt(cfg: Config, s: State, r: HeapRef, size: int)
    requires TagsOk(s)
  {
    || (r.kind.Field? && ClassTagged(cfg, s, r)
        && Ignored(s.nodes[s.tags[ClassObj(cfg, r)]].ignore, size, FieldIndex(r)))
    || (r.kind.StaticField? && ReferrerTagged(s, r)
        && Ignored(s.nodes[s.tags[r.referrer.value]].ignore, size, FieldIndex(r)))
  }

  predicate IgnoredField(cfg: Config, s: State, r: HeapRef)
    requires Inv(cfg, s) && r.target in s.tags
  {
    IgnoredAt(cfg, s, r, s.nodes[s.tags[r.target]].size)
  }

  predicate Duplicate(cfg: Config, s: State, r: HeapRef)
    requires Inv(cfg, s) && r.target in s.tags
  {
    && ReferrerTagged(s, r)
    && HasReference(s.nodes[s.tags[r.target]].refs, s.tags[r.referrer.value], r.kind, r.info)
  }

  function Judge(cfg: Config, s: State, r: HeapRef): Verdict
    requires Inv(cfg, s)
  {
    if !Wanted(cfg, s, r) then Ignore
    else if OverFanIn(cfg, s, r) || IgnoredField(cfg, s, r) || Duplicate(cfg, s, r) then CountOnly
    else Accept
  }

  /** The fan-in counter of the referrer's class goes up, whatever happens next. */
  function Counted(cfg: Config, s: State, r: HeapRef): (s': State)
    requires Inv(cfg, s) && r.target in s.tags
  {
    if ClassTagged(cfg, s, r) then
      var t := s.tags[r.target];
      s.(nodes := s.nodes[t := s.nodes[t].(fanIn := Bump(s.nodes[t].fanIn, ClassObj(cfg, r)))])
    else s
  }

  /** The address of the referrer's node, a new one if the referrer has none. */
  function ReferrerNode(s: State, r: HeapRef): Option<NodeId> {
    if r.referrer.None? then None
    else if r.referrer.value in s.tags then Some(s.tags[r.referrer.value])
    else Some(|s.nodes|)
  }

  /** One more reference to the referrer's node, or a new node that starts with one. */
  function Attached(cfg: Config, s: State, r: HeapRef): State
    requires Inv(cfg, s)
  {
    if r.referrer.None? then s
    else if r.referrer.value in s.tags then
      var f := s.tags[r.referrer.value];
      s.(nodes := s.nodes[f := s.nodes[f].(rc := s.nodes[f].rc + 1)])
    else
      s.(nodes := s.nodes + [NewNode(cfg.leaks)], owner := s.owner + [r.referrer.value],
         tags := s.tags[r.referrer.value := |s.nodes|])
  }

  /** The target's unfinished leaks and its size flow to the referrer. */
  function Tainted(to: Node, from: Node, finished: Bits): Node {
    to.(leaks := AddAllWithExclusion(to.leaks, from.leaks, finished),
        size := if to.size < from.size then from.size else to.size)
  }

  function RefOf(s: State, r: HeapRef): Ref {
    Ref(r.kind, if r.info.Some? then r.info.value else NO_INFO, ReferrerNode(s, r))
  }

  function Found(found: seq<nat>, leaks: Bits, finished: Bits): seq<nat> {
    seq(|found|, i requires 0 <= i < |found| =>
      found[i] + if Contains(leaks, i) && !Contains(finished, i) then 1 else 0)
  }

  /** Records the reference.  `s` is the state after counting. */
  function Linked(cfg: Config, s: State, r: HeapRef): State
    requires Inv(cfg, s) && r.target in s.tags
  {
    var t := s.tags[r.target];
    var s1 := Attached(cfg, s, r);
    var f := ReferrerNode(s, r);
    var nodes2 := if f.None? then s1.nodes
                  else s1.nodes[f.value := Tainted(s1.nodes[f.value], s1.nodes[t], s.finished)];
    var nodes3 := nodes2[t := nodes2[t].(refs := nodes2[t].refs + [RefOf(s, r)])];
    s1.(nodes := nodes3,
        found := Found(s.found, nodes3[t].leaks, s.finished),
        finished := if IsRootReference(r.kind) then AddAll(s.finished, nodes3[t].leaks) else s.finished)
  }

  lemma CountedInv(cfg: Config, s: State, r: HeapRef)
    requires Inv(cfg, s) && r.target in s.tags
    ensures Inv(cfg, Counted(cfg, s, r))
  {
    var s' := Counted(cfg, s, r);
    forall k: NodeId | k < |s'.nodes| ensures NodeOk(cfg, s', k) {
      assert NodeOk(cfg, s, k);
    }
  }

  function Step(cfg: Config, s: State, r: HeapRef): State
    requires Inv(cfg, s)
  {
    match Judge(cfg, s, r)
    case Ignore => s
    case CountOnly => Counted(cfg, s, r)
    case Accept => CountedInv(cfg, s, r); Linked(cfg, Counted(cfg, s, r), r)
  }

  // ---- What a step keeps ----

  /** The raw bits that flow from the target to the referrer: those the two buffers share and no leak finished. */
  function Flow(to: Bits, from: Bits, finished: Bits): set<nat> {
    set k | k in from.raw && k < Common(to, from) && k !in finished.raw
  }

  /** Node `n` with one more reference to it, and what flows to it from `from`. */
  function Reached(n: Node, from: Node, finished: Bits): Node {
    n.(leaks := n.leaks.(raw := n.leaks.raw + Flow(n.leaks, from.leaks, finished)),
       size := if n.size < from.size then from.size else n.size)
  }

  /** What `Linked` makes of node `k`. */
  function NodeAfter(cfg: Config, s: State, r: HeapRef, k: NodeId): Node
    requires Inv(cfg, s) && r.target in s.tags && k <= |s.nodes|
  {
    var t := s.tags[r.target];
    if k == |s.nodes| then Reached(NewNode(cfg.leaks), s.nodes[t], s.finished)
    else
      var n := if ReferrerNode(s, r) == Some(k)
               then Reached(s.nodes[k].(rc := s.nodes[k].rc + 1), s.nodes[t], s.finished) else s.nodes[k];
      if k == t then n.(refs := n.refs + [RefOf(s, r)]) else n
  }

  lemma TaintedIsReached(cfg: Config, s: State, n: Node, t: NodeId)
    requires Inv(cfg, s) && t < |s.nodes| && n.leaks.size <= cfg.leaks
    ensures Tainted(n, s.nodes[t], s.finished) == Reached(n, s.nodes[t], s.finished)
  {
    assert NodeOk(cfg, s, t);
  }

  /** `Linked`, node by node. */
  lemma LinkedNodes(cfg: Config, s: State, r: HeapRef)
    requires Inv(cfg, s) && r.target in s.tags
    ensures var s' := Linked(cfg, s, r);
            && |s'.nodes| == |s.nodes| + (if ReferrerNode(s, r) == Some(|s.nodes|) then 1 else 0)
            && forall k: NodeId | k < |s'.nodes| :: s'.nodes[k] == NodeAfter(cfg, s, r, k)
  {
    var t := s.tags[r.target];
    if ReferrerTagged(s, r) {
      var f := s.tags[r.referrer.value];
      assert NodeOk(cfg, s, f);
      TaintedIsReached(cfg, s, s.nodes[f].(rc := s.nodes[f].rc + 1), t);
    } else {
      TaintedIsReached(cfg, s, NewNode(cfg.leaks), t);
    }
  }

  /** What the target carries after `Linked`: only finished leaks may have been added. */
  lemma LinkedTarget(cfg: Config, s: State, r: HeapRef)
    requires Inv(cfg, s) && r.target in s.tags
    ensures var now := Linked(cfg, s, r).nodes[s.tags[r.target]].leaks;
            var leaks := s.nodes[s.tags[r.target]].leaks;
            && now.size == leaks.size && Fits(now)
            && (forall i: nat :: i in now.raw && i !in s.finished.raw <==> i in leaks.raw && i !in s.finished.raw)
            && s.finished.raw + now.raw == s.finished.raw + leaks.raw
  {
    var t := s.tags[r.target];
    assert NodeOk(cfg, s, t);
    LinkedNodes(cfg, s, r);
  }

  lemma SameFound(found: seq<nat>, a: Bits, b: Bits, finished: Bits)
    requires a.size == b.size && |found| == finished.size
    requires forall i: nat :: i in a.raw && i !in finished.raw <==> i in b.raw && i !in finished.raw
    ensures Found(found, a, finished) == Found(found, b, finished)
  {
    assert forall i: nat | i < |found| :: Contains(a, i) && !Contains(finished, i) <==>
                                          Contains(b, i) && !Contains(finished, i);
  }

  lemma AllAdded(s: Bits, o: Bits)
    requires o.size <= s.size && Fits(o)
    ensures AddAll(s, o).raw == s.raw + o.raw
  {
  }

  /** The tag table, the finished leaks and the counters after `Linked`. */
  lemma LinkedRest(cfg: Config, s: State, r: HeapRef)
    requires Inv(cfg, s) && r.target in s.tags
    ensures var s' := Linked(cfg, s, r);
            var leaks := s.nodes[s.tags[r.target]].leaks;
            && s'.finished.size == s.finished.size
            && s'.finished.raw == s.finished.raw + (if IsRootReference(r.kind) then leaks.raw else {})
            && s'.found == Found(s.found, leaks, s.finished)
            && s'.tags == (if ReferrerNode(s, r) == Some(|s.nodes|) then s.tags[r.referrer.value := |s.nodes|]
                           else s.tags)
            && s'.owner == (if ReferrerNode(s, r) == Some(|s.nodes|) then s.owner + [r.referrer.value] else s.owner)
  {
    var t := s.tags[r.target];
    assert NodeOk(cfg, s, t);
    LinkedTarget(cfg, s, r);
    var now := Linked(cfg, s, r).nodes[t].leaks;
    SameFound(s.found, now, s.nodes[t].leaks, s.finished);
    AllAdded(s.finished, now);
  }

  /** `Linked`, for one node. */
  lemma LinkedNode(cfg: Config, s: State, r: HeapRef, k: NodeId)
    requires Inv(cfg, s) && r.target in s.tags && k < |Linked(cfg, s, r).nodes|
    ensures k <= |s.nodes| <= |Linked(cfg, s, r).nodes| && cfg.leaks <= |s.nodes|
    ensures Linked(cfg, s, r).nodes[k] == NodeAfter(cfg, s, r, k)
    ensures ReferrerNode(s, r).Some? ==> ReferrerNode(s, r).value < |Linked(cfg, s, r).nodes|
  {
    LinkedNodes(cfg, s, r);
  }

  lemma LinkedNodeOk(cfg: Config, s: State, r: HeapRef, k: NodeId)
    requires Inv(cfg, s) && r.target in s.tags && WellShaped(r)
    requires k < |Linked(cfg, s, r).nodes|
    ensures NodeOk(cfg, Linked(cfg, s, r), k)
  {
    LinkedNode(cfg, s, r, k);
    NodeAfterBits(cfg, s, r, k);
    NodeAfterRefs(cfg, s, r, k, |Linked(cfg, s, r).nodes|);
    if k < |s.nodes| {
      assert NodeOk(cfg, s, k);
    }
  }

  lemma NodeAfterBits(cfg: Config, s: State, r: HeapRef, k: NodeId)
    requires Inv(cfg, s) && r.target in s.tags && k <= |s.nodes|
    ensures var b := NodeAfter(cfg, s, r, k).leaks;
            && b.size == (if k < |s.nodes| then s.nodes[k].leaks.size else cfg.leaks)
            && Fits(b) && forall i <- b.raw :: i < cfg.leaks
  {
    assert NodeOk(cfg, s, s.tags[r.target]);
    if k < |s.nodes| {
      assert NodeOk(cfg, s, k);
    }
  }

  lemma NodeAfterRefs(cfg: Config, s: State, r: HeapRef, k: NodeId, n: nat)
    requires Inv(cfg, s) && r.target in s.tags && WellShaped(r) && k <= |s.nodes| <= n
    requires ReferrerNode(s, r).Some? ==> ReferrerNode(s, r).value < n
    ensures forall ref <- NodeAfter(cfg, s, r, k).refs ::
              if ref.node.None? then IsRootReference(ref.kind) else ref.node.value < n
  {
    if k < |s.nodes| {
      assert NodeOk(cfg, s, k);
    }
  }

  lemma LinkedTagsOk(cfg: Config, s: State, r: HeapRef)
    requires Inv(cfg, s) && r.target in s.tags
    ensures TagsOk(Linked(cfg, s, r))
  {
    LinkedNodes(cfg, s, r);
    LinkedRest(cfg, s, r);
  }

  lemma LinkedInv(cfg: Config, s: State, r: HeapRef)
    requires Inv(cfg, s) && r.target in s.tags && WellShaped(r)
    ensures Inv(cfg, Linked(cfg, s, r))
  {
    var s' := Linked(cfg, s, r);
    LinkedTagsOk(cfg, s, r);
    assert |s.nodes| <= |s'.nodes| && |s'.found| == cfg.leaks;
    assert s'.finished.size == cfg.leaks && forall i <- s'.finished.raw :: i < cfg.leaks by {
      LinkedRest(cfg, s, r);
      assert NodeOk(cfg, s, s.tags[r.target]);
    }
    forall k: NodeId | k < |s'.nodes| ensures NodeOk(cfg, s', k) {
      LinkedNodeOk(cfg, s, r, k);
    }
  }

  /** Every callback keeps the state invariant. */
  lemma StepInv(cfg: Config, s: State, r: HeapRef)
    requires Inv(cfg, s) && WellShaped(r)
    ensures Inv(cfg, Step(cfg, s, r))
  {
    if Judge(cfg, s, r) != Ignore {
      CountedInv(cfg, s, r);
      if Judge(cfg, s, r) == Accept {
        LinkedInv(cfg, Counted(cfg, s, r), r);
      }
    }
  }

  /** Nothing that a node has is ever taken away while recording. */
  predicate NodeGrows(n: Node, n': Node) {
    && n.refs <= n'.refs
    && n.leaks.size == n'.leaks.size && n.leaks.raw <= n'.leaks.raw
    && n.size <= n'.size
    && n.isClass == n'.isClass && n.obj == n'.obj && n.ignore == n'.ignore
    && n.visited == n'.visited && n.dead == n'.dead
  }

  predicate Grows(s: State, s': State) {
    && |s.nodes| <= |s'.nodes|
    && (forall k: NodeId | k < |s.nodes| :: NodeGrows(s.nodes[k], s'.nodes[k]))
    && (forall o <- s.tags :: o in s'.tags && s'.tags[o] == s.tags[o])
    && s.owner <= s'.owner
    && s.finished.size == s'.finished.size && s.finished.raw <= s'.finished.raw
  }

  /** Fan-in counters only rise. */
  ghost predicate FanInGrows(s: State, s': State) {
    |s.nodes| <= |s'.nodes| &&
    forall k: NodeId, c: Obj | k < |s.nodes| :: CountOf(s.nodes[k].fanIn, c) <= CountOf(s'.nodes[k].fanIn, c)
  }

  lemma CountedGrows(cfg: Config, s: State, r: HeapRef)
    requires Inv(cfg, s) && r.target in s.tags
    ensures Grows(s, Counted(cfg, s, r)) && FanInGrows(s, Counted(cfg, s, r))
  {
    if ClassTagged(cfg, s, r) {
      forall c: Obj ensures var n := s.nodes[s.tags[r.target]];
        CountOf(n.fanIn, c) <= CountOf(Bump(n.fanIn, ClassObj(cfg, r)), c) {
        BumpCounts(s.nodes[s.tags[r.target]].fanIn, ClassObj(cfg, r), c);
      }
    }
  }

  lemma LinkedGrows(cfg: Config, s: State, r: HeapRef)
    requires Inv(cfg, s) && r.target in s.tags && WellShaped(r)
    ensures Grows(s, Linked(cfg, s, r)) && FanInGrows(s, Linked(cfg, s, r))
  {
    var s' := Linked(cfg, s, r);
    LinkedNodes(cfg, s, r);
    LinkedRest(cfg, s, r);
    forall k: NodeId | k < |s.nodes|
      ensures NodeGrows(s.nodes[k], s'.nodes[k]) && s.nodes[k].fanIn == s'.nodes[k].fanIn
    {
      NodeAfterGrows(cfg, s, r, k);
    }
  }

  lemma NodeAfterGrows(cfg: Config, s: State, r: HeapRef, k: NodeId)
    requires Inv(cfg, s) && r.target in s.tags && k < |s.nodes|
    ensures NodeGrows(s.nodes[k], NodeAfter(cfg, s, r, k)) && s.nodes[k].fanIn == NodeAfter(cfg, s, r, k).fanIn
  {
  }

  lemma StepGrows(cfg: Config, s: State, r: HeapRef)
    requires Inv(cfg, s) && WellShaped(r)
    ensures Inv(cfg, Step(cfg, s, r))
    ensures Grows(s, Step(cfg, s, r)) && FanInGrows(s, Step(cfg, s, r))
  {
    StepInv(cfg, s, r);
    if Judge(cfg, s, r) != Ignore {
      CountedInv(cfg, s, r);
      CountedGrows(cfg, s, r);
      if Judge(cfg, s, r) == Accept {
        var s1 := Counted(cfg, s, r);
        LinkedGrows(cfg, s1, r);
        GrowsTransitive(s, s1, Step(cfg, s, r));
      }
    }
  }

  /** What an accepted reference makes of node `k`. */
  lemma AcceptedNode(cfg: Config, s: State, r: HeapRef, k: NodeId)
    requires Inv(cfg, s) && Judge(cfg, s, r) == Accept && k < |Step(cfg, s, r).nodes|
    ensures r.target in s.tags && k <= |s.nodes| && Inv(cfg, Counted(cfg, s, r))
    ensures Step(cfg, s, r).nodes[k] == NodeAfter(cfg, Counted(cfg, s, r), r, k)
    ensures NodeAfter(cfg, Counted(cfg, s, r), r, k).(fanIn := []) == NodeAfter(cfg, s, r, k).(fanIn := [])
  {
    CountedInv(cfg, s, r);
    LinkedNode(cfg, Counted(cfg, s, r), r, k);
    CountedAfter(cfg, s, r, k);
  }

  /** Counting makes no difference to it but in the counters. */
  lemma CountedAfter(cfg: Config, s: State, r: HeapRef, k: NodeId)
    requires Inv(cfg, s) && r.target in s.tags && k <= |s.nodes| && Inv(cfg, Counted(cfg, s, r))
    ensures NodeAfter(cfg, Counted(cfg, s, r), r, k).(fanIn := []) == NodeAfter(cfg, s, r, k).(fanIn := [])
  {
    var s1, t := Counted(cfg, s, r), s.tags[r.target];
    assert ReferrerNode(s1, r) == ReferrerNode(s, r) && RefOf(s1, r) == RefOf(s, r);
    ReachedCounted(NewNode(cfg.leaks), s.nodes[t], s.finished, [], s1.nodes[t].fanIn);
    if k < |s.nodes| {
      ReachedCounted(s.nodes[k].(rc := s.nodes[k].rc + 1), s.nodes[t], s.finished, s1.nodes[k].fanIn,
                     s1.nodes[t].fanIn);
    }
  }

  lemma ReachedCounted(n: Node, from: Node, finished: Bits, a: seq<ClassCount>, b: seq<ClassCount>)
    ensures Reached(n.(fanIn := a), from.(fanIn := b), finished) == Reached(n, from, finished).(fanIn := a)
  {
  }

  // ---- Passes ----

  /** The callbacks for `heap[from..]`, in order. */
  function Visit(cfg: Config, s: State, heap: seq<HeapRef>, from: nat): State
    requires Inv(cfg, s) && Shaped(heap) && from <= |heap|
    decreases |heap| - from
  {
    if from == |heap| then s
    else
      StepInv(cfg, s, heap[from]);
      Visit(cfg, Step(cfg, s, heap[from]), heap, from + 1)
  }

  function Reset(s: State): State { s.(found := seq(|s.found|, _ => 0)) }

  lemma ResetInv(cfg: Config, s: State)
    requires Inv(cfg, s)
    ensures Inv(cfg, Reset(s))
  {
    forall k: NodeId | k < |s.nodes| ensures NodeOk(cfg, Reset(s), k) {
      assert NodeOk(cfg, s, k);
    }
  }

  /** One heap iteration, with the counters of new nodes cleared before it. */
  function Pass(cfg: Config, s: State, heap: seq<HeapRef>): State
    requires Inv(cfg, s) && Shaped(heap)
  {
    ResetInv(cfg, s);
    Visit(cfg, Reset(s), heap, 0)
  }

  /** Some leak is unfinished and found new nodes, so another pass may help. */
  predicate HasUnfinished(cfg: Config, s: State)
    requires Inv(cfg, s)
  {
    exists j: nat :: j < cfg.leaks && !Contains(s.finished, j) && s.found[j] != 0
  }

  lemma VisitFacts(cfg: Config, s: State, heap: seq<HeapRef>, from: nat)
    requires Inv(cfg, s) && Shaped(heap) && from <= |heap|
    ensures var s' := Visit(cfg, s, heap, from);
            Inv(cfg, s') && Grows(s, s') && FanInGrows(s, s')
    decreases |heap| - from
  {
    if from < |heap| {
      var s1 := Step(cfg, s, heap[from]);
      StepGrows(cfg, s, heap[from]);
      VisitFacts(cfg, s1, heap, from + 1);
      GrowsTransitive(s, s1, Visit(cfg, s, heap, from));
    }
  }

  lemma GrowsTransitive(a: State, b: State, c: State)
    requires Grows(a, b) && Grows(b, c)
    ensures Grows(a, c)
  {
    forall k: NodeId | k < |a.nodes| ensures NodeGrows(a.nodes[k], c.nodes[k]) {
      assert NodeGrows(a.nodes[k], b.nodes[k]) && NodeGrows(b.nodes[k], c.nodes[k]);
    }
  }

  lemma PassFacts(cfg: Config, s: State, heap: seq<HeapRef>)
    requires Inv(cfg, s) && Shaped(heap)
    ensures var s' := Pass(cfg, s, heap);
            Inv(cfg, s') && Grows(s, s') && FanInGrows(s, s')
  {
    ResetInv(cfg, s);
    VisitFacts(cfg, Reset(s), heap, 0);
  }

  /** The pass loop of `tagReferencesChain`: at most `left` passes, stopping early when nothing is left to do. */
  function PassLoop(cfg: Config, s: State, heap: seq<HeapRef>, left: nat): State
    requires Inv(cfg, s) && Shaped(heap)
    decreases left
  {
    if left == 0 then s
    else
      PassFacts(cfg, s, heap);
      var s' := Pass(cfg, s, heap);
      if HasUnfinished(cfg, s') then PassLoop(cfg, s', heap, left - 1) else s'
  }

  lemma PassLoopFacts(cfg: Config, s: State, heap: seq<HeapRef>, left: nat)
    requires Inv(cfg, s) && Shaped(heap)
    ensures var s' := PassLoop(cfg, s, heap, left);
            Inv(cfg, s') && Grows(s, s') && FanInGrows(s, s')
    decreases left
  {
    if left > 0 {
      var s1 := Pass(cfg, s, heap);
      PassFacts(cfg, s, heap);
      if HasUnfinished(cfg, s1) {
        PassLoopFacts(cfg, s1, heap, left - 1);
        GrowsTransitive(s, s1, PassLoop(cfg, s, heap, left));
      }
    }
  }
}
