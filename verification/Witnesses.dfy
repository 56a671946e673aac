/** Heaps on which the agent falls short, and what its passes make of them.  Limits.dfy draws the conclusions. */
module Witnesses {
  import opened Wrappers
  import opened LeakBits
  import opened DataStruct
  import opened Recording
  import opened Taint
  import opened Holding
  import opened Passes
  import opened Reached
  import opened Distance
  import opened Fatal

  // ---- The heaps of this module ----
  // With n leaks: objects 0 to n - 1 are the leaks, n is their class, n + 1 another instance of it, and n + 2 is
  // java.lang.Class, which alone has no tag when the passes begin (nor has n + 1).

  function ClassAt(n: nat, o: Obj): Obj { if o < n || o == n + 1 then n else n + 2 }

  function Classes(n: nat, k: nat): (m: map<Obj, Obj>)
    ensures forall o: Obj :: o in m <==> o < k
    ensures forall o <- m :: m[o] == ClassAt(n, o)
  {
    if k == 0 then map[] else Classes(n, k - 1)[k - 1 := ClassAt(n, k - 1)]
  }

  function Settings(n: nat): Config { Config(n, 100, 0, Classes(n, n + 3)) }

  function LeakSize(k: nat): int { if k == 0 then 20 else 5 }

  function IdTags(n: nat): (m: map<Obj, NodeId>)
    ensures forall k: nat :: k in m <==> k < n
    ensures forall k <- m :: m[k] == k
  {
    if n == 0 then map[] else IdTags(n - 1)[n - 1 := n - 1]
  }

  /** The state in which the passes begin: object `k` has node `k`. */
  function StartState(n: nat, ignore: seq<IgnoreField>): State {
    State(
      seq(n + 1, k requires 0 <= k < n + 1 =>
        if k < n
        then Node(false, false, false, Some(k), LeakSize(k), Bits(k + 1, {k}), [], 1, [], [])
        else Node(false, false, true, Some(k), 0, Empty(n), [], 1, [], ignore)),
      seq(n + 1, k requires 0 <= k < n + 1 => k),
      IdTags(n + 1),
      Empty(n),
      seq(n, _ => 0))
  }

  /** No node was referenced more than `b` times by instances of one class. */
  ghost predicate FanBelow(s: State, b: nat) {
    forall k: NodeId, c: Obj | k < |s.nodes| :: CountOf(s.nodes[k].fanIn, c) <= b
  }

  /** What holds after at most `b` callbacks. */
  ghost predicate Base(n: nat, s: State, b: nat) {
    && Inv(Settings(n), s) && FanBelow(s, b) && n < |s.nodes|
    && (forall k: nat | k <= n :: k in s.tags && s.tags[k] == k)
    && s.nodes[n].isClass
  }

  /** What matters about the state in which the passes begin. */
  ghost predicate Fresh(n: nat, s: State, ignore: seq<IgnoreField>) {
    && Base(n, s, 0) && Start(Settings(n), s) && Reset(s) == s && |s.nodes| == n + 1
    && n + 1 !in s.tags && n + 2 !in s.tags
    && (forall k: nat | k < n ::
          && s.nodes[k].ignore == [] && s.nodes[k].size == LeakSize(k) && s.nodes[k].leaks == Bits(k + 1, {k})
          && s.found[k] == 0)
    && s.nodes[n].ignore == ignore
  }

  lemma StartIsFresh(n: nat, ignore: seq<IgnoreField>)
    ensures Fresh(n, StartState(n, ignore), ignore) && AgentSizes(Settings(n), StartState(n, ignore))
  {
    StartIsInv(n, ignore);
  }

  lemma StartIsInv(n: nat, ignore: seq<IgnoreField>)
    ensures Inv(Settings(n), StartState(n, ignore))
  {
    var s := StartState(n, ignore);
    forall k: NodeId | k < |s.nodes| ensures NodeOk(Settings(n), s, k) {
    }
  }

  /** No node was counted yet in this pass. */
  predicate NoneFound(n: nat, s: State) { |s.found| == n && forall j: nat | j < n :: s.found[j] == 0 }

  lemma ResetBase(n: nat, s: State, b: nat)
    requires Base(n, s, b)
    ensures Base(n, Reset(s), b) && NoneFound(n, Reset(s))
  {
    ResetInv(Settings(n), s);
  }

  const SOME_FIELD := Some(Info(0, 0, 0))

  // ---- Single callbacks ----

  /** A callback whose target has an unfinished leak is accepted, unless a field is ignored or the reference is
      known. */
  lemma Accepting(n: nat, s: State, r: HeapRef, b: nat, i: nat)
    requires Base(n, s, b) && b < 50 && Reported(Settings(n), s, r) && !LocalOfAgent(Settings(n), r)
    requires i in s.nodes[s.tags[r.target]].leaks.raw && i !in s.finished.raw
    requires !IgnoredField(Settings(n), s, r) && !Duplicate(Settings(n), s, r)
    ensures Judge(Settings(n), s, r) == Accept
  {
    WantedExactly(Settings(n), s, r);
    if ClassTagged(Settings(n), s, r) {
      assert CountOf(s.nodes[s.tags[r.target]].fanIn, ClassObj(Settings(n), r)) <= b;
    }
  }

  /** What an accepted callback makes of the state, but for the fan-in counters. */
  ghost predicate After(cfg: Config, s: State, r: HeapRef, s': State)
    requires Inv(cfg, s) && r.target in s.tags
  {
    var leaks := s.nodes[s.tags[r.target]].leaks;
    && |s'.nodes| == |s.nodes| + (if ReferrerNode(s, r) == Some(|s.nodes|) then 1 else 0)
    && (forall k: NodeId | k < |s'.nodes| :: s'.nodes[k].(fanIn := []) == NodeAfter(cfg, s, r, k).(fanIn := []))
    && s'.finished.raw == s.finished.raw + (if IsRootReference(r.kind) then leaks.raw else {})
    && s'.found == Found(s.found, leaks, s.finished)
    && s'.tags == (if ReferrerNode(s, r) == Some(|s.nodes|) then s.tags[r.referrer.value := |s.nodes|] else s.tags)
  }

  lemma AcceptedAfter(cfg: Config, s: State, r: HeapRef)
    requires Inv(cfg, s) && Judge(cfg, s, r) == Accept
    ensures After(cfg, s, r, Step(cfg, s, r))
  {
    CountedInv(cfg, s, r);
    LinkedRest(cfg, Counted(cfg, s, r), r);
    LinkedNodes(cfg, Counted(cfg, s, r), r);
    forall k: NodeId | k < |Step(cfg, s, r).nodes|
      ensures k <= |s.nodes|
      ensures Step(cfg, s, r).nodes[k].(fanIn := []) == NodeAfter(cfg, s, r, k).(fanIn := [])
    {
      AcceptedNode(cfg, s, r, k);
    }
  }

  lemma StepBase(n: nat, s: State, r: HeapRef, b: nat)
    requires Base(n, s, b) && WellShaped(r)
    ensures Base(n, Step(Settings(n), s, r), b + 1)
  {
    var cfg := Settings(n);
    var s' := Step(cfg, s, r);
    StepGrows(cfg, s, r);
    assert NodeGrows(s.nodes[n], s'.nodes[n]);
    forall k: NodeId, c: Obj | k < |s'.nodes| ensures CountOf(s'.nodes[k].fanIn, c) <= b + 1 {
      StepFan(cfg, s, r, k);
      if k < |s.nodes| && HasClass(cfg, r) {
        BumpCounts(s.nodes[k].fanIn, ClassObj(cfg, r), c);
      }
    }
  }

  /** One accepted callback, with all that follows from it. */
  lemma AcceptStep(n: nat, s: State, r: HeapRef, b: nat, i: nat) returns (s': State)
    requires Base(n, s, b) && b < 50 && WellShaped(r) && Reported(Settings(n), s, r) && !LocalOfAgent(Settings(n), r)
    requires i in s.nodes[s.tags[r.target]].leaks.raw && i !in s.finished.raw
    requires !IgnoredField(Settings(n), s, r) && !Duplicate(Settings(n), s, r)
    ensures Judge(Settings(n), s, r) == Accept
    ensures s' == Step(Settings(n), s, r) && Base(n, s', b + 1) && After(Settings(n), s, r, s')
  {
    s' := Step(Settings(n), s, r);
    Accepting(n, s, r, b, i);
    AcceptedAfter(Settings(n), s, r);
    StepBase(n, s, r, b);
  }

  /** The same for a field of an instance that refers to another one, if the class ignores no fields. */
  lemma AcceptField(n: nat, s: State, r: HeapRef, b: nat, i: nat) returns (s': State)
    requires Base(n, s, b) && b < 50 && r.kind == Field && r.info.Some? && s.nodes[n].ignore == []
    requires r.target in s.tags && ClassAt(n, r.target) == n && r.target <= n + 2
    requires r.referrer.Some? && ClassAt(n, r.referrer.value) == n && r.referrer.value <= n + 2
    requires s.nodes[s.tags[r.target]].refs == [] && i in s.nodes[s.tags[r.target]].leaks.raw && i !in s.finished.raw
    ensures Judge(Settings(n), s, r) == Accept
    ensures s' == Step(Settings(n), s, r) && Base(n, s', b + 1) && After(Settings(n), s, r, s')
  {
    s' := AcceptStep(n, s, r, b, i);
  }

  /** What it leaves of the node of the target. */
  lemma TargetAfter(cfg: Config, s: State, r: HeapRef)
    requires Inv(cfg, s) && Judge(cfg, s, r) == Accept && ReferrerNode(s, r) != Some(s.tags[r.target])
    ensures var t := s.tags[r.target];
            && t < |Step(cfg, s, r).nodes| && Step(cfg, s, r).nodes[t].leaks == s.nodes[t].leaks
            && Step(cfg, s, r).nodes[t].refs == s.nodes[t].refs + [RefOf(s, r)]
  {
    AcceptedAfter(cfg, s, r);
  }

  /** The referrer's node keeps its own references. */
  lemma ReferrerAfter(cfg: Config, s: State, r: HeapRef, f: NodeId)
    requires Inv(cfg, s) && Judge(cfg, s, r) == Accept && ReferrerNode(s, r) == Some(f)
    requires f < |s.nodes| && f != s.tags[r.target]
    ensures f < |Step(cfg, s, r).nodes| && Step(cfg, s, r).nodes[f].refs == s.nodes[f].refs
  {
    AcceptedAfter(cfg, s, r);
  }

  /** And of any other but the referrer's. */
  lemma OtherAfter(cfg: Config, s: State, r: HeapRef, k: NodeId)
    requires Inv(cfg, s) && Judge(cfg, s, r) == Accept && ReferrerNode(s, r) != Some(k)
    requires k < |s.nodes| && k != s.tags[r.target]
    ensures k < |Step(cfg, s, r).nodes|
    ensures Step(cfg, s, r).nodes[k].(fanIn := []) == s.nodes[k].(fanIn := [])
  {
    AcceptedAfter(cfg, s, r);
  }

  /** One callback that is turned down. */
  lemma RefuseStep(n: nat, s: State, r: HeapRef, b: nat) returns (s': State)
    requires Base(n, s, b) && WellShaped(r)
    requires || !Reported(Settings(n), s, r)
             || IgnoredField(Settings(n), s, r) || Duplicate(Settings(n), s, r)
             || s.nodes[s.tags[r.target]].leaks.raw <= s.finished.raw
    ensures s' == Step(Settings(n), s, r) && Base(n, s', b + 1)
    ensures SameButCounters(s, s') && s'.found == s.found
  {
    s' := Step(Settings(n), s, r);
    if r.target in s.tags {
      WantedExactly(Settings(n), s, r);
    }
    StepBase(n, s, r, b);
    StepGrows(Settings(n), s, r);
  }

  /** If java.lang.Class is no referrer, nothing stops the run. */
  lemma NeverStops(n: nat, s: State, ignore: seq<IgnoreField>, heap: seq<HeapRef>, left: nat)
    requires Fresh(n, s, ignore) && Shaped(heap) && forall r <- heap :: r.referrer != Some(n + 2)
    ensures !LoopStops(Settings(n), s, heap, left)
  {
    ApartNeverStops(Settings(n), s, heap, left);
  }

  /** Who refers to nothing holds nothing but itself. */
  lemma Unreferring(heap: seq<HeapRef>, p: Obj, o: Obj)
    requires p != o && forall r <- heap :: r.referrer != Some(p) || IsRootReference(r.kind)
    ensures !Holds(heap, p, o)
  {
    if Holds(heap, p, o) {
      HolderRefers(heap, p, o);
    }
  }

  /** No lower-numbered leak holds leak `i`. */
  lemma RoomUnlessHeld(n: nat, s: State, ignore: seq<IgnoreField>, heap: seq<HeapRef>, i: nat)
    requires i < n && Fresh(n, s, ignore) && AgentSizes(Settings(n), s) && forall f: nat | f < i :: !Holds(heap, f, i)
    ensures RoomFor(Settings(n), s, heap, i)
  {
    forall k: nat | k <= n ensures s.owner[k] == k {
      assert k in s.tags && s.owner[s.tags[k]] == k;
    }
    RoomExactly(Settings(n), s, heap, i);
  }

  /** No leak holds another one. */
  lemma RoomUnlessReferring(n: nat, s: State, ignore: seq<IgnoreField>, heap: seq<HeapRef>, i: nat)
    requires i < n && Fresh(n, s, ignore) && AgentSizes(Settings(n), s)
    requires forall r <- heap | r.referrer.Some? :: r.referrer.value >= n || IsRootReference(r.kind)
    ensures RoomFor(Settings(n), s, heap, i)
  {
    forall f: nat | f < i ensures !Holds(heap, f, i) {
      Unreferring(heap, f, i);
    }
    RoomUnlessHeld(n, s, ignore, heap, i);
  }

  /** What one callback makes of `s`. */
  function Next(n: nat, s: State, r: HeapRef): State {
    if Inv(Settings(n), s) && WellShaped(r) then Step(Settings(n), s, r) else s
  }

  /** It stops the process. */
  predicate Halts(n: nat, s: State, r: HeapRef) { Inv(Settings(n), s) && Stops(Settings(n), s, r) }

  lemma VisitNext(n: nat, s: State, heap: seq<HeapRef>, k: nat)
    requires Inv(Settings(n), s) && Shaped(heap) && k < |heap|
    ensures Inv(Settings(n), Next(n, s, heap[k]))
    ensures Visit(Settings(n), s, heap, k) == Visit(Settings(n), Next(n, s, heap[k]), heap, k + 1)
    ensures VisitStops(Settings(n), s, heap, k) <==>
            Halts(n, s, heap[k]) || VisitStops(Settings(n), Next(n, s, heap[k]), heap, k + 1)
  {
    StepInv(Settings(n), s, heap[k]);
  }

  lemma PassOfTwo(n: nat, s: State, heap: seq<HeapRef>, a: State, b: State)
    requires Inv(Settings(n), s) && Shaped(heap) && |heap| == 2
    requires a == Next(n, Reset(s), heap[0]) && b == Next(n, a, heap[1])
    ensures Pass(Settings(n), s, heap) == b
  {
    ResetInv(Settings(n), s);
    VisitNext(n, Reset(s), heap, 0);
    VisitNext(n, a, heap, 1);
  }

  lemma PassOfThree(n: nat, s: State, heap: seq<HeapRef>, a: State, b: State, c: State)
    requires Inv(Settings(n), s) && Shaped(heap) && |heap| == 3
    requires a == Next(n, Reset(s), heap[0]) && b == Next(n, a, heap[1]) && c == Next(n, b, heap[2])
    ensures Pass(Settings(n), s, heap) == c
  {
    ResetInv(Settings(n), s);
    VisitNext(n, Reset(s), heap, 0);
    VisitNext(n, a, heap, 1);
    VisitNext(n, b, heap, 2);
  }

  lemma PassOfFour(n: nat, s: State, heap: seq<HeapRef>, a: State, b: State, c: State, d: State)
    requires Inv(Settings(n), s) && Shaped(heap) && |heap| == 4
    requires a == Next(n, Reset(s), heap[0]) && b == Next(n, a, heap[1])
    requires c == Next(n, b, heap[2]) && d == Next(n, c, heap[3])
    ensures Pass(Settings(n), s, heap) == d
    ensures PassStops(Settings(n), s, heap) <==>
            Halts(n, Reset(s), heap[0]) || Halts(n, a, heap[1]) || Halts(n, b, heap[2]) || Halts(n, c, heap[3])
  {
    ResetInv(Settings(n), s);
    VisitNext(n, Reset(s), heap, 0);
    VisitNext(n, a, heap, 1);
    VisitNext(n, b, heap, 2);
    VisitNext(n, c, heap, 3);
  }

  lemma OnePass(cfg: Config, s: State, heap: seq<HeapRef>)
    requires Inv(cfg, s) && Shaped(heap)
    ensures PassLoop(cfg, s, heap, 1) == Pass(cfg, s, heap)
  {
    PassFacts(cfg, s, heap);
  }

  // ---- A referrer without a node ----

  /** Object `n + 1` refers to leak `a`. */
  function FromOther(n: nat, a: nat): HeapRef { HeapRef(a, Field, SOME_FIELD, Some(n + 1)) }

  /** Before that is recorded. */
  ghost predicate Newcomes(n: nat, s: State, a: nat) {
    && a < n && Base(n, s, 0) && |s.nodes| == n + 1 && n + 1 !in s.tags
    && s.finished.raw == {} && s.nodes[n].ignore == []
    && s.nodes[a].leaks == Bits(a + 1, {a}) && s.nodes[a].refs == []
  }

  lemma NewAccepted(n: nat, s: State, a: nat)
    requires Newcomes(n, s, a)
    ensures Judge(Settings(n), s, FromOther(n, a)) == Accept && Base(n, Step(Settings(n), s, FromOther(n, a)), 1)
  {
    var s' := AcceptField(n, s, FromOther(n, a), 0, a);
  }

  lemma NewGrows(n: nat, s: State, a: nat)
    requires Newcomes(n, s, a) && Judge(Settings(n), s, FromOther(n, a)) == Accept
    ensures var s' := Step(Settings(n), s, FromOther(n, a));
            |s'.nodes| == n + 2 && s'.finished.raw == {} && n + 1 in s'.tags && s'.tags[n + 1] == n + 1
  {
    AcceptedAfter(Settings(n), s, FromOther(n, a));
  }

  lemma NewReferrer(n: nat, s: State, a: nat)
    requires Newcomes(n, s, a)
    ensures var s' := Next(n, s, FromOther(n, a));
            && Base(n, s', 1) && |s'.nodes| == n + 2 && n + 1 in s'.tags && s'.tags[n + 1] == n + 1
            && s'.nodes[n + 1].leaks == Bits(n, {a}) && s'.nodes[n + 1].refs == [] && s'.nodes[n + 1].obj.None?
            && s'.finished.raw == {}
  {
    NewAccepted(n, s, a);
    NewGrows(n, s, a);
    AcceptedAfter(Settings(n), s, FromOther(n, a));
    NewcomerTainted(n, s, FromOther(n, a), Next(n, s, FromOther(n, a)), a);
  }

  lemma NewTarget(n: nat, s: State, a: nat)
    requires Newcomes(n, s, a)
    ensures var s' := Next(n, s, FromOther(n, a));
            && |s'.nodes| == n + 2 && s'.nodes[n].ignore == []
            && s'.nodes[a].refs == [Ref(Field, Info(0, 0, 0), Some(n + 1))]
  {
    NewAccepted(n, s, a);
    NewGrows(n, s, a);
    TargetAfter(Settings(n), s, FromOther(n, a));
    OtherAfter(Settings(n), s, FromOther(n, a), n);
  }

  /** A referrer without a node gets one that carries the bit of the target's only leak. */
  lemma NewcomerTainted(n: nat, s: State, r: HeapRef, s': State, a: nat)
    requires Inv(Settings(n), s) && r.target in s.tags && After(Settings(n), s, r, s')
    requires s.nodes[s.tags[r.target]].leaks == Bits(a + 1, {a}) && a < n && s.finished.raw == {}
    requires r.target in s.tags && ReferrerNode(s, r) == Some(|s.nodes|) && s.tags[r.target] < |s.nodes|
    ensures |s'.nodes| == |s.nodes| + 1
    ensures var node := s'.nodes[|s.nodes|];
            node.leaks == Bits(n, {a}) && node.refs == [] && node.ignore == [] && node.obj.None?
  {
    assert a < Common(Empty(n), s.nodes[s.tags[r.target]].leaks);
  }

  // ---- A finished leak without a chain ----

  /** Leak `i` is held by leak `i - 1`, which a JNI global reference holds. */
  function HeldByLeak(i: nat): (heap: seq<HeapRef>)
    requires i >= 1
    ensures |heap| == 2 && Shaped(heap)
  {
    [HeapRef(i, Field, SOME_FIELD, Some(i - 1)), HeapRef(i - 1, JniGlobal, None, None)]
  }

  /** Before leak `i - 1` is recorded as a referrer, and after. */
  ghost predicate HeldAt(n: nat, i: nat, s: State, b: nat, held: bool) {
    && 1 <= i < n && Base(n, s, b) && |s.nodes| == n + 1 && s.finished.raw == {} && s.nodes[n].ignore == []
    && s.nodes[i - 1].leaks.size == i && s.nodes[i - 1].refs == [] && i in s.nodes[i].leaks.raw
    && (held ==> i in s.nodes[i - 1].leaks.raw)
    && s.nodes[i].refs == (if held then [Ref(Field, Info(0, 0, 0), Some(i - 1))] else [])
    && HaveObjects(n, s)
  }

  predicate HaveObjects(n: nat, s: State) {
    forall k: NodeId | k <= n && k < |s.nodes| :: s.nodes[k].obj.Some? && !s.nodes[k].dead
  }

  /** In the end leak `i` is finished, but its only way leads through a node without room for its bit. */
  ghost predicate HeldEnd(n: nat, i: nat, s: State) {
    && 1 <= i < n && Inv(Settings(n), s) && |s.nodes| == n + 1 && i in s.finished.raw && HaveObjects(n, s)
    && s.nodes[i - 1].leaks.size == i && s.nodes[i].refs == [Ref(Field, Info(0, 0, 0), Some(i - 1))]
  }

  /** Leak `i - 1` is recorded as a referrer and gets bit `i`, for which it has no room. */
  lemma HeldFirst(n: nat, i: nat, s: State) returns (s': State)
    requires HeldAt(n, i, s, 0, false)
    ensures s' == Next(n, s, HeldByLeak(i)[0]) && HeldAt(n, i, s', 1, true)
  {
    s' := AcceptStep(n, s, HeldByLeak(i)[0], 0, i);
    assert NodeOk(Settings(n), s, i);
    assert i < Common(s.nodes[i - 1].leaks, s.nodes[i].leaks);
  }

  /** Then its own root reference finishes leak `i`. */
  lemma HeldSecond(n: nat, i: nat, s: State) returns (s': State)
    requires HeldAt(n, i, s, 1, true)
    ensures s' == Next(n, s, HeldByLeak(i)[1]) && HeldEnd(n, i, s')
  {
    s' := AcceptStep(n, s, HeldByLeak(i)[1], 1, i);
  }

  lemma HeldRun(n: nat, i: nat, s: State) returns (s': State)
    requires HeldAt(n, i, s, 0, false) && Reset(s) == s
    ensures s' == PassLoop(Settings(n), s, HeldByLeak(i), 1) && HeldEnd(n, i, s')
  {
    var s1 := HeldFirst(n, i, s);
    s' := HeldSecond(n, i, s1);
    PassOfTwo(n, s, HeldByLeak(i), s1, s');
    OnePass(Settings(n), s, HeldByLeak(i));
  }

  /** Leak `i` is held by a local variable of some thread. */
  function HeldByLocal(i: nat): (heap: seq<HeapRef>)
    ensures |heap| == 1 && Shaped(heap)
  {
    [HeapRef(i, StackLocal, Some(Info(0, 7, 0)), None)]
  }

  lemma LocalRun(n: nat, i: nat, s: State) returns (s': State)
    requires i < n && Fresh(n, s, [])
    ensures s' == PassLoop(Settings(n), s, HeldByLocal(i), 1) && Inv(Settings(n), s')
    ensures |s'.nodes| == n + 1 && i in s'.finished.raw && s'.nodes[i].refs == [Ref(StackLocal, Info(0, 7, 0), None)]
    ensures forall k: NodeId | k <= n :: s'.nodes[k].obj.Some? && !s'.nodes[k].dead
  {
    var heap := HeldByLocal(i);
    s' := AcceptStep(n, s, heap[0], 0, i);
    assert Visit(Settings(n), s', heap, 1) == s';
    assert Visit(Settings(n), s, heap, 0) == s';
    OnePass(Settings(n), s, heap);
  }

  /** Leak `i` is held by object `n + 1`, which a JNI global reference holds. */
  function HeldByOther(n: nat, i: nat): (heap: seq<HeapRef>)
    ensures |heap| == 2 && Shaped(heap)
  {
    [FromOther(n, i), HeapRef(n + 1, JniGlobal, None, None)]
  }

  /** After the first callback. */
  ghost predicate OtherAt(n: nat, i: nat, s: State) {
    && i < n && Base(n, s, 1) && |s.nodes| == n + 2 && s.finished.raw == {} && n + 1 in s.tags && s.tags[n + 1] == n + 1
    && s.nodes[n + 1].leaks.raw == {i} && s.nodes[n + 1].refs == [] && s.nodes[n + 1].obj.None?
    && s.nodes[i].refs == [Ref(Field, Info(0, 0, 0), Some(n + 1))]
  }

  lemma OtherRun(n: nat, i: nat, s: State) returns (s': State)
    requires i < n && Fresh(n, s, [])
    ensures s' == PassLoop(Settings(n), s, HeldByOther(n, i), 1) && Inv(Settings(n), s')
    ensures |s'.nodes| == n + 2 && i in s'.finished.raw && s'.nodes[n + 1].obj.None?
    ensures s'.nodes[i].refs == [Ref(Field, Info(0, 0, 0), Some(n + 1))]
  {
    var s1 := OtherFirst(n, i, s);
    s' := OtherSecond(n, i, s1);
    PassOfTwo(n, s, HeldByOther(n, i), s1, s');
    OnePass(Settings(n), s, HeldByOther(n, i));
  }

  lemma OtherFirst(n: nat, i: nat, s: State) returns (s': State)
    requires i < n && Fresh(n, s, [])
    ensures s' == Next(n, s, HeldByOther(n, i)[0]) && OtherAt(n, i, s')
  {
    s' := Next(n, s, HeldByOther(n, i)[0]);
    NewReferrer(n, s, i);
    NewTarget(n, s, i);
  }

  lemma OtherSecond(n: nat, i: nat, s: State) returns (s': State)
    requires OtherAt(n, i, s)
    ensures s' == Next(n, s, HeldByOther(n, i)[1]) && Inv(Settings(n), s')
    ensures |s'.nodes| == n + 2 && i in s'.finished.raw && s'.nodes[n + 1].obj.None?
    ensures s'.nodes[i].refs == [Ref(Field, Info(0, 0, 0), Some(n + 1))]
  {
    s' := AcceptStep(n, s, HeldByOther(n, i)[1], 1, i);
  }

  lemma FreshHeld(n: nat, i: nat, s: State)
    requires 1 <= i < n && Fresh(n, s, []) && AgentSizes(Settings(n), s)
    ensures HeldAt(n, i, s, 0, false)
  {
  }

  // ---- A loop that stops too early ----

  /** Leak 0 is held by a static field of the leaks' class and by object `n + 1`, leak 1 by leak 0; a JNI global
      reference holds object `n + 1`. */
  function HiddenRoot(n: nat): (heap: seq<HeapRef>)
    ensures |heap| == 4 && Shaped(heap)
  {
    [HeapRef(n + 1, JniGlobal, None, None), HeapRef(0, StaticField, SOME_FIELD, Some(n)),
     HeapRef(0, Field, SOME_FIELD, Some(n + 1)), HeapRef(1, Field, SOME_FIELD, Some(0))]
  }

  /** Before the static field is visited. */
  ghost predicate HiddenNone(n: nat, s: State, b: nat) {
    && n >= 2 && Base(n, s, b) && |s.nodes| == n + 1 && n + 1 !in s.tags && n + 2 !in s.tags
    && s.finished.raw == {} && s.nodes[n].ignore == [] && s.found[1] == 0
    && s.nodes[0].leaks == Bits(1, {0}) && s.nodes[0].refs == []
    && s.nodes[1].leaks.raw == {1} && s.nodes[1].refs == []
  }

  /** After it. */
  ghost predicate HiddenOne(n: nat, s: State, b: nat) {
    && n >= 2 && Base(n, s, b) && |s.nodes| == n + 1 && n + 1 !in s.tags && n + 2 !in s.tags
    && s.finished.raw == {0} && s.nodes[n].ignore == [] && s.found[1] == 0
    && s.nodes[0].leaks == Bits(1, {0}) && s.nodes[0].refs == [Ref(StaticField, Info(0, 0, 0), Some(n))]
    && s.nodes[1].leaks.raw == {1} && s.nodes[1].refs == []
  }

  /** The state after the first pass: leak 0 is finished, and its node has bit 1, for which it has no room. */
  ghost predicate HiddenBit(n: nat, s: State, b: nat) {
    && n >= 2 && Base(n, s, b) && |s.nodes| == n + 1 && n + 1 !in s.tags && n + 2 !in s.tags
    && s.finished.raw == {0} && s.nodes[n].ignore == []
    && s.nodes[0].leaks == Bits(1, {0, 1}) && s.nodes[0].refs == [Ref(StaticField, Info(0, 0, 0), Some(n))]
    && s.nodes[1].leaks.raw == {1} && s.nodes[1].refs == [Ref(Field, Info(0, 0, 0), Some(0))]
  }

  lemma HiddenPassOne(n: nat, s: State) returns (s': State)
    requires HiddenNone(n, s, 0) && Reset(s) == s
    ensures s' == Pass(Settings(n), s, HiddenRoot(n))
    ensures HiddenBit(n, s', 4) && HasUnfinished(Settings(n), s')
  {
    var s1, s2 := HiddenFirst(n, s);
    var s3: State;
    s3, s' := HiddenSecond(n, s2);
    PassOfFour(n, s, HiddenRoot(n), s1, s2, s3, s');
    assert !Contains(s'.finished, 1);
  }

  /** The static field finishes leak 0. */
  lemma HiddenFirst(n: nat, s: State) returns (s1: State, s2: State)
    requires HiddenNone(n, s, 0) && Reset(s) == s
    ensures s1 == Next(n, Reset(s), HiddenRoot(n)[0])
    ensures s2 == Next(n, s1, HiddenRoot(n)[1]) && HiddenOne(n, s2, 2)
  {
    s1 := RefuseStep(n, s, HiddenRoot(n)[0], 0);
    s2 := HiddenStatic(n, s1);
  }

  lemma HiddenStatic(n: nat, s: State) returns (s': State)
    requires HiddenNone(n, s, 1)
    ensures s' == Next(n, s, HiddenRoot(n)[1]) && HiddenOne(n, s', 2)
  {
    s' := AcceptStep(n, s, HiddenRoot(n)[1], 1, 0);
  }

  /** Leak 0 is recorded as a referrer of leak 1. */
  lemma HiddenSecond(n: nat, s: State) returns (s1: State, s2: State)
    requires HiddenOne(n, s, 2)
    ensures s1 == Next(n, s, HiddenRoot(n)[2])
    ensures s2 == Next(n, s1, HiddenRoot(n)[3]) && HiddenBit(n, s2, 4) && s2.found[1] == 1
  {
    s1 := RefuseStep(n, s, HiddenRoot(n)[2], 2);
    s2 := HiddenField(n, s1);
  }

  lemma HiddenField(n: nat, s: State) returns (s': State)
    requires HiddenOne(n, s, 3)
    ensures s' == Next(n, s, HiddenRoot(n)[3]) && HiddenBit(n, s', 4) && s'.found[1] == 1
  {
    assert NodeOk(Settings(n), s, 1);
    s' := AcceptStep(n, s, HiddenRoot(n)[3], 3, 1);
    assert 1 < Common(s.nodes[0].leaks, s.nodes[1].leaks);
    assert s'.nodes[0].leaks.raw == {0, 1};
  }

  /** Object `n + 1` was recorded with bit 1, but that counted for no leak. */
  ghost predicate HiddenEnd(n: nat, s: State, b: nat) {
    && n >= 2 && Base(n, s, b) && |s.nodes| == n + 2 && s.finished.raw == {0}
    && NoneFound(n, s)
    && n + 1 in s.tags && s.tags[n + 1] == n + 1 && 1 in s.nodes[n + 1].leaks.raw && s.nodes[n + 1].refs == []
    && s.nodes[1].refs == [Ref(Field, Info(0, 0, 0), Some(0))]
  }

  /** The second pass records object `n + 1` but counts it for no leak. */
  lemma HiddenPassTwo(n: nat, s: State) returns (s': State)
    requires HiddenBit(n, s, 4)
    ensures s' == Pass(Settings(n), s, HiddenRoot(n)) && HiddenEnd(n, s', 8)
  {
    ResetHidden(n, s);
    var s1, s2 := HiddenKnown(n, Reset(s));
    var s3: State;
    s3, s' := HiddenThird(n, s2);
    PassOfFour(n, s, HiddenRoot(n), s1, s2, s3, s');
  }

  lemma ResetHidden(n: nat, s: State)
    requires HiddenBit(n, s, 4)
    ensures HiddenBit(n, Reset(s), 4) && NoneFound(n, Reset(s))
  {
    ResetBase(n, s, 4);
  }

  lemma HiddenKnown(n: nat, s: State) returns (s1: State, s2: State)
    requires HiddenBit(n, s, 4) && NoneFound(n, s)
    ensures s1 == Next(n, s, HiddenRoot(n)[0])
    ensures s2 == Next(n, s1, HiddenRoot(n)[1])
    ensures HiddenBit(n, s2, 6) && NoneFound(n, s2)
  {
    s1 := RefuseStep(n, s, HiddenRoot(n)[0], 4);
    assert s1.nodes[0].refs[0].kind == StaticField;
    s2 := RefuseStep(n, s1, HiddenRoot(n)[1], 5);
  }

  lemma HiddenThird(n: nat, s: State) returns (s1: State, s2: State)
    requires HiddenBit(n, s, 6) && NoneFound(n, s)
    ensures s1 == Next(n, s, HiddenRoot(n)[2])
    ensures s2 == Next(n, s1, HiddenRoot(n)[3]) && HiddenEnd(n, s2, 8)
  {
    s1 := HiddenOther(n, s);
    assert s1.nodes[1].refs[0].kind == Field;
    s2 := RefuseStep(n, s1, HiddenRoot(n)[3], 7);
  }

  lemma HiddenOther(n: nat, s: State) returns (s': State)
    requires HiddenBit(n, s, 6) && NoneFound(n, s)
    ensures s' == Next(n, s, HiddenRoot(n)[2]) && HiddenEnd(n, s', 7)
  {
    assert s.nodes[0].refs[0].kind == StaticField;
    s' := AcceptStep(n, s, HiddenRoot(n)[2], 6, 1);
    assert 1 < Common(Empty(n), s.nodes[0].leaks);
    assert Found(s.found, s.nodes[0].leaks, s.finished) == s.found;
  }

  /** A root reference to a node that carries an unfinished leak finishes it in the next pass. */
  lemma FinishedByRoot(n: nat, s: State, heap: seq<HeapRef>, i: nat, b: nat)
    requires Base(n, s, b) && b < 50 && Shaped(heap) && heap != []
    requires Reported(Settings(n), s, heap[0]) && heap[0].kind == JniGlobal && heap[0].referrer.None?
    requires i in s.nodes[s.tags[heap[0].target]].leaks.raw && i !in s.finished.raw
    ensures i in Pass(Settings(n), s, heap).finished.raw
  {
    ResetBase(n, s, b);
    var s1 := AcceptStep(n, Reset(s), heap[0], b, i);
    VisitFacts(Settings(n), s1, heap, 1);
  }

  /** Leak 1, which is small, is held by object `n + 1` through a field that is ignored for small collections; leak 0,
      which is large, is held by leak 1 and by a JNI global reference. */
  function GrownLeak(n: nat): (heap: seq<HeapRef>)
    ensures |heap| == 3 && Shaped(heap)
  {
    [HeapRef(1, Field, SOME_FIELD, Some(n + 1)), HeapRef(0, Field, SOME_FIELD, Some(1)),
     HeapRef(0, JniGlobal, None, None)]
  }

  const BELOW_TEN := [IgnoreField(0, 10)]

  lemma GrownHasRoom(n: nat, s: State, i: nat)
    requires i < n && Fresh(n, s, BELOW_TEN) && AgentSizes(Settings(n), s)
    ensures RoomFor(Settings(n), s, GrownLeak(n), i)
  {
    forall f: nat | f < i ensures !Holds(GrownLeak(n), f, i) {
      if f == 1 {
        Unreferring(GrownLeak(n), 0, i);
        if Holds(GrownLeak(n), 1, i) {
          HolderRefers(GrownLeak(n), 1, i);
        }
      } else {
        Unreferring(GrownLeak(n), f, i);
      }
    }
    RoomUnlessHeld(n, s, BELOW_TEN, GrownLeak(n), i);
  }

  /** Before and after leak 1 is recorded as the referrer of leak 0. */
  ghost predicate GrownAt(n: nat, s: State, b: nat, grown: bool) {
    && n >= 2 && Base(n, s, b) && |s.nodes| == n + 1 && n + 1 !in s.tags && n + 2 !in s.tags
    && s.finished.raw == {} && s.nodes[n].ignore == BELOW_TEN
    && 1 in s.nodes[1].leaks.raw && s.nodes[1].refs == [] && s.nodes[1].size == (if grown then 20 else 5)
    && s.nodes[0].leaks.raw == {0} && s.nodes[0].size == 20
    && s.nodes[0].refs == if grown then [Ref(Field, Info(0, 0, 0), Some(1))] else []
  }

  /** After the first pass leak 1 has the size of leak 0, and the field is no longer ignored. */
  lemma GrownPassOne(n: nat, s: State) returns (s': State)
    requires GrownAt(n, s, 0, false) && Reset(s) == s
    ensures s' == Pass(Settings(n), s, GrownLeak(n)) && GrownEnd(n, s')
    ensures !HasUnfinished(Settings(n), s')
  {
    var s1 := GrownFirst(n, s);
    var s2 := GrownSecond(n, s1);
    s' := GrownThird(n, s2);
    PassOfThree(n, s, GrownLeak(n), s1, s2, s');
    GrownSettled(n, s1.found, s2.found, s'.found, s1.nodes[0].leaks, s2.nodes[0].leaks, s1.finished, s2.finished);
    UnfinishedOrSettled(Settings(n), s');
  }

  lemma GrownFirst(n: nat, s: State) returns (s': State)
    requires GrownAt(n, s, 0, false) && Reset(s) == s
    ensures s' == Next(n, Reset(s), GrownLeak(n)[0]) && GrownAt(n, s', 1, false) && s'.found == s.found
  {
    assert IgnoreField(0, 10) in s.nodes[n].ignore;
    s' := RefuseStep(n, s, GrownLeak(n)[0], 0);
  }

  lemma GrownThird(n: nat, s: State) returns (s': State)
    requires GrownAt(n, s, 2, true)
    ensures s' == Next(n, s, GrownLeak(n)[2]) && GrownEnd(n, s')
    ensures s'.found == Found(s.found, s.nodes[0].leaks, s.finished)
  {
    s' := AcceptStep(n, s, GrownLeak(n)[2], 2, 0);
  }

  ghost predicate GrownEnd(n: nat, s: State) {
    && n >= 2 && Base(n, s, 3) && |s.nodes| == n + 1 && n + 1 !in s.tags && s.finished.raw == {0}
    && 1 in s.nodes[1].leaks.raw && s.nodes[1].size == 20 && s.nodes[1].refs == [] && s.nodes[n].ignore == BELOW_TEN
  }

  /** Only leak 0 was counted, and it is finished. */
  lemma GrownSettled(n: nat, a: seq<nat>, b: seq<nat>, c: seq<nat>, l1: Bits, l2: Bits, f1: Bits, f2: Bits)
    requires n >= 2 && |a| == n && (forall k: nat | k < n :: a[k] == 0) && l1.raw == l2.raw == {0}
    requires b == Found(a, l1, f1) && c == Found(b, l2, f2)
    ensures |c| == n && forall k: nat | k < n && k != 0 :: c[k] == 0
  {
  }

  lemma GrownSecond(n: nat, s: State) returns (s': State)
    requires GrownAt(n, s, 1, false)
    ensures s' == Next(n, s, GrownLeak(n)[1]) && GrownAt(n, s', 2, true)
    ensures s'.found == Found(s.found, s.nodes[0].leaks, s.finished)
  {
    s' := AcceptStep(n, s, GrownLeak(n)[1], 1, 0);
  }

  /** The next pass records object `n + 1`. */
  lemma GrownPassTwo(n: nat, s: State)
    requires GrownEnd(n, s)
    ensures |Pass(Settings(n), s, GrownLeak(n)).nodes| > |s.nodes|
  {
    ResetBase(n, s, 3);
    GrownAgain(n, Reset(s));
    VisitNext(n, Reset(s), GrownLeak(n), 0);
    VisitFacts(Settings(n), Next(n, Reset(s), GrownLeak(n)[0]), GrownLeak(n), 1);
  }

  lemma GrownAgain(n: nat, s: State)
    requires GrownEnd(n, s)
    ensures |Next(n, s, GrownLeak(n)[0]).nodes| > |s.nodes|
  {
    var _ := AcceptStep(n, s, GrownLeak(n)[0], 3, 1);
  }

  /** A JNI global reference holds the leaks' class, which refers to leak 1 from a field of the class object; a static
      field of java.lang.Class holds object `n + 1`, which holds leak 0. */
  function LateClass(n: nat): (heap: seq<HeapRef>)
    ensures |heap| == 4 && Shaped(heap)
  {
    [HeapRef(n, JniGlobal, None, None), HeapRef(1, Field, SOME_FIELD, Some(n)),
     HeapRef(n + 1, StaticField, SOME_FIELD, Some(n + 2)), HeapRef(0, Field, SOME_FIELD, Some(n + 1))]
  }

  /** Before any reference is recorded, and after leak 1's, with object `n + 1` still untagged. */
  ghost predicate LateStart(n: nat, s: State, b: nat, held: bool) {
    && n >= 2 && Base(n, s, b) && |s.nodes| == n + 1 && n + 1 !in s.tags && n + 2 !in s.tags
    && s.finished.raw == {} && s.nodes[n].ignore == [] && s.nodes[n].refs == []
    && s.nodes[n].leaks == Bits(n, if held then {1} else {}) && (held ==> s.found[1] > 0)
    && s.nodes[0].leaks == Bits(1, {0}) && s.nodes[0].refs == []
    && s.nodes[1].leaks == Bits(2, {1})
    && s.nodes[1].refs == if held then [Ref(Field, Info(0, 0, 0), Some(n))] else []
  }

  /** After the first pass: java.lang.Class is still untagged, so references to the class were filtered out. */
  ghost predicate LateMid(n: nat, s: State, b: nat) {
    && n >= 2 && Base(n, s, b) && |s.nodes| == n + 2 && n + 1 in s.tags && s.tags[n + 1] == n + 1 && n + 2 !in s.tags
    && s.finished.raw == {}
    && s.nodes[n].leaks.raw == {1} && s.nodes[n].refs == []
    && s.nodes[1].refs == [Ref(Field, Info(0, 0, 0), Some(n))] && s.nodes[0].leaks.raw == {0}
    && s.nodes[n + 1].leaks.raw == {0} && s.nodes[n + 1].refs == [] && s.nodes[n + 1].ignore == []
  }

  /** After the second one: java.lang.Class is tagged, and leak 0 is finished. */
  ghost predicate LateEnd(n: nat, s: State, b: nat) {
    && n >= 2 && Base(n, s, b) && n + 1 in s.tags && n + 2 in s.tags
    && s.finished.raw == {0} && s.nodes[n].leaks.raw == {1} && s.nodes[0].leaks.raw == {0}
    && forall j: nat | j < n && j != 0 :: s.found[j] == 0
  }

  lemma LatePassOne(n: nat, s: State) returns (s': State)
    requires LateStart(n, s, 0, false) && Reset(s) == s
    ensures s' == Pass(Settings(n), s, LateClass(n)) && LateMid(n, s', 4)
    ensures HasUnfinished(Settings(n), s') && !PassStops(Settings(n), s, LateClass(n))
  {
    var s1, s2 := LateFirst(n, s);
    var s3: State;
    s3, s' := LateSecond(n, s2);
    PassOfFour(n, s, LateClass(n), s1, s2, s3, s');
    assert !Contains(s'.finished, 1);
  }

  lemma LateFirst(n: nat, s: State) returns (s1: State, s2: State)
    requires LateStart(n, s, 0, false) && Reset(s) == s
    ensures s1 == Next(n, Reset(s), LateClass(n)[0]) && !Halts(n, Reset(s), LateClass(n)[0])
    ensures s2 == Next(n, s1, LateClass(n)[1]) && !Halts(n, s1, LateClass(n)[1])
    ensures LateStart(n, s2, 2, true)
  {
    s1 := RefuseStep(n, s, LateClass(n)[0], 0);
    s2 := LateHeld(n, s1);
  }

  lemma LateHeld(n: nat, s: State) returns (s': State)
    requires LateStart(n, s, 1, false)
    ensures s' == Next(n, s, LateClass(n)[1]) && !Halts(n, s, LateClass(n)[1]) && LateStart(n, s', 2, true)
  {
    s' := AcceptStep(n, s, LateClass(n)[1], 1, 1);
    assert 1 < Common(Empty(n), s.nodes[1].leaks);
  }

  lemma LateSecond(n: nat, s: State) returns (s1: State, s2: State)
    requires LateStart(n, s, 2, true)
    ensures s1 == Next(n, s, LateClass(n)[2]) && !Halts(n, s, LateClass(n)[2])
    ensures s2 == Next(n, s1, LateClass(n)[3]) && !Halts(n, s1, LateClass(n)[3])
    ensures LateMid(n, s2, 4) && s2.found[1] > 0
  {
    s1 := RefuseStep(n, s, LateClass(n)[2], 2);
    s2 := LateOther(n, s1);
  }

  lemma LateOther(n: nat, s: State) returns (s': State)
    requires LateStart(n, s, 3, true)
    ensures s' == Next(n, s, LateClass(n)[3]) && !Halts(n, s, LateClass(n)[3]) && LateMid(n, s', 4) && s'.found[1] > 0
  {
    s' := AcceptStep(n, s, LateClass(n)[3], 3, 0);
    NewcomerTainted(n, s, LateClass(n)[3], s', 0);
  }

  /** The second pass tags java.lang.Class and finishes leak 0, but finds nothing for leak 1. */
  lemma LatePassTwo(n: nat, s: State) returns (s': State)
    requires LateMid(n, s, 4)
    ensures s' == Pass(Settings(n), s, LateClass(n)) && LateEnd(n, s', 8)
    ensures !HasUnfinished(Settings(n), s') && !PassStops(Settings(n), s, LateClass(n))
  {
    ResetLate(n, s);
    var s1, s2 := LateKnown(n, Reset(s));
    var s3: State;
    s3, s' := LateThird(n, s2);
    PassOfFour(n, s, LateClass(n), s1, s2, s3, s');
    UnfinishedOrSettled(Settings(n), s');
  }

  lemma ResetLate(n: nat, s: State)
    requires LateMid(n, s, 4)
    ensures LateMid(n, Reset(s), 4) && NoneFound(n, Reset(s))
  {
    ResetBase(n, s, 4);
  }

  lemma LateKnown(n: nat, s: State) returns (s1: State, s2: State)
    requires LateMid(n, s, 4) && NoneFound(n, s)
    ensures s1 == Next(n, s, LateClass(n)[0]) && !Halts(n, s, LateClass(n)[0])
    ensures s2 == Next(n, s1, LateClass(n)[1]) && !Halts(n, s1, LateClass(n)[1])
    ensures LateMid(n, s2, 6) && NoneFound(n, s2)
  {
    s1 := RefuseStep(n, s, LateClass(n)[0], 4);
    assert s1.nodes[1].refs[0].kind == Field;
    s2 := RefuseStep(n, s1, LateClass(n)[1], 5);
  }

  lemma LateThird(n: nat, s: State) returns (s1: State, s2: State)
    requires LateMid(n, s, 6) && NoneFound(n, s)
    ensures s1 == Next(n, s, LateClass(n)[2]) && !Halts(n, s, LateClass(n)[2])
    ensures s2 == Next(n, s1, LateClass(n)[3]) && !Halts(n, s1, LateClass(n)[3])
    ensures LateEnd(n, s2, 8)
  {
    s1 := LateTagged(n, s);
    s2 := RefuseStep(n, s1, LateClass(n)[3], 7);
  }

  lemma LateTagged(n: nat, s: State) returns (s': State)
    requires LateMid(n, s, 6) && NoneFound(n, s)
    ensures s' == Next(n, s, LateClass(n)[2]) && !Halts(n, s, LateClass(n)[2]) && LateEnd(n, s', 7)
  {
    s' := AcceptStep(n, s, LateClass(n)[2], 6, 0);
  }

  lemma TwoPasses(cfg: Config, s: State, heap: seq<HeapRef>)
    requires Inv(cfg, s) && Shaped(heap)
    requires Inv(cfg, Pass(cfg, s, heap)) && HasUnfinished(cfg, Pass(cfg, s, heap))
    ensures PassLoop(cfg, s, heap, 2) == Pass(cfg, Pass(cfg, s, heap), heap)
  {
    OnePass(cfg, Pass(cfg, s, heap), heap);
  }

  // ---- A chain that is never found ----

  /** Object `n + 1` is held by a JNI global reference and holds leak `a`, which holds leak `i`. */
  function SharedWay(n: nat, a: nat, i: nat): (heap: seq<HeapRef>)
    ensures |heap| == 3 && Shaped(heap)
  {
    [FromOther(n, a), HeapRef(n + 1, JniGlobal, None, None), HeapRef(i, Field, SOME_FIELD, Some(a))]
  }

  /** Leak `a` is finished; leak `i` reached leak `a` after the way from there had been recorded. */
  ghost predicate Overtaken(n: nat, s: State, a: nat, i: nat) {
    && a < n && i < n && a != i && Inv(Settings(n), s) && |s.nodes| == n + 2
    && (forall k: nat | k <= n + 1 :: k in s.tags && s.tags[k] == k)
    && s.finished.raw == {a}
    && s.nodes[a].refs == [Ref(Field, Info(0, 0, 0), Some(n + 1))]
    && s.nodes[i].refs == [Ref(Field, Info(0, 0, 0), Some(a))]
    && s.nodes[n + 1].leaks.raw == {a}
  }

  /** The way from leak `a` is recorded; its root reference is not yet visited, or it is. */
  ghost predicate WayMid(n: nat, s: State, a: nat, i: nat, b: nat, done: bool) {
    && a < n && i < n && a != i && Base(n, s, b) && |s.nodes| == n + 2
    && n + 1 in s.tags && s.tags[n + 1] == n + 1
    && s.finished.raw == (if done then {a} else {}) && s.nodes[n].ignore == [] && s.nodes[n + 1].leaks.raw == {a}
    && (!done ==> s.nodes[n + 1].refs == [])
    && s.nodes[a].refs == [Ref(Field, Info(0, 0, 0), Some(n + 1))]
    && s.nodes[i].leaks.raw == {i} && s.nodes[i].refs == []
  }

  ghost predicate WayStart(n: nat, s: State, a: nat, i: nat) {
    && Newcomes(n, s, a) && i < n && a != i
    && s.nodes[i].leaks.raw == {i} && s.nodes[i].refs == []
  }

  lemma WayPass(n: nat, s: State, a: nat, i: nat) returns (s': State)
    requires WayStart(n, s, a, i) && Reset(s) == s
    ensures s' == Pass(Settings(n), s, SharedWay(n, a, i)) && Overtaken(n, s', a, i)
  {
    var s1 := WayFirst(n, s, a, i);
    var s2 := WaySecond(n, s1, a, i);
    s' := WayThird(n, s2, a, i);
    PassOfThree(n, s, SharedWay(n, a, i), s1, s2, s');
  }

  lemma WayFirst(n: nat, s: State, a: nat, i: nat) returns (s': State)
    requires WayStart(n, s, a, i)
    ensures s' == Next(n, s, SharedWay(n, a, i)[0]) && WayMid(n, s', a, i, 1, false)
  {
    s' := Next(n, s, SharedWay(n, a, i)[0]);
    NewReferrer(n, s, a);
    NewTarget(n, s, a);
    WayOther(n, s, a, i);
  }

  lemma WayOther(n: nat, s: State, a: nat, i: nat)
    requires WayStart(n, s, a, i)
    ensures var s' := Next(n, s, SharedWay(n, a, i)[0]);
            |s'.nodes| == n + 2 && s'.nodes[i].leaks.raw == {i} && s'.nodes[i].refs == []
  {
    NewAccepted(n, s, a);
    NewGrows(n, s, a);
    OtherAfter(Settings(n), s, FromOther(n, a), i);
  }

  lemma WaySecond(n: nat, s: State, a: nat, i: nat) returns (s': State)
    requires WayMid(n, s, a, i, 1, false)
    ensures s' == Next(n, s, SharedWay(n, a, i)[1]) && WayMid(n, s', a, i, 2, true)
  {
    s' := AcceptStep(n, s, SharedWay(n, a, i)[1], 1, a);
  }

  lemma WayThird(n: nat, s: State, a: nat, i: nat) returns (s': State)
    requires WayMid(n, s, a, i, 2, true)
    ensures s' == Next(n, s, SharedWay(n, a, i)[2]) && Overtaken(n, s', a, i)
  {
    var r := SharedWay(n, a, i)[2];
    s' := Next(n, s, r);
    WayAcceptsLast(n, s, a, i);
    TargetAfter(Settings(n), s, r);
    ReferrerAfter(Settings(n), s, r, a);
    OtherAfter(Settings(n), s, r, n + 1);
  }

  lemma WayAcceptsLast(n: nat, s: State, a: nat, i: nat)
    requires WayMid(n, s, a, i, 2, true)
    ensures Judge(Settings(n), s, SharedWay(n, a, i)[2]) == Accept
    ensures Base(n, Next(n, s, SharedWay(n, a, i)[2]), 3)
    ensures var s' := Next(n, s, SharedWay(n, a, i)[2]);
            |s'.nodes| == n + 2 && s'.finished.raw == {a} && s'.tags == s.tags
  {
    var s' := AcceptField(n, s, SharedWay(n, a, i)[2], 2, i);
  }

  lemma OvertakenIsQuiet(n: nat, s: State, a: nat, i: nat)
    requires Overtaken(n, s, a, i)
    ensures Quiet(Settings(n), s, SharedWay(n, a, i))
  {
    var heap := SharedWay(n, a, i);
    assert s.nodes[a].refs[0].kind == Field && s.nodes[i].refs[0].kind == Field;
    assert Duplicate(Settings(n), s, heap[0]);
    WantedExactly(Settings(n), s, heap[1]);
    assert Duplicate(Settings(n), s, heap[2]);
  }

  /** From there on the loop gets nowhere. */
  lemma OvertakenStays(n: nat, s: State, a: nat, i: nat, left: nat)
    requires Overtaken(n, s, a, i)
    ensures PassLoop(Settings(n), s, SharedWay(n, a, i), left).finished.raw == {a}
    decreases left
  {
    if left > 0 {
      var cfg, heap := Settings(n), SharedWay(n, a, i);
      ResetInv(cfg, s);
      assert Overtaken(n, Reset(s), a, i);
      OvertakenIsQuiet(n, Reset(s), a, i);
      QuietVisit(cfg, Reset(s), heap, 0);
      PassFacts(cfg, s, heap);
      var s' := Pass(cfg, s, heap);
      assert forall j: nat | j < n :: s'.found[j] == 0;
    }
  }

  lemma WayLost(n: nat, s: State, a: nat, i: nat)
    requires WayStart(n, s, a, i) && Reset(s) == s
    ensures PassLoop(Settings(n), s, SharedWay(n, a, i), 3).finished.raw == {a}
  {
    var cfg, heap := Settings(n), SharedWay(n, a, i);
    var s1 := WayPass(n, s, a, i);
    PassFacts(cfg, s, heap);
    OvertakenStays(n, s1, a, i, 2);
    assert PassLoop(cfg, s, heap, 3) == if HasUnfinished(cfg, s1) then PassLoop(cfg, s1, heap, 2) else s1;
  }
}
