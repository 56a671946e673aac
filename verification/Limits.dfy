/** What the agent's own bitset sizes, its duplicate check, its ignore lists and the heap filter cost: the exact
    conditions under which the promises of the other modules hold.  Witnesses.dfy has the heaps on which they fail. */
module Limits {
  import opened Wrappers
  import opened LeakBits
  import opened DataStruct
  import opened Recording
  import opened Taint
  import opened Holding
  import opened Passes
  import opened Search
  import opened Reached
  import opened Distance
  import opened Fatal
  import opened Witnesses

  // ---- A finished leak without a chain ----

  /** A run, and a question about its outcome: the leak was finished. */
  ghost predicate Finished(n: nat, i: nat, cfg: Config, s: State, heap: seq<HeapRef>, left: nat, q: Query) {
    && cfg.leaks == n && Start(cfg, s) && AgentSizes(cfg, s) && Shaped(heap) && !LoopStops(cfg, s, heap, left)
    && i in PassLoop(cfg, s, heap, left).finished.raw && IsAbout(q, PassLoop(cfg, s, heap, left), i)
  }

  /** The promise for leak `i` of `n`: whenever the passes finish it, the search finds its chain.  `locals`: the
      settings count local references; `allLive`: no object was collected since; `crowded`: the leak may be held by
      nodes without room for its bit, that is, by lower-numbered leaks (`Holding.RoomExactly`). */
  ghost predicate FinishedMeansPrinted(n: nat, i: nat, locals: bool, allLive: bool, crowded: bool)
    requires i < n
  {
    forall cfg: Config, s: State, heap: seq<HeapRef>, left: nat, q: Query ::
      && Finished(n, i, cfg, s, heap, left, q) && q.considerLocal == locals && (allLive ==> AllLive(q))
      && (crowded || RoomFor(cfg, s, heap, i))
      ==> WellLinked(q.nodes) && i < |q.nodes| && TopSearch(q, i).chain.Some?
  }

  lemma RoomyIsPrinted(n: nat, i: nat, crowded: bool)
    requires i < n && (i == 0 || !crowded)
    ensures FinishedMeansPrinted(n, i, true, true, crowded)
  {
    forall cfg: Config, s: State, heap: seq<HeapRef>, left: nat, q: Query
      | Finished(n, i, cfg, s, heap, left, q) && q.considerLocal && AllLive(q) && (crowded || RoomFor(cfg, s, heap, i))
      ensures WellLinked(q.nodes) && i < |q.nodes| && TopSearch(q, i).chain.Some?
    {
      RoomExactly(cfg, s, heap, i);
      ReachedStaticIsPrinted(cfg, s, heap, left, q, i);
    }
  }

  /** One run that breaks the promise. */
  lemma Broken(n: nat, i: nat, locals: bool, allLive: bool, crowded: bool, cfg: Config, s: State, heap: seq<HeapRef>,
               left: nat, q: Query)
    requires i < n && Finished(n, i, cfg, s, heap, left, q) && q.considerLocal == locals && (allLive ==> AllLive(q))
    requires crowded || RoomFor(cfg, s, heap, i)
    requires WellLinked(q.nodes) && i < |q.nodes| ==> TopSearch(q, i).chain.None?
    ensures !FinishedMeansPrinted(n, i, locals, allLive, crowded)
  {
  }

  lemma HeldIsLost(n: nat, i: nat, s: State, q: Query)
    requires HeldEnd(n, i, s) && q.nodes == s.nodes && q.leak == i
    ensures AllLive(q) && (WellLinked(q.nodes) ==> TopSearch(q, i).chain.None?)
  {
    LostChain(i, q);
  }

  lemma LaterIsLost(n: nat, i: nat, locals: bool, allLive: bool)
    requires 1 <= i < n
    ensures !FinishedMeansPrinted(n, i, locals, allLive, true)
  {
    var s, heap := StartState(n, []), HeldByLeak(i);
    StartIsFresh(n, []);
    FreshHeld(n, i, s);
    var s' := HeldRun(n, i, s);
    NeverStops(n, s, [], heap, 1);
    var q := Query(s'.nodes, map[], locals, i);
    HeldIsLost(n, i, s', q);
    Broken(n, i, locals, allLive, true, Settings(n), s, heap, 1, q);
  }

  lemma LocalIsLost(n: nat, i: nat, allLive: bool, crowded: bool)
    requires i < n
    ensures !FinishedMeansPrinted(n, i, false, allLive, crowded)
  {
    var s, heap := StartState(n, []), HeldByLocal(i);
    StartIsFresh(n, []);
    RoomUnlessReferring(n, s, [], heap, i);
    var s' := LocalRun(n, i, s);
    NeverStops(n, s, [], heap, 1);
    var q := Query(s'.nodes, map[], false, i);
    LostChain(i, q);
    Broken(n, i, false, allLive, crowded, Settings(n), s, heap, 1, q);
  }

  lemma DeadIsLost(n: nat, i: nat, locals: bool, crowded: bool)
    requires i < n
    ensures !FinishedMeansPrinted(n, i, locals, false, crowded)
  {
    var s, heap := StartState(n, []), HeldByOther(n, i);
    StartIsFresh(n, []);
    RoomUnlessReferring(n, s, [], heap, i);
    var s' := OtherRun(n, i, s);
    NeverStops(n, s, [], heap, 1);
    var q := Query(s'.nodes, map[], locals, i);
    LostChain(i, q);
    Broken(n, i, locals, false, crowded, Settings(n), s, heap, 1, q);
  }

  /** The only reference of the leak's node is a root that does not count, or leads to a node that the search cannot
      pass: it does not see the bit there, or the object is gone. */
  lemma LostChain(i: nat, q: Query)
    requires q.leak == i < |q.nodes| && |q.nodes[i].refs| == 1
    requires var ref := q.nodes[i].refs[0];
             || !Considered(q, ref)
             || (&& !IsRootReference(ref.kind) && ref.node.Some? && ref.node.value < |q.nodes|
                 && (!Contains(q.nodes[ref.node.value].leaks, i) || IsDead(q, ref.node.value)))
    ensures WellLinked(q.nodes) ==> TopSearch(q, i).chain.None?
  {
    if WellLinked(q.nodes) {
      SearchIsExact(q, i);
      assert forall ref <- q.nodes[i].refs :: ref == q.nodes[i].refs[0];
    }
  }

  /** The promise holds for the leaks that no lower-numbered leak holds, if locals count and nothing was collected; in
      particular for the first one. */
  lemma FinishedMeansPrintedExactly(n: nat, i: nat, locals: bool, allLive: bool, crowded: bool)
    requires i < n
    ensures FinishedMeansPrinted(n, i, locals, allLive, crowded) <==> (i == 0 || !crowded) && locals && allLive
  {
    if i != 0 && crowded {
      LaterIsLost(n, i, locals, allLive);
    } else if !locals {
      LocalIsLost(n, i, allLive, crowded);
    } else if !allLive {
      DeadIsLost(n, i, locals, crowded);
    } else {
      RoomyIsPrinted(n, i, crowded);
    }
  }

  // ---- A loop that stops too early ----

  /** A run whose loop ended by its own test: more passes would change nothing but counters. */
  ghost predicate ExitFinalIn(cfg: Config, s: State, heap: seq<HeapRef>, left: nat, more: nat)
    requires Inv(cfg, s) && Shaped(heap)
  {
    var last := PassLoop(cfg, s, heap, left);
    && Inv(cfg, last)
    && (!HasUnfinished(cfg, last) && !LoopStops(cfg, s, heap, left)
        ==> SameButCounters(last, Again(cfg, last, heap, more)))
  }

  /** Such runs with `n` leaks.  `crowded`: leaks may be held by lower-numbered ones; `growing`: fields may be ignored
      for some leaks and not for others; `shifting`: classes may be tagged during the passes that the heap filter looks
      at. */
  ghost predicate ExitCase(n: nat, crowded: bool, growing: bool, shifting: bool, cfg: Config, s: State,
                           heap: seq<HeapRef>)
  {
    && cfg.leaks == n && Start(cfg, s) && AgentSizes(cfg, s) && Shaped(heap)
    && (crowded || RoomForAll(cfg, s, heap)) && (growing || Steady(cfg, s, heap))
    && (shifting || FilterFixed(cfg, s, heap))
  }

  /** The promise that the loop's own test loses nothing. */
  ghost predicate ExitIsFinal(n: nat, crowded: bool, growing: bool, shifting: bool) {
    forall cfg: Config, s: State, heap: seq<HeapRef>, left: nat, more: nat ::
      ExitCase(n, crowded, growing, shifting, cfg, s, heap) && left > 0 ==> ExitFinalIn(cfg, s, heap, left, more)
  }

  lemma NotFinal(n: nat, crowded: bool, growing: bool, shifting: bool, s: State, heap: seq<HeapRef>, left: nat)
    requires ExitCase(n, crowded, growing, shifting, Settings(n), s, heap) && left > 0
    requires !LoopStops(Settings(n), s, heap, left)
    requires var last := PassLoop(Settings(n), s, heap, left);
             && Inv(Settings(n), last) && !HasUnfinished(Settings(n), last)
             && (|Pass(Settings(n), last, heap).nodes| > |last.nodes|
                 || Pass(Settings(n), last, heap).finished.raw != last.finished.raw)
    ensures !ExitIsFinal(n, crowded, growing, shifting)
  {
    var cfg := Settings(n);
    var last := PassLoop(cfg, s, heap, left);
    PassFacts(cfg, last, heap);
    assert Again(cfg, last, heap, 1) == Again(cfg, Pass(cfg, last, heap), heap, 0);
    assert !ExitFinalIn(cfg, s, heap, left, 1);
  }

  lemma HiddenNotFinal(n: nat, growing: bool, shifting: bool)
    requires n >= 2
    ensures !ExitIsFinal(n, true, growing, shifting)
  {
    var s, heap := StartState(n, []), HiddenRoot(n);
    StartIsFresh(n, []);
    var s1 := HiddenPassOne(n, s);
    var s2 := HiddenPassTwo(n, s1);
    TwoPasses(Settings(n), s, heap);
    NeverStops(n, s, [], heap, 2);
    HiddenGoesOn(n, s2);
    SteadyGiven(Settings(n), s, heap);
    NotFinal(n, true, growing, shifting, s, heap, 2);
  }

  lemma HiddenGoesOn(n: nat, s: State)
    requires HiddenEnd(n, s, 8)
    ensures !HasUnfinished(Settings(n), s) && 1 in Pass(Settings(n), s, HiddenRoot(n)).finished.raw
  {
    FinishedByRoot(n, s, HiddenRoot(n), 1, 8);
  }

  lemma GrownNotFinal(n: nat, crowded: bool, shifting: bool)
    requires n >= 2
    ensures !ExitIsFinal(n, crowded, true, shifting)
  {
    var s, heap := StartState(n, BELOW_TEN), GrownLeak(n);
    StartIsFresh(n, BELOW_TEN);
    forall i: nat | i < n ensures RoomFor(Settings(n), s, heap, i) {
      GrownHasRoom(n, s, i);
    }
    var s1 := GrownPassOne(n, s);
    OnePass(Settings(n), s, heap);
    NeverStops(n, s, BELOW_TEN, heap, 1);
    GrownPassTwo(n, s1);
    NotFinal(n, crowded, true, shifting, s, heap, 1);
  }

  lemma LateNotFinal(n: nat, crowded: bool, growing: bool)
    requires n >= 2
    ensures !ExitIsFinal(n, crowded, growing, true)
  {
    var s, heap := StartState(n, []), LateClass(n);
    StartIsFresh(n, []);
    forall i: nat | i < n ensures RoomFor(Settings(n), s, heap, i) {
      RoomUnlessReferring(n, s, [], heap, i);
    }
    SteadyGiven(Settings(n), s, heap);
    var s1 := LatePassOne(n, s);
    var s2 := LatePassTwo(n, s1);
    TwoPasses(Settings(n), s, heap);
    assert !LoopStops(Settings(n), s1, heap, 1);
    assert !LoopStops(Settings(n), s, heap, 2);
    FinishedByRoot(n, s2, heap, 1, 8);
    NotFinal(n, crowded, growing, true, s, heap, 2);
  }

  /** It holds exactly when there is at most one leak, or no lower-numbered leak holds a leak, no ignore entry tells the
      leaks apart, and the filter lets the same references through in every pass: each of the three is needed. */
  lemma ExitIsFinalExactly(n: nat, crowded: bool, growing: bool, shifting: bool)
    ensures ExitIsFinal(n, crowded, growing, shifting) <==> n <= 1 || (!crowded && !growing && !shifting)
  {
    if n <= 1 || (!crowded && !growing && !shifting) {
      forall cfg: Config, s: State, heap: seq<HeapRef>, left: nat, more: nat
        | ExitCase(n, crowded, growing, shifting, cfg, s, heap) && left > 0
        ensures ExitFinalIn(cfg, s, heap, left, more)
      {
        LoopExitIsFixpoint(cfg, s, heap, left, more);
      }
    } else if crowded {
      HiddenNotFinal(n, growing, shifting);
    } else if growing {
      GrownNotFinal(n, crowded, shifting);
    } else {
      LateNotFinal(n, crowded, growing);
    }
  }

  // ---- A chain that is never found ----

  lemma {:induction false} UsesAtMost(cfg: Config, heap: seq<HeapRef>, o: Obj, c: Obj)
    ensures Uses(cfg, heap, o, c) <= |heap|
  {
    if heap != [] {
      UsesAtMost(cfg, heap[1..], o, c);
    }
  }

  /** A run with a chain of heap references from the leak to a root, and enough passes for it. */
  ghost predicate ChainFoundIn(h: Hunt, chain: seq<HeapRef>, left: nat)
    requires Inv(h.cfg, h.s0) && Shaped(h.heap)
  {
    && h.leak < |h.s0.owner| && HeapChain(h, h.s0.owner[h.leak], chain) && |chain| <= left
    && !LoopStops(h.cfg, h.s0, h.heap, left)
    ==> h.leak in PassLoop(h.cfg, h.s0, h.heap, left).finished.raw
  }

  /** The promise of `reference_chain_length` to leak `i` of `n`.  `shared`: other leaks may have holders in common with
      it. */
  ghost predicate ChainsAreFound(n: nat, i: nat, shared: bool)
    requires i < n
  {
    forall h: Hunt, chain: seq<HeapRef>, left: nat ::
      && h.cfg.leaks == n && h.leak == i && Start(h.cfg, h.s0) && AgentSizes(h.cfg, h.s0) && Shaped(h.heap)
      && (shared || Alone(h))
      ==> ChainFoundIn(h, chain, left)
  }

  /** The duplicate check returns before new bits are passed on (src/cpp/leak_detect.c:118-121), so the promise holds
      exactly for the leaks that have no holder in common with another one. */
  lemma ChainsAreFoundExactly(n: nat, i: nat, shared: bool)
    requires i < n
    ensures ChainsAreFound(n, i, shared) <==> n <= 1 || !shared
  {
    if n <= 1 || !shared {
      forall h: Hunt, chain: seq<HeapRef>, left: nat
        | h.cfg.leaks == n && h.leak == i && Start(h.cfg, h.s0) && AgentSizes(h.cfg, h.s0) && Shaped(h.heap)
          && (shared || Alone(h))
        ensures ChainFoundIn(h, chain, left)
      {
        if n <= 1 {
          OneIsAlone(h);
        }
        if HeapChain(h, h.s0.owner[h.leak], chain) && |chain| <= left {
          ChainLengthIsDistance(h, chain, left);
        }
      }
    } else {
      var a := if i == 0 then 1 else 0;
      var h := Hunt(Settings(n), StartState(n, []), SharedWay(n, a, i), i);
      StartIsFresh(n, []);
      NotFound(n, h, a);
      assert !ChainFoundIn(h, WayOf(n, a, i), 3);
    }
  }

  /** The chain from leak `i` to the root. */
  function WayOf(n: nat, a: nat, i: nat): seq<HeapRef> {
    [SharedWay(n, a, i)[2], SharedWay(n, a, i)[0], SharedWay(n, a, i)[1]]
  }

  /** At the start nothing is in the way of a reference to an instance of the leaks' class. */
  lemma FreshPasses(n: nat, h: Hunt, r: HeapRef)
    requires 0 < n && h.cfg == Settings(n) && Fresh(n, h.s0, []) && h.leak < n && |h.heap| < 100
    requires r.target <= n + 1 && r.target != n && !IsLocal(r.kind)
    requires r.referrer.Some? ==> r.referrer.value <= n + 1 && r.referrer.value != n
    ensures Passable(h, r)
  {
    if HasClass(h.cfg, r) {
      UsesAtMost(h.cfg, h.heap, r.target, ClassObj(h.cfg, r));
    }
  }

  lemma WayIsChain(n: nat, h: Hunt, a: nat)
    requires a < n && h.leak < n && h.cfg == Settings(n) && Fresh(n, h.s0, []) && h.heap == SharedWay(n, a, h.leak)
    ensures HeapChain(h, h.s0.owner[h.leak], WayOf(n, a, h.leak))
  {
    assert h.leak in h.s0.tags && h.s0.owner[h.s0.tags[h.leak]] == h.leak;
    WayLeads(n, a, h.leak);
    WayPasses(n, h, a);
  }

  lemma WayLeads(n: nat, a: nat, i: nat)
    ensures RootChain(SharedWay(n, a, i), i, WayOf(n, a, i)) && forall r <- WayOf(n, a, i) :: r in SharedWay(n, a, i)
  {
  }

  lemma WayPasses(n: nat, h: Hunt, a: nat)
    requires a < n && h.leak < n && h.cfg == Settings(n) && Fresh(n, h.s0, []) && h.heap == SharedWay(n, a, h.leak)
    ensures forall r <- h.heap :: Passable(h, r)
  {
    forall r <- h.heap ensures Passable(h, r) {
      FreshPasses(n, h, r);
    }
  }

  lemma NotFound(n: nat, h: Hunt, a: nat)
    requires a < n && h.leak < n && a != h.leak && h.cfg == Settings(n) && h.heap == SharedWay(n, a, h.leak)
    requires Fresh(n, h.s0, []) && AgentSizes(Settings(n), h.s0)
    ensures HeapChain(h, h.s0.owner[h.leak], WayOf(n, a, h.leak)) && !LoopStops(h.cfg, h.s0, h.heap, 3)
    ensures h.leak !in PassLoop(h.cfg, h.s0, h.heap, 3).finished.raw
  {
    WayLost(n, h.s0, a, h.leak);
    NeverStops(n, h.s0, [], h.heap, 3);
    WayIsChain(n, h, a);
  }

  // ---- A static field of java.lang.Class ----

  /** java.lang.Class holds leak 0, and so does a static field of the leak's class. */
  function HeldByClassOfClasses(n: nat): (heap: seq<HeapRef>)
    ensures |heap| == 2 && Shaped(heap)
  {
    [HeapRef(0, Field, SOME_FIELD, Some(n + 2)), HeapRef(0, StaticField, SOME_FIELD, Some(n))]
  }

  /** Even one leak suffices to stop a run: `tagAllClasses` gives `java.lang.Class` no node, but the first callback
      does, and the second one looks up the class of its referrer and finds a node that is no class. */
  lemma ClassOfClassesStops(n: nat)
    requires 0 < n
    ensures var cfg, s, heap := Settings(n), StartState(n, []), HeldByClassOfClasses(n);
            Start(cfg, s) && AgentSizes(cfg, s) && Shaped(heap) && LoopStops(cfg, s, heap, 1)
  {
    var cfg, s, heap := Settings(n), StartState(n, []), HeldByClassOfClasses(n);
    StartIsFresh(n, []);
    var s1 := AcceptStep(n, s, heap[0], 0, 0);
    assert s1.nodes[0].leaks.raw == {0};
    WantedExactly(cfg, s1, heap[1]);
    assert Stops(cfg, s1, heap[1]);
    assert VisitStops(cfg, s1, heap, 1);
    assert VisitStops(cfg, s, heap, 0);
  }
}
