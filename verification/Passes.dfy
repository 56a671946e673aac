/** The pass loop: how many passes there can be, and when stopping early loses nothing. */
module Passes {
  import opened Wrappers
  import opened LeakBits
  import opened DataStruct
  import opened Recording
  import opened Taint
  import opened Counts
  import opened Holding

  // ---- Progress ----

  /** What distinguishes two heap references that are not roots. */
  datatype Key = Key(target: Obj, kind: Kind, info: Info, referrer: Obj)

  function KeyOf(r: HeapRef): Key
    requires r.referrer.Some?
  {
    Key(r.target, r.kind, if r.info.Some? then r.info.value else NO_INFO, r.referrer.value)
  }

  /** The distinct references of a heap that need a referrer. */
  function HeapKeys(heap: seq<HeapRef>): set<Key> {
    set r <- heap | r.referrer.Some? && !IsRootReference(r.kind) :: KeyOf(r)
  }

  predicate Recorded(cfg: Config, s: State, key: Key)
    requires Inv(cfg, s)
  {
    && key.target in s.tags && key.referrer in s.tags
    && Ref(key.kind, key.info, Some(s.tags[key.referrer])) in s.nodes[s.tags[key.target]].refs
  }

  function RecordedKeys(cfg: Config, s: State, heap: seq<HeapRef>): set<Key>
    requires Inv(cfg, s)
  {
    set key <- HeapKeys(heap) | Recorded(cfg, s, key)
  }

  function Progress(cfg: Config, s: State, heap: seq<HeapRef>): nat
    requires Inv(cfg, s)
  {
    |RecordedKeys(cfg, s, heap)| + |s.finished.raw|
  }

  lemma ProgressBounded(cfg: Config, s: State, heap: seq<HeapRef>)
    requires Inv(cfg, s)
    ensures Progress(cfg, s, heap) <= |HeapKeys(heap)| + cfg.leaks
  {
    SubsetSize(RecordedKeys(cfg, s, heap), HeapKeys(heap));
    BelowSize(s.finished.raw, cfg.leaks);
  }

  lemma RecordedGrows(cfg: Config, s: State, s': State, heap: seq<HeapRef>)
    requires Inv(cfg, s) && Inv(cfg, s') && Grows(s, s')
    ensures RecordedKeys(cfg, s, heap) <= RecordedKeys(cfg, s', heap)
  {
    forall key <- RecordedKeys(cfg, s, heap) ensures Recorded(cfg, s', key) {
      assert NodeGrows(s.nodes[s.tags[key.target]], s'.nodes[s.tags[key.target]]);
    }
  }

  /** An accepted reference is one that was never recorded before, or it finishes a leak. */
  lemma StepProgress(cfg: Config, s: State, r: HeapRef, heap: seq<HeapRef>)
    requires Inv(cfg, s) && WellShaped(r) && r in heap
    ensures Inv(cfg, Step(cfg, s, r))
    ensures Progress(cfg, Step(cfg, s, r), heap) >= Progress(cfg, s, heap) +
                                                    if Judge(cfg, s, r) == Accept then 1 else 0
  {
    var s' := Step(cfg, s, r);
    StepGrows(cfg, s, r);
    RecordedGrows(cfg, s, s', heap);
    SubsetSize(RecordedKeys(cfg, s, heap), RecordedKeys(cfg, s', heap));
    SubsetSize(s.finished.raw, s'.finished.raw);
    if Judge(cfg, s, r) == Accept {
      FinishedGrows(cfg, s, r);
      if !IsRootReference(r.kind) {
        AcceptedKey(cfg, s, r);
        var key := KeyOf(r);
        assert key in HeapKeys(heap);
        SubsetSize(RecordedKeys(cfg, s, heap) + {key}, RecordedKeys(cfg, s', heap));
      }
    }
  }

  lemma AcceptedKey(cfg: Config, s: State, r: HeapRef)
    requires Inv(cfg, s) && WellShaped(r) && Judge(cfg, s, r) == Accept && r.referrer.Some?
    ensures Inv(cfg, Step(cfg, s, r))
    ensures !Recorded(cfg, s, KeyOf(r)) && Recorded(cfg, Step(cfg, s, r), KeyOf(r))
  {
    StepGrows(cfg, s, r);
    AcceptedRef(cfg, s, r, r.target);
    AcceptedReferrer(cfg, s, r);
  }

  lemma FoundChanges(cfg: Config, s: State, r: HeapRef)
    requires Inv(cfg, s) && WellShaped(r)
    ensures var s' := Step(cfg, s, r);
            s'.found == if Judge(cfg, s, r) == Accept then Found(s.found, s.nodes[s.tags[r.target]].leaks, s.finished)
                        else s.found
  {
    if Judge(cfg, s, r) == Accept {
      CountedInv(cfg, s, r);
      LinkedRest(cfg, Counted(cfg, s, r), r);
    }
  }

  lemma VisitProgress(cfg: Config, s: State, heap: seq<HeapRef>, from: nat)
    requires Inv(cfg, s) && Shaped(heap) && from <= |heap|
    ensures Inv(cfg, Visit(cfg, s, heap, from))
    ensures var s' := Visit(cfg, s, heap, from);
            Progress(cfg, s', heap) >= Progress(cfg, s, heap) + if s'.found == s.found then 0 else 1
    decreases |heap| - from
  {
    if from < |heap| {
      StepInv(cfg, s, heap[from]);
      StepProgress(cfg, s, heap[from], heap);
      FoundChanges(cfg, s, heap[from]);
      VisitProgress(cfg, Step(cfg, s, heap[from]), heap, from + 1);
    }
  }

  /** A pass after which the loop goes on has made progress. */
  lemma PassProgress(cfg: Config, s: State, heap: seq<HeapRef>)
    requires Inv(cfg, s) && Shaped(heap)
    ensures Inv(cfg, Pass(cfg, s, heap))
    ensures var s' := Pass(cfg, s, heap);
            HasUnfinished(cfg, s') ==> Progress(cfg, s', heap) > Progress(cfg, s, heap)
  {
    ResetInv(cfg, s);
    VisitProgress(cfg, Reset(s), heap, 0);
    assert RecordedKeys(cfg, Reset(s), heap) == RecordedKeys(cfg, s, heap);
  }

  /** The number of passes that the loop makes. */
  function PassesMade(cfg: Config, s: State, heap: seq<HeapRef>, left: nat): nat
    requires Inv(cfg, s) && Shaped(heap)
    decreases left
  {
    if left == 0 then 0
    else
      PassFacts(cfg, s, heap);
      var s' := Pass(cfg, s, heap);
      1 + if HasUnfinished(cfg, s') then PassesMade(cfg, s', heap, left - 1) else 0
  }

  lemma PassesMadeBounded(cfg: Config, s: State, heap: seq<HeapRef>, left: nat)
    requires Inv(cfg, s) && Shaped(heap)
    ensures PassesMade(cfg, s, heap, left) + Progress(cfg, s, heap) <= |HeapKeys(heap)| + cfg.leaks + 1
    decreases left
  {
    ProgressBounded(cfg, s, heap);
    if left > 0 {
      PassFacts(cfg, s, heap);
      PassProgress(cfg, s, heap);
      var s' := Pass(cfg, s, heap);
      if HasUnfinished(cfg, s') {
        PassesMadeBounded(cfg, s', heap, left - 1);
      }
    }
  }

  /** How many passes are certainly enough. */
  function Enough(cfg: Config, s: State, heap: seq<HeapRef>): int
    requires Inv(cfg, s)
  {
    |HeapKeys(heap)| + cfg.leaks + 1 - Progress(cfg, s, heap)
  }

  lemma {:induction false} EnoughIsEnough(cfg: Config, s: State, heap: seq<HeapRef>, left: nat)
    requires Inv(cfg, s) && Shaped(heap) && left >= Enough(cfg, s, heap)
    ensures 0 <= Enough(cfg, s, heap) && Inv(cfg, PassLoop(cfg, s, heap, left))
    ensures !HasUnfinished(cfg, PassLoop(cfg, s, heap, left))
    ensures PassLoop(cfg, s, heap, left) == PassLoop(cfg, s, heap, Enough(cfg, s, heap))
    decreases left
  {
    ProgressBounded(cfg, s, heap);
    PassLoopFacts(cfg, s, heap, left);
    PassFacts(cfg, s, heap);
    PassProgress(cfg, s, heap);
    var s' := Pass(cfg, s, heap);
    if HasUnfinished(cfg, s') {
      EnoughIsEnough(cfg, s', heap, left - 1);
      ProgressBounded(cfg, s', heap);
      if left > Enough(cfg, s, heap) {
        EnoughIsEnough(cfg, s', heap, Enough(cfg, s, heap) - 1);
      }
    }
  }

  /** However large the cap, the loop makes at most one pass per distinct reference and per leak, and one more; with a
      cap of that size it ends by its own test, and a larger cap changes nothing. */
  lemma PassesBounded(cfg: Config, s: State, heap: seq<HeapRef>, left: nat)
    requires Inv(cfg, s) && Shaped(heap)
    ensures PassesMade(cfg, s, heap, left) + Progress(cfg, s, heap) <= |HeapKeys(heap)| + cfg.leaks + 1
    ensures Inv(cfg, PassLoop(cfg, s, heap, left)) && 0 <= Enough(cfg, s, heap)
    ensures left >= Enough(cfg, s, heap) ==>
              && !HasUnfinished(cfg, PassLoop(cfg, s, heap, left))
              && PassLoop(cfg, s, heap, left) == PassLoop(cfg, s, heap, Enough(cfg, s, heap))
  {
    PassesMadeBounded(cfg, s, heap, left);
    PassLoopFacts(cfg, s, heap, left);
    ProgressBounded(cfg, s, heap);
    if left >= Enough(cfg, s, heap) {
      EnoughIsEnough(cfg, s, heap, left);
    }
  }

  lemma LoopOfOne(cfg: Config, s: State, heap: seq<HeapRef>)
    requires Inv(cfg, s) && Shaped(heap)
    ensures PassLoop(cfg, s, heap, 1) == Pass(cfg, s, heap)
  {
    PassFacts(cfg, s, heap);
    assert PassLoop(cfg, Pass(cfg, s, heap), heap, 0) == Pass(cfg, s, heap);
  }

  /** Once the loop ends by its own test, a larger cap changes nothing. */
  lemma {:induction false} MoreIsSame(cfg: Config, s: State, heap: seq<HeapRef>, left: nat, more: nat)
    requires Inv(cfg, s) && Shaped(heap) && EndsItself(cfg, s, heap, left) && left <= more
    ensures PassLoop(cfg, s, heap, more) == PassLoop(cfg, s, heap, left)
    decreases left
  {
    PassFacts(cfg, s, heap);
    var s' := Pass(cfg, s, heap);
    if HasUnfinished(cfg, s') {
      assert PassLoop(cfg, s, heap, left) == PassLoop(cfg, s', heap, left - 1);
      LoopOfOne(cfg, s, heap);
      assert left != 1;
      MoreIsSame(cfg, s', heap, left - 1, more - 1);
    }
  }

  /** The cap does not cut the loop short. */
  predicate EndsItself(cfg: Config, s: State, heap: seq<HeapRef>, left: nat)
    requires Inv(cfg, s) && Shaped(heap)
  {
    left > 0 && Inv(cfg, PassLoop(cfg, s, heap, left)) && !HasUnfinished(cfg, PassLoop(cfg, s, heap, left))
  }

  // ---- Stopping early ----

  /** No reference of the heap would be recorded. */
  predicate Quiet(cfg: Config, s: State, heap: seq<HeapRef>)
    requires Inv(cfg, s)
  {
    forall r <- heap :: Judge(cfg, s, r) != Accept
  }

  /** The states agree on everything but the counters; the fan-in counters may have risen. */
  ghost predicate SameButCounters(s: State, s': State) {
    && |s.nodes| == |s'.nodes|
    && (forall k: NodeId | k < |s.nodes| :: s'.nodes[k] == s.nodes[k].(fanIn := s'.nodes[k].fanIn))
    && FanInGrows(s, s')
    && s.owner == s'.owner && s.tags == s'.tags && s.finished == s'.finished
  }

  lemma JudgeStaysQuiet(cfg: Config, s: State, s': State, r: HeapRef)
    requires Inv(cfg, s) && Inv(cfg, s') && SameButCounters(s, s')
    requires Judge(cfg, s, r) != Accept
    ensures Judge(cfg, s', r) != Accept
  {
    if r.target in s.tags {
      var n := s.nodes[s.tags[r.target]];
      assert s'.nodes[s.tags[r.target]] == n.(fanIn := s'.nodes[s.tags[r.target]].fanIn);
    }
  }

  lemma QuietVisit(cfg: Config, s: State, heap: seq<HeapRef>, from: nat)
    requires Inv(cfg, s) && Shaped(heap) && from <= |heap| && Quiet(cfg, s, heap)
    ensures var s' := Visit(cfg, s, heap, from);
            Inv(cfg, s') && SameButCounters(s, s') && s'.found == s.found && Quiet(cfg, s', heap)
    decreases |heap| - from
  {
    if from < |heap| {
      var r := heap[from];
      var s1 := Step(cfg, s, r);
      StepGrows(cfg, s, r);
      assert Judge(cfg, s, r) != Accept;
      assert SameButCounters(s, s1);
      forall x <- heap ensures Judge(cfg, s1, x) != Accept {
        JudgeStaysQuiet(cfg, s, s1, x);
      }
      QuietVisit(cfg, s1, heap, from + 1);
    }
  }

  /** What `more` further passes would make of a state. */
  function Again(cfg: Config, s: State, heap: seq<HeapRef>, more: nat): State
    requires Inv(cfg, s) && Shaped(heap)
    decreases more
  {
    if more == 0 then s
    else
      PassFacts(cfg, s, heap);
      Again(cfg, Pass(cfg, s, heap), heap, more - 1)
  }

  lemma QuietForever(cfg: Config, s: State, heap: seq<HeapRef>, more: nat)
    requires Inv(cfg, s) && Shaped(heap) && Quiet(cfg, s, heap)
    ensures SameButCounters(s, Again(cfg, s, heap, more))
    decreases more
  {
    if more > 0 {
      ResetInv(cfg, s);
      PassFacts(cfg, s, heap);
      forall r <- heap ensures Judge(cfg, Reset(s), r) != Accept {
        JudgeStaysQuiet(cfg, s, Reset(s), r);
      }
      QuietVisit(cfg, Reset(s), heap, 0);
      QuietForever(cfg, Pass(cfg, s, heap), heap, more - 1);
    }
  }

  /** Every leak is finished or found nothing. */
  predicate Settled(cfg: Config, s: State)
    requires Inv(cfg, s)
  {
    forall j: nat | j < cfg.leaks :: j in s.finished.raw || s.found[j] == 0
  }

  /** `found` only rises. */
  predicate FoundBelow(cfg: Config, s: State, s': State) {
    && |s.found| == cfg.leaks == |s'.found|
    && forall j: nat | j < cfg.leaks :: s.found[j] <= s'.found[j]
  }

  /** Bits of unfinished leaks stay where they were. */
  predicate OldBits(s: State, s': State, last: State) {
    forall m: NodeId, j | m < |s'.nodes| && j in s'.nodes[m].leaks.raw && j !in last.finished.raw ::
      m < |s.nodes| && j in s.nodes[m].leaks.raw
  }

  lemma StepFound(cfg: Config, s: State, r: HeapRef)
    requires Inv(cfg, s) && WellShaped(r)
    ensures FoundBelow(cfg, s, Step(cfg, s, r))
  {
    FoundChanges(cfg, s, r);
  }

  /** If a pass ends settled, its accepted references all had targets whose leaks it finished. */
  lemma SettledAccept(cfg: Config, s0: State, s: State, heap: seq<HeapRef>, r: HeapRef, last: State)
    requires Reachable(cfg, s0, s, heap) && RoomForAll(cfg, s0, heap) && WellShaped(r) && Judge(cfg, s, r) == Accept
    requires Inv(cfg, last) && Settled(cfg, last)
    requires Grows(s, last) && FoundBelow(cfg, Step(cfg, s, r), last)
    ensures s.nodes[s.tags[r.target]].leaks.raw <= last.finished.raw
  {
    forall j <- s.nodes[s.tags[r.target]].leaks.raw ensures j in last.finished.raw {
      if j !in s.finished.raw {
        BitCounts(cfg, s0, s, heap, s.tags[r.target], j);
        FoundRises(cfg, s, r, j);
      }
    }
  }

  lemma FoundRises(cfg: Config, s: State, r: HeapRef, j: nat)
    requires Inv(cfg, s) && WellShaped(r) && Judge(cfg, s, r) == Accept && j < cfg.leaks
    requires Contains(s.nodes[s.tags[r.target]].leaks, j) && !Contains(s.finished, j)
    ensures |Step(cfg, s, r).found| == cfg.leaks && Step(cfg, s, r).found[j] > 0
  {
    FoundChanges(cfg, s, r);
  }

  /** An unfinished bit of a node counts there. */
  lemma BitCounts(cfg: Config, s0: State, s: State, heap: seq<HeapRef>, k: NodeId, j: nat)
    requires Inv(cfg, s0) && Inv(cfg, s) && Grows(s0, s) && Held(cfg, s0, s, heap) && RoomForAll(cfg, s0, heap)
    requires k < |s.nodes| && j in s.nodes[k].leaks.raw && j !in s.finished.raw
    ensures j < cfg.leaks && Contains(s.nodes[k].leaks, j) && !Contains(s.finished, j)
  {
    assert j < cfg.leaks && Holds(heap, s.owner[k], s0.owner[j]);
    assert RoomFor(cfg, s0, heap, j);
    HolderHasRoom(cfg, s0, s, heap, j, k);
  }

  lemma SettledBits(cfg: Config, s: State, r: HeapRef, last: State)
    requires Inv(cfg, s) && WellShaped(r)
    requires Judge(cfg, s, r) == Accept ==> s.nodes[s.tags[r.target]].leaks.raw <= last.finished.raw
    ensures OldBits(s, Step(cfg, s, r), last)
  {
    var s1 := Step(cfg, s, r);
    forall m: NodeId, j | m < |s1.nodes| && j in s1.nodes[m].leaks.raw && j !in last.finished.raw
      ensures m < |s.nodes| && j in s.nodes[m].leaks.raw
    {
      StepNode(cfg, s, r, m);
    }
  }

  /** What makes refusals last: all holders of a leak have room for its bit, no ignore entry distinguishes the sizes
      that reach them, and the filter lets the same references to them through in every pass. */
  ghost predicate Lasting(cfg: Config, s0: State, s: State, heap: seq<HeapRef>) {
    Reachable(cfg, s0, s, heap) && RoomForAll(cfg, s0, heap) && Steady(cfg, s0, heap) && FilterFixed(cfg, s0, heap)
  }

  /** From `heap[from]` on, a pass that ends in `last` accepted only references whose leaks it finished, and what it
      turned down stays turned down. */
  predicate SettledFrom(cfg: Config, s: State, heap: seq<HeapRef>, from: nat, last: State) {
    && Inv(cfg, last) && FoundBelow(cfg, s, last) && OldBits(s, last, last)
    && forall q: nat | from <= q < |heap| :: Judge(cfg, last, heap[q]) != Accept
  }

  /** In a pass that ends settled, no bit of an unfinished leak moved, and every reference to a node with such a bit was
      turned down for a reason that lasts. */
  lemma {:induction false} SettledVisit(cfg: Config, s0: State, s: State, heap: seq<HeapRef>, from: nat, last: State)
    requires Shaped(heap) && from <= |heap| && Lasting(cfg, s0, s, heap)
    requires last == Visit(cfg, s, heap, from) && Inv(cfg, last) && Settled(cfg, last)
    ensures SettledFrom(cfg, s, heap, from, last)
    decreases |heap| - from
  {
    if from < |heap| {
      var s1 := Step(cfg, s, heap[from]);
      StepLasting(cfg, s0, s, heap[from], heap);
      SettledVisit(cfg, s0, s1, heap, from + 1, last);
      SettledStep(cfg, s0, s, heap, from, last);
    }
  }

  lemma StepLasting(cfg: Config, s0: State, s: State, r: HeapRef, heap: seq<HeapRef>)
    requires Shaped(heap) && r in heap && Lasting(cfg, s0, s, heap)
    ensures Lasting(cfg, s0, Step(cfg, s, r), heap)
  {
    StepReachable(cfg, s0, s, heap, r);
  }

  lemma SettledStep(cfg: Config, s0: State, s: State, heap: seq<HeapRef>, from: nat, last: State)
    requires Shaped(heap) && from < |heap| && Lasting(cfg, s0, s, heap)
    requires last == Visit(cfg, s, heap, from) && Inv(cfg, last) && Settled(cfg, last)
    requires Inv(cfg, Step(cfg, s, heap[from])) && SettledFrom(cfg, Step(cfg, s, heap[from]), heap, from + 1, last)
    ensures SettledFrom(cfg, s, heap, from, last)
  {
    var r := heap[from];
    VisitFacts(cfg, s, heap, from);
    StepFound(cfg, s, r);
    if Judge(cfg, s, r) == Accept {
      SettledAccept(cfg, s0, s, heap, r, last);
    }
    SettledBits(cfg, s, r, last);
    OldBitsStep(s, Step(cfg, s, r), last);
    VisitReachable(cfg, s0, s, heap, from);
    TurnedDown(cfg, s0, s, heap, r, last);
  }

  lemma OldBitsStep(s: State, s1: State, last: State)
    requires OldBits(s, s1, last) && OldBits(s1, last, last)
    ensures OldBits(s, last, last)
  {
  }

  /** What was turned down on an unfinished leak stays turned down in a later state. */
  lemma TurnedDown(cfg: Config, s0: State, s: State, heap: seq<HeapRef>, r: HeapRef, last: State)
    requires Reachable(cfg, s0, s, heap) && Reachable(cfg, s0, last, heap) && Grows(s, last) && FanInGrows(s, last)
    requires Steady(cfg, s0, heap) && FilterFixed(cfg, s0, heap) && r in heap && OldBits(s, last, last)
    requires Judge(cfg, s, r) == Accept ==> s.nodes[s.tags[r.target]].leaks.raw <= last.finished.raw
    ensures Judge(cfg, last, r) != Accept
  {
    if Wanted(cfg, last, r) {
      WantedHolds(cfg, s0, last, heap, r);
      StillReported(cfg, s0, s, heap, r, last);
      WasWanted(cfg, s, r, last);
      StillRefused(cfg, s0, s, heap, r, last);
    }
  }

  /** What the filter lets through it let through before. */
  lemma StillReported(cfg: Config, s0: State, s: State, heap: seq<HeapRef>, r: HeapRef, last: State)
    requires Grows(s0, s) && Entered(cfg, s0, last, heap) && FilterFixed(cfg, s0, heap) && r in heap
    requires HoldsLeak(cfg, s0, heap, r.target) && Reported(cfg, last, r)
    ensures cfg.classOf[r.target] in s.tags
  {
    var i: nat :| i < cfg.leaks && Holds(heap, r.target, s0.owner[i]);
    assert FilterFor(cfg, s0, heap, i);
    SameFilter(cfg, s0, last, heap, i, r);
  }

  /** And what kept the reference from being recorded then still does. */
  lemma StillRefused(cfg: Config, s0: State, s: State, heap: seq<HeapRef>, r: HeapRef, last: State)
    requires Reachable(cfg, s0, s, heap) && Reachable(cfg, s0, last, heap) && Grows(s, last) && FanInGrows(s, last)
    requires Steady(cfg, s0, heap) && r in heap && HoldsLeak(cfg, s0, heap, r.target)
    requires Wanted(cfg, s, r) && Judge(cfg, s, r) != Accept && Wanted(cfg, last, r)
    requires last.tags[r.target] == s.tags[r.target]
    ensures Judge(cfg, last, r) != Accept
  {
    WantedExactly(cfg, s, r);
    WantedExactly(cfg, last, r);
    StillIgnored(cfg, s0, s, heap, r, last);
    RefusedAgain(cfg, s, r, last);
  }

  lemma RefusedAgain(cfg: Config, s: State, r: HeapRef, last: State)
    requires Inv(cfg, s) && Inv(cfg, last) && Grows(s, last) && FanInGrows(s, last) && Wanted(cfg, s, r)
    requires r.target in last.tags && last.tags[r.target] == s.tags[r.target]
    requires IgnoredField(cfg, s, r) ==> IgnoredField(cfg, last, r)
    requires Judge(cfg, s, r) != Accept
    ensures Judge(cfg, last, r) != Accept
  {
    assert NodeGrows(s.nodes[s.tags[r.target]], last.nodes[s.tags[r.target]]);
  }

  lemma StillIgnored(cfg: Config, s0: State, s: State, heap: seq<HeapRef>, r: HeapRef, last: State)
    requires Reachable(cfg, s0, s, heap) && Reachable(cfg, s0, last, heap) && Steady(cfg, s0, heap) && r in heap
    requires HoldsLeak(cfg, s0, heap, r.target)
    requires r.target in s.tags && s.nodes[s.tags[r.target]].leaks.raw != {}
    requires r.target in last.tags && last.nodes[last.tags[r.target]].leaks.raw != {}
    ensures IgnoredField(cfg, s, r) ==> IgnoredField(cfg, last, r)
  {
    SameIgnored(cfg, s0, s, r, s.nodes[s.tags[r.target]].size);
    SameIgnored(cfg, s0, last, r, last.nodes[last.tags[r.target]].size);
    assert s.owner[s.tags[r.target]] == r.target == last.owner[last.tags[r.target]];
    var i: nat :| i < cfg.leaks && Holds(heap, r.target, s0.owner[i]);
    assert SteadyFor(cfg, s0, heap, i);
  }

  lemma WasWanted(cfg: Config, s: State, r: HeapRef, last: State)
    requires Inv(cfg, s) && Inv(cfg, last) && Grows(s, last) && OldBits(s, last, last)
    requires r.target in cfg.classOf && cfg.classOf[r.target] in last.tags ==> cfg.classOf[r.target] in s.tags
    requires Wanted(cfg, last, r)
    ensures Wanted(cfg, s, r) && last.tags[r.target] == s.tags[r.target]
    ensures !(s.nodes[s.tags[r.target]].leaks.raw <= last.finished.raw)
  {
    WantedExactly(cfg, last, r);
    var t := last.tags[r.target];
    var j :| j in last.nodes[t].leaks.raw && j !in last.finished.raw;
    assert t < |s.nodes| && j in s.nodes[t].leaks.raw;
    assert s.owner[t] == last.owner[t];
    assert s.tags[r.target] == t;
    WantedExactly(cfg, s, r);
  }

  /** With one leak or none, a pass that leaves it unfinished without new nodes accepted nothing. */
  lemma {:induction false} IdleVisit(cfg: Config, s: State, heap: seq<HeapRef>, from: nat, last: State)
    requires Inv(cfg, s) && Shaped(heap) && from <= |heap| && cfg.leaks <= 1
    requires last == Visit(cfg, s, heap, from) && Inv(cfg, last)
    requires cfg.leaks == 1 ==> 0 !in last.finished.raw && last.found[0] == s.found[0]
    ensures SameButCounters(s, last)
    ensures forall q: nat | from <= q < |heap| :: Judge(cfg, last, heap[q]) != Accept
    decreases |heap| - from
  {
    if from < |heap| {
      var r := heap[from];
      var s1 := Step(cfg, s, r);
      VisitFacts(cfg, s, heap, from);
      IdleStep(cfg, s, heap, from, last);
      IdleVisit(cfg, s1, heap, from + 1, last);
      SameStep(s, s1, last);
      JudgeStaysQuiet(cfg, s, last, r);
    }
  }

  lemma IdleStep(cfg: Config, s: State, heap: seq<HeapRef>, from: nat, last: State)
    requires Inv(cfg, s) && Shaped(heap) && from < |heap| && cfg.leaks <= 1
    requires last == Visit(cfg, s, heap, from) && Inv(cfg, last) && Grows(s, last)
    requires cfg.leaks == 1 ==> 0 !in last.finished.raw && last.found[0] == s.found[0]
    ensures Judge(cfg, s, heap[from]) != Accept && Inv(cfg, Step(cfg, s, heap[from]))
    ensures SameButCounters(s, Step(cfg, s, heap[from])) && Step(cfg, s, heap[from]).found == s.found
  {
    var r := heap[from];
    StepGrows(cfg, s, r);
    VisitFound(cfg, Step(cfg, s, r), heap, from + 1);
    AcceptCounts(cfg, s, r);
  }

  /** With one leak or none, an accepted reference counts for the leak. */
  lemma AcceptCounts(cfg: Config, s: State, r: HeapRef)
    requires Inv(cfg, s) && WellShaped(r) && cfg.leaks <= 1
    ensures Judge(cfg, s, r) == Accept ==> cfg.leaks == 1 && Step(cfg, s, r).found[0] == s.found[0] + 1
  {
    if r.target in s.tags {
      FoundChanges(cfg, s, r);
      WantedExactly(cfg, s, r);
      assert NodeOk(cfg, s, s.tags[r.target]);
    }
  }

  lemma {:induction false} VisitFound(cfg: Config, s: State, heap: seq<HeapRef>, from: nat)
    requires Inv(cfg, s) && Shaped(heap) && from <= |heap|
    ensures FoundBelow(cfg, s, Visit(cfg, s, heap, from))
    decreases |heap| - from
  {
    if from < |heap| {
      StepInv(cfg, s, heap[from]);
      StepFound(cfg, s, heap[from]);
      VisitFound(cfg, Step(cfg, s, heap[from]), heap, from + 1);
    }
  }

  lemma SameStep(a: State, b: State, c: State)
    requires SameButCounters(a, b) && SameButCounters(b, c)
    ensures SameButCounters(a, c)
  {
    forall k: NodeId | k < |a.nodes| ensures c.nodes[k] == a.nodes[k].(fanIn := c.nodes[k].fanIn) {
      assert b.nodes[k] == a.nodes[k].(fanIn := b.nodes[k].fanIn);
    }
  }

  lemma UnfinishedOrSettled(cfg: Config, s: State)
    requires Inv(cfg, s)
    ensures HasUnfinished(cfg, s) <==> !Settled(cfg, s)
  {
    if !Settled(cfg, s) {
      var j: nat :| j < cfg.leaks && !(j in s.finished.raw || s.found[j] == 0);
      assert !Contains(s.finished, j);
    }
  }

  /** After a pass that ends settled, nothing would be accepted: with one leak or none always, with more of them under
      the conditions of `Lasting`. */
  lemma SettledIsQuiet(cfg: Config, s0: State, s: State, heap: seq<HeapRef>)
    requires Inv(cfg, s) && Shaped(heap) && (cfg.leaks <= 1 || Lasting(cfg, s0, s, heap))
    ensures Inv(cfg, Pass(cfg, s, heap))
    ensures !HasUnfinished(cfg, Pass(cfg, s, heap)) ==> Quiet(cfg, Pass(cfg, s, heap), heap)
  {
    PassFacts(cfg, s, heap);
    ResetInv(cfg, s);
    var s' := Pass(cfg, s, heap);
    UnfinishedOrSettled(cfg, s');
    if Settled(cfg, s') {
      if cfg.leaks > 1 {
        ResetReachable(cfg, s0, s, heap);
        SettledVisit(cfg, s0, Reset(s), heap, 0, s');
      } else if cfg.leaks == 1 && 0 in s'.finished.raw {
        FinishedIsQuiet(cfg, s', heap);
      } else {
        IdleVisit(cfg, Reset(s), heap, 0, s');
      }
    }
  }

  lemma FinishedIsQuiet(cfg: Config, s: State, heap: seq<HeapRef>)
    requires Inv(cfg, s) && cfg.leaks == 1 && 0 in s.finished.raw
    ensures Quiet(cfg, s, heap)
  {
    forall r <- heap ensures Judge(cfg, s, r) != Accept {
      if r.target in s.tags {
        WantedExactly(cfg, s, r);
        assert NodeOk(cfg, s, s.tags[r.target]);
      }
    }
  }

  /** After a pass that ends with every leak finished or without new nodes, no further pass over the heap changes
      anything but counters: with one leak or none always, with more of them under the conditions of `Lasting`. */
  lemma EarlyExitIsFixpoint(cfg: Config, s0: State, s: State, heap: seq<HeapRef>, more: nat)
    requires Inv(cfg, s) && Shaped(heap) && (cfg.leaks <= 1 || Lasting(cfg, s0, s, heap))
    ensures Inv(cfg, Pass(cfg, s, heap))
    ensures !HasUnfinished(cfg, Pass(cfg, s, heap)) ==>
              SameButCounters(Pass(cfg, s, heap), Again(cfg, Pass(cfg, s, heap), heap, more))
  {
    SettledIsQuiet(cfg, s0, s, heap);
    if !HasUnfinished(cfg, Pass(cfg, s, heap)) {
      QuietForever(cfg, Pass(cfg, s, heap), heap, more);
    }
  }

  lemma PassLasting(cfg: Config, s0: State, s: State, heap: seq<HeapRef>)
    requires Shaped(heap) && Lasting(cfg, s0, s, heap)
    ensures Lasting(cfg, s0, Pass(cfg, s, heap), heap)
  {
    ResetInv(cfg, s);
    PassReachable(cfg, s0, s, heap);
  }

  lemma {:induction false} LoopEndsQuiet(cfg: Config, s0: State, s: State, heap: seq<HeapRef>, left: nat, more: nat)
    requires Inv(cfg, s) && Shaped(heap) && (cfg.leaks <= 1 || Lasting(cfg, s0, s, heap)) && left > 0
    ensures var last := PassLoop(cfg, s, heap, left);
            && Inv(cfg, last)
            && (!HasUnfinished(cfg, last) ==> SameButCounters(last, Again(cfg, last, heap, more)))
    decreases left
  {
    PassLoopFacts(cfg, s, heap, left);
    PassFacts(cfg, s, heap);
    var s' := Pass(cfg, s, heap);
    if !HasUnfinished(cfg, s') {
      EarlyExitIsFixpoint(cfg, s0, s, heap, more);
    } else if left > 1 {
      if cfg.leaks > 1 {
        PassLasting(cfg, s0, s, heap);
      }
      LoopEndsQuiet(cfg, s0, s', heap, left - 1, more);
    }
  }

  /** Nor would such a run record anything more. */
  lemma {:induction false} LoopEndsSilent(cfg: Config, s0: State, s: State, heap: seq<HeapRef>, left: nat)
    requires Inv(cfg, s) && Shaped(heap) && (cfg.leaks <= 1 || Lasting(cfg, s0, s, heap)) && left > 0
    ensures Inv(cfg, PassLoop(cfg, s, heap, left))
    ensures !HasUnfinished(cfg, PassLoop(cfg, s, heap, left)) ==> Quiet(cfg, PassLoop(cfg, s, heap, left), heap)
    decreases left
  {
    PassLoopFacts(cfg, s, heap, left);
    PassFacts(cfg, s, heap);
    var s' := Pass(cfg, s, heap);
    if !HasUnfinished(cfg, s') {
      SettledIsQuiet(cfg, s0, s, heap);
    } else if left > 1 {
      if cfg.leaks > 1 {
        PassLasting(cfg, s0, s, heap);
      }
      LoopEndsSilent(cfg, s0, s', heap, left - 1);
    }
  }

  /** What can be checked before a run: its loop ends too early in no case. */
  ghost predicate ExitSafe(cfg: Config, s: State, heap: seq<HeapRef>) {
    cfg.leaks <= 1 || (RoomForAll(cfg, s, heap) && Steady(cfg, s, heap) && FilterFixed(cfg, s, heap))
  }

  /** If the loop of such a run ended by its own test, more passes would have been wasted. */
  lemma LoopExitIsFixpoint(cfg: Config, s: State, heap: seq<HeapRef>, left: nat, more: nat)
    requires Start(cfg, s) && Shaped(heap) && ExitSafe(cfg, s, heap) && left > 0
    ensures var last := PassLoop(cfg, s, heap, left);
            && Inv(cfg, last)
            && (!HasUnfinished(cfg, last) ==> SameButCounters(last, Again(cfg, last, heap, more)))
  {
    StartReachable(cfg, s, heap);
    LoopEndsQuiet(cfg, s, s, heap, left, more);
  }
}
