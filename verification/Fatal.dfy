/** When `addReferenceClass` stops the process: the guard that asks for a class node, over a whole run of passes. */
module Fatal {
  import opened Wrappers
  import opened LeakBits
  import opened DataStruct
  import opened Recording
  import opened Taint
  import opened Holding

  /** The callback gets as far as `addReferenceClass`, and the tag of the referrer's class leads to a node that is no
      class node. */
  predicate Stops(cfg: Config, s: State, r: HeapRef)
    requires Inv(cfg, s)
  {
    Wanted(cfg, s, r) && ClassTagged(cfg, s, r) && !s.nodes[s.tags[ClassObj(cfg, r)]].isClass
  }

  /** One of the callbacks for `heap[from..]` stops the process. */
  predicate VisitStops(cfg: Config, s: State, heap: seq<HeapRef>, from: nat)
    requires Inv(cfg, s) && Shaped(heap) && from <= |heap|
    decreases |heap| - from
  {
    if from == |heap| then false
    else
      StepInv(cfg, s, heap[from]);
      Stops(cfg, s, heap[from]) || VisitStops(cfg, Step(cfg, s, heap[from]), heap, from + 1)
  }

  predicate PassStops(cfg: Config, s: State, heap: seq<HeapRef>)
    requires Inv(cfg, s) && Shaped(heap)
  {
    ResetInv(cfg, s);
    VisitStops(cfg, Reset(s), heap, 0)
  }

  /** The run stops in one of its passes. */
  predicate LoopStops(cfg: Config, s: State, heap: seq<HeapRef>, left: nat)
    requires Inv(cfg, s) && Shaped(heap)
    decreases left
  {
    if left == 0 then false
    else
      PassFacts(cfg, s, heap);
      var s' := Pass(cfg, s, heap);
      PassStops(cfg, s, heap) || (HasUnfinished(cfg, s') && LoopStops(cfg, s', heap, left - 1))
  }

  // ---- The callbacks of a run ----

  /** A callback and the state that it meets. */
  datatype Event = Event(before: State, r: HeapRef)

  function VisitEvents(cfg: Config, s: State, heap: seq<HeapRef>, from: nat): seq<Event>
    requires Inv(cfg, s) && Shaped(heap) && from <= |heap|
    decreases |heap| - from
  {
    if from == |heap| then []
    else
      StepInv(cfg, s, heap[from]);
      [Event(s, heap[from])] + VisitEvents(cfg, Step(cfg, s, heap[from]), heap, from + 1)
  }

  /** The callbacks of all passes, in order. */
  function LoopEvents(cfg: Config, s: State, heap: seq<HeapRef>, left: nat): seq<Event>
    requires Inv(cfg, s) && Shaped(heap)
    decreases left
  {
    if left == 0 then []
    else
      PassFacts(cfg, s, heap);
      ResetInv(cfg, s);
      var s' := Pass(cfg, s, heap);
      VisitEvents(cfg, Reset(s), heap, 0) + if HasUnfinished(cfg, s') then LoopEvents(cfg, s', heap, left - 1) else []
  }

  predicate EventStops(cfg: Config, e: Event) { Inv(cfg, e.before) && Stops(cfg, e.before, e.r) }

  ghost predicate SomeStops(cfg: Config, es: seq<Event>) {
    exists k: nat :: k < |es| && EventStops(cfg, es[k])
  }

  lemma SomeStopsConcat(cfg: Config, a: seq<Event>, b: seq<Event>)
    ensures SomeStops(cfg, a + b) <==> SomeStops(cfg, a) || SomeStops(cfg, b)
  {
    if k: nat :| k < |a| && EventStops(cfg, a[k]) {
      assert EventStops(cfg, (a + b)[k]);
    }
    if k: nat :| k < |b| && EventStops(cfg, b[k]) {
      assert EventStops(cfg, (a + b)[|a| + k]);
    }
  }

  lemma {:induction false} VisitStopsAtEvent(cfg: Config, s: State, heap: seq<HeapRef>, from: nat)
    requires Inv(cfg, s) && Shaped(heap) && from <= |heap|
    ensures VisitStops(cfg, s, heap, from) <==> SomeStops(cfg, VisitEvents(cfg, s, heap, from))
    decreases |heap| - from
  {
    if from < |heap| {
      var r := heap[from];
      StepInv(cfg, s, r);
      VisitStopsAtEvent(cfg, Step(cfg, s, r), heap, from + 1);
      SomeStopsConcat(cfg, [Event(s, r)], VisitEvents(cfg, Step(cfg, s, r), heap, from + 1));
      assert SomeStops(cfg, [Event(s, r)]) <==> EventStops(cfg, [Event(s, r)][0]);
    }
  }

  lemma {:induction false} LoopStopsAtEvent(cfg: Config, s: State, heap: seq<HeapRef>, left: nat)
    requires Inv(cfg, s) && Shaped(heap)
    ensures LoopStops(cfg, s, heap, left) <==> SomeStops(cfg, LoopEvents(cfg, s, heap, left))
    decreases left
  {
    if left > 0 {
      PassFacts(cfg, s, heap);
      ResetInv(cfg, s);
      var s' := Pass(cfg, s, heap);
      VisitStopsAtEvent(cfg, Reset(s), heap, 0);
      var rest := if HasUnfinished(cfg, s') then LoopEvents(cfg, s', heap, left - 1) else [];
      SomeStopsConcat(cfg, VisitEvents(cfg, Reset(s), heap, 0), rest);
      if HasUnfinished(cfg, s') {
        LoopStopsAtEvent(cfg, s', heap, left - 1);
      }
    }
  }

  // ---- How the events hang together ----

  /** Each event meets what the event before it left, but for the counters that are cleared between passes. */
  predicate Run(cfg: Config, s: State, es: seq<Event>)
    decreases |es|
  {
    es == [] ||
    (var e := es[0];
     && Inv(cfg, e.before) && WellShaped(e.r) && e.before.(found := []) == s.(found := [])
     && Run(cfg, Step(cfg, e.before, e.r), es[1..]))
  }

  lemma {:induction false} VisitRun(cfg: Config, s: State, heap: seq<HeapRef>, from: nat, rest: seq<Event>)
    requires Inv(cfg, s) && Shaped(heap) && from <= |heap|
    requires Run(cfg, Visit(cfg, s, heap, from), rest)
    ensures Run(cfg, s, VisitEvents(cfg, s, heap, from) + rest)
    decreases |heap| - from
  {
    var es := VisitEvents(cfg, s, heap, from);
    if from == |heap| {
      assert es + rest == rest;
    } else {
      StepInv(cfg, s, heap[from]);
      VisitRun(cfg, Step(cfg, s, heap[from]), heap, from + 1, rest);
      assert (es + rest)[1..] == VisitEvents(cfg, Step(cfg, s, heap[from]), heap, from + 1) + rest;
    }
  }

  lemma RunReset(cfg: Config, s: State, s': State, es: seq<Event>)
    requires s.(found := []) == s'.(found := []) && Run(cfg, s, es)
    ensures Run(cfg, s', es)
  {
  }

  lemma {:induction false} LoopRun(cfg: Config, s: State, heap: seq<HeapRef>, left: nat)
    requires Inv(cfg, s) && Shaped(heap)
    ensures Run(cfg, s, LoopEvents(cfg, s, heap, left))
    decreases left
  {
    if left > 0 {
      PassFacts(cfg, s, heap);
      ResetInv(cfg, s);
      var s' := Pass(cfg, s, heap);
      var rest := if HasUnfinished(cfg, s') then LoopEvents(cfg, s', heap, left - 1) else [];
      if HasUnfinished(cfg, s') {
        LoopRun(cfg, s', heap, left - 1);
      }
      VisitRun(cfg, Reset(s), heap, 0, rest);
      RunReset(cfg, Reset(s), s, LoopEvents(cfg, s, heap, left));
    }
  }

  // ---- Exactly when a run stops ----

  /** An accepted callback recorded `c` as a referrer. */
  predicate Records(cfg: Config, e: Event, c: Obj) {
    Inv(cfg, e.before) && Judge(cfg, e.before, e.r) == Accept && e.r.referrer == Some(c)
  }

  /** The callback is of interest, and its referrer is an instance of `c`. */
  predicate Needs(cfg: Config, e: Event, c: Obj) {
    Inv(cfg, e.before) && Wanted(cfg, e.before, e.r) && HasClass(cfg, e.r) && ClassObj(cfg, e.r) == c
  }

  /** `c` has a node that is no class node. */
  predicate Misfit(s: State, c: Obj) {
    c in s.tags && s.tags[c] < |s.nodes| && !s.nodes[s.tags[c]].isClass
  }

  /** A wanted callback with a referrer of class `c`, which either had a node of another sort from the start or got one
      as the referrer of an earlier callback. */
  ghost predicate Clash(cfg: Config, s: State, es: seq<Event>, k: nat, c: Obj) {
    && k < |es| && Needs(cfg, es[k], c)
    && (Misfit(s, c) || (c !in s.tags && exists j: nat :: j < k && Records(cfg, es[j], c)))
  }

  /** A step tags its referrer at most, with a node that is no class node. */
  lemma StepMisfit(cfg: Config, s: State, r: HeapRef, c: Obj)
    requires Inv(cfg, s) && WellShaped(r)
    ensures Misfit(Step(cfg, s, r), c) <==>
            Misfit(s, c) || (c !in s.tags && Judge(cfg, s, r) == Accept && r.referrer == Some(c))
    ensures c in Step(cfg, s, r).tags <==> c in s.tags || (Judge(cfg, s, r) == Accept && r.referrer == Some(c))
  {
    var s' := Step(cfg, s, r);
    StepGrows(cfg, s, r);
    if Judge(cfg, s, r) == Accept {
      CountedInv(cfg, s, r);
      LinkedRest(cfg, Counted(cfg, s, r), r);
      if r.referrer == Some(c) && c !in s.tags {
        AcceptedNode(cfg, s, r, |s.nodes|);
      }
    }
    if c in s.tags {
      assert NodeGrows(s.nodes[s.tags[c]], s'.nodes[s.tags[c]]);
    }
  }

  /** What a run of callbacks makes of the tag of `c`. */
  lemma {:induction false} MisfitBefore(cfg: Config, s: State, es: seq<Event>, k: nat, c: Obj)
    requires Run(cfg, s, es) && k < |es|
    ensures Inv(cfg, es[k].before)
    ensures Misfit(es[k].before, c) <==>
            Misfit(s, c) || (c !in s.tags && exists j: nat :: j < k && Records(cfg, es[j], c))
    decreases k
  {
    var e := es[0];
    if k > 0 {
      StepMisfit(cfg, e.before, e.r, c);
      var rest := es[1..];
      MisfitBefore(cfg, Step(cfg, e.before, e.r), rest, k - 1, c);
      assert es[k] == rest[k - 1];
      if j: nat :| j < k - 1 && Records(cfg, rest[j], c) {
        assert Records(cfg, es[j + 1], c);
      }
      if j: nat :| j < k && Records(cfg, es[j], c) {
        assert j == 0 || Records(cfg, rest[j - 1], c);
      }
    }
  }

  /** A run stops exactly if some callback needs the class node of a class that has another kind of node: because an
      earlier callback recorded that class, which was untagged when the passes began, as a referrer.  (A class that was
      a leak itself would do as well; `Session.BegunClasses` excludes it.) */
  lemma StopsExactly(cfg: Config, s: State, heap: seq<HeapRef>, left: nat)
    requires Inv(cfg, s) && Shaped(heap)
    ensures LoopStops(cfg, s, heap, left) <==>
            exists k: nat, c: Obj :: Clash(cfg, s, LoopEvents(cfg, s, heap, left), k, c)
  {
    var es := LoopEvents(cfg, s, heap, left);
    LoopStopsAtEvent(cfg, s, heap, left);
    LoopRun(cfg, s, heap, left);
    if k: nat :| k < |es| && EventStops(cfg, es[k]) {
      var c := ClassObj(cfg, es[k].r);
      MisfitBefore(cfg, s, es, k, c);
      assert Clash(cfg, s, es, k, c);
    }
    if k: nat, c: Obj :| Clash(cfg, s, es, k, c) {
      MisfitBefore(cfg, s, es, k, c);
      assert EventStops(cfg, es[k]);
    }
  }

  // ---- A condition on the heap alone ----

  predicate IsClass(cfg: Config, c: Obj) { exists o <- cfg.classOf :: cfg.classOf[o] == c }

  /** No class has another kind of node when the passes begin, and no class that is untagged then refers directly, by a
      reference of any kind, to an object that holds a leak. */
  ghost predicate ClassesApart(cfg: Config, s: State, heap: seq<HeapRef>) {
    forall c: Obj | IsClass(cfg, c) :: !Misfit(s, c) && (c in s.tags || !RefersToHolder(cfg, s, heap, c))
  }

  /** Then no class that the heap filter looks at is tagged later, either. */
  lemma ApartIsFixed(cfg: Config, s: State, heap: seq<HeapRef>)
    requires Inv(cfg, s) && ClassesApart(cfg, s, heap)
    ensures FilterFixed(cfg, s, heap)
  {
    forall r: HeapRef | r in heap && r.target in cfg.classOf
      ensures cfg.classOf[r.target] in s.tags || !RefersToHolder(cfg, s, heap, cfg.classOf[r.target])
    {
      assert IsClass(cfg, cfg.classOf[r.target]);
    }
  }

  /** No class has another kind of node, and what the classes were apart from when the passes began still holds every
      unfinished bit. */
  ghost predicate Peaceful(cfg: Config, s0: State, s: State, heap: seq<HeapRef>) {
    && Grows(s0, s) && Held(cfg, s0, s, heap) && ClassesApart(cfg, s0, heap)
    && forall c: Obj | IsClass(cfg, c) :: !Misfit(s, c)
  }

  /** An accepted callback never records an untagged class. */
  lemma AcceptedApart(cfg: Config, s0: State, s: State, heap: seq<HeapRef>, r: HeapRef)
    requires Inv(cfg, s) && r in heap && Peaceful(cfg, s0, s, heap)
    requires Judge(cfg, s, r) == Accept && r.referrer.Some? && IsClass(cfg, r.referrer.value)
    ensures r.referrer.value in s.tags
  {
    WantedHolds(cfg, s0, s, heap, r);
    assert RefersToHolder(cfg, s0, heap, r.referrer.value);
  }

  lemma StepPeaceful(cfg: Config, s0: State, s: State, heap: seq<HeapRef>, r: HeapRef)
    requires Inv(cfg, s) && Shaped(heap) && r in heap && Peaceful(cfg, s0, s, heap)
    ensures Peaceful(cfg, s0, Step(cfg, s, r), heap) && !Stops(cfg, s, r)
  {
    StepGrows(cfg, s, r);
    GrowsTransitive(s0, s, Step(cfg, s, r));
    StepHeld(cfg, s0, s, heap, r);
    forall c: Obj | IsClass(cfg, c) ensures !Misfit(Step(cfg, s, r), c) {
      StepMisfit(cfg, s, r, c);
      if Judge(cfg, s, r) == Accept && r.referrer == Some(c) {
        AcceptedApart(cfg, s0, s, heap, r);
      }
    }
    if ClassTagged(cfg, s, r) {
      assert IsClass(cfg, ClassObj(cfg, r));
    }
  }

  lemma {:induction false} VisitPeaceful(cfg: Config, s0: State, s: State, heap: seq<HeapRef>, from: nat)
    requires Inv(cfg, s) && Shaped(heap) && from <= |heap| && Peaceful(cfg, s0, s, heap)
    ensures Peaceful(cfg, s0, Visit(cfg, s, heap, from), heap) && !VisitStops(cfg, s, heap, from)
    decreases |heap| - from
  {
    if from < |heap| {
      StepInv(cfg, s, heap[from]);
      StepPeaceful(cfg, s0, s, heap, heap[from]);
      VisitPeaceful(cfg, s0, Step(cfg, s, heap[from]), heap, from + 1);
    }
  }

  lemma {:induction false} LoopPeaceful(cfg: Config, s0: State, s: State, heap: seq<HeapRef>, left: nat)
    requires Inv(cfg, s) && Shaped(heap) && Peaceful(cfg, s0, s, heap)
    ensures !LoopStops(cfg, s, heap, left)
    decreases left
  {
    if left > 0 {
      PassFacts(cfg, s, heap);
      ResetInv(cfg, s);
      VisitPeaceful(cfg, s0, Reset(s), heap, 0);
      if HasUnfinished(cfg, Pass(cfg, s, heap)) {
        LoopPeaceful(cfg, s0, Pass(cfg, s, heap), heap, left - 1);
      }
    }
  }

  /** What a caller can check before the passes: if no class that is untagged then refers to a leak, or to an object
      that holds one through references that are no roots, no number of passes stops the process.  What such a class
      reaches through static fields and constant pools of other classes does no harm, because these finish the leak. */
  lemma ApartNeverStops(cfg: Config, s: State, heap: seq<HeapRef>, left: nat)
    requires Start(cfg, s) && Shaped(heap) && ClassesApart(cfg, s, heap)
    ensures !LoopStops(cfg, s, heap, left)
  {
    StartHeld(cfg, s, heap);
    LoopPeaceful(cfg, s, s, heap, left);
  }
}
