/** What a whole run does with its settings: the laws of the other modules in terms of the settings and of what the JVM
    answers. */
module Runs {
  import opened Wrappers
  import opened LeakBits
  import opened DataStruct
  import opened Recording
  import opened Taint
  import Counts
  import opened Holding
  import Passes
  import opened Search
  import opened Reached
  import Distance
  import opened Detection
  import opened Callback
  import opened Chains
  import opened JvmReference
  import opened Session
  import opened StartOfRun

  /** The settings of the passes. */
  predicate PassSettings(settings: Settings, jvm: Jvm, cfg: Config) {
    && cfg.leaks == |Leaks(settings, jvm)| && cfg.maxFanIn == settings.maxFanIn && cfg.thread == settings.thread
    && cfg.classOf == jvm.classOf
  }

  /** Some leak is not finished and had a new node in the last pass. */
  ghost predicate GoesOn(cfg: Config, s: State) {
    exists i: nat | i < cfg.leaks && i < |s.found| :: i !in s.finished.raw && s.found[i] > 0
  }

  /** The states between the passes: each comes from the one before by a pass, the loop goes on while it must, and
      it ends when it may or at the cap. */
  ghost predicate PassStates(cfg: Config, heap: seq<HeapRef>, states: seq<State>, cap: nat) {
    && Shaped(heap) && 0 < |states| <= cap + 1
    && (forall i: nat | i < |states| :: Inv(cfg, states[i]))
    && (forall i: nat | 0 < i < |states| :: states[i] == Pass(cfg, states[i - 1], heap))
    && (forall i: nat | 0 < i < |states| - 1 :: GoesOn(cfg, states[i]))
    && (|states| == cap + 1 || (|states| > 1 && !GoesOn(cfg, states[|states| - 1])))
  }

  lemma {:induction false} LoopStates(cfg: Config, s: State, heap: seq<HeapRef>, left: nat) returns (states: seq<State>)
    requires Inv(cfg, s) && Shaped(heap)
    ensures PassStates(cfg, heap, states, left)
    ensures states[0] == s && states[|states| - 1] == PassLoop(cfg, s, heap, left)
    ensures Passes.PassesMade(cfg, s, heap, left) == |states| - 1
    decreases left
  {
    if left == 0 {
      states := [s];
    } else {
      var s' := Pass(cfg, s, heap);
      LoopGoesOn(cfg, s, heap, left);
      assert GoesOn(cfg, s') <==> HasUnfinished(cfg, s') by {
        Passes.UnfinishedOrSettled(cfg, s');
      }
      if GoesOn(cfg, s') {
        var rest := LoopStates(cfg, s', heap, left - 1);
        states := [s] + rest;
      } else {
        states := [s, s'];
      }
    }
  }

  /** A run makes its passes one after the other: at most as many as the chain length says, none for a number that
      is not positive, and fewer only if no unfinished leak had a new node in the last one. */
  lemma RunMakesPasses(settings: Settings, jvm: Jvm, lists: map<string, seq<IgnoreRule>>, cfg: Config)
    returns (states: seq<State>)
    requires Answers(settings, jvm) && Shaped(jvm.heap) && PassSettings(settings, jvm, cfg)
    ensures Start(cfg, Begun(settings, jvm, lists)) && Inv(ConfigOf(settings, jvm), Begun(settings, jvm, lists))
    ensures PassStates(cfg, jvm.heap, states,
                       if settings.referenceChainLength > 0 then settings.referenceChainLength else 0)
    ensures states[0] == Begun(settings, jvm, lists) && states[|states| - 1] == Recorded(settings, jvm, lists)
  {
    AnswersStart(settings, jvm, lists);
    assert cfg == ConfigOf(settings, jvm);
    states := LoopStates(cfg, Begun(settings, jvm, lists), jvm.heap,
                         if settings.referenceChainLength > 0 then settings.referenceChainLength else 0);
  }

  /** A collection that shares no holder with another one is found if the heap has a chain for it of no more references
      than the chain length, on which nothing is in the way. */
  lemma RunFinds(settings: Settings, jvm: Jvm, lists: map<string, seq<IgnoreRule>>, cfg: Config, k: nat,
                 chain: seq<HeapRef>)
    requires Answers(settings, jvm) && Shaped(jvm.heap) && PassSettings(settings, jvm, cfg)
    requires var h := Distance.Hunt(cfg, Begun(settings, jvm, lists), jvm.heap, k);
             && k < |Leaks(settings, jvm)| && Distance.Alone(h)
             && Distance.HeapChain(h, Leaks(settings, jvm)[k].obj, chain)
             && |chain| <= settings.referenceChainLength
    ensures Inv(ConfigOf(settings, jvm), Begun(settings, jvm, lists))
    ensures k in Recorded(settings, jvm, lists).finished.raw
  {
    AnswersStart(settings, jvm, lists);
    assert cfg == ConfigOf(settings, jvm);
    Distance.ChainLengthIsDistance(Distance.Hunt(cfg, Begun(settings, jvm, lists), jvm.heap, k), chain,
                                   settings.referenceChainLength);
  }

  // ---- During a pass ----

  lemma {:induction false} PrefixGrows(cfg: Config, s: State, heap: seq<HeapRef>, j: nat)
    requires Inv(cfg, s) && Shaped(heap) && j <= |heap|
    ensures Shaped(heap[..j]) && Inv(cfg, Pass(cfg, s, heap[..j])) && Grows(Pass(cfg, s, heap[..j]), Pass(cfg, s, heap))
    decreases |heap| - j
  {
    PassFacts(cfg, s, heap[..j]);
    if j == |heap| {
      assert heap[..j] == heap;
    } else {
      PassInOrder(cfg, s, heap[..j], heap[j]);
      assert heap[..j + 1] == heap[..j] + [heap[j]];
      StepGrows(cfg, Pass(cfg, s, heap[..j]), heap[j]);
      PrefixGrows(cfg, s, heap, j + 1);
      GrowsTransitive(Pass(cfg, s, heap[..j]), Pass(cfg, s, heap[..j + 1]), Pass(cfg, s, heap));
    }
  }

  lemma {:induction false} PassLater(cfg: Config, s0: State, s: State, heap: seq<HeapRef>)
    requires Inv(cfg, s) && Shaped(heap) && Later(s0, s)
    ensures Later(s0, Pass(cfg, s, heap))
  {
    if heap == [] {
      ResetInv(cfg, s);
    } else {
      var j := |heap| - 1;
      assert heap == heap[..j] + [heap[j]];
      assert Shaped(heap[..j]);
      PassLater(cfg, s0, s, heap[..j]);
      PassInOrder(cfg, s, heap[..j], heap[j]);
      StepLater(cfg, s0, Pass(cfg, s, heap[..j]), heap[j]);
    }
  }

  lemma {:induction false} StatesLater(cfg: Config, heap: seq<HeapRef>, states: seq<State>, cap: nat, i: nat)
    requires PassStates(cfg, heap, states, cap) && i < |states|
    ensures Later(states[0], states[i])
  {
    if i > 0 {
      StatesLater(cfg, heap, states, cap, i - 1);
      PassLater(cfg, states[0], states[i - 1], heap);
    }
  }

  lemma {:induction false} StatesGrow(cfg: Config, heap: seq<HeapRef>, states: seq<State>, cap: nat, i: nat)
    requires PassStates(cfg, heap, states, cap) && i < |states|
    ensures Grows(states[i], states[|states| - 1])
    decreases |states| - i
  {
    if i < |states| - 1 {
      PassFacts(cfg, states[i], heap);
      assert states[i + 1] == Pass(cfg, states[i], heap);
      StatesGrow(cfg, heap, states, cap, i + 1);
      GrowsTransitive(states[i], states[i + 1], states[|states| - 1]);
    }
  }

  /** What the `j`-th callback of the `i`-th pass may follow is listed in the end. */
  lemma RunLists(cfg: Config, heap: seq<HeapRef>, states: seq<State>, cap: nat, i: nat, j: nat)
    requires PassStates(cfg, heap, states, cap) && i < |states| - 1 && j < |heap|
    ensures Shaped(heap[..j]) && Inv(cfg, Pass(cfg, states[i], heap[..j]))
    ensures MayFollow(cfg, Pass(cfg, states[i], heap[..j]), heap[j]) ==> Listed(states[|states| - 1], heap[j])
  {
    PrefixGrows(cfg, states[i], heap, j);
    var s := Pass(cfg, states[i], heap[..j]);
    if MayFollow(cfg, s, heap[j]) {
      FollowedIsListed(cfg, s, heap[j]);
      PassInOrder(cfg, states[i], heap[..j], heap[j]);
      assert heap[..j + 1] == heap[..j] + [heap[j]];
      PrefixGrows(cfg, states[i], heap, j + 1);
      ListedGrows(Step(cfg, s, heap[j]), Pass(cfg, states[i], heap), heap[j]);
      assert states[i + 1] == Pass(cfg, states[i], heap);
      StatesGrow(cfg, heap, states, cap, i + 1);
      ListedGrows(states[i + 1], states[|states| - 1], heap[j]);
    }
  }

  /** The `r` is a reference to the `c`-th candidate from the `m`-th class (a static field) or from an instance of it (a
      field). */
  predicate FromClass(settings: Settings, jvm: Jvm, r: HeapRef, c: nat, m: nat) {
    && WellShaped(r) && r.referrer.Some?
    && c < |jvm.candidates| && jvm.candidates[c].size > settings.sizeThreshold && r.target == jvm.candidates[c].obj
    && m < |jvm.classes| && !jvm.classes[m].isClassClass
    && (|| (r.kind == Field && r.referrer.value in jvm.classOf && jvm.classOf[r.referrer.value] == jvm.classes[m].obj)
        || (r.kind == StaticField && r.referrer.value == jvm.classes[m].obj))
  }

  /** At every callback of a run, a reference to a collection is ignored exactly if a rule of its class forbids it
      for the size of the collection's node, which is what `size()` returned or more. */
  lemma RunIgnores(settings: Settings, jvm: Jvm, lists: map<string, seq<IgnoreRule>>, states: seq<State>, cap: nat,
                   i: nat, j: nat, c: nat, m: nat)
    requires Answers(settings, jvm) && PassStates(ConfigOf(settings, jvm), jvm.heap, states, cap)
    requires states[0] == Begun(settings, jvm, lists)
    requires i < |states| && j < |jvm.heap| && FromClass(settings, jvm, jvm.heap[j], c, m)
    ensures Shaped(jvm.heap[..j]) && Inv(ConfigOf(settings, jvm), states[i])
    ensures var s, r := Pass(ConfigOf(settings, jvm), states[i], jvm.heap[..j]), jvm.heap[j];
            && TagsOk(s) && r.target in s.tags && s.tags[r.target] < |s.nodes|
            && s.nodes[s.tags[r.target]].size >= jvm.candidates[c].size
            && (Forbids(ConfigOf(settings, jvm), s, r) <==>
                RuleForbids(jvm, lists, m, r.info.value.index, s.nodes[s.tags[r.target]].size))
  {
    var cfg, r := ConfigOf(settings, jvm), jvm.heap[j];
    PrefixGrows(cfg, states[i], jvm.heap, j);
    var s := Pass(cfg, states[i], jvm.heap[..j]);
    StatesLater(cfg, jvm.heap, states, cap, i);
    PassLater(cfg, states[0], states[i], jvm.heap[..j]);
    TargetLater(settings, jvm, lists, s, c);
    ForbidsLater(settings, jvm, lists, s, r, c, m);
  }

  lemma TargetLater(settings: Settings, jvm: Jvm, lists: map<string, seq<IgnoreRule>>, s: State, c: nat)
    requires Answers(settings, jvm) && c < |jvm.candidates| && jvm.candidates[c].size > settings.sizeThreshold
    requires Later(Begun(settings, jvm, lists), s)
    ensures var o := jvm.candidates[c].obj;
            o in s.tags && s.tags[o] < |s.nodes| && s.nodes[s.tags[o]].size >= jvm.candidates[c].size
  {
    var s0, k := Begun(settings, jvm, lists), |TooLarge(jvm.candidates, settings.sizeThreshold, c)|;
    AnswersStart(settings, jvm, lists);
    LeakNodeExactly(settings, jvm, lists, c);
    assert s0.tags[s0.owner[k]] == k;
    assert NodeGrows(s0.nodes[k], s.nodes[k]);
  }

  lemma ForbidsLater(settings: Settings, jvm: Jvm, lists: map<string, seq<IgnoreRule>>, s: State, r: HeapRef, c: nat,
                     m: nat)
    requires Answers(settings, jvm) && FromClass(settings, jvm, r, c, m)
    requires TagsOk(s) && Later(Begun(settings, jvm, lists), s) && r.target in s.tags
    ensures Forbids(ConfigOf(settings, jvm), s, r) <==>
            RuleForbids(jvm, lists, m, r.info.value.index, s.nodes[s.tags[r.target]].size)
  {
    var s0, o := Begun(settings, jvm, lists), jvm.classes[m].obj;
    AnswersStart(settings, jvm, lists);
    ClassNodeExactly(settings, jvm, lists, m);
    assert o in s.tags;
    SameIgnore(s0, s, o);
    ForbidsByClass(ConfigOf(settings, jvm), s, r, o);
    EntriesForbid(jvm, lists, m, r.info.value.index, s.nodes[s.tags[r.target]].size, s.nodes[s.tags[o]].ignore);
  }

  /** From instances of a class that was tagged when the passes began come fewer references to any node than the fan-in
      limit says. */
  lemma RunKeepsFanIn(settings: Settings, jvm: Jvm, lists: map<string, seq<IgnoreRule>>, c: Obj, t: NodeId)
    requires Answers(settings, jvm) && Shaped(jvm.heap) && c in Begun(settings, jvm, lists).tags
    ensures Inv(ConfigOf(settings, jvm), Begun(settings, jvm, lists))
    ensures var s := Recorded(settings, jvm, lists);
            t < |s.nodes| ==>
              Counts.RefsFromClass(ConfigOf(settings, jvm), s.owner, s.nodes[t].refs, c) <
              if settings.maxFanIn < 1 then 1 else settings.maxFanIn
  {
    var cfg, s := ConfigOf(settings, jvm), Begun(settings, jvm, lists);
    AnswersStart(settings, jvm, lists);
    Counts.StartCounting(cfg, s);
    Counts.PassLoopCounting(cfg, s, jvm.heap, Cap(settings), |s.nodes|, s.tags.Keys);
  }

  // ---- Reports ----

  /** The question that the report on collection `k` answers. */
  function Question(settings: Settings, jvm: Jvm, nodes: seq<Node>, k: nat): Query {
    Query(nodes, jvm.alive, settings.considerLocal, k)
  }

  ghost predicate HasWay(q: Query, n: NodeId) {
    exists chain: seq<Ref>, at: seq<NodeId> :: Way(q, n, chain, at)
  }

  /** The report on a collection: the first chain of the recorded graph, if chains are asked for and there is one; and
      otherwise nothing, or its direct references, or the remark that there is nothing to list. */
  ghost predicate IsReport(settings: Settings, jvm: Jvm, nodes: seq<Node>, k: nat, report: Report)
    requires k < |nodes|
  {
    var q := Question(settings, jvm, nodes, k);
    if settings.referenceChainLength > 0 && HasWay(q, k) then
      && report.ChainToRoot? && FirstWay(q, {}, k, report.chain)
      && exists at: seq<NodeId> :: Way(q, k, report.chain, at) && NoRepeats(at)
    else if !settings.showUnreachables then report == Suppressed
    else if settings.referenceChainLength > 0 then report == AllReferences(nodes[k].refs)
    else report == NoReferences
  }

  lemma ReportExactly(settings: Settings, jvm: Jvm, nodes: seq<Node>, k: nat)
    requires WellLinked(nodes) && k < |nodes|
    ensures IsReport(settings, jvm, nodes, k,
                     ReportFor(nodes, jvm.alive, settings.considerLocal, settings.referenceChainLength > 0,
                               settings.showUnreachables, k))
  {
    var q := Question(settings, jvm, nodes, k);
    SearchFindsWays(q, k);
    if TopSearch(q, k).chain.Some? {
      SearchFindsFirst(q, k);
    }
  }

  /** What a run reports: one report for each collection over the threshold, on the graph that the passes recorded. */
  lemma RunReports(settings: Settings, jvm: Jvm, lists: map<string, seq<IgnoreRule>>, reports: seq<Report>, k: nat)
    requires Answers(settings, jvm) && Shaped(jvm.heap) && ReportsAreRight(settings, jvm, lists, reports)
    ensures |reports| == |Leaks(settings, jvm)|
    ensures k < |reports| ==>
              && Inv(ConfigOf(settings, jvm), Begun(settings, jvm, lists))
              && k < |Recorded(settings, jvm, lists).nodes|
              && IsReport(settings, jvm, Recorded(settings, jvm, lists).nodes, k, reports[k])
  {
    if k < |reports| {
      ReportExactly(settings, jvm, Recorded(settings, jvm, lists).nodes, k);
    }
  }

  /** No chain in a report passes a root before its end, ends without one, or ends in a local that does not count;
      and it is a chain of the heap. */
  lemma RunReportsRoots(settings: Settings, jvm: Jvm, lists: map<string, seq<IgnoreRule>>, reports: seq<Report>, k: nat)
    requires Answers(settings, jvm) && Shaped(jvm.heap) && ReportsAreRight(settings, jvm, lists, reports)
    requires k < |reports| && reports[k].ChainToRoot?
    ensures var chain := reports[k].chain;
            && chain != [] && settings.referenceChainLength > 0
            && (forall j | 0 <= j < |chain| - 1 :: Inner(chain[j].kind))
            && !Inner(chain[|chain| - 1].kind)
            && (chain[|chain| - 1].kind in {StackLocal, JniLocal} ==> settings.considerLocal)
    ensures ChainsAreReal(settings, jvm, reports)
  {
    RunReports(settings, jvm, lists, reports, k);
    ReportRoots(settings, jvm, Recorded(settings, jvm, lists).nodes, k, reports[k]);
    RightIsReal(settings, jvm, lists, reports);
  }

  lemma ReportRoots(settings: Settings, jvm: Jvm, nodes: seq<Node>, k: nat, report: Report)
    requires k < |nodes| && IsReport(settings, jvm, nodes, k, report) && report.ChainToRoot?
    ensures var chain := report.chain;
            && chain != [] && settings.referenceChainLength > 0
            && (forall j | 0 <= j < |chain| - 1 :: Inner(chain[j].kind))
            && !Inner(chain[|chain| - 1].kind)
            && (chain[|chain| - 1].kind in {StackLocal, JniLocal} ==> settings.considerLocal)
  {
    assert HasWay(Question(settings, jvm, nodes, k), k) && settings.referenceChainLength > 0;
    var at: seq<NodeId> :| Way(Question(settings, jvm, nodes, k), k, report.chain, at);
  }
}
