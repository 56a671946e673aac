/** A whole leak search, from the tagged collections to the freed graph (`findLeaksInTaggedObjects`). */
module Session {
  import opened Wrappers
  import opened LeakBits
  import opened DataStruct
  import opened Recording
  import opened Taint
  import opened Holding
  import opened Counts
  import opened Fatal
  import opened FieldIndex
  import opened Search
  import opened Reached
  import opened Passes
  import opened Distance
  import opened Detection
  import opened Teardown
  import opened NodeMemory
  import opened JvmReference
  import opened LeakDetect

  /** A tagged collection and what its `size()` returned. */
  datatype Candidate = Candidate(obj: Obj, size: int)

  /** One line of the ignore list of a class. */
  datatype IgnoreRule = IgnoreRule(fieldName: string, threshold: int)

  /** A loaded class: whether it is `java.lang.Class`, whether it is verified, prepared and initialised, and its place
      in the hierarchy. */
  datatype LoadedClass = LoadedClass(obj: Obj, isClassClass: bool, ready: bool, name: string, id: ClassId)

  predicate InHierarchy(h: seq<Klass>, classes: seq<LoadedClass>) {
    Loaded(h) && forall j | 0 <= j < |classes| :: classes[j].id < |h|
  }

  datatype Settings = Settings(
    sizeThreshold: int, referenceChainLength: int, maxFanIn: int, thread: int, considerLocal: bool,
    showUnreachables: bool)

  /** No pass is made for a negative chain length. */
  function Cap(settings: Settings): nat {
    if settings.referenceChainLength < 0 then 0 else settings.referenceChainLength
  }

  /** What the JVM answers: its classes and their hierarchy, the class of each object, the heap in callback order, and
      which nodes' objects still live when the report is written. */
  datatype Jvm = Jvm(
    candidates: seq<Candidate>, hierarchy: seq<Klass>, classes: seq<LoadedClass>, classOf: map<Obj, Obj>,
    heap: seq<HeapRef>, alive: map<NodeId, Obj>)

  // ---- The nodes that exist before the first pass ----

  /** The first `k` candidates that are too large. */
  function Leaking(candidates: seq<Candidate>, threshold: int, k: nat): (l: seq<Candidate>)
    requires k <= |candidates|
    ensures |l| <= k
  {
    if k == 0 then []
    else Leaking(candidates, threshold, k - 1) +
         if candidates[k - 1].size > threshold then [candidates[k - 1]] else []
  }

  /** The node of leak `k`: it has room for the leaks found so far only. */
  function LeakNode(k: nat, c: Candidate): Node {
    NewNode(k + 1).(leaks := Add(Empty(k + 1), k), obj := Some(c.obj), size := c.size)
  }

  function LeakNodes(leaks: seq<Candidate>): seq<Node> {
    seq(|leaks|, k requires 0 <= k < |leaks| => LeakNode(k, leaks[k]))
  }

  function LeakObjects(leaks: seq<Candidate>): seq<Obj> {
    seq(|leaks|, k requires 0 <= k < |leaks| => leaks[k].obj)
  }

  /** The rules that are still listed for a class; a class that is not ready gets none. */
  function Rules(c: LoadedClass, lists: map<string, seq<IgnoreRule>>): seq<IgnoreRule> {
    if c.ready && c.name in lists then lists[c.name] else []
  }

  /** The rules of a class with its field numbers. */
  function Resolved(h: seq<Klass>, c: LoadedClass, rules: seq<IgnoreRule>): (fields: seq<IgnoreField>)
    requires Loaded(h) && c.id < |h|
    ensures |fields| == |rules|
  {
    seq(|rules|, i requires 0 <= i < |rules| =>
      IgnoreField(OffsetOf(h, c.id, rules[i].fieldName), rules[i].threshold))
  }

  function ClassNode(h: seq<Klass>, leaks: nat, c: LoadedClass, rules: seq<IgnoreRule>): Node
    requires Loaded(h) && c.id < |h|
  {
    NewNode(leaks).(isClass := true, obj := Some(c.obj), ignore := Resolved(h, c, rules))
  }

  /** What tagging the classes makes: their nodes, their objects, and the ignore lists that are left. */
  datatype Tagged = Tagged(nodes: seq<Node>, objects: seq<Obj>, lists: map<string, seq<IgnoreRule>>)

  /** The first `k` classes.  `java.lang.Class` gets no node, and a list goes to the first class of its name. */
  function TaggedClasses(h: seq<Klass>, leaks: nat, classes: seq<LoadedClass>, lists: map<string, seq<IgnoreRule>>,
                         k: nat): (t: Tagged)
    requires InHierarchy(h, classes) && k <= |classes|
    ensures |t.nodes| == |t.objects|
  {
    if k == 0 then Tagged([], [], lists)
    else
      var t := TaggedClasses(h, leaks, classes, lists, k - 1);
      var c := classes[k - 1];
      if c.isClassClass then t
      else
        var rules := Rules(c, t.lists);
        Tagged(t.nodes + [ClassNode(h, leaks, c, rules)], t.objects + [c.obj],
               if rules == [] then t.lists else t.lists[c.name := []])
  }

  /** The tag table and the addresses are inverse to each other. */
  predicate Inverse(tags: map<Obj, NodeId>, owner: seq<Obj>) {
    && (forall o <- tags :: tags[o] < |owner| && owner[tags[o]] == o)
    && (forall k: NodeId | k < |owner| :: owner[k] in tags && tags[owner[k]] == k)
  }

  /** A tag is set on an object that had none. */
  lemma InverseMore(tags: map<Obj, NodeId>, owner: seq<Obj>, o: Obj)
    requires Inverse(tags, owner) && o !in tags
    ensures Inverse(tags[o := |owner|], owner + [o])
  {
  }

  /** The JVM lists every object once, and every class is in the hierarchy.  (An object's class need not be listed: it
      may be `java.lang.Class`, or have been loaded since.) */
  predicate ListsOnce(jvm: Jvm) {
    && InHierarchy(jvm.hierarchy, jvm.classes)
    && (forall i, j | 0 <= i < j < |jvm.candidates| :: jvm.candidates[i].obj != jvm.candidates[j].obj)
    && (forall i, j | 0 <= i < j < |jvm.classes| :: jvm.classes[i].obj != jvm.classes[j].obj)
  }

  /** And no class object is too large a collection: it has no `size()` to call. */
  predicate Answers(settings: Settings, jvm: Jvm) {
    && ListsOnce(jvm)
    && forall l <- Leaks(settings, jvm) ::
         && (forall k | 0 <= k < |jvm.classes| :: l.obj != jvm.classes[k].obj)
         && (forall o <- jvm.classOf :: l.obj != jvm.classOf[o])
  }

  /** The leaks are exactly the candidates over the threshold. */
  lemma {:induction false} LeakingFrom(candidates: seq<Candidate>, threshold: int, k: nat)
    requires k <= |candidates|
    ensures forall c: Candidate :: c in Leaking(candidates, threshold, k) <==>
                                   c.size > threshold && exists j: nat | j < k :: candidates[j] == c
  {
    if k > 0 {
      LeakingFrom(candidates, threshold, k - 1);
      var before, c := Leaking(candidates, threshold, k - 1), candidates[k - 1];
      if c.size > threshold {
        assert Leaking(candidates, threshold, k) == before + [c];
        assert forall d: Candidate :: d in before + [c] <==> d in before || d == c;
      }
    }
  }

  predicate IsClassNode(leaks: nat, n: Node, o: Obj) {
    n == NewNode(leaks).(isClass := true, obj := Some(o), ignore := n.ignore)
  }

  /** Every class but `java.lang.Class` gets a class node. */
  lemma {:induction false} TaggedFrom(h: seq<Klass>, leaks: nat, classes: seq<LoadedClass>,
                                      lists: map<string, seq<IgnoreRule>>, k: nat)
    requires InHierarchy(h, classes) && k <= |classes|
    ensures ObjectsOf(classes, k, TaggedClasses(h, leaks, classes, lists, k).objects)
    ensures AreClassNodes(leaks, TaggedClasses(h, leaks, classes, lists, k))
  {
    if k > 0 {
      TaggedFrom(h, leaks, classes, lists, k - 1);
      var t, c := TaggedClasses(h, leaks, classes, lists, k - 1), classes[k - 1];
      if !c.isClassClass {
        assert forall o: Obj :: o in t.objects + [c.obj] <==> o in t.objects || o == c.obj;
      }
    }
  }

  ghost predicate ObjectsOf(classes: seq<LoadedClass>, k: nat, objects: seq<Obj>)
    requires k <= |classes|
  {
    forall o: Obj :: o in objects <==> exists j: nat | j < k :: classes[j].obj == o && !classes[j].isClassClass
  }

  predicate AreClassNodes(leaks: nat, t: Tagged) {
    |t.nodes| == |t.objects| && forall j: nat | j < |t.nodes| :: IsClassNode(leaks, t.nodes[j], t.objects[j])
  }

  /** Once a class got a list, no later class of that name gets one: no two nodes would free the same list. */
  lemma {:induction false} ListsMoveOnce(h: seq<Klass>, leaks: nat, classes: seq<LoadedClass>,
                                         lists: map<string, seq<IgnoreRule>>, i: nat, j: nat)
    requires InHierarchy(h, classes)
    requires i < j < |classes| && classes[i].name == classes[j].name && !classes[i].isClassClass
    requires Rules(classes[i], TaggedClasses(h, leaks, classes, lists, i).lists) != []
    ensures Rules(classes[j], TaggedClasses(h, leaks, classes, lists, j).lists) == []
  {
    ListsStayEmpty(h, leaks, classes, lists, classes[i].name, i + 1, j);
  }

  lemma {:induction false} ListsStayEmpty(h: seq<Klass>, leaks: nat, classes: seq<LoadedClass>,
                                          lists: map<string, seq<IgnoreRule>>, name: string, i: nat, j: nat)
    requires InHierarchy(h, classes) && i <= j <= |classes|
    requires var left := TaggedClasses(h, leaks, classes, lists, i).lists; name in left && left[name] == []
    ensures var left := TaggedClasses(h, leaks, classes, lists, j).lists; name in left && left[name] == []
    decreases j
  {
    if i < j {
      ListsStayEmpty(h, leaks, classes, lists, name, i, j - 1);
    }
  }

  // ---- Making those nodes ----

  /** `searchObjectsForLeaks` */
  method SearchObjectsForLeaks(td: ThreadData, candidates: seq<Candidate>, threshold: int)
    returns (numberOfLeaks: nat, tags: map<Obj, NodeId>, ghost owner: seq<Obj>)
    requires td.nodes == [] && td.nodesAllocated == 0
    requires forall i, j | 0 <= i < j < |candidates| :: candidates[i].obj != candidates[j].obj
    modifies td
    ensures var leaks := Leaking(candidates, threshold, |candidates|);
            && numberOfLeaks == |leaks| && Views(td.nodes) == LeakNodes(leaks) && owner == LeakObjects(leaks)
            && forall k: nat | k < |leaks| ::
                 && td.nodes[k].size == leaks[k].size && td.nodes[k].obj == Some(leaks[k].obj)
                 && td.nodes[k].leaks == Bits(k + 1, {k})
    ensures Inverse(tags, owner)
    ensures Addressed(td.nodes) && td.nodesAllocated == |td.nodes|
    ensures td.OnlyAdds()
  {
    numberOfLeaks, tags, owner := 0, map[], [];
    for i := 0 to |candidates|
      invariant Searched(td.nodes, Leaking(candidates, threshold, i), numberOfLeaks, tags, owner)
      invariant td.nodesAllocated == |td.nodes| && td.OnlyAdds()
    {
      numberOfLeaks, tags, owner := SearchCandidate(td, candidates, threshold, i, numberOfLeaks, tags, owner);
    }
    assert forall k: nat | k < |td.nodes| :: td.nodes[k].View() == Views(td.nodes)[k];
  }

  /** The leaks found so far have their nodes and tags. */
  ghost predicate Searched(nodes: seq<MemoryNode>, leaks: seq<Candidate>, numberOfLeaks: nat, tags: map<Obj, NodeId>,
                           owner: seq<Obj>)
    reads nodes
  {
    && numberOfLeaks == |leaks| && Views(nodes) == LeakNodes(leaks) && owner == LeakObjects(leaks)
    && Inverse(tags, owner) && Addressed(nodes)
  }

  /** One turn of its loop. */
  method SearchCandidate(td: ThreadData, candidates: seq<Candidate>, threshold: int, i: nat, numberOfLeaks: nat,
                         tags: map<Obj, NodeId>, ghost owner: seq<Obj>)
    returns (numberOfLeaks': nat, tags': map<Obj, NodeId>, ghost owner': seq<Obj>)
    requires i < |candidates| && forall i, j | 0 <= i < j < |candidates| :: candidates[i].obj != candidates[j].obj
    requires Searched(td.nodes, Leaking(candidates, threshold, i), numberOfLeaks, tags, owner)
    requires td.nodesAllocated == |td.nodes|
    modifies td
    ensures Searched(td.nodes, Leaking(candidates, threshold, i + 1), numberOfLeaks', tags', owner')
    ensures td.nodesAllocated == |td.nodes| && td.OnlyAdds()
  {
    numberOfLeaks', tags', owner' := numberOfLeaks, tags, owner;
    if candidates[i].size > threshold {
      UntaggedYet(candidates, threshold, i, tags);
      numberOfLeaks' := numberOfLeaks + 1;
      tags', owner' := TagLeak(td, candidates[i], numberOfLeaks', tags, owner, Leaking(candidates, threshold, i));
    }
  }

  /** The node and the tag of the leak found last. */
  method TagLeak(td: ThreadData, c: Candidate, numberOfLeaks: nat, tags: map<Obj, NodeId>, ghost owner: seq<Obj>,
                 ghost leaks: seq<Candidate>)
    returns (tags': map<Obj, NodeId>, ghost owner': seq<Obj>)
    requires Addressed(td.nodes) && td.nodesAllocated == |td.nodes| && numberOfLeaks == |leaks| + 1
    requires Views(td.nodes) == LeakNodes(leaks) && owner == LeakObjects(leaks)
    requires Inverse(tags, owner) && c.obj !in tags
    modifies td
    ensures Views(td.nodes) == LeakNodes(leaks + [c]) && owner' == LeakObjects(leaks + [c]) && Inverse(tags', owner')
    ensures Addressed(td.nodes) && td.nodesAllocated == |td.nodes| && td.OnlyAdds()
  {
    InverseMore(tags, owner, c.obj);
    LeakNodesMore(leaks, c);
    var n := NewLeakNode(td, c, numberOfLeaks - 1, numberOfLeaks);
    return tags[c.obj := n], owner + [c.obj];
  }

  lemma UntaggedYet(candidates: seq<Candidate>, threshold: int, i: nat, tags: map<Obj, NodeId>)
    requires i < |candidates| && Inverse(tags, LeakObjects(Leaking(candidates, threshold, i)))
    requires forall i, j | 0 <= i < j < |candidates| :: candidates[i].obj != candidates[j].obj
    ensures candidates[i].obj !in tags
  {
    LeakingFrom(candidates, threshold, i);
    var leaks := Leaking(candidates, threshold, i);
    forall o <- tags ensures o != candidates[i].obj {
      assert leaks[tags[o]] in leaks;
    }
  }

  lemma LeakNodesMore(leaks: seq<Candidate>, c: Candidate)
    ensures LeakNodes(leaks + [c]) == LeakNodes(leaks) + [LeakNode(|leaks|, c)]
    ensures LeakObjects(leaks + [c]) == LeakObjects(leaks) + [c.obj]
  {
  }

  /** The node of one leak. */
  method NewLeakNode(td: ThreadData, c: Candidate, leakNumber: nat, numberOfLeaks: nat) returns (id: NodeId)
    requires Addressed(td.nodes) && numberOfLeaks == leakNumber + 1
    modifies td
    ensures Views(td.nodes) == old(Views(td.nodes)) + [LeakNode(leakNumber, c)] && id == |old(td.nodes)|
    ensures Addressed(td.nodes) && td.nodesAllocated == old(td.nodesAllocated) + 1 && td.OnlyAdds()
  {
    ghost var before := Views(td.nodes);
    var n := td.NewMemoryNode(numberOfLeaks);
    n.leaks := Add(n.leaks, leakNumber);
    n.obj := Some(c.obj);
    n.size := c.size;
    assert n == td.nodes[|before|];
    assert Views(td.nodes) == before + [LeakNode(leakNumber, c)];
    return n.id;
  }

  /** `fillClassIgnoreList`: the list moves from the table to the node. */
  method FillClassIgnoreList(h: seq<Klass>, node: MemoryNode, c: LoadedClass, lists: map<string, seq<IgnoreRule>>)
    returns (lists': map<string, seq<IgnoreRule>>)
    requires Loaded(h) && c.id < |h|
    modifies node`ignore
    ensures var rules := Rules(c, lists);
            && node.ignore == (if rules == [] then old(node.ignore) else Resolved(h, c, rules))
            && lists' == (if rules == [] then lists else lists[c.name := []])
  {
    lists' := lists;
    if !c.ready || c.name !in lists || lists[c.name] == [] {
      return;
    }
    var rules := lists[c.name];
    lists' := lists[c.name := []];
    var fields := [];
    for i := 0 to |rules|
      invariant fields == Resolved(h, c, rules)[..i]
    {
      var field := GetFieldOffset(h, c.id, rules[i].fieldName);
      fields := fields + [IgnoreField(field, rules[i].threshold)];
    }
    node.ignore := fields;
  }

  /** `tagAllClasses` */
  method TagAllClasses(td: ThreadData, jvm: Jvm, leaks: nat, lists: map<string, seq<IgnoreRule>>,
                       tags: map<Obj, NodeId>, ghost owner: seq<Obj>)
    returns (tags': map<Obj, NodeId>, ghost owner': seq<Obj>)
    requires ListsOnce(jvm) && Inverse(tags, owner)
    requires forall o <- tags, c <- jvm.classes :: c.obj != o
    requires Addressed(td.nodes) && td.nodesAllocated == |td.nodes| == |owner|
    modifies td
    ensures var t := TaggedClasses(jvm.hierarchy, leaks, jvm.classes, lists, |jvm.classes|);
            Views(td.nodes) == old(Views(td.nodes)) + t.nodes && owner' == owner + t.objects
    ensures Inverse(tags', owner')
    ensures Addressed(td.nodes) && td.nodesAllocated == |td.nodes|
    ensures td.OnlyAdds()
  {
    ghost var before := Views(td.nodes);
    var h, classes, left := jvm.hierarchy, jvm.classes, lists;
    tags', owner' := tags, owner;
    ghost var t := Tagged([], [], lists);
    for i := 0 to |classes|
      invariant t == TaggedClasses(h, leaks, classes, lists, i) && left == t.lists
      invariant Views(td.nodes) == before + t.nodes && owner' == owner + t.objects
      invariant Inverse(tags', owner')
      invariant Addressed(td.nodes) && td.nodesAllocated == |td.nodes|
      invariant td.OnlyAdds()
    {
      if !classes[i].isClassClass {
        UntaggedClass(jvm, leaks, lists, i, tags', tags, owner);
        InverseMore(tags', owner', classes[i].obj);
        var n;
        n, left := NewClassNode(td, h, classes[i], leaks, left);
        tags' := tags'[classes[i].obj := n];
        owner' := owner' + [classes[i].obj];
        t := TaggedClasses(h, leaks, classes, lists, i + 1);
      }
    }
  }

  lemma UntaggedClass(jvm: Jvm, leaks: nat, lists: map<string, seq<IgnoreRule>>, i: nat, tags': map<Obj, NodeId>,
                      tags: map<Obj, NodeId>, owner: seq<Obj>)
    requires ListsOnce(jvm) && i < |jvm.classes| && Inverse(tags, owner)
    requires Inverse(tags', owner + TaggedClasses(jvm.hierarchy, leaks, jvm.classes, lists, i).objects)
    requires forall o <- tags, c <- jvm.classes :: c.obj != o
    ensures jvm.classes[i].obj !in tags'
  {
    TaggedFrom(jvm.hierarchy, leaks, jvm.classes, lists, i);
    var o, objects := jvm.classes[i].obj, TaggedClasses(jvm.hierarchy, leaks, jvm.classes, lists, i).objects;
    assert jvm.classes[i] in jvm.classes && o !in objects;
    forall p <- tags' ensures p != o {
      assert (owner + objects)[tags'[p]] == p;
      assert tags'[p] < |owner| ==> p in tags;
    }
  }

  /** The node of one class. */
  method NewClassNode(td: ThreadData, h: seq<Klass>, c: LoadedClass, leaks: nat, lists: map<string, seq<IgnoreRule>>)
    returns (id: NodeId, lists': map<string, seq<IgnoreRule>>)
    requires Addressed(td.nodes) && Loaded(h) && c.id < |h|
    modifies td
    ensures var rules := Rules(c, lists);
            && Views(td.nodes) == old(Views(td.nodes)) + [ClassNode(h, leaks, c, rules)] && id == |old(td.nodes)|
            && lists' == (if rules == [] then lists else lists[c.name := []])
    ensures Addressed(td.nodes) && td.nodesAllocated == old(td.nodesAllocated) + 1 && td.OnlyAdds()
  {
    ghost var before := Views(td.nodes);
    var node := td.NewMemoryNode(leaks);
    node.obj := Some(c.obj);
    node.isClass := true;
    lists' := FillClassIgnoreList(h, node, c, lists);
    assert node == td.nodes[|before|];
    assert Views(td.nodes) == before + [ClassNode(h, leaks, c, Rules(c, lists))];
    return node.id, lists';
  }

  // ---- The whole run ----

  function TagTable(owner: seq<Obj>, k: nat): map<Obj, NodeId>
    requires k <= |owner|
  {
    if k == 0 then map[] else TagTable(owner, k - 1)[owner[k - 1] := k - 1]
  }

  lemma {:induction false} TagTableHas(owner: seq<Obj>, k: nat)
    requires k <= |owner| && forall i, j | 0 <= i < j < |owner| :: owner[i] != owner[j]
    ensures forall o <- TagTable(owner, k) :: TagTable(owner, k)[o] < k && owner[TagTable(owner, k)[o]] == o
    ensures forall j: NodeId | j < k :: owner[j] in TagTable(owner, k) && TagTable(owner, k)[owner[j]] == j
  {
    if k > 0 {
      TagTableHas(owner, k - 1);
    }
  }

  /** The addresses determine the tags. */
  lemma InverseIsTable(tags: map<Obj, NodeId>, owner: seq<Obj>)
    requires Inverse(tags, owner)
    ensures tags == TagTable(owner, |owner|)
  {
    TagTableHas(owner, |owner|);
    var table := TagTable(owner, |owner|);
    forall o: Obj ensures o in tags <==> o in table {
      if o in tags {
        assert owner[tags[o]] in table;
      }
    }
  }

  function Leaks(settings: Settings, jvm: Jvm): seq<Candidate> {
    Leaking(jvm.candidates, settings.sizeThreshold, |jvm.candidates|)
  }

  function ConfigOf(settings: Settings, jvm: Jvm): Config {
    Config(|Leaks(settings, jvm)|, settings.maxFanIn, settings.thread, jvm.classOf)
  }

  function StateOf(leaks: nat, nodes: seq<Node>, owner: seq<Obj>): State {
    State(nodes, owner, TagTable(owner, |owner|), Empty(leaks), seq(leaks, _ => 0))
  }

  /** The state in which the passes begin. */
  function Begun(settings: Settings, jvm: Jvm, lists: map<string, seq<IgnoreRule>>): State
    requires InHierarchy(jvm.hierarchy, jvm.classes)
  {
    var leaks := Leaks(settings, jvm);
    var t := TaggedClasses(jvm.hierarchy, |leaks|, jvm.classes, lists, |jvm.classes|);
    StateOf(|leaks|, LeakNodes(leaks) + t.nodes, LeakObjects(leaks) + t.objects)
  }

  lemma BegunStarts(settings: Settings, jvm: Jvm, lists: map<string, seq<IgnoreRule>>, tags: map<Obj, NodeId>)
    requires InHierarchy(jvm.hierarchy, jvm.classes)
    requires Inverse(tags, Begun(settings, jvm, lists).owner)
    ensures var cfg, s := ConfigOf(settings, jvm), Begun(settings, jvm, lists);
            Start(cfg, s) && AgentSizes(cfg, s) && s.tags == tags
  {
    var cfg, s := ConfigOf(settings, jvm), Begun(settings, jvm, lists);
    InverseIsTable(tags, s.owner);
    forall k: NodeId | k < |s.nodes| ensures BegunOk(cfg, s, k) && NodeOk(cfg, s, k) {
      BegunNode(settings, jvm, lists, k);
    }
    AllBegun(cfg, s);
  }

  lemma AllBegun(cfg: Config, s: State)
    requires cfg.leaks <= |s.nodes| && TagsOk(s) && s.finished == Empty(cfg.leaks) && |s.found| == cfg.leaks
    requires forall k: NodeId | k < |s.nodes| :: BegunOk(cfg, s, k) && NodeOk(cfg, s, k)
    ensures Start(cfg, s) && AgentSizes(cfg, s)
  {
    forall k: NodeId | k < |s.nodes|
      ensures var n := s.nodes[k];
              && n.refs == [] && n.fanIn == [] && n.rc == 1 && !n.visited && !n.dead
              && n.leaks == (if k < cfg.leaks then Bits(k + 1, {k}) else Bits(cfg.leaks, {}))
              && (k >= cfg.leaks ==> n.isClass && n.size == 0) && n.obj == Some(s.owner[k])
    {
      assert BegunOk(cfg, s, k);
    }
  }

  /** What a node is before the first pass. */
  predicate BegunOk(cfg: Config, s: State, k: NodeId)
    requires k < |s.nodes|
  {
    var n := s.nodes[k];
    && n.refs == [] && n.fanIn == [] && n.rc == 1 && !n.visited && !n.dead
    && n.leaks == (if k < cfg.leaks then Bits(k + 1, {k}) else Bits(cfg.leaks, {}))
    && (k >= cfg.leaks ==> n.isClass && n.size == 0)
    && |s.owner| == |s.nodes| && n.obj == Some(s.owner[k])
  }

  lemma BegunNode(settings: Settings, jvm: Jvm, lists: map<string, seq<IgnoreRule>>, k: NodeId)
    requires InHierarchy(jvm.hierarchy, jvm.classes) && k < |Begun(settings, jvm, lists).nodes|
    ensures BegunOk(ConfigOf(settings, jvm), Begun(settings, jvm, lists), k)
    ensures NodeOk(ConfigOf(settings, jvm), Begun(settings, jvm, lists), k)
  {
    var cfg := ConfigOf(settings, jvm);
    TaggedFrom(jvm.hierarchy, cfg.leaks, jvm.classes, lists, |jvm.classes|);
    var t := TaggedClasses(jvm.hierarchy, cfg.leaks, jvm.classes, lists, |jvm.classes|);
    assert k >= cfg.leaks ==> IsClassNode(cfg.leaks, t.nodes[k - cfg.leaks], t.objects[k - cfg.leaks]);
  }

  // ---- The JVM's answers determine a start state ----

  predicate Distinct(objects: seq<Obj>) { forall i, j | 0 <= i < j < |objects| :: objects[i] != objects[j] }

  lemma {:induction false} LeaksDistinct(candidates: seq<Candidate>, threshold: int, k: nat)
    requires k <= |candidates| && forall i, j | 0 <= i < j < |candidates| :: candidates[i].obj != candidates[j].obj
    ensures Distinct(LeakObjects(Leaking(candidates, threshold, k)))
  {
    if k > 0 {
      LeaksDistinct(candidates, threshold, k - 1);
      var before := Leaking(candidates, threshold, k - 1);
      LeakingFrom(candidates, threshold, k - 1);
      forall i | 0 <= i < |before| ensures before[i].obj != candidates[k - 1].obj {
        assert before[i] in before;
      }
      assert forall i | 0 <= i < |before| :: LeakObjects(before)[i] == before[i].obj;
    }
  }

  lemma {:induction false} ClassesDistinct(h: seq<Klass>, leaks: nat, classes: seq<LoadedClass>,
                                           lists: map<string, seq<IgnoreRule>>, k: nat)
    requires InHierarchy(h, classes) && k <= |classes|
    requires forall i, j | 0 <= i < j < |classes| :: classes[i].obj != classes[j].obj
    ensures Distinct(TaggedClasses(h, leaks, classes, lists, k).objects)
  {
    if k > 0 {
      ClassesDistinct(h, leaks, classes, lists, k - 1);
      TaggedFrom(h, leaks, classes, lists, k - 1);
      var before := TaggedClasses(h, leaks, classes, lists, k - 1).objects;
      forall i | 0 <= i < |before| ensures before[i] != classes[k - 1].obj {
        assert before[i] in before;
      }
    }
  }

  lemma OwnersDistinct(settings: Settings, jvm: Jvm, lists: map<string, seq<IgnoreRule>>)
    requires Answers(settings, jvm)
    ensures Distinct(Begun(settings, jvm, lists).owner)
  {
    var leaks := Leaks(settings, jvm);
    var objects := TaggedClasses(jvm.hierarchy, |leaks|, jvm.classes, lists, |jvm.classes|).objects;
    LeaksDistinct(jvm.candidates, settings.sizeThreshold, |jvm.candidates|);
    LeakingFrom(jvm.candidates, settings.sizeThreshold, |jvm.candidates|);
    ClassesDistinct(jvm.hierarchy, |leaks|, jvm.classes, lists, |jvm.classes|);
    TaggedFrom(jvm.hierarchy, |leaks|, jvm.classes, lists, |jvm.classes|);
    forall i, j | 0 <= i < |leaks| && 0 <= j < |objects| ensures LeakObjects(leaks)[i] != objects[j] {
      assert leaks[i] in leaks && objects[j] in objects;
    }
  }

  /** Whatever the JVM answers, the passes begin in a start state with the agent's own bitset sizes. */
  lemma AnswersStart(settings: Settings, jvm: Jvm, lists: map<string, seq<IgnoreRule>>)
    requires Answers(settings, jvm)
    ensures Start(ConfigOf(settings, jvm), Begun(settings, jvm, lists))
    ensures AgentSizes(ConfigOf(settings, jvm), Begun(settings, jvm, lists))
  {
    var s := Begun(settings, jvm, lists);
    OwnersDistinct(settings, jvm, lists);
    TagTableHas(s.owner, |s.owner|);
    BegunStarts(settings, jvm, lists, s.tags);
  }

  /** The state that the passes leave. */
  function Recorded(settings: Settings, jvm: Jvm, lists: map<string, seq<IgnoreRule>>): State
    requires InHierarchy(jvm.hierarchy, jvm.classes)
    requires Inv(ConfigOf(settings, jvm), Begun(settings, jvm, lists))
    requires Shaped(jvm.heap)
  {
    PassLoop(ConfigOf(settings, jvm), Begun(settings, jvm, lists), jvm.heap, Cap(settings))
  }

  /** Class nodes know their class when the passes begin. */
  lemma StartSane(cfg: Config, s: State)
    requires Start(cfg, s)
    ensures Consistent(cfg, s)
  {
  }

  /** No tag of a class leads to another kind of node then. */
  lemma BegunClasses(settings: Settings, jvm: Jvm, lists: map<string, seq<IgnoreRule>>, o: Obj)
    requires Answers(settings, jvm) && o in jvm.classOf
    requires Start(ConfigOf(settings, jvm), Begun(settings, jvm, lists))
    ensures !Misfit(Begun(settings, jvm, lists), jvm.classOf[o])
  {
    var s, c := Begun(settings, jvm, lists), jvm.classOf[o];
    LeakingFrom(jvm.candidates, settings.sizeThreshold, |jvm.candidates|);
    forall k: NodeId | k < |Leaks(settings, jvm)| ensures s.owner[k] != c {
      assert Leaks(settings, jvm)[k] in Leaks(settings, jvm);
    }
  }

  /** `addReferenceClass` stops the process in one of the passes. */
  ghost predicate RunStops(settings: Settings, jvm: Jvm, lists: map<string, seq<IgnoreRule>>)
    requires InHierarchy(jvm.hierarchy, jvm.classes) && Shaped(jvm.heap)
  {
    var cfg, s := ConfigOf(settings, jvm), Begun(settings, jvm, lists);
    cfg.leaks > 0 && Inv(cfg, s) && LoopStops(cfg, s, jvm.heap, Cap(settings))
  }

  /** A whole run stops exactly if a callback records an untagged class as a referrer and a later one, for a target with
      an unfinished leak, has a referrer of that class. */
  lemma RunStopsExactly(settings: Settings, jvm: Jvm, lists: map<string, seq<IgnoreRule>>)
    requires Answers(settings, jvm) && Shaped(jvm.heap) && Leaks(settings, jvm) != []
    ensures Inv(ConfigOf(settings, jvm), Begun(settings, jvm, lists))
    ensures var cfg, s := ConfigOf(settings, jvm), Begun(settings, jvm, lists);
            var es := LoopEvents(cfg, s, jvm.heap, Cap(settings));
            RunStops(settings, jvm, lists) <==>
            exists j: nat, k: nat, c: Obj ::
              j < k < |es| && c !in s.tags && Records(cfg, es[j], c) && Needs(cfg, es[k], c)
  {
    var cfg, s := ConfigOf(settings, jvm), Begun(settings, jvm, lists);
    var left := Cap(settings);
    AnswersStart(settings, jvm, lists);
    var es := LoopEvents(cfg, s, jvm.heap, left);
    StopsExactly(cfg, s, jvm.heap, left);
    if k: nat, c: Obj :| Clash(cfg, s, es, k, c) {
      BegunClasses(settings, jvm, lists, es[k].r.referrer.value);
    }
    if j: nat, k: nat, c: Obj :| j < k < |es| && c !in s.tags && Records(cfg, es[j], c) && Needs(cfg, es[k], c) {
      assert Clash(cfg, s, es, k, c);
    }
  }

  /** The class was listed when `tagAllClasses` asked for all classes, and it is not `java.lang.Class`. */
  predicate HasClassNode(jvm: Jvm, c: Obj) {
    exists k | 0 <= k < |jvm.classes| :: jvm.classes[k].obj == c && !jvm.classes[k].isClassClass
  }

  lemma ListedIsTagged(settings: Settings, jvm: Jvm, lists: map<string, seq<IgnoreRule>>, c: Obj)
    requires Answers(settings, jvm) && HasClassNode(jvm, c)
    ensures c in Begun(settings, jvm, lists).tags
  {
    var s := Begun(settings, jvm, lists);
    AnswersStart(settings, jvm, lists);
    TaggedFrom(jvm.hierarchy, |Leaks(settings, jvm)|, jvm.classes, lists, |jvm.classes|);
    assert c in s.owner;
  }

  /** Of the classes, only those with a class node refer directly to a leak, or to an object that holds one through
      references that are no roots. */
  ghost predicate ListedClassesRefer(settings: Settings, jvm: Jvm) {
    forall r: HeapRef, c <- Leaks(settings, jvm) | r in jvm.heap && Holding.Holds(jvm.heap, r.target, c.obj) ::
      || r.referrer.None? || !IsClass(ConfigOf(settings, jvm), r.referrer.value)
      || HasClassNode(jvm, r.referrer.value)
  }

  /** What can be checked before the run: it does not stop if no class without a class node (java.lang.Class, or a class
      loaded since) refers directly to a leak or to an object that holds one through references that are no roots. */
  lemma ApartRunsComplete(settings: Settings, jvm: Jvm, lists: map<string, seq<IgnoreRule>>)
    requires Answers(settings, jvm) && Shaped(jvm.heap) && ListedClassesRefer(settings, jvm)
    ensures !RunStops(settings, jvm, lists)
  {
    AnswersStart(settings, jvm, lists);
    AnswersApart(settings, jvm, lists);
    ApartNeverStops(ConfigOf(settings, jvm), Begun(settings, jvm, lists), jvm.heap,
                    Cap(settings));
  }

  lemma AnswersApart(settings: Settings, jvm: Jvm, lists: map<string, seq<IgnoreRule>>)
    requires Answers(settings, jvm) && Start(ConfigOf(settings, jvm), Begun(settings, jvm, lists))
    requires ListedClassesRefer(settings, jvm)
    ensures ClassesApart(ConfigOf(settings, jvm), Begun(settings, jvm, lists), jvm.heap)
  {
    var cfg, s := ConfigOf(settings, jvm), Begun(settings, jvm, lists);
    forall o <- jvm.classOf ensures !Misfit(s, jvm.classOf[o]) {
      BegunClasses(settings, jvm, lists, o);
    }
    forall c: Obj | IsClass(cfg, c) ensures c in s.tags || !RefersToHolder(cfg, s, jvm.heap, c) {
      if RefersToHolder(cfg, s, jvm.heap, c) {
        ReferrerIsListed(settings, jvm, lists, c);
        ListedIsTagged(settings, jvm, lists, c);
      }
    }
  }

  lemma ReferrerIsListed(settings: Settings, jvm: Jvm, lists: map<string, seq<IgnoreRule>>, c: Obj)
    requires Answers(settings, jvm) && ListedClassesRefer(settings, jvm) && IsClass(ConfigOf(settings, jvm), c)
    requires RefersToHolder(ConfigOf(settings, jvm), Begun(settings, jvm, lists), jvm.heap, c)
    ensures HasClassNode(jvm, c)
  {
    var cfg, s := ConfigOf(settings, jvm), Begun(settings, jvm, lists);
    var r: HeapRef :| r in jvm.heap && r.referrer == Some(c) && HoldsLeak(cfg, s, jvm.heap, r.target);
    var i: nat :| i < cfg.leaks && Holding.Holds(jvm.heap, r.target, s.owner[i]);
    assert s.owner[i] == Leaks(settings, jvm)[i].obj && Leaks(settings, jvm)[i] in Leaks(settings, jvm);
  }

  /** No flag of `freeMemoryNode` or of the search is set. */
  predicate NoneFlagged(nodes: seq<Node>) {
    forall k: NodeId | k < |nodes| :: !nodes[k].visited
  }

  lemma StepNoneFlagged(cfg: Config, s: State, r: HeapRef)
    requires Inv(cfg, s) && WellShaped(r) && NoneFlagged(s.nodes)
    ensures NoneFlagged(Step(cfg, s, r).nodes)
  {
    forall k: NodeId | k < |Step(cfg, s, r).nodes| ensures !Step(cfg, s, r).nodes[k].visited {
      if Judge(cfg, s, r) == Accept {
        AcceptedNode(cfg, s, r, k);
      }
    }
  }

  lemma {:induction false} VisitNoneFlagged(cfg: Config, s: State, heap: seq<HeapRef>, from: nat)
    requires Inv(cfg, s) && Shaped(heap) && from <= |heap| && NoneFlagged(s.nodes)
    ensures NoneFlagged(Visit(cfg, s, heap, from).nodes)
    decreases |heap| - from
  {
    if from < |heap| {
      StepInv(cfg, s, heap[from]);
      StepNoneFlagged(cfg, s, heap[from]);
      VisitNoneFlagged(cfg, Step(cfg, s, heap[from]), heap, from + 1);
    }
  }

  lemma {:induction false} PassLoopNoneFlagged(cfg: Config, s: State, heap: seq<HeapRef>, left: nat)
    requires Inv(cfg, s) && Shaped(heap) && NoneFlagged(s.nodes)
    ensures NoneFlagged(PassLoop(cfg, s, heap, left).nodes)
    decreases left
  {
    if left > 0 {
      PassFacts(cfg, s, heap);
      ResetInv(cfg, s);
      VisitNoneFlagged(cfg, Reset(s), heap, 0);
      if HasUnfinished(cfg, Pass(cfg, s, heap)) {
        PassLoopNoneFlagged(cfg, Pass(cfg, s, heap), heap, left - 1);
      }
    }
  }

  /** The passes leave a graph that can be torn down. */
  lemma RecordedIsBuilt(cfg: Config, s: State, heap: seq<HeapRef>, left: nat)
    requires Start(cfg, s) && Shaped(heap)
    ensures Built(PassLoop(cfg, s, heap, left).nodes, cfg.leaks, |s.nodes|)
  {
    var s' := PassLoop(cfg, s, heap, left);
    var sizes := seq(cfg.leaks, k requires 0 <= k < cfg.leaks => s.nodes[k].size);
    StartSound(cfg, s, sizes);
    PassLoopSound(cfg, s, heap, left, sizes, |s.nodes|);
    StartCounting(cfg, s);
    PassLoopCounting(cfg, s, heap, left, |s.nodes|, s.tags.Keys);
    PassLoopFacts(cfg, s, heap, left);
    PassLoopNoneFlagged(cfg, s, heap, left);
    LinkedIsBuilt(cfg, s', |s.nodes|);
  }

  lemma LinkedIsBuilt(cfg: Config, s: State, handles: nat)
    requires Inv(cfg, s) && NoneFlagged(s.nodes) && cfg.leaks <= handles <= |s.nodes|
    requires Linkage(cfg, s, handles) && CountsExact(s.nodes, handles)
    ensures Built(s.nodes, cfg.leaks, handles)
  {
    InvLinked(cfg, s);
  }

  /** What a report leaves alone. */
  predicate SameLinks(nodes: seq<Node>, now: seq<Node>) {
    && |now| == |nodes|
    && forall k: NodeId {:trigger now[k]} | k < |nodes| ::
         now[k].refs == nodes[k].refs && now[k].rc == nodes[k].rc && now[k].visited == nodes[k].visited
  }

  /** And the report does not change that. */
  lemma ReportedIsBuilt(nodes: seq<Node>, now: seq<Node>, alive: map<NodeId, Obj>, leaks: nat, handles: nat)
    requires Built(nodes, leaks, handles) && AsGood(nodes, now, alive, leaks)
    ensures Built(now, leaks, handles)
  {
    assert SameLinks(nodes, now);
    SameBuilt(nodes, now, leaks, handles);
  }

  lemma SameBuilt(nodes: seq<Node>, now: seq<Node>, leaks: nat, handles: nat)
    requires Built(nodes, leaks, handles) && SameLinks(nodes, now)
    ensures Built(now, leaks, handles)
  {
    SameCounts(nodes, now, handles);
    assert WellLinked(now) by {
      assert forall k: NodeId | k < |now| :: now[k].refs == nodes[k].refs;
    }
    forall k: NodeId | k < |now| && (k >= handles || now[k].refs != []) ensures FromLeak(now, leaks, k) {
      assert now[k].refs == nodes[k].refs;
      SameReach(nodes, now, leaks, k);
    }
  }

  lemma SameCounts(nodes: seq<Node>, now: seq<Node>, handles: nat)
    requires CountsExact(nodes, handles) && SameLinks(nodes, now)
    ensures CountsExact(now, handles)
  {
    SameIncoming(nodes, now, |nodes|);
  }

  lemma SameReach(nodes: seq<Node>, now: seq<Node>, leaks: nat, k: NodeId)
    requires SameLinks(nodes, now) && FromLeak(nodes, leaks, k)
    ensures FromLeak(now, leaks, k)
  {
    var i: nat, path :| i < leaks && RefPath(nodes, i, k, path);
    SamePath(nodes, now, i, k, path);
  }

  lemma {:induction false} SameIncoming(nodes: seq<Node>, now: seq<Node>, k: nat)
    requires k <= |nodes| == |now| && forall j: NodeId | j < |nodes| :: now[j].refs == nodes[j].refs
    ensures IncomingTo(now, k) == IncomingTo(nodes, k)
  {
    if k > 0 {
      SameIncoming(nodes, now, k - 1);
    }
  }

  lemma SamePath(nodes: seq<Node>, now: seq<Node>, i: NodeId, k: NodeId, path: seq<NodeId>)
    requires |nodes| == |now| && forall j: NodeId | j < |nodes| :: now[j].refs == nodes[j].refs
    requires RefPath(nodes, i, k, path)
    ensures RefPath(now, i, k, path)
  {
    forall j | 0 < j < |path| ensures Edge(now, path[j - 1], path[j]) {
      assert Edge(nodes, path[j - 1], path[j]);
    }
  }

  /** Each leak is reported as the recorded graph has it. */
  ghost predicate ReportsAreRight(settings: Settings, jvm: Jvm, lists: map<string, seq<IgnoreRule>>,
                                  reports: seq<Report>)
    requires InHierarchy(jvm.hierarchy, jvm.classes)
    requires Shaped(jvm.heap)
  {
    && |reports| == |Leaks(settings, jvm)|
    && (reports != [] ==>
          && Inv(ConfigOf(settings, jvm), Begun(settings, jvm, lists))
          && var s := Recorded(settings, jvm, lists);
             && WellLinked(s.nodes) && |reports| <= |s.nodes|
             && forall k: NodeId | k < |reports| ::
                  reports[k] == ReportFor(s.nodes, jvm.alive, settings.considerLocal,
                                          settings.referenceChainLength > 0, settings.showUnreachables, k))
  }

  /** Each chain in the reports is a chain of heap references from the collection to a root. */
  ghost predicate ChainsAreReal(settings: Settings, jvm: Jvm, reports: seq<Report>) {
    forall k: nat | k < |reports| && k < |Leaks(settings, jvm)| && reports[k].ChainToRoot? ::
      exists heapChain: seq<HeapRef> ::
        HeapWay(ConfigOf(settings, jvm), jvm.heap, Leaks(settings, jvm)[k].obj, reports[k].chain, heapChain)
  }

  lemma RightIsReal(settings: Settings, jvm: Jvm, lists: map<string, seq<IgnoreRule>>, reports: seq<Report>)
    requires Answers(settings, jvm) && Shaped(jvm.heap) && ReportsAreRight(settings, jvm, lists, reports)
    ensures ChainsAreReal(settings, jvm, reports)
  {
    AnswersStart(settings, jvm, lists);
    forall k: nat | k < |reports| && k < |Leaks(settings, jvm)| && reports[k].ChainToRoot?
      ensures exists heapChain: seq<HeapRef> ::
        HeapWay(ConfigOf(settings, jvm), jvm.heap, Leaks(settings, jvm)[k].obj, reports[k].chain, heapChain)
    {
      var q := Query(Recorded(settings, jvm, lists).nodes, jvm.alive, settings.considerLocal, k);
      FoundIsInHeap(ConfigOf(settings, jvm), Begun(settings, jvm, lists), jvm.heap,
                    Cap(settings), q, k);
    }
  }

  /** What becomes of a run: `addReferenceClass` stops the process, or the leaks are reported and the memory
      is freed. */
  datatype Ending = Stopped | Completed(reports: seq<Report>, classesFreed: seq<bool>)

  /** `findLeaksInTaggedObjects`.  Unless the process is stopped, the reports are those of the recorded graph, their
      chains are chains of the heap, every class node is freed by the call that `untagAllClasses` checks, and no node is
      left. */
  method FindLeaksInTaggedObjects(td: ThreadData, settings: Settings, jvm: Jvm, lists: map<string, seq<IgnoreRule>>)
    returns (ending: Ending)
    requires td.nodes == [] && td.nodesAllocated == td.nodesFreed == 0 && td.freed == {}
    requires Answers(settings, jvm) && Shaped(jvm.heap)
    modifies td
    ensures ending.Stopped? <==> RunStops(settings, jvm, lists)
    ensures ending.Completed? ==>
              && td.nodesAllocated == td.nodesFreed == |td.nodes|
              && (forall k: NodeId | k < |td.nodes| :: k in td.freed)
              && AllSucceed(ending.classesFreed)
              && ReportsAreRight(settings, jvm, lists, ending.reports) && ChainsAreReal(settings, jvm, ending.reports)
  {
    var leaks, tags, owner := SearchObjectsForLeaks(td, jvm.candidates, settings.sizeThreshold);
    if leaks == 0 {
      return Completed([], []);
    }
    CandidatesAreNoClasses(jvm, settings, tags);
    tags, owner := TagAllClasses(td, jvm, leaks, lists, tags, owner);
    ending := SearchAndFree(td, settings, jvm, lists, leaks, tags, owner);
    if ending.Completed? {
      RightIsReal(settings, jvm, lists, ending.reports);
    }
  }

  lemma CandidatesAreNoClasses(jvm: Jvm, settings: Settings, tags: map<Obj, NodeId>)
    requires Answers(settings, jvm) && Inverse(tags, LeakObjects(Leaks(settings, jvm)))
    ensures forall o <- tags, c <- jvm.classes :: c.obj != o
  {
    LeakingFrom(jvm.candidates, settings.sizeThreshold, |jvm.candidates|);
    forall o <- tags, c <- jvm.classes ensures c.obj != o {
      assert Leaks(settings, jvm)[tags[o]] in Leaks(settings, jvm);
    }
  }

  /** The passes, the report and the teardown, once everything is tagged. */
  method SearchAndFree(td: ThreadData, settings: Settings, jvm: Jvm, lists: map<string, seq<IgnoreRule>>, leaks: nat,
                       tags: map<Obj, NodeId>, ghost owner: seq<Obj>)
    returns (ending: Ending)
    requires InHierarchy(jvm.hierarchy, jvm.classes) && Shaped(jvm.heap)
    requires leaks == |Leaks(settings, jvm)| && leaks > 0 && Inverse(tags, owner)
    requires var s := Begun(settings, jvm, lists);
             Views(td.nodes) == s.nodes && owner == s.owner
    requires Addressed(td.nodes) && td.nodesAllocated == |td.nodes| && td.nodesFreed == 0 && td.freed == {}
    modifies td, td.nodes
    ensures ending.Stopped? <==> RunStops(settings, jvm, lists)
    ensures ending.Completed? ==>
              && td.nodesAllocated == td.nodesFreed == |td.nodes|
              && (forall k: NodeId | k < |td.nodes| :: k in td.freed)
              && AllSucceed(ending.classesFreed)
              && ReportsAreRight(settings, jvm, lists, ending.reports)
  {
    var handles := |td.nodes|;
    BegunStarts(settings, jvm, lists, tags);
    RecordedIsBuilt(ConfigOf(settings, jvm), Begun(settings, jvm, lists), jvm.heap,
                    Cap(settings));
    StartSane(ConfigOf(settings, jvm), Begun(settings, jvm, lists));
    var stopped := RecordReferences(td, settings, jvm, lists, leaks, tags, owner);
    if stopped {
      return Stopped;
    }
    var reports, classesFreed := ReportAndFree(td, settings, jvm, leaks, handles);
    return Completed(reports, classesFreed);
  }

  /** The report and the teardown of a recorded graph. */
  method ReportAndFree(td: ThreadData, settings: Settings, jvm: Jvm, leaks: nat, handles: nat)
    returns (reports: seq<Report>, classesFreed: seq<bool>)
    requires Addressed(td.nodes) && Built(Views(td.nodes), leaks, handles)
    requires td.nodesAllocated == |td.nodes| && td.nodesFreed == 0 && td.freed == {}
    modifies td`nodesFreed, td`freed, td.nodes
    ensures td.nodesAllocated == td.nodesFreed && (forall k: NodeId | k < |td.nodes| :: k in td.freed)
    ensures AllSucceed(classesFreed) && |reports| == leaks
    ensures forall k: NodeId | k < leaks ::
              reports[k] == old(ReportFor(Views(td.nodes), jvm.alive, settings.considerLocal,
                                          settings.referenceChainLength > 0, settings.showUnreachables, k))
  {
    ghost var nodes := Views(td.nodes);
    reports := PrintReferencesChainForLeakingNodes(td.nodes, leaks, jvm.alive, settings.considerLocal,
                                                   settings.referenceChainLength > 0, settings.showUnreachables);
    ReportedIsBuilt(nodes, Views(td.nodes), jvm.alive, leaks, handles);
    classesFreed := FreeNodes(td, leaks, handles);
  }

  /** `tagReferencesChain` after the classes are tagged. */
  method RecordReferences(td: ThreadData, settings: Settings, jvm: Jvm, lists: map<string, seq<IgnoreRule>>, leaks: nat,
                          tags: map<Obj, NodeId>, ghost owner: seq<Obj>) returns (stopped: bool)
    requires InHierarchy(jvm.hierarchy, jvm.classes) && Shaped(jvm.heap)
    requires leaks == |Leaks(settings, jvm)| && leaks > 0 && tags == Begun(settings, jvm, lists).tags
    requires var s := Begun(settings, jvm, lists);
             Views(td.nodes) == s.nodes && owner == s.owner && Consistent(ConfigOf(settings, jvm), s)
    requires Addressed(td.nodes) && td.nodesAllocated == |td.nodes|
    modifies td, td.nodes
    ensures stopped == RunStops(settings, jvm, lists)
    ensures Addressed(td.nodes) && td.nodesAllocated == |td.nodes| && td.OnlyAdds()
    ensures !stopped ==> Views(td.nodes) == Recorded(settings, jvm, lists).nodes
  {
    var detector := new Detector(td, tags, owner, leaks);
    stopped := detector.TagReferencesChain(ConfigOf(settings, jvm), jvm.heap, settings.referenceChainLength);
  }

  /** `freeMemoryForLeakList`, then the loop of `untagAllClasses` with the results of its calls. */
  method FreeNodes(td: ThreadData, leaks: nat, handles: nat) returns (classesFreed: seq<bool>)
    requires Addressed(td.nodes) && Built(Views(td.nodes), leaks, handles)
    requires td.nodesAllocated == |td.nodes| && td.nodesFreed == 0 && td.freed == {}
    modifies td`nodesFreed, td`freed, td.nodes
    ensures td.nodesAllocated == td.nodesFreed && (forall k: NodeId | k < |td.nodes| :: k in td.freed)
    ensures AllSucceed(classesFreed)
  {
    ghost var nodes := Views(td.nodes);
    TeardownIsComplete(nodes, leaks, handles);
    assert td.Mem() == Begin(nodes);
    NoFaultBefore(nodes, leaks, handles);
    var _ := td.FreeHandles(0, leaks);
    classesFreed := td.FreeHandles(leaks, handles);
  }

  /** A fault while the leaks are freed would show at the end. */
  lemma NoFaultBefore(nodes: seq<Node>, leaks: nat, handles: nat)
    requires WellLinked(nodes) && leaks <= handles <= |nodes| && !Teardown.Teardown(nodes, leaks, handles).0.fault
    ensures !FreeRange(Begin(nodes), 0, leaks).0.fault
  {
    FaultStays(FreeRange(Begin(nodes), 0, leaks).0, leaks, leaks, handles);
  }

  /** A leak's report is a chain exactly when chains are asked for and there is one; then it is such a chain, without a
      node that occurs twice. */
  lemma ReportIsExact(nodes: seq<Node>, alive: map<NodeId, Obj>, considerLocal: bool, needReferences: bool,
                      showUnreachables: bool, k: NodeId)
    requires WellLinked(nodes) && k < |nodes|
    ensures var q := Query(nodes, alive, considerLocal, k);
            var report := ReportFor(nodes, alive, considerLocal, needReferences, showUnreachables, k);
            && (report.ChainToRoot? <==> needReferences && HasChain(q, k))
            && (report.ChainToRoot? ==> IsChain(q, Carriers(nodes, k), k, report.chain)
                                        && NoRepeats([k] + Passed(report.chain)))
            && (report.Suppressed? <==> !showUnreachables && !report.ChainToRoot?)
            && (report.NoReferences? <==> showUnreachables && !needReferences)
            && (report.AllReferences? ==> report.refs == nodes[k].refs)
  {
    SearchIsExact(Query(nodes, alive, considerLocal, k), k);
  }

  /** Collection `k` of a run, as something to be found. */
  function HuntOf(settings: Settings, jvm: Jvm, lists: map<string, seq<IgnoreRule>>, k: nat): Hunt
    requires InHierarchy(jvm.hierarchy, jvm.classes)
  {
    Hunt(ConfigOf(settings, jvm), Begun(settings, jvm, lists), jvm.heap, k)
  }

  /** If the cap does not cut the passes short and nothing was collected since: for a collection that has no holder in
      common with another one, the report has a chain exactly if the heap has one that the filters let through. */
  lemma RunReportsExactly(settings: Settings, jvm: Jvm, lists: map<string, seq<IgnoreRule>>, reports: seq<Report>,
                          k: nat)
    requires Answers(settings, jvm) && Shaped(jvm.heap)
    requires ReportsAreRight(settings, jvm, lists, reports) && k < |reports|
    requires var h := HuntOf(settings, jvm, lists, k);
             && Alone(h) && Fixed(h) && RoomOnTheWay(h)
             && EndsItself(h.cfg, h.s0, h.heap, Cap(settings))
             && (settings.considerLocal || LocalsApart(h.cfg, h.s0, h.heap, k))
             && AllLive(Query(Recorded(settings, jvm, lists).nodes, jvm.alive, settings.considerLocal, k))
    ensures reports[k].ChainToRoot? <==> exists chain :: OpenChain(HuntOf(settings, jvm, lists, k), chain)
  {
    AnswersStart(settings, jvm, lists);
    ReportedExactly(HuntOf(settings, jvm, lists, k), Cap(settings),
                    Query(Recorded(settings, jvm, lists).nodes, jvm.alive, settings.considerLocal, k));
  }
}
