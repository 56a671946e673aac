/** The search and the report as the agent runs them (`jvm_reference.c`): flags and leak bits are updated in place, and
    the chain is a circular list that is built from its end. */
module JvmReference {
  import opened Wrappers
  import opened LeakBits
  import opened DataStruct
  import opened Search
  import opened NodeMemory

  // ---- The circular list ----

  /** `OrderedReferences` */
  class OrderedReference {
    const ref: Ref
    var next: OrderedReference

    /** A list of one. */
    constructor Alone(ref: Ref)
      ensures this.ref == ref && next == this
    {
      this.ref := ref;
      next := this;
    }

    /** A cell in front of `next`. */
    constructor Before(ref: Ref, next: OrderedReference)
      ensures this.ref == ref && this.next == next
    {
      this.ref := ref;
      this.next := next;
    }
  }

  /** The cells, from the one after `last` round to `last`, hold the references of `chain`. */
  ghost predicate Circle(last: OrderedReference, cells: seq<OrderedReference>, chain: seq<Ref>)
    reads cells
  {
    && cells != [] && |cells| == |chain| && cells[|cells| - 1] == last
    && (forall i, j | 0 <= i < j < |cells| :: cells[i] != cells[j])
    && (forall i | 0 <= i < |cells| :: cells[i].ref == chain[i])
    && (forall i | 0 <= i < |cells| - 1 :: cells[i].next == cells[i + 1])
    && last.next == cells[0]
  }

  /** A list with the references of the chain, or none. */
  ghost predicate Holds(last: OrderedReference?, cells: seq<OrderedReference>, chain: Option<seq<Ref>>)
    reads cells
  {
    (last == null <==> chain.None?) && (last != null ==> Circle(last, cells, chain.value))
  }

  /** Puts a reference in front of a chain: right after its last cell. */
  method Prepend(ref: Ref, last: OrderedReference, ghost cells: seq<OrderedReference>, ghost chain: seq<Ref>,
                 ghost nodes: seq<MemoryNode>)
    returns (ghost cells': seq<OrderedReference>)
    requires Circle(last, cells, chain)
    modifies last
    ensures Views(nodes) == old(Views(nodes))
    ensures Circle(last, cells', [ref] + chain)
    ensures fresh(cells'[0]) && cells' == [cells'[0]] + cells && forall c <- cells' :: fresh(c) || c in cells
  {
    var first := last.next;
    var cell := new OrderedReference.Before(ref, first);
    last.next := cell;
    cells' := [cell] + cells;
  }

  /** What happens to the memory of a cell: one of its fields is read, or it is freed. */
  datatype Access = Read(cell: OrderedReference) | Free(cell: OrderedReference)

  /** No cell is read or freed after it was freed. */
  ghost predicate NoUseAfterFree(trace: seq<Access>) {
    forall i, j | 0 <= i < j < |trace| && trace[i].Free? :: trace[i].cell != trace[j].cell
  }

  /** The cells that are freed, in order. */
  ghost function Freed(trace: seq<Access>): seq<OrderedReference> {
    if trace == [] then []
    else Freed(trace[..|trace| - 1]) + if trace[|trace| - 1].Free? then [trace[|trace| - 1].cell] else []
  }

  lemma FreedMore(trace: seq<Access>, a: Access)
    ensures Freed(trace + [a]) == Freed(trace) + if a.Free? then [a.cell] else []
  {
    assert (trace + [a])[..|trace|] == trace;
  }

  /** Reading both fields of a cell and freeing it goes well, if it was not freed before. */
  lemma UseAndFree(trace: seq<Access>, cell: OrderedReference)
    requires NoUseAfterFree(trace) && cell !in Freed(trace)
    ensures NoUseAfterFree(trace + [Read(cell), Read(cell), Free(cell)])
    ensures Freed(trace + [Read(cell), Read(cell), Free(cell)]) == Freed(trace) + [cell]
  {
    UseFrees(trace, cell);
    forall i | 0 <= i < |trace| && trace[i].Free? ensures trace[i].cell != cell {
      FreedHas(trace, i);
    }
    UseIsSafe(trace, cell);
  }

  lemma UseFrees(trace: seq<Access>, cell: OrderedReference)
    ensures Freed(trace + [Read(cell), Read(cell), Free(cell)]) == Freed(trace) + [cell]
  {
    FreedMore(trace, Read(cell));
    FreedMore(trace + [Read(cell)], Read(cell));
    FreedMore(trace + [Read(cell)] + [Read(cell)], Free(cell));
    assert trace + [Read(cell), Read(cell), Free(cell)] == trace + [Read(cell)] + [Read(cell)] + [Free(cell)];
  }

  lemma UseIsSafe(trace: seq<Access>, cell: OrderedReference)
    requires NoUseAfterFree(trace) && forall i | 0 <= i < |trace| && trace[i].Free? :: trace[i].cell != cell
    ensures NoUseAfterFree(trace + [Read(cell), Read(cell), Free(cell)])
  {
    var after := trace + [Read(cell), Read(cell), Free(cell)];
    forall i, j | 0 <= i < j < |after| && after[i].Free? ensures after[i].cell != after[j].cell {
      assert i < |trace| && after[i] == trace[i];
      assert after[j] == if j < |trace| then trace[j] else [Read(cell), Read(cell), Free(cell)][j - |trace|];
    }
  }

  lemma {:induction false} FreedHas(trace: seq<Access>, i: nat)
    requires i < |trace| && trace[i].Free?
    ensures trace[i].cell in Freed(trace)
  {
    if i < |trace| - 1 {
      FreedHas(trace[..|trace| - 1], i);
    }
  }

  /** `printReferenceChainToNode`: prints the references in order and frees every cell exactly once; `trace` records
      every read of a cell and every call of `myFree`. */
  method PrintReferenceChainToNode(last: OrderedReference, ghost cells: seq<OrderedReference>, ghost chain: seq<Ref>)
    returns (printed: seq<Ref>, ghost trace: seq<Access>)
    requires Circle(last, cells, chain)
    ensures printed == chain && Freed(trace) == cells && NoUseAfterFree(trace)
  {
    var next := last.next;
    trace := [Read(last)];
    printed := [];
    ghost var k := 0;
    while true
      invariant 0 <= k < |cells| && next == cells[k] && printed == chain[..k]
      invariant Freed(trace) == cells[..k] && NoUseAfterFree(trace)
      decreases |cells| - k
    {
      var cell := next;
      UseAndFree(trace, cell);
      next := cell.next;
      printed := printed + [cell.ref];
      trace := trace + [Read(cell), Read(cell), Free(cell)];
      k := k + 1;
      if cell == last {
        break;
      }
    }
  }

  // ---- The search ----

  /** The nodes whose flag is set. */
  function Flags(nodes: seq<Node>): set<NodeId> {
    set n <- Below(|nodes|) | nodes[n].visited
  }

  /** `fillClassInMemoryNode`: finds out whether the node's object still lives. */
  method FillClassInMemoryNode(node: MemoryNode, alive: map<NodeId, Obj>)
    modifies node`dead, node`obj
    ensures MayBeFilled(old(node.View()), node.View(), node.id, alive)
    ensures node.dead <==> old(node.dead) || (old(node.obj).None? && node.id !in alive)
  {
    if node.dead || node.obj.Some? {
      return;
    }
    if node.id in alive {
      node.obj := Some(alive[node.id]);
    } else {
      node.dead := true;
    }
  }

  /** The views with the flag of node `n` cleared. */
  function Unflagged(nodes: seq<Node>, n: NodeId): seq<Node>
    requires n < |nodes|
  {
    nodes[n := nodes[n].(visited := false)]
  }

  /** How far a search under way has come: the references of `n` are being scanned. */
  ghost predicate Scanning(q0: Query, now: seq<Node>, n: NodeId, visited: set<NodeId>, cur: set<NodeId>) {
    && n < |q0.nodes| == |now| && n !in visited && !q0.nodes[n].visited && now[n].visited
    && Flags(now) == visited + {n} && Flags(q0.nodes) == visited
    && cur <= Carriers(q0.nodes, q0.leak)
    && Searched(q0, cur, Unflagged(now, n))
  }

  /** What a scan knows of the nodes. */
  lemma ScanningNow(q0: Query, now: seq<Node>, n: NodeId, visited: set<NodeId>, cur: set<NodeId>)
    requires Scanning(q0, now, n, visited, cur)
    ensures cur == Carriers(now, q0.leak) && SameGraph(q0, q0.(nodes := now)) && now[n].refs == q0.nodes[n].refs
  {
    SearchedNodes(q0, cur, Unflagged(now, n));
    assert Carriers(Unflagged(now, n), q0.leak) == Carriers(now, q0.leak);
    assert forall k: NodeId | k < |now| ::
        now[k].refs == Unflagged(now, n)[k].refs &&
        IsDead(q0.(nodes := now), k) == IsDead(q0.(nodes := Unflagged(now, n)), k);
  }

  /** The scan begins: the flag is set and the object looked up. */
  lemma ScanBegins(q0: Query, now: seq<Node>, n: NodeId)
    requires n < |q0.nodes| && !q0.nodes[n].visited && |now| == |q0.nodes|
    requires forall k: NodeId | k < |now| && k != n :: now[k] == q0.nodes[k]
    requires now[n].visited && MayBeFilled(q0.nodes[n], now[n].(visited := false), n, q0.alive)
    ensures Scanning(q0, now, n, Flags(q0.nodes), Carriers(q0.nodes, q0.leak))
  {
    var has := Carriers(q0.nodes, q0.leak);
    forall k: NodeId | k < |now|
      ensures MayBeFilled(Prune(q0.nodes[k], k, q0.leak, has), Unflagged(now, n)[k], k, q0.alive)
    {
      assert Contains(q0.nodes[k].leaks, q0.leak) ==> k in has;
    }
    FlagsDiffer(q0.nodes, now, n);
  }

  lemma FlagsDiffer(nodes: seq<Node>, now: seq<Node>, n: NodeId)
    requires n < |nodes| == |now| && !nodes[n].visited && now[n].visited
    requires forall k: NodeId | k < |now| && k != n :: now[k].visited == nodes[k].visited
    ensures Flags(now) == Flags(nodes) + {n}
  {
  }

  /** A nested search keeps the scan going. */
  lemma ScanContinues(q0: Query, now: seq<Node>, n: NodeId, visited: set<NodeId>, cur: set<NodeId>,
                      has: set<NodeId>, next: seq<Node>)
    requires Scanning(q0, now, n, visited, cur) && has <= cur && Searched(q0.(nodes := now), has, next)
    ensures Scanning(q0, next, n, visited, has)
  {
    ScanningNow(q0, now, n, visited, cur);
    SearchedNodes(q0.(nodes := now), has, next);
    var q1 := q0.(nodes := Unflagged(now, n));
    forall k: NodeId | k < |now|
      ensures MayBeFilled(Prune(q1.nodes[k], k, q0.leak, has), Unflagged(next, n)[k], k, q0.alive)
    {
      assert MayBeFilled(Prune(now[k], k, q0.leak, has), next[k], k, q0.alive);
    }
    assert Searched(q1, has, Unflagged(next, n));
    SearchedTwice(q0, cur, Unflagged(now, n), has, Unflagged(next, n));
    assert Flags(next) == Flags(now);
  }

  /** A failed child costs the scanned node its bit. */
  lemma ScanPrunes(q0: Query, now: seq<Node>, n: NodeId, visited: set<NodeId>, cur: set<NodeId>)
    requires Scanning(q0, now, n, visited, cur) && n in Carriers(q0.nodes, q0.leak)
    ensures Scanning(q0, now[n := now[n].(leaks := Remove(now[n].leaks, q0.leak))], n, visited, cur - {n})
  {
    var next := now[n := now[n].(leaks := Remove(now[n].leaks, q0.leak))];
    forall k: NodeId | k < |now|
      ensures MayBeFilled(Prune(q0.nodes[k], k, q0.leak, cur - {n}), Unflagged(next, n)[k], k, q0.alive)
    {
      assert MayBeFilled(Prune(q0.nodes[k], k, q0.leak, cur), Unflagged(now, n)[k], k, q0.alive);
    }
    assert Flags(next) == Flags(now);
  }

  lemma FewerUnvisited(q: Query, visited: set<NodeId>, n: NodeId)
    requires n < |q.nodes| && n !in visited
    ensures |Ids(q.nodes) - (visited + {n})| < |Ids(q.nodes) - visited|
  {
    assert Ids(q.nodes) - (visited + {n}) == Ids(q.nodes) - visited - {n};
  }

  lemma SearchedNothing(q0: Query)
    ensures Searched(q0, Carriers(q0.nodes, q0.leak), q0.nodes)
  {
  }

  /** A search that goes no further than the node itself, or only as far as its references. */
  lemma SearchNodeCases(q: Query, has: set<NodeId>, visited: set<NodeId>, n: NodeId)
    requires WellLinked(q.nodes) && n < |q.nodes|
    ensures n in visited || n !in has || IsDead(q, n) ==>
              SearchNode(q, has, visited, n).chain.None? && SearchNode(q, has, visited, n).has == has
    ensures !(n in visited || n !in has || IsDead(q, n)) ==>
              && SearchNode(q, has, visited, n).chain == SearchRefs(q, has, visited + {n}, n, 0).chain
              && SearchNode(q, has, visited, n).has == SearchRefs(q, has, visited + {n}, n, 0).has
  {
  }

  /** Sets the flag and looks up the object. */
  method EnterNode(nodes: seq<MemoryNode>, n: NodeId, alive: map<NodeId, Obj>, ghost q0: Query)
    requires Addressed(nodes) && n < |nodes| && !nodes[n].visited && q0.alive == alive && q0.nodes == Views(nodes)
    modifies nodes[n]
    ensures Scanning(q0, Views(nodes), n, Flags(q0.nodes), Carriers(q0.nodes, q0.leak))
    ensures nodes[n].dead <==> IsDead(q0, n)
  {
    nodes[n].visited := true;
    FillClassInMemoryNode(nodes[n], alive);
    ScanBegins(q0, Views(nodes), n);
  }

  /** Clears the flag. */
  method LeaveNode(nodes: seq<MemoryNode>, n: NodeId, ghost q0: Query, ghost cur: set<NodeId>,
                   ghost last: OrderedReference?, ghost cells: seq<OrderedReference>, ghost chain: Option<seq<Ref>>)
    requires Addressed(nodes) && n < |nodes| && Scanning(q0, Views(nodes), n, Flags(q0.nodes), cur)
    requires Holds(last, cells, chain)
    modifies nodes[n]
    ensures Searched(q0, cur, Views(nodes)) && cur <= Carriers(q0.nodes, q0.leak) && Holds(last, cells, chain)
  {
    ghost var now := Views(nodes);
    nodes[n].visited := false;
    assert Views(nodes) == Unflagged(now, n);
  }

  /** Takes the leak's bit away from a node whose child failed. */
  method PruneNode(nodes: seq<MemoryNode>, n: NodeId, leak: nat, ghost q0: Query, ghost cur: set<NodeId>)
    requires Addressed(nodes) && n < |nodes| && leak == q0.leak && n in Carriers(q0.nodes, leak)
    requires Scanning(q0, Views(nodes), n, Flags(q0.nodes), cur)
    modifies nodes[n]
    ensures Scanning(q0, Views(nodes), n, Flags(q0.nodes), cur - {n})
  {
    ghost var now := Views(nodes);
    ScanPrunes(q0, now, n, Flags(q0.nodes), cur);
    nodes[n].leaks := Remove(nodes[n].leaks, leak);
    assert Views(nodes) == now[n := now[n].(leaks := Remove(now[n].leaks, leak))];
  }

  /** The arguments of a search belong to its query. */
  ghost predicate Asks(nodes: seq<MemoryNode>, n: NodeId, q: Query, leak: nat, considerLocal: bool,
                       alive: map<NodeId, Obj>)
  {
    && Addressed(nodes) && WellLinked(q.nodes) && n < |nodes| == |q.nodes|
    && q.leak == leak && q.considerLocal == considerLocal && q.alive == alive
  }

  /** `generateReferencesChainForNode`.  `q` is the query with which the search began; since then other leak bits, flags
      and looked-up objects may have changed, but not the graph. */
  method GenerateReferencesChainForNode(nodes: seq<MemoryNode>, n: NodeId, ghost q: Query, leak: nat,
                                        considerLocal: bool, alive: map<NodeId, Obj>, ghost unvisited: nat)
    returns (last: OrderedReference?, ghost cells: seq<OrderedReference>)
    requires Asks(nodes, n, q, leak, considerLocal, alive)
    requires SameGraph(q, q.(nodes := Views(nodes)))
    requires |Ids(q.nodes) - Flags(Views(nodes))| <= unvisited
    modifies nodes
    ensures var q0 := q.(nodes := old(Views(nodes)));
            var o := SearchNode(q, Carriers(q0.nodes, leak), Flags(q0.nodes), n);
            && Searched(q0, o.has, Views(nodes)) && o.has <= Carriers(q0.nodes, leak)
            && (last == null <==> o.chain.None?)
            && (last != null ==> Circle(last, cells, o.chain.value) && fresh(cells))
    decreases unvisited, 3
  {
    last, cells := null, [];
    ghost var q0 := q.(nodes := Views(nodes));
    SearchedNothing(q0);
    SearchNodeCases(q, Carriers(q0.nodes, leak), Flags(q0.nodes), n);
    if nodes[n].visited {
      return;
    }
    if !Contains(nodes[n].leaks, leak) {
      return;
    }
    ghost var o := SearchNode(q, Carriers(q0.nodes, leak), Flags(q0.nodes), n);
    last, cells := VisitNode(nodes, n, q, q0, leak, considerLocal, alive, unvisited, o);
  }

  /** The rest of it, for a node that has the bit and is not on the path. */
  method VisitNode(nodes: seq<MemoryNode>, n: NodeId, ghost q: Query, ghost q0: Query, leak: nat,
                   considerLocal: bool, alive: map<NodeId, Obj>, ghost unvisited: nat, ghost o: Outcome)
    returns (last: OrderedReference?, ghost cells: seq<OrderedReference>)
    requires Asks(nodes, n, q, leak, considerLocal, alive)
    requires q0 == q.(nodes := Views(nodes)) && SameGraph(q, q0)
    requires n !in Flags(q0.nodes) && n in Carriers(q0.nodes, leak)
    requires |Ids(q.nodes) - Flags(q0.nodes)| <= unvisited
    requires o == SearchNode(q, Carriers(q0.nodes, leak), Flags(q0.nodes), n)
    modifies nodes
    ensures Searched(q0, o.has, Views(nodes)) && o.has <= Carriers(q0.nodes, leak)
    ensures Holds(last, cells, o.chain) && (last != null ==> fresh(cells))
    decreases unvisited, 2
  {
    last, cells := EnterAndScan(nodes, n, q, q0, leak, considerLocal, alive, unvisited, o);
    LeaveNode(nodes, n, q0, o.has, last, cells, o.chain);
  }

  /** The flag is set, and the references are scanned unless the object is gone. */
  method EnterAndScan(nodes: seq<MemoryNode>, n: NodeId, ghost q: Query, ghost q0: Query, leak: nat,
                      considerLocal: bool, alive: map<NodeId, Obj>, ghost unvisited: nat, ghost o: Outcome)
    returns (last: OrderedReference?, ghost cells: seq<OrderedReference>)
    requires Asks(nodes, n, q, leak, considerLocal, alive)
    requires q0 == q.(nodes := Views(nodes)) && SameGraph(q, q0)
    requires n !in Flags(q0.nodes) && n in Carriers(q0.nodes, leak)
    requires |Ids(q.nodes) - Flags(q0.nodes)| <= unvisited
    requires o == SearchNode(q, Carriers(q0.nodes, leak), Flags(q0.nodes), n)
    modifies nodes
    ensures Scanning(q0, Views(nodes), n, Flags(q0.nodes), o.has)
    ensures Holds(last, cells, o.chain) && (last != null ==> fresh(cells))
    decreases unvisited, 1
  {
    last, cells := null, [];
    SearchNodeCases(q, Carriers(q0.nodes, leak), Flags(q0.nodes), n);
    FewerUnvisited(q, Flags(q0.nodes), n);
    EnterNode(nodes, n, alive, q0);
    if !nodes[n].dead {
      last, cells := ScanReferences(nodes, n, q, q0, leak, considerLocal, alive, unvisited);
    }
  }

  /** Its loop over the references of node `n`, for which the flag is set. */
  method ScanReferences(nodes: seq<MemoryNode>, n: NodeId, ghost q: Query, ghost q0: Query, leak: nat,
                        considerLocal: bool, alive: map<NodeId, Obj>, ghost unvisited: nat)
    returns (last: OrderedReference?, ghost cells: seq<OrderedReference>)
    requires Asks(nodes, n, q, leak, considerLocal, alive) && q0 == q.(nodes := q0.nodes)
    requires SameGraph(q, q0) && n in Carriers(q0.nodes, leak)
    requires Scanning(q0, Views(nodes), n, Flags(q0.nodes), Carriers(q0.nodes, leak))
    requires |Ids(q.nodes) - (Flags(q0.nodes) + {n})| < unvisited
    modifies nodes
    ensures var visited := Flags(q0.nodes);
            var o := SearchRefs(q, Carriers(q0.nodes, leak), visited + {n}, n, 0);
            Scanning(q0, Views(nodes), n, visited, o.has) && Holds(last, cells, o.chain)
    ensures last != null ==> fresh(cells)
    decreases unvisited, 0
  {
    ghost var visited := Flags(q0.nodes);
    ghost var now, cur := Views(nodes), Carriers(q0.nodes, leak);
    ghost var result := SearchRefs(q, cur, visited + {n}, n, 0);
    ScanningNow(q0, now, n, visited, cur);
    var refs := nodes[n].refs;
    assert refs == q.nodes[n].refs;
    last, cells := null, [];
    var i := 0;
    while i < |refs| && last == null
      invariant Views(nodes) == now && Scanning(q0, now, n, visited, cur) && i <= |refs|
      invariant last == null ==> SameOutcome(SearchRefs(q, cur, visited + {n}, n, i), result)
      invariant last != null ==> result.has == cur && result.chain.Some? && Circle(last, cells, result.chain.value)
                                 && fresh(cells)
      decreases |refs| - i
    {
      last, cells, cur := ScanReference(nodes, n, i, refs[i], q, q0, cur, leak, considerLocal, alive, unvisited - 1);
      now := Views(nodes);
      i := i + 1;
    }
  }

  predicate SameOutcome(a: Outcome, b: Outcome) { a.chain == b.chain && a.has == b.has }

  /** What the loop of the search does at its `i`-th reference. */
  lemma SearchRefsCases(q: Query, cur: set<NodeId>, visited: set<NodeId>, n: NodeId, i: nat)
    requires WellLinked(q.nodes) && n < |q.nodes| && n in visited && i < |q.nodes[n].refs|
    ensures var ref, r := q.nodes[n].refs[i], SearchRefs(q, cur, visited, n, i);
            if !Considered(q, ref) then SameOutcome(SearchRefs(q, cur, visited, n, i + 1), r)
            else if IsRootReference(ref.kind) then r.chain == Some([ref]) && r.has == cur
            else
              var o := SearchNode(q, cur, visited, ref.node.value);
              if o.chain.Some? then r.chain == Some([ref] + o.chain.value) && r.has == o.has
              else SameOutcome(SearchRefs(q, o.has - {n}, visited, n, i + 1), r)
  {
  }

  /** A chain of one reference. */
  method StartChain(ref: Ref, ghost nodes: seq<MemoryNode>)
    returns (last: OrderedReference, ghost cells: seq<OrderedReference>)
    ensures Circle(last, cells, [ref]) && fresh(cells) && Views(nodes) == old(Views(nodes))
  {
    last := new OrderedReference.Alone(ref);
    cells := [last];
  }

  /** One turn of the loop. */
  method ScanReference(nodes: seq<MemoryNode>, n: NodeId, ghost i: nat, ref: Ref, ghost q: Query, ghost q0: Query,
                       ghost cur: set<NodeId>, leak: nat, considerLocal: bool, alive: map<NodeId, Obj>,
                       ghost unvisited: nat)
    returns (last: OrderedReference?, ghost cells: seq<OrderedReference>, ghost cur': set<NodeId>)
    requires Asks(nodes, n, q, leak, considerLocal, alive) && q0 == q.(nodes := q0.nodes)
    requires SameGraph(q, q0) && n in Carriers(q0.nodes, leak)
    requires i < |q.nodes[n].refs| && ref == q.nodes[n].refs[i]
    requires Scanning(q0, Views(nodes), n, Flags(q0.nodes), cur)
    requires |Ids(q.nodes) - (Flags(q0.nodes) + {n})| <= unvisited
    modifies nodes
    ensures var visited := Flags(q0.nodes);
            var r := SearchRefs(q, cur, visited + {n}, n, i);
            && Scanning(q0, Views(nodes), n, visited, cur')
            && (last == null ==> SameOutcome(SearchRefs(q, cur', visited + {n}, n, i + 1), r))
            && (last != null ==> r.has == cur' && r.chain.Some? && Circle(last, cells, r.chain.value) && fresh(cells))
    decreases unvisited, 6
  {
    SearchRefsCases(q, cur, Flags(q0.nodes) + {n}, n, i);
    last, cells, cur' := null, [], cur;
    if ShouldConsider(considerLocal, ref.kind) {
      if IsRootReference(ref.kind) {
        last, cells := StartChain(ref, nodes);
      } else {
        ghost var o := SearchNode(q, cur, Flags(q0.nodes) + {n}, ref.node.value);
        last, cells, cur' := FollowReference(nodes, n, ref, q, q0, cur, leak, considerLocal, alive, unvisited, o);
      }
    }
  }

  /** A reference to a node is followed: the search goes on there, and a failure costs node `n` its bit. */
  method FollowReference(nodes: seq<MemoryNode>, n: NodeId, ref: Ref, ghost q: Query, ghost q0: Query,
                         ghost cur: set<NodeId>, leak: nat, considerLocal: bool, alive: map<NodeId, Obj>,
                         ghost unvisited: nat, ghost o: Outcome)
    returns (last: OrderedReference?, ghost cells: seq<OrderedReference>, ghost cur': set<NodeId>)
    requires Asks(nodes, n, q, leak, considerLocal, alive) && q0 == q.(nodes := q0.nodes)
    requires SameGraph(q, q0) && n in Carriers(q0.nodes, leak)
    requires ref in q.nodes[n].refs && !IsRootReference(ref.kind)
    requires Scanning(q0, Views(nodes), n, Flags(q0.nodes), cur)
    requires |Ids(q.nodes) - (Flags(q0.nodes) + {n})| <= unvisited
    requires o == SearchNode(q, cur, Flags(q0.nodes) + {n}, ref.node.value)
    modifies nodes
    ensures Scanning(q0, Views(nodes), n, Flags(q0.nodes), cur')
    ensures cur' == if o.chain.None? then o.has - {n} else o.has
    ensures last == null <==> o.chain.None?
    ensures last != null ==> Circle(last, cells, [ref] + o.chain.value) && fresh(cells)
    decreases unvisited, 5
  {
    last, cells := Descend(nodes, n, ref.node.value, q, q0, cur, leak, considerLocal, alive, unvisited, o);
    if last == null {
      return null, [], o.has - {n};
    }
    cells := Prepend(ref, last, cells, o.chain.value, nodes);
    return last, cells, o.has;
  }

  /** The nested search, at `next`; its failure costs node `n` its bit. */
  method Descend(nodes: seq<MemoryNode>, n: NodeId, next: NodeId, ghost q: Query, ghost q0: Query,
                 ghost cur: set<NodeId>, leak: nat, considerLocal: bool, alive: map<NodeId, Obj>, ghost unvisited: nat,
                 ghost o: Outcome)
    returns (last: OrderedReference?, ghost cells: seq<OrderedReference>)
    requires Asks(nodes, n, q, leak, considerLocal, alive) && q0 == q.(nodes := q0.nodes) && next < |nodes|
    requires SameGraph(q, q0) && n in Carriers(q0.nodes, leak) && Scanning(q0, Views(nodes), n, Flags(q0.nodes), cur)
    requires |Ids(q.nodes) - (Flags(q0.nodes) + {n})| <= unvisited
    requires o == SearchNode(q, cur, Flags(q0.nodes) + {n}, next)
    modifies nodes
    ensures Scanning(q0, Views(nodes), n, Flags(q0.nodes), if o.chain.None? then o.has - {n} else o.has)
    ensures last == null <==> o.chain.None?
    ensures last != null ==> Circle(last, cells, o.chain.value) && fresh(cells)
    decreases unvisited, 4
  {
    ghost var visited, now := Flags(q0.nodes), Views(nodes);
    ScanningNow(q0, now, n, visited, cur);
    last, cells := GenerateReferencesChainForNode(nodes, next, q, leak, considerLocal, alive, unvisited);
    ScanContinues(q0, now, n, visited, cur, o.has, Views(nodes));
    if last == null {
      PruneNode(nodes, n, leak, q0, o.has);
    }
  }

  // ---- The report ----

  /** What is printed for one leak. */
  datatype Report =
    | Suppressed
    | NoReferences
    | AllReferences(refs: seq<Ref>)
    | ChainToRoot(chain: seq<Ref>)

  /** The report for leak `k`, whose node is node `k`, had it been the only one. */
  function ReportFor(nodes: seq<Node>, alive: map<NodeId, Obj>, considerLocal: bool, needReferences: bool,
                     showUnreachables: bool, k: NodeId): Report
    requires WellLinked(nodes) && k < |nodes|
  {
    var chain := if needReferences then TopSearch(Query(nodes, alive, considerLocal, k), k).chain else None;
    if chain.Some? then ChainToRoot(chain.value)
    else if !showUnreachables then Suppressed
    else if needReferences then AllReferences(nodes[k].refs)
    else NoReferences
  }

  /** From leak `from` on, searching `now` is as good as searching `nodes`. */
  ghost predicate AsGood(nodes: seq<Node>, now: seq<Node>, alive: map<NodeId, Obj>, from: nat) {
    && |now| == |nodes|
    && (forall k: NodeId {:trigger now[k]} | k < |nodes| ::
          && now[k].refs == nodes[k].refs && now[k].rc == nodes[k].rc && now[k].visited == nodes[k].visited
          && IsDead(Query(now, alive, false, 0), k) == IsDead(Query(nodes, alive, false, 0), k))
    && (forall leak: nat | leak >= from :: Carriers(now, leak) == Carriers(nodes, leak))
  }

  lemma AsGoodSearch(nodes: seq<Node>, now: seq<Node>, alive: map<NodeId, Obj>, considerLocal: bool, k: NodeId)
    requires WellLinked(nodes) && k < |nodes| && AsGood(nodes, now, alive, k)
    ensures WellLinked(now)
    ensures TopSearch(Query(now, alive, considerLocal, k), k) == TopSearch(Query(nodes, alive, considerLocal, k), k)
  {
    var q, q' := Query(nodes, alive, considerLocal, k), Query(now, alive, considerLocal, k);
    assert SameGraph(q, q');
    SearchSame(q, q', Carriers(now, k), {}, k);
  }

  lemma AsGoodAfter(nodes: seq<Node>, now: seq<Node>, next: seq<Node>, alive: map<NodeId, Obj>, considerLocal: bool,
                    k: NodeId, has: set<NodeId>)
    requires AsGood(nodes, now, alive, k) && Searched(Query(now, alive, considerLocal, k), has, next)
    ensures AsGood(nodes, next, alive, k + 1)
  {
    var q := Query(now, alive, considerLocal, k);
    forall m: NodeId | m < |nodes|
      ensures next[m].refs == now[m].refs && next[m].rc == now[m].rc && next[m].visited == now[m].visited
      ensures IsDead(Query(next, alive, false, 0), m) == IsDead(Query(now, alive, false, 0), m)
      ensures forall leak: nat | leak != k :: Contains(next[m].leaks, leak) == Contains(now[m].leaks, leak)
    {
      assert MayBeFilled(Prune(now[m], m, k, has), next[m], m, alive);
    }
    forall leak: nat | leak >= k + 1 ensures Carriers(next, leak) == Carriers(nodes, leak) {
      assert Carriers(next, leak) == Carriers(now, leak);
    }
  }

  lemma NoFlags(nodes: seq<Node>)
    requires forall k: NodeId | k < |nodes| :: !nodes[k].visited
    ensures Flags(nodes) == {}
  {
  }

  /** `printReferencesChainForLeakingNodes`: leak `k` is the `k`-th node. */
  method PrintReferencesChainForLeakingNodes(nodes: seq<MemoryNode>, leaks: nat, alive: map<NodeId, Obj>,
                                             considerLocal: bool, needReferences: bool, showUnreachables: bool)
    returns (reports: seq<Report>)
    requires Addressed(nodes) && WellLinked(Views(nodes)) && leaks <= |nodes|
    requires forall k: NodeId | k < |nodes| :: !nodes[k].visited
    modifies nodes
    ensures |reports| == leaks
    ensures forall k: NodeId | k < leaks ::
              reports[k] == old(ReportFor(Views(nodes), alive, considerLocal, needReferences, showUnreachables, k))
    ensures AsGood(old(Views(nodes)), Views(nodes), alive, leaks)
  {
    ghost var before, now := Views(nodes), Views(nodes);
    reports := [];
    for k := 0 to leaks
      invariant |reports| == k && Views(nodes) == now && AsGood(before, now, alive, k)
      invariant forall j: NodeId | j < k ::
                  reports[j] == ReportFor(before, alive, considerLocal, needReferences, showUnreachables, j)
    {
      AsGoodSearch(before, now, alive, considerLocal, k);
      var report := ReportLeak(nodes, k, alive, considerLocal, needReferences, showUnreachables, before);
      now := Views(nodes);
      reports := reports + [report];
    }
  }

  /** The report for one leak. */
  method ReportLeak(nodes: seq<MemoryNode>, k: NodeId, alive: map<NodeId, Obj>, considerLocal: bool,
                    needReferences: bool, showUnreachables: bool, ghost before: seq<Node>)
    returns (report: Report)
    requires Addressed(nodes) && WellLinked(before) && k < |nodes| && AsGood(before, Views(nodes), alive, k)
    requires forall j: NodeId | j < |before| :: !before[j].visited
    modifies nodes
    ensures report == ReportFor(before, alive, considerLocal, needReferences, showUnreachables, k)
    ensures AsGood(before, Views(nodes), alive, k + 1)
  {
    var last: OrderedReference? := null;
    ghost var cells := [];
    if needReferences {
      last, cells := SearchLeak(nodes, k, alive, considerLocal, before);
    } else {
      AsGoodNext(before, Views(nodes), alive, k);
    }
    if last == null && !showUnreachables {
      return Suppressed;
    }
    FillLeak(nodes, k, alive, before);
    if !needReferences {
      return NoReferences;
    }
    if last == null {
      return AllReferences(nodes[k].refs);
    }
    var chain, freed :=
      PrintReferenceChainToNode(last, cells, TopSearch(Query(before, alive, considerLocal, k), k).chain.value);
    return ChainToRoot(chain);
  }

  /** The search at top level. */
  method SearchLeak(nodes: seq<MemoryNode>, k: NodeId, alive: map<NodeId, Obj>, considerLocal: bool,
                    ghost before: seq<Node>)
    returns (last: OrderedReference?, ghost cells: seq<OrderedReference>)
    requires Addressed(nodes) && WellLinked(before) && k < |nodes| && AsGood(before, Views(nodes), alive, k)
    requires forall j: NodeId | j < |before| :: !before[j].visited
    modifies nodes
    ensures var chain := TopSearch(Query(before, alive, considerLocal, k), k).chain;
            && (last == null <==> chain.None?) && (last != null ==> Circle(last, cells, chain.value))
    ensures AsGood(before, Views(nodes), alive, k + 1)
  {
    ghost var q := Query(Views(nodes), alive, considerLocal, k);
    AsGoodSearch(before, q.nodes, alive, considerLocal, k);
    NoFlags(q.nodes);
    last, cells := GenerateReferencesChainForNode(nodes, k, q, k, considerLocal, alive, |Ids(q.nodes)|);
    AsGoodAfter(before, q.nodes, Views(nodes), alive, considerLocal, k, TopSearch(q, k).has);
  }

  /** The leak's object is looked up for the report. */
  method FillLeak(nodes: seq<MemoryNode>, k: NodeId, alive: map<NodeId, Obj>, ghost before: seq<Node>)
    requires Addressed(nodes) && k < |nodes| && AsGood(before, Views(nodes), alive, k + 1)
    modifies nodes[k]
    ensures AsGood(before, Views(nodes), alive, k + 1)
  {
    ghost var now := Views(nodes);
    assert now[k] == nodes[k].View();
    FillClassInMemoryNode(nodes[k], alive);
    ghost var next := Views(nodes);
    assert next[k] == nodes[k].View();
    assert forall j: NodeId | j < |now| && j != k :: next[j] == now[j];
    FilledAsGood(before, now, next, alive, k);
  }

  lemma AsGoodNext(nodes: seq<Node>, now: seq<Node>, alive: map<NodeId, Obj>, k: NodeId)
    requires AsGood(nodes, now, alive, k)
    ensures AsGood(nodes, now, alive, k + 1)
  {
    assert forall leak: nat | leak >= k + 1 :: Carriers(now, leak) == Carriers(nodes, leak);
  }

  lemma FilledAsGood(nodes: seq<Node>, now: seq<Node>, next: seq<Node>, alive: map<NodeId, Obj>, k: NodeId)
    requires k < |nodes| && AsGood(nodes, now, alive, k + 1) && |next| == |now|
    requires forall j: NodeId | j < |now| && j != k :: next[j] == now[j]
    requires MayBeFilled(now[k], next[k], k, alive)
    ensures AsGood(nodes, next, alive, k + 1)
  {
    forall j: NodeId | j < |nodes|
      ensures next[j].refs == nodes[j].refs && next[j].rc == nodes[j].rc && next[j].visited == nodes[j].visited
      ensures IsDead(Query(next, alive, false, 0), j) == IsDead(Query(nodes, alive, false, 0), j)
    {
      assert now[j].refs == nodes[j].refs;
    }
    forall leak: nat | leak >= k + 1 ensures Carriers(next, leak) == Carriers(nodes, leak) {
      forall n: NodeId | n < |now| ensures Contains(next[n].leaks, leak) == Contains(now[n].leaks, leak) {
      }
      assert Carriers(next, leak) == Carriers(now, leak);
    }
  }
}
