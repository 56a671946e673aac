/** The search for a reference chain to a root (`generateReferencesChainForNode`) as a function, and what it promises.
    JvmReference.dfy has the code that works in place and is proved equal to this. */
module Search {
  import opened Wrappers
  import opened LeakBits
  import opened DataStruct

  /** What the search is about: the nodes, whose objects are gone, whether local references count, and the leak. */
  datatype Query = Query(nodes: seq<Node>, alive: map<NodeId, Obj>, considerLocal: bool, leak: nat)

  /** `fillClassInMemoryNode` finds the object of the node collected. */
  predicate IsDead(q: Query, n: NodeId)
    requires n < |q.nodes|
  {
    q.nodes[n].dead || (q.nodes[n].obj.None? && n !in q.alive)
  }

  /** References without a node are root references (otherwise the search stops the process) and all nodes exist. */
  predicate WellLinked(nodes: seq<Node>) {
    forall k: NodeId, ref | k < |nodes| && ref in nodes[k].refs ::
      if ref.node.None? then IsRootReference(ref.kind) else ref.node.value < |nodes|
  }

  /** The nodes whose bitset contains the leak. */
  function Carriers(nodes: seq<Node>, leak: nat): set<NodeId> {
    set n: NodeId | n < |nodes| && Contains(nodes[n].leaks, leak)
  }

  /** A found chain (the references from the node to the root), the nodes that still have the bit, the calls made. */
  datatype Outcome = Outcome(chain: Option<seq<Ref>>, has: set<NodeId>, calls: nat)

  function Below(n: nat): (r: set<NodeId>)
    ensures forall k: NodeId :: k in r <==> k < n
  {
    if n == 0 then {} else Below(n - 1) + {n - 1}
  }

  function Ids(nodes: seq<Node>): set<NodeId> { Below(|nodes|) }

  predicate Considered(q: Query, ref: Ref) { ShouldConsider(q.considerLocal, ref.kind) }

  /** `has` holds the nodes with the leak's bit, `visited` those whose flag is set. */
  function SearchNode(q: Query, has: set<NodeId>, visited: set<NodeId>, n: NodeId): Outcome
    requires WellLinked(q.nodes) && n < |q.nodes|
    decreases Ids(q.nodes) - visited, 0
  {
    if n in visited || n !in has || IsDead(q, n) then Outcome(None, has, 1)
    else
      assert n in Ids(q.nodes) - visited;
      var o := SearchRefs(q, has, visited + {n}, n, 0);
      o.(calls := o.calls + 1)
  }

  /** The loop over the references of `n`, from the one at `i`. */
  function SearchRefs(q: Query, has: set<NodeId>, visited: set<NodeId>, n: NodeId, i: nat): Outcome
    requires WellLinked(q.nodes) && n < |q.nodes| && i <= |q.nodes[n].refs|
    decreases Ids(q.nodes) - visited, 1 + |q.nodes[n].refs| - i
  {
    if i == |q.nodes[n].refs| then Outcome(None, has, 0)
    else
      var ref := q.nodes[n].refs[i];
      if !Considered(q, ref) then SearchRefs(q, has, visited, n, i + 1)
      else if IsRootReference(ref.kind) then Outcome(Some([ref]), has, 0)
      else
        var o := SearchNode(q, has, visited, ref.node.value);
        if o.chain.Some? then o.(chain := Some([ref] + o.chain.value))
        else
          var rest := SearchRefs(q, o.has - {n}, visited, n, i + 1);
          rest.(calls := o.calls + rest.calls)
  }

  // ---- What a chain is ----

  /** A chain from `n` over considered references, through nodes of `has` whose objects live, to a root. */
  predicate IsChain(q: Query, has: set<NodeId>, n: NodeId, chain: seq<Ref>)
    decreases chain
  {
    && n < |q.nodes| && n in has && !IsDead(q, n)
    && chain != [] && chain[0] in q.nodes[n].refs && Considered(q, chain[0])
    && if |chain| == 1 then IsRootReference(chain[0].kind)
       else !IsRootReference(chain[0].kind) && chain[0].node.Some? && IsChain(q, has, chain[0].node.value, chain[1..])
  }

  /** The nodes that a chain passes after its first. */
  function Passed(chain: seq<Ref>): seq<NodeId> {
    if |chain| <= 1 then []
    else (if chain[0].node.Some? then [chain[0].node.value] else []) + Passed(chain[1..])
  }

  predicate NoRepeats(s: seq<NodeId>) { forall i, j | 0 <= i < j < |s| :: s[i] != s[j] }

  // ---- Correctness ----

  /** Failed nodes have no root reference, and lead only to failed, visited or hopeless nodes. */
  ghost predicate Failed(q: Query, has: set<NodeId>, visited: set<NodeId>, failed: set<NodeId>)
  {
    && failed !! visited
    && forall n <- failed, ref | n < |q.nodes| && ref in q.nodes[n].refs && Considered(q, ref) ::
         && !IsRootReference(ref.kind)
         && (ref.node.Some? ==> Hopeless(q, has, visited, failed, ref.node.value))
  }

  predicate Hopeless(q: Query, has: set<NodeId>, visited: set<NodeId>, failed: set<NodeId>, n: NodeId) {
    n in failed || n in visited || n !in has || (n < |q.nodes| && IsDead(q, n))
  }

  /** The references of `n` before `i` led nowhere. */
  ghost predicate TriedRefs(q: Query, has: set<NodeId>, visited: set<NodeId>, failed: set<NodeId>, n: NodeId, i: nat)
    requires n < |q.nodes| && i <= |q.nodes[n].refs|
  {
    forall j: nat | j < i && Considered(q, q.nodes[n].refs[j]) ::
      && !IsRootReference(q.nodes[n].refs[j].kind)
      && (q.nodes[n].refs[j].node.Some? ==> Hopeless(q, has, visited, failed, q.nodes[n].refs[j].node.value))
  }

  /** `has0` is what the top-level search began with, `has` what is left of it. */
  lemma SearchNodeFails(q: Query, has0: set<NodeId>, has: set<NodeId>, visited: set<NodeId>, failed: set<NodeId>,
                        n: NodeId) returns (failed': set<NodeId>)
    requires WellLinked(q.nodes) && n < |q.nodes|
    requires Failed(q, has0, visited, failed) && has <= has0 && has0 - has <= failed + visited
    requires SearchNode(q, has, visited, n).chain.None?
    ensures failed <= failed' && Failed(q, has0, visited, failed')
    ensures Hopeless(q, has0, visited, failed', n)
    ensures var h := SearchNode(q, has, visited, n).has; h <= has && has0 - h <= failed' + visited
    decreases Ids(q.nodes) - visited, 0
  {
    if n in visited || n !in has || IsDead(q, n) {
      failed' := failed;
    } else {
      assert n in Ids(q.nodes) - visited;
      if n in failed {
        var f := SearchRefsFails(q, has0, has, visited + {n}, failed - {n}, n, 0);
        failed' := f + {n};
      } else {
        var f := SearchRefsFails(q, has0, has, visited + {n}, failed, n, 0);
        failed' := f + {n};
      }
      FailedPops(q, has0, visited, failed' - {n}, n);
    }
  }

  lemma FailedPops(q: Query, has0: set<NodeId>, visited: set<NodeId>, f: set<NodeId>, n: NodeId)
    requires WellLinked(q.nodes) && n < |q.nodes| && n !in visited && n !in f
    requires Failed(q, has0, visited + {n}, f) && TriedRefs(q, has0, visited + {n}, f, n, |q.nodes[n].refs|)
    ensures Failed(q, has0, visited, f + {n})
  {
  }

  lemma SearchRefsFails(q: Query, has0: set<NodeId>, has: set<NodeId>, visited: set<NodeId>, failed: set<NodeId>,
                        n: NodeId, i: nat) returns (failed': set<NodeId>)
    requires WellLinked(q.nodes) && n < |q.nodes| && i <= |q.nodes[n].refs| && n in visited
    requires Failed(q, has0, visited, failed) && has <= has0 && has0 - has <= failed + visited
    requires TriedRefs(q, has0, visited, failed, n, i)
    requires SearchRefs(q, has, visited, n, i).chain.None?
    ensures failed <= failed' && Failed(q, has0, visited, failed')
    ensures TriedRefs(q, has0, visited, failed', n, |q.nodes[n].refs|)
    ensures var h := SearchRefs(q, has, visited, n, i).has; h <= has && has0 - h <= failed' + visited
    decreases Ids(q.nodes) - visited, 1 + |q.nodes[n].refs| - i
  {
    if i == |q.nodes[n].refs| {
      failed' := failed;
    } else {
      var ref := q.nodes[n].refs[i];
      if !Considered(q, ref) {
        failed' := SearchRefsFails(q, has0, has, visited, failed, n, i + 1);
      } else {
        var o := SearchNode(q, has, visited, ref.node.value);
        var f := SearchNodeFails(q, has0, has, visited, failed, ref.node.value);
        failed' := SearchRefsFails(q, has0, o.has - {n}, visited, f, n, i + 1);
      }
    }
  }

  lemma {:induction false} ChainMonotone(q: Query, has: set<NodeId>, has': set<NodeId>, n: NodeId, chain: seq<Ref>)
    requires has <= has' && IsChain(q, has, n, chain)
    ensures IsChain(q, has', n, chain)
    decreases chain
  {
    if |chain| > 1 {
      ChainMonotone(q, has, has', chain[0].node.value, chain[1..]);
    }
  }

  lemma SearchShrinks(q: Query, has: set<NodeId>, visited: set<NodeId>, n: NodeId)
    requires WellLinked(q.nodes) && n < |q.nodes|
    ensures SearchNode(q, has, visited, n).has <= has
    decreases Ids(q.nodes) - visited, 0
  {
    if !(n in visited || n !in has || IsDead(q, n)) {
      assert n in Ids(q.nodes) - visited;
      RefsShrink(q, has, visited + {n}, n, 0);
    }
  }

  lemma RefsShrink(q: Query, has: set<NodeId>, visited: set<NodeId>, n: NodeId, i: nat)
    requires WellLinked(q.nodes) && n < |q.nodes| && i <= |q.nodes[n].refs|
    ensures SearchRefs(q, has, visited, n, i).has <= has
    decreases Ids(q.nodes) - visited, 1 + |q.nodes[n].refs| - i
  {
    if i < |q.nodes[n].refs| {
      var ref := q.nodes[n].refs[i];
      if !Considered(q, ref) {
        RefsShrink(q, has, visited, n, i + 1);
      } else if !IsRootReference(ref.kind) {
        SearchShrinks(q, has, visited, ref.node.value);
        RefsShrink(q, SearchNode(q, has, visited, ref.node.value).has - {n}, visited, n, i + 1);
      }
    }
  }

  /** The nodes that a found chain passes are new and distinct. */
  predicate NodeSimple(visited: set<NodeId>, chain: seq<Ref>) {
    NoRepeats(Passed(chain)) && forall m <- Passed(chain) :: m !in visited
  }

  lemma SearchNodeFinds(q: Query, has: set<NodeId>, visited: set<NodeId>, n: NodeId)
    requires WellLinked(q.nodes) && n < |q.nodes| && SearchNode(q, has, visited, n).chain.Some?
    ensures var chain := SearchNode(q, has, visited, n).chain.value;
            n !in visited && IsChain(q, has, n, chain) && NodeSimple(visited + {n}, chain)
    decreases Ids(q.nodes) - visited, 0
  {
    assert n in Ids(q.nodes) - visited;
    SearchRefsFinds(q, has, has, visited + {n}, n, 0);
  }

  /** `n` may have lost its bit to an earlier failure; it had it in `has0`. */
  lemma SearchRefsFinds(q: Query, has0: set<NodeId>, has: set<NodeId>, visited: set<NodeId>, n: NodeId, i: nat)
    requires WellLinked(q.nodes) && n < |q.nodes| && i <= |q.nodes[n].refs|
    requires has <= has0 && n in has0 && !IsDead(q, n) && n in visited
    requires SearchRefs(q, has, visited, n, i).chain.Some?
    ensures var chain := SearchRefs(q, has, visited, n, i).chain.value;
            IsChain(q, has0, n, chain) && NodeSimple(visited, chain)
    decreases Ids(q.nodes) - visited, 1 + |q.nodes[n].refs| - i
  {
    var ref := q.nodes[n].refs[i];
    if !Considered(q, ref) {
      SearchRefsFinds(q, has0, has, visited, n, i + 1);
    } else if !IsRootReference(ref.kind) {
      var m := ref.node.value;
      var o := SearchNode(q, has, visited, m);
      if o.chain.Some? {
        SearchNodeFinds(q, has, visited, m);
        ChainMonotone(q, has, has0, m, o.chain.value);
        var chain := [ref] + o.chain.value;
        assert chain[1..] == o.chain.value;
        assert Passed(chain) == [m] + Passed(o.chain.value);
      } else {
        SearchShrinks(q, has, visited, m);
        SearchRefsFinds(q, has0, o.has - {n}, visited, n, i + 1);
      }
    }
  }

  lemma {:induction false} NoChainFromFailed(q: Query, has: set<NodeId>, failed: set<NodeId>, n: NodeId,
                                             chain: seq<Ref>)
    requires Failed(q, has, {}, failed) && Hopeless(q, has, {}, failed, n)
    ensures !IsChain(q, has, n, chain)
    decreases chain
  {
    if IsChain(q, has, n, chain) && |chain| > 1 {
      NoChainFromFailed(q, has, failed, chain[0].node.value, chain[1..]);
    }
  }

  /** The outcome of the search that starts at `n` with all flags clear. */
  function TopSearch(q: Query, n: NodeId): Outcome
    requires WellLinked(q.nodes) && n < |q.nodes|
  {
    SearchNode(q, Carriers(q.nodes, q.leak), {}, n)
  }

  ghost predicate HasChain(q: Query, n: NodeId) {
    exists chain: seq<Ref> :: IsChain(q, Carriers(q.nodes, q.leak), n, chain)
  }

  /** The search is exact: it finds a chain precisely when there is one, despite the flags and the pruning; and what it
      finds is a chain on which no node occurs twice. */
  lemma SearchIsExact(q: Query, n: NodeId)
    requires WellLinked(q.nodes) && n < |q.nodes|
    ensures TopSearch(q, n).chain.Some? <==> HasChain(q, n)
    ensures TopSearch(q, n).chain.Some? ==>
              var chain := TopSearch(q, n).chain.value;
              IsChain(q, Carriers(q.nodes, q.leak), n, chain) && NoRepeats([n] + Passed(chain))
  {
    var has := Carriers(q.nodes, q.leak);
    if TopSearch(q, n).chain.Some? {
      SearchNodeFinds(q, has, {}, n);
      var found := TopSearch(q, n).chain.value;
      assert IsChain(q, Carriers(q.nodes, q.leak), n, found);
      assert NoRepeats([n] + Passed(found));
    } else {
      var failed := SearchNodeFails(q, has, has, {}, {}, n);
      forall chain ensures !IsChain(q, has, n, chain) {
        NoChainFromFailed(q, has, failed, n, chain);
      }
    }
  }

  // ---- Work ----

  /** The references of a list that the search follows. */
  function Followed(q: Query, refs: seq<Ref>): nat {
    if refs == [] then 0
    else (if Considered(q, refs[0]) && !IsRootReference(refs[0].kind) then 1 else 0) + Followed(q, refs[1..])
  }

  /** The references still to be followed: those of unvisited nodes with the bit. */
  function Load(q: Query, has: set<NodeId>, visited: set<NodeId>, k: nat): nat
    requires k <= |q.nodes|
  {
    if k == 0 then 0
    else Load(q, has, visited, k - 1) +
         if k - 1 in has && k - 1 !in visited then Followed(q, q.nodes[k - 1].refs) else 0
  }

  lemma {:induction false} LoadVisit(q: Query, has: set<NodeId>, visited: set<NodeId>, n: NodeId, k: nat)
    requires k <= |q.nodes| && n < |q.nodes| && n !in visited
    ensures Load(q, has, visited, k) ==
            Load(q, has, visited + {n}, k) + if n < k && n in has then Followed(q, q.nodes[n].refs) else 0
  {
    if k > 0 {
      LoadVisit(q, has, visited, n, k - 1);
    }
  }

  lemma {:induction false} LoadPrune(q: Query, has: set<NodeId>, visited: set<NodeId>, n: NodeId, k: nat)
    requires k <= |q.nodes| && n in visited
    ensures Load(q, has - {n}, visited, k) == Load(q, has, visited, k)
  {
    if k > 0 {
      LoadPrune(q, has, visited, n, k - 1);
    }
  }

  lemma NodeWork(q: Query, has: set<NodeId>, visited: set<NodeId>, n: NodeId)
    requires WellLinked(q.nodes) && n < |q.nodes|
    ensures var o := SearchNode(q, has, visited, n);
            o.calls + (if o.chain.None? then Load(q, o.has, visited, |q.nodes|) else 0)
              <= 1 + Load(q, has, visited, |q.nodes|)
    decreases Ids(q.nodes) - visited, 0
  {
    if !(n in visited || n !in has || IsDead(q, n)) {
      assert n in Ids(q.nodes) - visited;
      RefsWork(q, has, visited + {n}, n, 0);
      var o := SearchRefs(q, has, visited + {n}, n, 0);
      assert q.nodes[n].refs[0..] == q.nodes[n].refs;
      LoadVisit(q, has, visited, n, |q.nodes|);
      LoadVisit(q, o.has, visited, n, |q.nodes|);
    }
  }

  lemma RefsWork(q: Query, has: set<NodeId>, visited: set<NodeId>, n: NodeId, i: nat)
    requires WellLinked(q.nodes) && n < |q.nodes| && i <= |q.nodes[n].refs| && n in visited
    ensures var o := SearchRefs(q, has, visited, n, i);
            && o.calls + (if o.chain.None? then Load(q, o.has, visited, |q.nodes|) else 0)
                 <= Followed(q, q.nodes[n].refs[i..]) + Load(q, has, visited, |q.nodes|)
            && (o.chain.None? && Followed(q, q.nodes[n].refs[i..]) > 0 ==> n !in o.has)
    decreases Ids(q.nodes) - visited, 1 + |q.nodes[n].refs| - i
  {
    var refs := q.nodes[n].refs;
    if i < |refs| {
      assert refs[i..][1..] == refs[i + 1..];
      if !Considered(q, refs[i]) {
        RefsWork(q, has, visited, n, i + 1);
      } else if !IsRootReference(refs[i].kind) {
        var o := SearchNode(q, has, visited, refs[i].node.value);
        NodeWork(q, has, visited, refs[i].node.value);
        if o.chain.None? {
          LoadPrune(q, o.has, visited, n, |q.nodes|);
          RefsWork(q, o.has - {n}, visited, n, i + 1);
          RefsShrink(q, o.has - {n}, visited, n, i + 1);
        }
      }
    }
  }

  /** All references that a search could follow. */
  function AllFollowed(q: Query, k: nat): nat
    requires k <= |q.nodes|
  {
    if k == 0 then 0 else AllFollowed(q, k - 1) + Followed(q, q.nodes[k - 1].refs)
  }

  lemma {:induction false} LoadBounded(q: Query, has: set<NodeId>, visited: set<NodeId>, k: nat)
    requires k <= |q.nodes|
    ensures Load(q, has, visited, k) <= AllFollowed(q, k)
  {
    if k > 0 {
      LoadBounded(q, has, visited, k - 1);
    }
  }

  /** Every node of a found chain was called for. */
  lemma {:induction false} NodeCalls(q: Query, has: set<NodeId>, visited: set<NodeId>, n: NodeId)
    requires WellLinked(q.nodes) && n < |q.nodes|
    ensures var o := SearchNode(q, has, visited, n); o.calls >= if o.chain.Some? then |o.chain.value| else 1
    decreases Ids(q.nodes) - visited, 0
  {
    if !(n in visited || n !in has || IsDead(q, n)) {
      assert n in Ids(q.nodes) - visited;
      RefsCalls(q, has, visited + {n}, n, 0);
    }
  }

  lemma {:induction false} RefsCalls(q: Query, has: set<NodeId>, visited: set<NodeId>, n: NodeId, i: nat)
    requires WellLinked(q.nodes) && n < |q.nodes| && i <= |q.nodes[n].refs|
    ensures var o := SearchRefs(q, has, visited, n, i); o.chain.Some? ==> o.calls + 1 >= |o.chain.value|
    decreases Ids(q.nodes) - visited, 1 + |q.nodes[n].refs| - i
  {
    if i < |q.nodes[n].refs| {
      var ref := q.nodes[n].refs[i];
      if !Considered(q, ref) {
        RefsCalls(q, has, visited, n, i + 1);
      } else if !IsRootReference(ref.kind) {
        NodeCalls(q, has, visited, ref.node.value);
        RefsCalls(q, SearchNode(q, has, visited, ref.node.value).has - {n}, visited, n, i + 1);
      }
    }
  }

  /** The pruning makes the search linear, although every flag is reset on the way back. */
  lemma SearchIsLinear(q: Query, n: NodeId)
    requires WellLinked(q.nodes) && n < |q.nodes|
    ensures TopSearch(q, n).calls <= 1 + AllFollowed(q, |q.nodes|)
    ensures TopSearch(q, n).calls >= if TopSearch(q, n).chain.Some? then |TopSearch(q, n).chain.value| else 1
  {
    NodeCalls(q, Carriers(q.nodes, q.leak), {}, n);
    NodeWork(q, Carriers(q.nodes, q.leak), {}, n);
    LoadBounded(q, Carriers(q.nodes, q.leak), {}, |q.nodes|);
  }

  // ---- One leak's search does not disturb another's ----

  /** What a search leaves: the leak's bit is gone from the nodes that are no longer in `has`. */
  function Prune(n: Node, id: NodeId, leak: nat, has: set<NodeId>): Node {
    if Contains(n.leaks, leak) && id !in has then n.(leaks := Remove(n.leaks, leak)) else n
  }

  /** What `fillClassInMemoryNode` may have done to a node. */
  predicate MayBeFilled(n: Node, n': Node, id: NodeId, alive: map<NodeId, Obj>) {
    n' == n || (!n.dead && n.obj.None? && n' == if id in alive then n.(obj := Some(alive[id])) else n.(dead := true))
  }

  predicate Searched(q: Query, has: set<NodeId>, nodes': seq<Node>) {
    |nodes'| == |q.nodes| &&
    forall k: NodeId {:trigger nodes'[k]} | k < |q.nodes| ::
      MayBeFilled(Prune(q.nodes[k], k, q.leak, has), nodes'[k], k, q.alive)
  }

  /** The two queries differ at most in the leak bits of nodes. */
  predicate SameGraph(q: Query, q': Query) {
    && |q.nodes| == |q'.nodes| && q.considerLocal == q'.considerLocal
    && forall k: NodeId
         {:trigger q.nodes[k].refs} {:trigger q'.nodes[k].refs} {:trigger IsDead(q, k)} {:trigger IsDead(q', k)}
         | k < |q.nodes| :: q.nodes[k].refs == q'.nodes[k].refs && IsDead(q, k) == IsDead(q', k)
  }

  lemma SearchSame(q: Query, q': Query, has: set<NodeId>, visited: set<NodeId>, n: NodeId)
    requires WellLinked(q.nodes) && WellLinked(q'.nodes) && SameGraph(q, q') && n < |q.nodes|
    ensures SearchNode(q, has, visited, n) == SearchNode(q', has, visited, n)
    decreases Ids(q.nodes) - visited, 0
  {
    if !(n in visited || n !in has || IsDead(q, n)) {
      assert n in Ids(q.nodes) - visited;
      SearchRefsSame(q, q', has, visited + {n}, n, 0);
    }
  }

  lemma SearchRefsSame(q: Query, q': Query, has: set<NodeId>, visited: set<NodeId>, n: NodeId, i: nat)
    requires WellLinked(q.nodes) && WellLinked(q'.nodes) && SameGraph(q, q') && n < |q.nodes| && i <= |q.nodes[n].refs|
    ensures SearchRefs(q, has, visited, n, i) == SearchRefs(q', has, visited, n, i)
    decreases Ids(q.nodes) - visited, 1 + |q.nodes[n].refs| - i
  {
    if i < |q.nodes[n].refs| {
      var ref := q.nodes[n].refs[i];
      if !Considered(q, ref) {
        SearchRefsSame(q, q', has, visited, n, i + 1);
      } else if !IsRootReference(ref.kind) {
        SearchSame(q, q', has, visited, ref.node.value);
        var o := SearchNode(q, has, visited, ref.node.value);
        SearchRefsSame(q, q', o.has - {n}, visited, n, i + 1);
      }
    }
  }

  /** After any search for one leak, the search for another comes out as it would have before. */
  lemma SearchesAreIndependent(q: Query, has: set<NodeId>, nodes': seq<Node>, leak': nat, n: NodeId)
    requires WellLinked(q.nodes) && n < |q.nodes| && leak' != q.leak
    requires Searched(q, has, nodes')
    ensures WellLinked(nodes')
    ensures TopSearch(q.(nodes := nodes', leak := leak'), n) == TopSearch(q.(leak := leak'), n)
  {
    var q' := q.(nodes := nodes', leak := leak');
    forall k: NodeId | k < |q.nodes|
      ensures q.nodes[k].refs == nodes'[k].refs && IsDead(q, k) == IsDead(q', k)
      ensures Contains(nodes'[k].leaks, leak') == Contains(q.nodes[k].leaks, leak')
    {
      assert MayBeFilled(Prune(q.nodes[k], k, q.leak, has), nodes'[k], k, q.alive);
    }
    assert Carriers(nodes', leak') == Carriers(q.nodes, leak');
    SearchSame(q.(leak := leak'), q', Carriers(nodes', leak'), {}, n);
  }

  // ---- Composing what searches leave ----

  lemma SearchedNodes(q: Query, has: set<NodeId>, nodes': seq<Node>)
    requires Searched(q, has, nodes') && has <= Carriers(q.nodes, q.leak)
    ensures Carriers(nodes', q.leak) == has && SameGraph(q, q.(nodes := nodes'))
    ensures forall k: NodeId | k < |q.nodes| :: nodes'[k].visited == q.nodes[k].visited && nodes'[k].rc == q.nodes[k].rc
  {
    forall k: NodeId | k < |q.nodes|
      ensures Contains(nodes'[k].leaks, q.leak) <==> k in has
      ensures nodes'[k].visited == q.nodes[k].visited && nodes'[k].rc == q.nodes[k].rc
      ensures q.nodes[k].refs == nodes'[k].refs && IsDead(q, k) == IsDead(q.(nodes := nodes'), k)
    {
      assert MayBeFilled(Prune(q.nodes[k], k, q.leak, has), nodes'[k], k, q.alive);
    }
  }

  lemma SearchedTwice(q: Query, has1: set<NodeId>, nodes1: seq<Node>, has2: set<NodeId>, nodes2: seq<Node>)
    requires Searched(q, has1, nodes1) && Searched(q.(nodes := nodes1), has2, nodes2) && has2 <= has1
    ensures Searched(q, has2, nodes2)
  {
    forall k: NodeId | k < |q.nodes|
      ensures MayBeFilled(Prune(q.nodes[k], k, q.leak, has2), nodes2[k], k, q.alive)
    {
      assert MayBeFilled(Prune(q.nodes[k], k, q.leak, has1), nodes1[k], k, q.alive);
      assert MayBeFilled(Prune(nodes1[k], k, q.leak, has2), nodes2[k], k, q.alive);
    }
  }
}
