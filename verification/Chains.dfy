/** What the search for a chain finds, in terms of nodes, kinds and lists alone, and which chain it finds: the first
    one in depth-first order. */
module Chains {
  import opened Wrappers
  import opened LeakBits
  import opened DataStruct
  import opened Search
  import opened Callback

  // ---- Ways ----

  /** The node still has the bit, and its object lives: it is known, or the JVM finds it by its tag. */
  predicate Stands(q: Query, n: NodeId) {
    && n < |q.nodes| && q.leak < q.nodes[n].leaks.size && q.leak in q.nodes[n].leaks.raw
    && !q.nodes[n].dead && (q.nodes[n].obj.Some? || n in q.alive)
  }

  /** `chain` leads from `n` over the nodes `at`: all references but the last are inner ones, and the last is a
      root, which is a local only if locals count. */
  predicate Way(q: Query, n: NodeId, chain: seq<Ref>, at: seq<NodeId>) {
    && |at| == |chain| > 0 && at[0] == n
    && (forall j | 0 <= j < |at| :: Stands(q, at[j]) && chain[j] in q.nodes[at[j]].refs)
    && (forall j | 0 <= j < |at| - 1 :: Inner(chain[j].kind) && chain[j].node == Some(at[j + 1]))
    && !Inner(chain[|chain| - 1].kind) && (Local(chain[|chain| - 1].kind) ==> q.considerLocal)
  }

  lemma StandsExactly(q: Query, n: NodeId)
    ensures Stands(q, n) <==> n in Carriers(q.nodes, q.leak) && !IsDead(q, n)
  {
  }

  /** The nodes of a chain. */
  function NodesOf(n: NodeId, chain: seq<Ref>): seq<NodeId>
    decreases chain
  {
    [n] + if |chain| > 1 && chain[0].node.Some? then NodesOf(chain[0].node.value, chain[1..]) else []
  }

  lemma {:induction false} ChainIsWay(q: Query, n: NodeId, chain: seq<Ref>)
    requires IsChain(q, Carriers(q.nodes, q.leak), n, chain)
    ensures Way(q, n, chain, NodesOf(n, chain)) && NodesOf(n, chain) == [n] + Passed(chain)
    decreases chain
  {
    StandsExactly(q, n);
    KindsExactly(chain[0].kind);
    if |chain| > 1 {
      ChainIsWay(q, chain[0].node.value, chain[1..]);
      WayMore(q, n, chain, NodesOf(chain[0].node.value, chain[1..]));
    }
  }

  lemma WayMore(q: Query, n: NodeId, chain: seq<Ref>, rest: seq<NodeId>)
    requires |chain| > 1 && Stands(q, n) && chain[0] in q.nodes[n].refs && Inner(chain[0].kind)
    requires chain[0].node.Some? && Way(q, chain[0].node.value, chain[1..], rest)
    ensures Way(q, n, chain, [n] + rest)
  {
    var at := [n] + rest;
    forall j | 0 <= j < |at| ensures Stands(q, at[j]) && chain[j] in q.nodes[at[j]].refs {
      assert j > 0 ==> chain[j] == chain[1..][j - 1] && at[j] == rest[j - 1];
    }
    forall j | 0 <= j < |at| - 1 ensures Inner(chain[j].kind) && chain[j].node == Some(at[j + 1]) {
      assert j > 0 ==> chain[j] == chain[1..][j - 1] && at[j + 1] == rest[j];
    }
  }

  lemma {:induction false} WayIsChain(q: Query, n: NodeId, chain: seq<Ref>, at: seq<NodeId>)
    requires Way(q, n, chain, at)
    ensures IsChain(q, Carriers(q.nodes, q.leak), n, chain) && at == [n] + Passed(chain)
    decreases chain
  {
    StandsExactly(q, n);
    KindsExactly(chain[0].kind);
    if |chain| > 1 {
      assert Inner(chain[0].kind) && chain[0].node == Some(at[1]);
      WayIsChain(q, at[1], chain[1..], at[1..]);
    }
  }

  /** The search finds a chain exactly if there is a way, and what it finds is a way without a node that occurs
      twice. */
  lemma SearchFindsWays(q: Query, n: NodeId)
    requires WellLinked(q.nodes) && n < |q.nodes|
    ensures TopSearch(q, n).chain.Some? <==> exists chain: seq<Ref>, at: seq<NodeId> :: Way(q, n, chain, at)
    ensures TopSearch(q, n).chain.Some? ==>
              exists at: seq<NodeId> :: Way(q, n, TopSearch(q, n).chain.value, at) && NoRepeats(at)
  {
    SearchIsExact(q, n);
    if TopSearch(q, n).chain.Some? {
      var chain := TopSearch(q, n).chain.value;
      ChainIsWay(q, n, chain);
      assert Way(q, n, chain, NodesOf(n, chain)) && NoRepeats(NodesOf(n, chain));
    }
    if chain: seq<Ref>, at: seq<NodeId> :| Way(q, n, chain, at) {
      WayIsChain(q, n, chain, at);
    }
  }

  // ---- Which one is found ----

  /** No way leads from `n` past the nodes in `visited`. */
  ghost predicate Blocked(q: Query, visited: set<NodeId>, n: NodeId) {
    forall chain: seq<Ref>, at: seq<NodeId> | Way(q, n, chain, at) :: exists m <- at :: m in visited
  }

  /** At each node the chain takes the first reference that leads on: those before it in the list are locals that do not
      count, or inner references from which every way comes back to a node of the chain. */
  ghost predicate FirstWay(q: Query, visited: set<NodeId>, n: NodeId, chain: seq<Ref>)
    decreases chain
  {
    && n < |q.nodes| && chain != []
    && (exists i: nat :: i < |q.nodes[n].refs| && q.nodes[n].refs[i] == chain[0] && PassedOver(q, visited + {n}, n, i))
    && (|chain| > 1 ==> chain[0].node.Some? && FirstWay(q, visited + {n}, chain[0].node.value, chain[1..]))
  }

  ghost predicate PassedOver(q: Query, visited: set<NodeId>, n: NodeId, i: nat)
    requires n < |q.nodes| && i <= |q.nodes[n].refs|
  {
    forall j: nat | j < i :: var ref := q.nodes[n].refs[j];
      || (Local(ref.kind) && !q.considerLocal)
      || (Inner(ref.kind) && ref.node.Some? && Blocked(q, visited, ref.node.value))
  }

  /** No chain leads from a hopeless node past the visited ones. */
  lemma {:induction false} HopelessIsBlocked(q: Query, visited: set<NodeId>, failed: set<NodeId>, n: NodeId,
                                             chain: seq<Ref>)
    requires Failed(q, Carriers(q.nodes, q.leak), visited, failed)
    requires Hopeless(q, Carriers(q.nodes, q.leak), visited, failed, n)
    requires IsChain(q, Carriers(q.nodes, q.leak), n, chain)
    ensures exists m <- [n] + Passed(chain) :: m in visited
    decreases chain
  {
    if n in visited {
      assert n in [n] + Passed(chain);
    } else if |chain| > 1 {
      HopelessIsBlocked(q, visited, failed, chain[0].node.value, chain[1..]);
      assert Passed(chain) == [chain[0].node.value] + Passed(chain[1..]);
      var m :| m in [chain[0].node.value] + Passed(chain[1..]) && m in visited;
      assert m in [n] + Passed(chain);
    }
  }

  lemma HopelessBlocks(q: Query, visited: set<NodeId>, failed: set<NodeId>, n: NodeId)
    requires Failed(q, Carriers(q.nodes, q.leak), visited, failed)
    requires Hopeless(q, Carriers(q.nodes, q.leak), visited, failed, n)
    ensures Blocked(q, visited, n)
  {
    forall chain: seq<Ref>, at: seq<NodeId> | Way(q, n, chain, at) ensures exists m <- at :: m in visited {
      WayIsChain(q, n, chain, at);
      HopelessIsBlocked(q, visited, failed, n, chain);
    }
  }

  lemma TriedIsPassedOver(q: Query, visited: set<NodeId>, failed: set<NodeId>, n: NodeId, i: nat)
    requires WellLinked(q.nodes) && n < |q.nodes| && i <= |q.nodes[n].refs|
    requires Failed(q, Carriers(q.nodes, q.leak), visited, failed)
    requires TriedRefs(q, Carriers(q.nodes, q.leak), visited, failed, n, i)
    ensures PassedOver(q, visited, n, i)
  {
    forall j: nat | j < i
      ensures var ref := q.nodes[n].refs[j];
              || (Local(ref.kind) && !q.considerLocal)
              || (Inner(ref.kind) && ref.node.Some? && Blocked(q, visited, ref.node.value))
    {
      var ref := q.nodes[n].refs[j];
      KindsExactly(ref.kind);
      if Considered(q, ref) {
        HopelessBlocks(q, visited, failed, ref.node.value);
      }
    }
  }

  /** What the search has pruned so far lies among the nodes that failed or are being visited. */
  ghost predicate Pruned(q: Query, has: set<NodeId>, visited: set<NodeId>, failed: set<NodeId>) {
    var all := Carriers(q.nodes, q.leak);
    Failed(q, all, visited, failed) && has <= all && all - has <= failed + visited
  }

  lemma {:induction false} NodeFindsFirst(q: Query, has: set<NodeId>, visited: set<NodeId>, failed: set<NodeId>,
                                          n: NodeId)
    requires WellLinked(q.nodes) && n < |q.nodes| && Pruned(q, has, visited, failed)
    requires SearchNode(q, has, visited, n).chain.Some?
    ensures FirstWay(q, visited, n, SearchNode(q, has, visited, n).chain.value)
    decreases Ids(q.nodes) - visited, 0
  {
    assert n in Ids(q.nodes) - visited;
    RefsFindFirst(q, has, visited + {n}, failed - {n}, n, 0);
    assert visited + {n} == visited + {n} + {n};
  }

  /** The same for the loop over the references, from the one at `i`. */
  lemma {:induction false} RefsFindFirst(q: Query, has: set<NodeId>, visited: set<NodeId>, failed: set<NodeId>,
                                         n: NodeId, i: nat)
    requires WellLinked(q.nodes) && n < |q.nodes| && i <= |q.nodes[n].refs| && n in visited
    requires Pruned(q, has, visited, failed)
    requires TriedRefs(q, Carriers(q.nodes, q.leak), visited, failed, n, i)
    requires SearchRefs(q, has, visited, n, i).chain.Some?
    ensures FirstWay(q, visited, n, SearchRefs(q, has, visited, n, i).chain.value)
    decreases Ids(q.nodes) - visited, 1 + |q.nodes[n].refs| - i
  {
    var ref := q.nodes[n].refs[i];
    TriedIsPassedOver(q, visited, failed, n, i);
    assert visited + {n} == visited;
    if !Considered(q, ref) {
      RefsFindFirst(q, has, visited, failed, n, i + 1);
    } else if !IsRootReference(ref.kind) {
      var all := Carriers(q.nodes, q.leak);
      var o := SearchNode(q, has, visited, ref.node.value);
      if o.chain.Some? {
        NodeFindsFirst(q, has, visited, failed, ref.node.value);
        assert ([ref] + o.chain.value)[1..] == o.chain.value;
      } else {
        var f := SearchNodeFails(q, all, has, visited, failed, ref.node.value);
        RefsFindFirst(q, o.has - {n}, visited, f, n, i + 1);
      }
    }
  }

  /** The chain that is found is the first one, reference for reference. */
  lemma SearchFindsFirst(q: Query, n: NodeId)
    requires WellLinked(q.nodes) && n < |q.nodes| && TopSearch(q, n).chain.Some?
    ensures FirstWay(q, {}, n, TopSearch(q, n).chain.value)
  {
    NodeFindsFirst(q, Carriers(q.nodes, q.leak), {}, {}, n);
  }
}
