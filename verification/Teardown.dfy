/** Freeing the cyclic, reference-counted graph (`freeMemoryNode`) as a function over the agent's memory, and what it
    promises for the graphs that recording builds.  NodeMemory.dfy has the code that works in place. */
module Teardown {
  import opened Wrappers
  import opened LeakBits
  import opened DataStruct
  import opened Taint
  import opened Search
  import opened Counts

  /** `freed` holds the addresses given back to the allocator, `count` is `nodes_freed`, and `fault` is set when a freed
      node is passed to `freeMemoryNode`. */
  datatype Memory = Memory(nodes: seq<Node>, freed: set<NodeId>, count: nat, fault: bool)

  function Unvisited(nodes: seq<Node>): set<NodeId> {
    set k <- Below(|nodes|) | !nodes[k].visited
  }

  /** A live node whose flag is set is left alone, except for its count. */
  predicate Keeps(h: Memory, h': Memory) {
    && |h.nodes| == |h'.nodes|
    && (forall k: NodeId {:trigger h'.nodes[k].visited} {:trigger h'.nodes[k].refs}
          | k < |h.nodes| && h.nodes[k].visited ::
          && h'.nodes[k].visited && h'.nodes[k].refs == h.nodes[k].refs
          && (k !in h.freed ==> k !in h'.freed))
    && WellLinked(h'.nodes) && (h.fault ==> h'.fault)
  }

  lemma KeepsUnvisited(h: Memory, h': Memory)
    requires Keeps(h, h')
    ensures Unvisited(h'.nodes) <= Unvisited(h.nodes) && |Unvisited(h'.nodes)| <= |Unvisited(h.nodes)|
  {
    SubsetSize(Unvisited(h'.nodes), Unvisited(h.nodes));
  }

  function Dropped(n: Node): Node {
    n.(visited := true, obj := None, ignore := [], leaks := Empty(0))
  }

  /** One reference less. */
  function Lowered(h: Memory, n: NodeId): Memory
    requires n < |h.nodes|
  {
    h.(nodes := h.nodes[n := h.nodes[n].(rc := h.nodes[n].rc - 1)])
  }

  /** The node is marked and its contents are dropped; `bitMaskSet_free` leaves no bitset. */
  function Opened(h: Memory, n: NodeId): Memory
    requires n < |h.nodes|
  {
    h.(nodes := h.nodes[n := Dropped(h.nodes[n].(rc := h.nodes[n].rc - 1))])
  }

  /** Its references are gone too: it lives on if it is still referenced, and is freed otherwise. */
  function Closed(h: Memory, n: NodeId): Memory
    requires n < |h.nodes|
  {
    var left := h.nodes[n].(refs := [], fanIn := []);
    if left.rc > 0 then h.(nodes := h.nodes[n := left.(visited := false)])
    else h.(nodes := h.nodes[n := left], freed := h.freed + {n}, count := h.count + 1)
  }

  lemma OpenedVisits(h: Memory, n: NodeId)
    requires n < |h.nodes| && !h.nodes[n].visited
    ensures Unvisited(Opened(h, n).nodes) < Unvisited(h.nodes)
    ensures |Unvisited(Opened(h, n).nodes)| < |Unvisited(h.nodes)|
  {
    var before, after := Unvisited(h.nodes), Unvisited(Opened(h, n).nodes);
    assert n in before && n !in after && forall j <- after :: j in before;
    SubsetSize(after, before - {n});
  }

  lemma OpenedLinked(h: Memory, n: NodeId)
    requires n < |h.nodes| && WellLinked(h.nodes)
    ensures WellLinked(Opened(h, n).nodes) && WellLinked(Closed(h, n).nodes) && WellLinked(Lowered(h, n).nodes)
  {
  }

  lemma KeepsClosed(h: Memory, h3: Memory, n: NodeId)
    requires n < |h.nodes| && !h.nodes[n].visited && WellLinked(h.nodes) && Keeps(Opened(h, n), h3)
    ensures Keeps(h, Closed(h3, n))
  {
    OpenedLinked(h3, n);
    var h1, h' := Opened(h, n), Closed(h3, n);
    forall k: NodeId | k < |h.nodes| && h.nodes[k].visited
      ensures h'.nodes[k].visited && h'.nodes[k].refs == h.nodes[k].refs && (k !in h.freed ==> k !in h'.freed)
    {
      assert h1.nodes[k] == h.nodes[k] && h'.nodes[k] == h3.nodes[k];
    }
  }

  /** `freeMemoryNode`: the new memory and the result. */
  function FreeNode(h: Memory, n: Option<NodeId>): (r: (Memory, bool))
    requires WellLinked(h.nodes) && (n.Some? ==> n.value < |h.nodes|)
    ensures Keeps(h, r.0)
    decreases Unvisited(h.nodes), 0
  {
    if n.None? then (h, false)
    else if n.value in h.freed then (h.(fault := true), false)
    else
      OpenedLinked(h, n.value);
      if h.nodes[n.value].visited then (Lowered(h, n.value), false)
      else
        OpenedVisits(h, n.value);
        var h3 := FreeRefs(Opened(h, n.value), n.value, 0);
        KeepsClosed(h, h3, n.value);
        (Closed(h3, n.value), h3.nodes[n.value].rc <= 0)
  }

  /** The loop over the references of `k`, from the one at `i`. */
  function FreeRefs(h: Memory, k: NodeId, i: nat): (h': Memory)
    requires WellLinked(h.nodes) && k < |h.nodes| && h.nodes[k].visited && i <= |h.nodes[k].refs|
    ensures Keeps(h, h')
    decreases Unvisited(h.nodes), 1 + |h.nodes[k].refs| - i
  {
    if i == |h.nodes[k].refs| then h
    else
      var h1 := FreeNode(h, h.nodes[k].refs[i].node).0;
      KeepsUnvisited(h, h1);
      FreeRefs(h1, k, i + 1)
  }

  /** One call.  A freed node is a fault; a node whose flag is set loses one reference; any other node loses its own
      references, and it is freed, which the call reports, exactly if nothing references it any more. */
  lemma FreeNodeExactly(h: Memory, n: NodeId)
    requires WellLinked(h.nodes) && n < |h.nodes|
    ensures FreeNode(h, None) == (h, false)
    ensures n in h.freed ==> FreeNode(h, Some(n)) == (h.(fault := true), false)
    ensures n !in h.freed && h.nodes[n].visited ==>
              FreeNode(h, Some(n)) == (h.(nodes := h.nodes[n := h.nodes[n].(rc := h.nodes[n].rc - 1)]), false)
    ensures n !in h.freed && !h.nodes[n].visited ==>
              var (h', done) := FreeNode(h, Some(n));
              && h'.nodes[n].refs == [] && h'.nodes[n].fanIn == []
              && (done <==> h'.nodes[n].rc <= 0) && (done <==> n in h'.freed) && (!done ==> !h'.nodes[n].visited)
  {
  }

  /** The loops over the leak list and over the class nodes, which were allocated one after the other: the nodes at
      `from..end` are freed in order.  The second part is the results of the calls. */
  function FreeRange(h: Memory, from: nat, end: nat): (r: (Memory, seq<bool>))
    requires WellLinked(h.nodes) && from <= end <= |h.nodes|
    ensures |r.0.nodes| == |h.nodes| && WellLinked(r.0.nodes) && |r.1| == end - from && (h.fault ==> r.0.fault)
    decreases end
  {
    if from == end then (h, [])
    else
      var before := FreeRange(h, from, end - 1);
      var last := FreeNode(before.0, Some(end - 1));
      (last.0, before.1 + [last.1])
  }

  lemma FreeRangeNext(h: Memory, from: nat, end: nat, h1: Memory, before: seq<bool>, h2: Memory, done: bool)
    requires WellLinked(h.nodes) && from < end <= |h.nodes|
    requires (h1, before) == FreeRange(h, from, end - 1) && (h2, done) == FreeNode(h1, Some(end - 1))
    ensures (h2, before + [done]) == FreeRange(h, from, end)
  {
  }

  /** A fault is never forgotten. */
  lemma {:induction false} FaultStays(h: Memory, from: nat, k: nat, end: nat)
    requires WellLinked(h.nodes) && from <= k <= end <= |h.nodes|
    ensures FreeRange(h, from, k).0.fault ==> FreeRange(h, from, end).0.fault
    decreases end
  {
    if k < end {
      FaultStays(h, from, k, end - 1);
    }
  }

  // ---- The invariant ----

  /** What node `k` still has to give up; `at` says how far the open frames are. */
  function Owed(nodes: seq<Node>, at: map<NodeId, nat>, k: NodeId): multiset<NodeId>
    requires k < |nodes|
  {
    TargetsFrom(nodes[k].refs, if k in at then at[k] else 0)
  }

  /** What the first `k` nodes still have to give up. */
  function Outstanding(nodes: seq<Node>, at: map<NodeId, nat>, k: nat): multiset<NodeId>
    requires k <= |nodes|
  {
    if k == 0 then multiset{}
    else Outstanding(nodes, at, k - 1) + Owed(nodes, at, k - 1)
  }

  /** Frames are open for the nodes with a flag, and only for live nodes. */
  predicate Frames(h: Memory, at: map<NodeId, nat>) {
    && (forall k <- at :: k < |h.nodes| && k !in h.freed && h.nodes[k].visited && at[k] <= |h.nodes[k].refs|)
    && (forall k: NodeId {:trigger h.nodes[k].visited} | k < |h.nodes| && k !in h.freed && h.nodes[k].visited ::
          k in at)
  }

  /** Live nodes have exact counts and, unless a frame is open for them, are still referenced; `incoming` counts the
      pending references, and `extra` is the node that a call in progress is about. */
  predicate Exact(h: Memory, open: set<NodeId>, handles: set<NodeId>, extra: Option<NodeId>, incoming: multiset<NodeId>)
  {
    && (forall k: NodeId {:trigger h.nodes[k].rc} | k < |h.nodes| && k !in h.freed ::
          h.nodes[k].rc == incoming[k] + (if k in handles then 1 else 0) + (if extra == Some(k) then 1 else 0))
    && (forall k: NodeId {:trigger h.nodes[k].rc} | k < |h.nodes| && k !in h.freed && k !in open :: h.nodes[k].rc >= 1)
    && (forall k <- h.freed :: k < |h.nodes| && incoming[k] == 0 && k !in handles)
  }

  /** The nodes in `drained` gave up their references; what they referred to was drained too, has an open frame, or is
      the node that the call in progress is about. */
  predicate Drained(h: Memory, at: map<NodeId, nat>, extra: Option<NodeId>, lists: seq<seq<Ref>>, drained: set<NodeId>)
  {
    && |lists| == |h.nodes| && h.freed <= drained
    && (forall k: NodeId {:trigger h.nodes[k].refs} | k < |h.nodes| ::
          h.nodes[k].refs == if k in drained then [] else lists[k])
    && (forall k: NodeId, i: nat {:trigger lists[k][i]}
          | k < |h.nodes| && i < |lists[k]| && (k in drained || (k in at && i < at[k])) ::
          lists[k][i].node.Some? ==>
            lists[k][i].node.value in drained || lists[k][i].node.value in at || lists[k][i].node == extra)
  }

  predicate Sane(h: Memory, at: map<NodeId, nat>, handles: set<NodeId>, extra: Option<NodeId>,
                 incoming: multiset<NodeId>, lists: seq<seq<Ref>>, drained: set<NodeId>)
  {
    && WellLinked(h.nodes) && Frames(h, at) && Exact(h, at.Keys, handles, extra, incoming)
    && Drained(h, at, extra, lists, drained)
    && !h.fault && h.count == |h.freed|
  }

  predicate Bag(nodes: seq<Node>, at: map<NodeId, nat>, incoming: multiset<NodeId>) {
    incoming == Outstanding(nodes, at, |nodes|)
  }

  /** The same references with the same frames. */
  lemma {:induction false} OutstandingSame(nodes: seq<Node>, at: map<NodeId, nat>, nodes': seq<Node>,
                                           at': map<NodeId, nat>, k: nat)
    requires k <= |nodes| == |nodes'|
    requires forall j: NodeId | j < k :: Owed(nodes, at, j) == Owed(nodes', at', j)
    ensures Outstanding(nodes, at, k) == Outstanding(nodes', at', k)
  {
    if k > 0 {
      OutstandingSame(nodes, at, nodes', at', k - 1);
      calc {
        Outstanding(nodes, at, k);
        Outstanding(nodes, at, k - 1) + Owed(nodes, at, k - 1);
        Outstanding(nodes', at', k - 1) + Owed(nodes', at', k - 1);
        Outstanding(nodes', at', k);
      }
    }
  }

  lemma OwedNext(nodes: seq<Node>, at: map<NodeId, nat>, n: NodeId, i: nat, k: NodeId)
    requires k < |nodes| && n < |nodes| && i < |nodes[n].refs|
    ensures Owed(nodes, at[n := i], k) ==
            (if n == k then Single(nodes[n].refs[i].node) else multiset{}) + Owed(nodes, at[n := i + 1], k)
  {
  }

  /** Node `n` owes `one` less. */
  lemma {:induction false} OutstandingLess(nodes: seq<Node>, at: map<NodeId, nat>, at': map<NodeId, nat>, n: NodeId,
                                           one: multiset<NodeId>, k: nat)
    requires n < k <= |nodes|
    requires forall j: NodeId | j < k && j != n :: Owed(nodes, at, j) == Owed(nodes, at', j)
    requires Owed(nodes, at, n) == one + Owed(nodes, at', n)
    ensures Outstanding(nodes, at, k) == Outstanding(nodes, at', k) + one
  {
    if n == k - 1 {
      OutstandingSame(nodes, at, nodes, at', k - 1);
    } else {
      OutstandingLess(nodes, at, at', n, one, k - 1);
    }
    Regroup(Outstanding(nodes, at', k - 1), Owed(nodes, at', k - 1), one);
  }

  lemma Regroup(x: multiset<NodeId>, y: multiset<NodeId>, one: multiset<NodeId>)
    ensures x + (one + y) == x + y + one && x + one + y == x + y + one
  {
  }

  /** The frame of `n` moves from `i` to `i + 1`. */
  lemma BagNext(nodes: seq<Node>, at: map<NodeId, nat>, n: NodeId, i: nat, incoming: multiset<NodeId>)
    returns (incoming': multiset<NodeId>)
    requires n < |nodes| && i < |nodes[n].refs| && Bag(nodes, at[n := i], incoming)
    ensures Bag(nodes, at[n := i + 1], incoming')
    ensures incoming == incoming' + Single(nodes[n].refs[i].node)
  {
    var before, after := at[n := i], at[n := i + 1];
    incoming' := Outstanding(nodes, after, |nodes|);
    OwedNext(nodes, at, n, i, n);
    forall k: NodeId | k < |nodes| && k != n ensures Owed(nodes, before, k) == Owed(nodes, after, k) {
      OwedNext(nodes, at, n, i, k);
    }
    OutstandingLess(nodes, before, after, n, Single(nodes[n].refs[i].node), |nodes|);
  }

  // ---- What a call keeps ----

  lemma CallCounts(h: Memory, n: NodeId, at: map<NodeId, nat>, handles: set<NodeId>, incoming: multiset<NodeId>,
                   lists: seq<seq<Ref>>, drained: set<NodeId>)
    requires n < |h.nodes| && n in at && Sane(h, at, handles, Some(n), incoming, lists, drained)
    ensures Sane(Lowered(h, n), at, handles, None, incoming, lists, drained)
  {
  }

  /** A call on another node opens a frame for it. */
  lemma FrameOpens(h: Memory, n: NodeId, at: map<NodeId, nat>, handles: set<NodeId>, incoming: multiset<NodeId>,
                   lists: seq<seq<Ref>>, drained: set<NodeId>)
    requires n < |h.nodes| && n !in h.freed && n !in at && Sane(h, at, handles, Some(n), incoming, lists, drained)
    ensures Sane(Opened(h, n), at[n := 0], handles, None, incoming, lists, drained)
  {
    assert at[n := 0].Keys == at.Keys + {n};
  }

  lemma ClosedExact(h: Memory, n: NodeId, open: set<NodeId>, handles: set<NodeId>, incoming: multiset<NodeId>)
    requires n < |h.nodes| && n !in open && n !in h.freed && Exact(h, open + {n}, handles, None, incoming)
    ensures Exact(Closed(h, n), open, handles, None, incoming)
    ensures incoming[n] == 0 && n !in handles ==> n in Closed(h, n).freed
  {
  }

  lemma ClosedFrames(h: Memory, n: NodeId, at: map<NodeId, nat>)
    requires n < |h.nodes| && n !in at && Frames(h, at[n := |h.nodes[n].refs|])
    ensures Frames(Closed(h, n), at) && n !in h.freed
  {
    var at' := at[n := |h.nodes[n].refs|];
    assert n in at';
    forall k <- at
      ensures k < |h.nodes| && k !in Closed(h, n).freed && Closed(h, n).nodes[k].visited
              && at[k] <= |Closed(h, n).nodes[k].refs|
    {
      assert k in at' && k != n;
    }
  }

  lemma ClosedDrained(h: Memory, n: NodeId, at: map<NodeId, nat>, lists: seq<seq<Ref>>, drained: set<NodeId>)
    requires n < |h.nodes| && n !in at && Drained(h, at[n := |h.nodes[n].refs|], None, lists, drained)
    ensures Drained(Closed(h, n), at, None, lists, drained + {n})
  {
    var at' := at[n := |h.nodes[n].refs|];
    forall k: NodeId, i: nat
      | k < |h.nodes| && i < |lists[k]| && (k in drained + {n} || (k in at && i < at[k])) && lists[k][i].node.Some?
      ensures lists[k][i].node.value in drained + {n} || lists[k][i].node.value in at
    {
      assert k in drained || (k in at' && i < at'[k]);
    }
  }

  lemma FrameCloses(h: Memory, n: NodeId, at: map<NodeId, nat>, handles: set<NodeId>, incoming: multiset<NodeId>,
                    lists: seq<seq<Ref>>, drained: set<NodeId>)
    requires n < |h.nodes| && n !in at
    requires Sane(h, at[n := |h.nodes[n].refs|], handles, None, incoming, lists, drained)
    ensures Sane(Closed(h, n), at, handles, None, incoming, lists, drained + {n})
    ensures incoming[n] == 0 && n !in handles ==> n in Closed(h, n).freed
  {
    assert at[n := |h.nodes[n].refs|].Keys == at.Keys + {n};
    OpenedLinked(h, n);
    ClosedFrames(h, n, at);
    ClosedExact(h, n, at.Keys, handles, incoming);
    ClosedDrained(h, n, at, lists, drained);
  }

  /** The reference at the front of a frame is given up to a call. */
  lemma FrameAdvances(h: Memory, n: NodeId, at: map<NodeId, nat>, i: nat, handles: set<NodeId>,
                      incoming: multiset<NodeId>, incoming': multiset<NodeId>, lists: seq<seq<Ref>>,
                      drained: set<NodeId>)
    requires n < |h.nodes| && i < |h.nodes[n].refs|
    requires Sane(h, at[n := i], handles, None, incoming, lists, drained)
    requires incoming == incoming' + Single(h.nodes[n].refs[i].node)
    ensures Sane(h, at[n := i + 1], handles, h.nodes[n].refs[i].node, incoming', lists, drained)
    ensures var node := h.nodes[n].refs[i].node;
            node.Some? ==> node.value < |h.nodes| && node.value !in h.freed
  {
    var at1, at2 := at[n := i], at[n := i + 1];
    assert at2.Keys == at1.Keys;
    assert n in at1 && forall k <- at2 :: k in at1 && (k != n ==> at1[k] == at2[k]);
    assert h.nodes[n].refs[i] in h.nodes[n].refs;
  }

  lemma LoweredBag(h: Memory, n: NodeId, at: map<NodeId, nat>, incoming: multiset<NodeId>)
    requires n < |h.nodes| && Bag(h.nodes, at, incoming)
    ensures Bag(Lowered(h, n).nodes, at, incoming)
  {
    OutstandingSame(h.nodes, at, Lowered(h, n).nodes, at, |h.nodes|);
  }

  lemma OpenedBag(h: Memory, n: NodeId, at: map<NodeId, nat>, incoming: multiset<NodeId>)
    requires n < |h.nodes| && n !in at && Bag(h.nodes, at, incoming)
    ensures Bag(Opened(h, n).nodes, at[n := 0], incoming)
  {
    OutstandingSame(h.nodes, at, Opened(h, n).nodes, at[n := 0], |h.nodes|);
  }

  lemma ClosedBag(h: Memory, n: NodeId, at: map<NodeId, nat>, incoming: multiset<NodeId>)
    requires n < |h.nodes| && n !in at && Bag(h.nodes, at[n := |h.nodes[n].refs|], incoming)
    ensures Bag(Closed(h, n).nodes, at, incoming)
  {
    OutstandingSame(h.nodes, at[n := |h.nodes[n].refs|], Closed(h, n).nodes, at, |h.nodes|);
  }

  /** What a call for `n` makes of a sane memory. */
  predicate After(h': Memory, done: bool, n: NodeId, at: map<NodeId, nat>, handles: set<NodeId>,
                  incoming: multiset<NodeId>, lists: seq<seq<Ref>>, drained: set<NodeId>) {
    && Sane(h', at, handles, None, incoming, lists, drained) && Bag(h'.nodes, at, incoming)
    && (n in drained || n in at)
    && (n !in at && incoming[n] == 0 && n !in handles ==> done && n in h'.freed)
  }

  lemma CallBegins(h: Memory, n: NodeId, at: map<NodeId, nat>, handles: set<NodeId>, incoming: multiset<NodeId>,
                   lists: seq<seq<Ref>>, drained: set<NodeId>)
    requires n < |h.nodes| && n !in h.freed
    requires Sane(h, at, handles, Some(n), incoming, lists, drained) && Bag(h.nodes, at, incoming)
    ensures WellLinked(h.nodes) && (n in at <==> h.nodes[n].visited)
    ensures n in at ==> After(Lowered(h, n), false, n, at, handles, incoming, lists, drained)
    ensures n !in at ==> && Sane(Opened(h, n), at[n := 0], handles, None, incoming, lists, drained)
                         && Bag(Opened(h, n).nodes, at[n := 0], incoming)
  {
    if n in at {
      CallCounts(h, n, at, handles, incoming, lists, drained);
      LoweredBag(h, n, at, incoming);
    } else {
      FrameOpens(h, n, at, handles, incoming, lists, drained);
      OpenedBag(h, n, at, incoming);
    }
  }

  lemma CallEnds(h: Memory, n: NodeId, at: map<NodeId, nat>, handles: set<NodeId>, incoming: multiset<NodeId>,
                 lists: seq<seq<Ref>>, drained: set<NodeId>)
    requires n < |h.nodes| && n !in at
    requires Sane(h, at[n := |h.nodes[n].refs|], handles, None, incoming, lists, drained)
    requires Bag(h.nodes, at[n := |h.nodes[n].refs|], incoming)
    ensures After(Closed(h, n), h.nodes[n].rc <= 0, n, at, handles, incoming, lists, drained + {n})
  {
    var at' := at[n := |h.nodes[n].refs|];
    assert n in at' && n !in h.freed;
    FrameCloses(h, n, at, handles, incoming, lists, drained);
    ClosedBag(h, n, at, incoming);
  }

  /** A call for a live node, whose reference was already given up. */
  lemma FreeNodeSane(h: Memory, n: NodeId, at: map<NodeId, nat>, handles: set<NodeId>, incoming: multiset<NodeId>,
                     lists: seq<seq<Ref>>, drained: set<NodeId>)
    returns (h': Memory, done: bool, incoming': multiset<NodeId>, drained': set<NodeId>)
    requires n < |h.nodes| && n !in h.freed
    requires Sane(h, at, handles, Some(n), incoming, lists, drained) && Bag(h.nodes, at, incoming)
    ensures WellLinked(h.nodes) && (h', done) == FreeNode(h, Some(n)) && drained <= drained'
    ensures After(h', done, n, at, handles, incoming', lists, drained')
    decreases Unvisited(h.nodes), 0
  {
    CallBegins(h, n, at, handles, incoming, lists, drained);
    if n in at {
      h', done, incoming', drained' := Lowered(h, n), false, incoming, drained;
    } else {
      OpenedVisits(h, n);
      var h3, d;
      h3, incoming', d := FreeRefsSane(Opened(h, n), n, at, 0, handles, incoming, lists, drained);
      h', done, drained' := Closed(h3, n), h3.nodes[n].rc <= 0, d + {n};
      CallEnds(h3, n, at, handles, incoming', lists, d);
    }
  }

  /** The frame of `n` stands at `i`. */
  lemma FreeRefsSane(h: Memory, n: NodeId, at: map<NodeId, nat>, i: nat, handles: set<NodeId>,
                     incoming: multiset<NodeId>, lists: seq<seq<Ref>>, drained: set<NodeId>)
    returns (h': Memory, incoming': multiset<NodeId>, drained': set<NodeId>)
    requires n < |h.nodes| && i <= |h.nodes[n].refs| && h.nodes[n].visited && WellLinked(h.nodes)
    requires Sane(h, at[n := i], handles, None, incoming, lists, drained) && Bag(h.nodes, at[n := i], incoming)
    ensures h' == FreeRefs(h, n, i) && drained <= drained'
    ensures Sane(h', at[n := |h'.nodes[n].refs|], handles, None, incoming', lists, drained')
    ensures Bag(h'.nodes, at[n := |h'.nodes[n].refs|], incoming')
    decreases Unvisited(h.nodes), 1 + |h.nodes[n].refs| - i
  {
    if i == |h.nodes[n].refs| {
      h', incoming', drained' := h, incoming, drained;
    } else {
      var node := h.nodes[n].refs[i].node;
      var h1 := FreeNode(h, node).0;
      KeepsUnvisited(h, h1);
      var inc, d := NextReference(h, n, at, i, handles, incoming, lists, drained);
      h', incoming', drained' := FreeRefsSane(h1, n, at, i + 1, handles, inc, lists, d);
    }
  }

  /** The frame of `n` moves over one reference, with the call for its node. */
  lemma NextReference(h: Memory, n: NodeId, at: map<NodeId, nat>, i: nat, handles: set<NodeId>,
                      incoming: multiset<NodeId>, lists: seq<seq<Ref>>, drained: set<NodeId>)
    returns (incoming': multiset<NodeId>, drained': set<NodeId>)
    requires n < |h.nodes| && i < |h.nodes[n].refs| && WellLinked(h.nodes)
    requires Sane(h, at[n := i], handles, None, incoming, lists, drained) && Bag(h.nodes, at[n := i], incoming)
    ensures var h1 := FreeNode(h, h.nodes[n].refs[i].node).0;
            && Sane(h1, at[n := i + 1], handles, None, incoming', lists, drained')
            && Bag(h1.nodes, at[n := i + 1], incoming') && drained <= drained'
    decreases Unvisited(h.nodes), |h.nodes[n].refs| - i
  {
    var node := h.nodes[n].refs[i].node;
    var inc := BagNext(h.nodes, at, n, i, incoming);
    FrameAdvances(h, n, at, i, handles, incoming, inc, lists, drained);
    if node.None? {
      incoming', drained' := inc, drained;
    } else {
      var h1, done;
      h1, done, incoming', drained' := FreeNodeSane(h, node.value, at[n := i + 1], handles, inc, lists, drained);
    }
  }

  // ---- Whole teardowns ----

  /** The memory when teardown begins. */
  function Begin(nodes: seq<Node>): Memory { Memory(nodes, {}, 0, false) }

  /** What recording (and searching) leaves behind: exact counts with one handle each for the first `handles` nodes, no
      flag set, and every node that is referenced or has references is linked to one of the first `leaks` nodes. */
  ghost predicate Built(nodes: seq<Node>, leaks: nat, handles: nat) {
    && leaks <= handles <= |nodes| && WellLinked(nodes) && CountsExact(nodes, handles)
    && (forall k: NodeId | k < |nodes| :: !nodes[k].visited)
    && (forall k: NodeId | k < |nodes| && (k >= handles || nodes[k].refs != []) :: FromLeak(nodes, leaks, k))
  }

  function Lists(nodes: seq<Node>): seq<seq<Ref>> {
    seq(|nodes|, i requires 0 <= i < |nodes| => nodes[i].refs)
  }

  lemma {:induction false} OutstandingIsIncoming(nodes: seq<Node>, k: nat)
    requires k <= |nodes|
    ensures Outstanding(nodes, map[], k) == IncomingTo(nodes, k)
  {
    if k > 0 {
      OutstandingIsIncoming(nodes, k - 1);
      assert Owed(nodes, map[], k - 1) == Targets(nodes[k - 1]);
    }
  }

  /** A node that a path enters is referenced. */
  lemma Entered(nodes: seq<Node>, from: NodeId, to: NodeId, path: seq<NodeId>)
    requires RefPath(nodes, from, to, path) && from != to
    ensures to in Incoming(nodes)
  {
    var via := path[|path| - 2];
    assert Edge(nodes, via, path[|path| - 1]);
    var ref :| ref in nodes[via].refs && ref.node == Some(to);
    var j: nat :| j < |nodes[via].refs| && nodes[via].refs[j] == ref;
    TargetsHas(nodes[via].refs, 0, j, to);
    IncomingHas(nodes, |nodes|, via, to);
  }

  lemma BuiltIsSane(nodes: seq<Node>, leaks: nat, handles: nat)
    requires Built(nodes, leaks, handles)
    ensures Idle(Begin(nodes), Below(handles), Incoming(nodes), Lists(nodes), {})
  {
    OutstandingIsIncoming(nodes, |nodes|);
    BuiltIsReferenced(nodes, leaks, handles);
    assert Exact(Begin(nodes), {}, Below(handles), None, Incoming(nodes));
  }

  lemma BuiltIsReferenced(nodes: seq<Node>, leaks: nat, handles: nat)
    requires Built(nodes, leaks, handles)
    ensures forall k: NodeId {:trigger nodes[k].rc} | k < |nodes| :: nodes[k].rc >= 1
  {
    forall k: NodeId | k < |nodes| ensures nodes[k].rc >= 1 {
      if k >= handles {
        assert FromLeak(nodes, leaks, k);
        var i: nat, path :| i < leaks && RefPath(nodes, i, k, path);
        Entered(nodes, i, k, path);
      }
    }
  }

  /** The handles at addresses from `from` on. */
  ghost predicate HandlesFrom(handles: set<NodeId>, from: nat, all: nat) {
    forall k: NodeId :: k in handles <==> from <= k < all
  }

  /** Between two calls: no frame is open, and `incoming` are all the references. */
  ghost predicate Idle(h: Memory, handles: set<NodeId>, incoming: multiset<NodeId>, lists: seq<seq<Ref>>,
                       drained: set<NodeId>)
  {
    Sane(h, map[], handles, None, incoming, lists, drained) && Bag(h.nodes, map[], incoming)
  }

  /** One call at top level: the handle of `n` is given up. */
  lemma HandleFreed(h: Memory, n: NodeId, all: nat, handles: set<NodeId>, incoming: multiset<NodeId>,
                    lists: seq<seq<Ref>>, drained: set<NodeId>)
    returns (h': Memory, done: bool, handles': set<NodeId>, incoming': multiset<NodeId>, drained': set<NodeId>)
    requires n < all <= |h.nodes| && HandlesFrom(handles, n, all) && Idle(h, handles, incoming, lists, drained)
    ensures WellLinked(h.nodes) && (h', done) == FreeNode(h, Some(n)) && drained <= drained' && n in drained'
    ensures HandlesFrom(handles', n + 1, all) && Idle(h', handles', incoming', lists, drained')
    ensures incoming'[n] == 0 ==> done && n in h'.freed
  {
    assert n !in h.freed;
    handles' := handles - {n};
    h', done, incoming', drained' := FreeNodeSane(h, n, map[], handles', incoming, lists, drained);
  }

  ghost predicate HandlesDrained(from: nat, end: nat, drained: set<NodeId>) {
    forall k: NodeId | from <= k < end :: k in drained
  }

  lemma MoreDrained(from: nat, n: NodeId, d: set<NodeId>, drained: set<NodeId>)
    requires HandlesDrained(from, n, d) && d <= drained && n in drained
    ensures HandlesDrained(from, n + 1, drained)
  {
  }

  /** What freeing the handles `from..k` made of `h`. */
  ghost predicate FreedSoFar(h: Memory, from: nat, k: nat, now: Memory, results: seq<bool>)
    requires WellLinked(h.nodes) && from <= k <= |h.nodes|
  {
    (now, results) == FreeRange(h, from, k)
  }

  lemma OneMoreFreed(h: Memory, from: nat, n: NodeId, all: nat, h1: Memory, before: seq<bool>, hs: set<NodeId>,
                     inc: multiset<NodeId>, lists: seq<seq<Ref>>, d: set<NodeId>)
    returns (h': Memory, done: bool, handles': set<NodeId>, incoming': multiset<NodeId>, drained': set<NodeId>)
    requires WellLinked(h.nodes) && from <= n < all <= |h.nodes| == |h1.nodes| && FreedSoFar(h, from, n, h1, before)
    requires HandlesFrom(hs, n, all) && HandlesDrained(from, n, d) && Idle(h1, hs, inc, lists, d)
    ensures FreedSoFar(h, from, n + 1, h', before + [done])
    ensures HandlesFrom(handles', n + 1, all) && HandlesDrained(from, n + 1, drained')
    ensures Idle(h', handles', incoming', lists, drained')
  {
    h', done, handles', incoming', drained' := HandleFreed(h1, n, all, hs, inc, lists, d);
    MoreDrained(from, n, d, drained');
    FreeRangeNext(h, from, n + 1, h1, before, h', done);
  }

  /** Freeing the handles `from..end` of `from..all`. */
  lemma HandlesFreed(h: Memory, from: nat, end: nat, all: nat, handles: set<NodeId>, incoming: multiset<NodeId>,
                     lists: seq<seq<Ref>>, drained: set<NodeId>)
    returns (h': Memory, results: seq<bool>, handles': set<NodeId>, incoming': multiset<NodeId>, drained': set<NodeId>)
    requires from <= end <= all <= |h.nodes| && HandlesFrom(handles, from, all)
    requires Idle(h, handles, incoming, lists, drained)
    ensures WellLinked(h.nodes) && FreedSoFar(h, from, end, h', results)
    ensures HandlesFrom(handles', end, all) && HandlesDrained(from, end, drained')
    ensures Idle(h', handles', incoming', lists, drained')
    decreases end
  {
    if from == end {
      h', results, handles', incoming', drained' := h, [], handles, incoming, drained;
    } else {
      var h1, before, hs, inc, d := HandlesFreed(h, from, end - 1, all, handles, incoming, lists, drained);
      var done;
      h', done, handles', incoming', drained' := OneMoreFreed(h, from, end - 1, all, h1, before, hs, inc, lists, d);
      results := before + [done];
    }
  }

  /** What is linked to a drained leak is drained itself. */
  lemma {:induction false} DrainedPath(h: Memory, lists: seq<seq<Ref>>, drained: set<NodeId>, nodes: seq<Node>,
                                       from: NodeId, to: NodeId, path: seq<NodeId>)
    requires Drained(h, map[], None, lists, drained) && lists == Lists(nodes)
    requires RefPath(nodes, from, to, path) && from in drained
    ensures to in drained
    decreases |path|
  {
    if |path| > 1 {
      var k := |path| - 2;
      var shorter := path[..k + 1];
      assert forall j | 0 < j < |shorter| :: Edge(nodes, path[j - 1], path[j]);
      DrainedPath(h, lists, drained, nodes, from, path[k], shorter);
      assert Edge(nodes, path[k + 1 - 1], path[k + 1]);
      var ref :| ref in nodes[path[k]].refs && ref.node == Some(to);
      var i :| 0 <= i < |nodes[path[k]].refs| && nodes[path[k]].refs[i] == ref;
      assert lists[path[k]][i].node == Some(to);
    }
  }

  lemma {:induction false} NothingOutstanding(nodes: seq<Node>, k: nat)
    requires k <= |nodes| && forall j: NodeId | j < k :: nodes[j].refs == []
    ensures Outstanding(nodes, map[], k) == multiset{}
  {
    if k > 0 {
      NothingOutstanding(nodes, k - 1);
    }
  }

  lemma LeaksDrained(h: Memory, nodes: seq<Node>, leaks: nat, handles: nat, drained: set<NodeId>)
    requires Built(nodes, leaks, handles) && Drained(h, map[], None, Lists(nodes), drained)
    requires forall i: nat | i < leaks :: i in drained
    ensures Spent(Lists(nodes), drained)
  {
    forall k: NodeId | k < |nodes| && nodes[k].refs != [] ensures k in drained {
      assert FromLeak(nodes, leaks, k);
      var i: nat, path :| i < leaks && RefPath(nodes, i, k, path);
      DrainedPath(h, Lists(nodes), drained, nodes, i, k, path);
    }
  }

  /** After the leak list is freed no reference is left, so every node is gone but the classes. */
  lemma LeaksFreed(nodes: seq<Node>, leaks: nat, handles: nat)
    returns (h: Memory, left: set<NodeId>, drained: set<NodeId>)
    requires Built(nodes, leaks, handles)
    ensures h == FreeRange(Begin(nodes), 0, leaks).0 && HandlesFrom(left, leaks, handles)
    ensures Idle(h, left, multiset{}, Lists(nodes), drained) && Spent(Lists(nodes), drained)
  {
    BuiltIsSane(nodes, leaks, handles);
    var results, incoming;
    h, results, left, incoming, drained := HandlesFreed(Begin(nodes), 0, leaks, handles, Below(handles),
                                                        Incoming(nodes), Lists(nodes), {});
    LeaksDrained(h, nodes, leaks, handles, drained);
    SpentOwesNothing(h, Lists(nodes), drained);
  }

  /** Every node that had references was drained. */
  predicate Spent(lists: seq<seq<Ref>>, drained: set<NodeId>) {
    forall k: NodeId | k < |lists| && k !in drained :: lists[k] == []
  }

  lemma SpentOwesNothing(h: Memory, lists: seq<seq<Ref>>, drained: set<NodeId>)
    requires Drained(h, map[], None, lists, drained) && Spent(lists, drained)
    ensures Outstanding(h.nodes, map[], |h.nodes|) == multiset{}
  {
    NothingOutstanding(h.nodes, |h.nodes|);
  }

  /** A class node that is no longer referenced is freed, and the call says so. */
  lemma ClassFreed(h: Memory, n: NodeId, all: nat, handles: set<NodeId>, lists: seq<seq<Ref>>, drained: set<NodeId>)
    returns (h': Memory, handles': set<NodeId>, drained': set<NodeId>)
    requires n < all <= |h.nodes| && HandlesFrom(handles, n, all)
    requires Idle(h, handles, multiset{}, lists, drained) && Spent(lists, drained)
    ensures WellLinked(h.nodes) && (h', true) == FreeNode(h, Some(n))
    ensures HandlesFrom(handles', n + 1, all)
    ensures Idle(h', handles', multiset{}, lists, drained') && Spent(lists, drained')
  {
    var done, inc;
    h', done, handles', inc, drained' := HandleFreed(h, n, all, handles, multiset{}, lists, drained);
    SpentOwesNothing(h', lists, drained');
  }

  predicate AllSucceed(results: seq<bool>) { forall k: nat | k < |results| :: results[k] }

  lemma OneMoreSucceeds(results: seq<bool>)
    requires AllSucceed(results)
    ensures AllSucceed(results + [true])
  {
  }

  lemma OneMoreClassFreed(h: Memory, from: nat, end: nat, all: nat, lists: seq<seq<Ref>>, h1: Memory, before: seq<bool>,
                     handles: set<NodeId>, drained: set<NodeId>)
    returns (h': Memory, results: seq<bool>, handles': set<NodeId>, drained': set<NodeId>)
    requires WellLinked(h.nodes) && from < end <= all <= |h.nodes| == |h1.nodes|
    requires HandlesFrom(handles, end - 1, all) && Spent(lists, drained)
    requires (h1, before) == FreeRange(h, from, end - 1) && |before| == end - 1 - from && AllSucceed(before)
    requires Idle(h1, handles, multiset{}, lists, drained)
    ensures (h', results) == FreeRange(h, from, end) && |results| == end - from && AllSucceed(results)
    ensures HandlesFrom(handles', end, all) && Spent(lists, drained') && Idle(h', handles', multiset{}, lists, drained')
  {
    h', handles', drained' := ClassFreed(h1, end - 1, all, handles, lists, drained);
    results := before + [true];
    RangeSucceeds(h, from, end, h1, before, h');
  }

  /** The range goes on with a call that succeeds. */
  lemma RangeSucceeds(h: Memory, from: nat, end: nat, h1: Memory, before: seq<bool>, h': Memory)
    requires WellLinked(h.nodes) && from < end <= |h.nodes| == |h1.nodes| && WellLinked(h1.nodes)
    requires (h1, before) == FreeRange(h, from, end - 1) && |before| == end - 1 - from && AllSucceed(before)
    requires (h', true) == FreeNode(h1, Some(end - 1))
    ensures (h', before + [true]) == FreeRange(h, from, end) && |before + [true]| == end - from
    ensures AllSucceed(before + [true])
  {
    OneMoreSucceeds(before);
    FreeRangeNext(h, from, end, h1, before, h', true);
  }

  lemma {:induction false} ClassesFreed(h: Memory, from: nat, end: nat, all: nat, handles: set<NodeId>,
                                        lists: seq<seq<Ref>>, drained: set<NodeId>)
    returns (h': Memory, results: seq<bool>, handles': set<NodeId>, drained': set<NodeId>)
    requires from <= end <= all <= |h.nodes| && HandlesFrom(handles, from, all) && Spent(lists, drained)
    requires Idle(h, handles, multiset{}, lists, drained)
    ensures WellLinked(h.nodes) && (h', results) == FreeRange(h, from, end)
    ensures |results| == end - from && AllSucceed(results)
    ensures HandlesFrom(handles', end, all) && Spent(lists, drained') && Idle(h', handles', multiset{}, lists, drained')
    decreases end
  {
    if from == end {
      h', results, handles', drained' := h, [], handles, drained;
    } else {
      var h1, before, hs, d := ClassesFreed(h, from, end - 1, all, handles, lists, drained);
      h', results, handles', drained' := OneMoreClassFreed(h, from, end, all, lists, h1, before, hs, d);
    }
  }

  /** With no handle and no reference left, no node is left. */
  lemma NothingLeft(h: Memory, handles: set<NodeId>, lists: seq<seq<Ref>>, drained: set<NodeId>)
    requires handles == {} && Sane(h, map[], handles, None, multiset{}, lists, drained)
    ensures !h.fault && h.count == |h.nodes| && forall k: NodeId :: k in h.freed <==> k < |h.nodes|
  {
    forall k: NodeId | k < |h.nodes| ensures k in h.freed {
      var left := h.nodes[k].rc;
    }
    BelowCount(h.freed, |h.nodes|);
  }

  /** The two loops of a teardown: over the leak list, then over the class nodes. */
  function Teardown(nodes: seq<Node>, leaks: nat, handles: nat): (r: (Memory, seq<bool>))
    requires WellLinked(nodes) && leaks <= handles <= |nodes|
  {
    FreeRange(FreeRange(Begin(nodes), 0, leaks).0, leaks, handles)
  }

  /** Tearing down what was built frees every node exactly once, never touches a freed node, and every call for a class
      node reports success; so `nodes_freed == nodes_allocated`. */
  lemma TeardownIsComplete(nodes: seq<Node>, leaks: nat, handles: nat)
    requires Built(nodes, leaks, handles)
    ensures var (h, classes) := Teardown(nodes, leaks, handles);
            && !h.fault && h.count == |nodes|
            && (forall k: NodeId :: k in h.freed <==> k < |nodes|)
            && |classes| == handles - leaks && AllSucceed(classes)
  {
    var h1, left, drained := LeaksFreed(nodes, leaks, handles);
    var h2, classes, none, d := ClassesFreed(h1, leaks, handles, handles, left, Lists(nodes), drained);
    NothingLeft(h2, none, Lists(nodes), d);
  }

  lemma {:induction false} BelowCount(s: set<NodeId>, n: nat)
    requires forall k: NodeId :: k in s <==> k < n
    ensures |s| == n
  {
    if n == 0 {
      assert s == {};
    } else {
      BelowCount(s - {n - 1}, n - 1);
    }
  }
}
