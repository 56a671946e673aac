/** The agent's nodes as objects that are updated in place (`data_struct.c`). */
module NodeMemory {
  import opened Wrappers
  import opened LeakBits
  import opened DataStruct
  import opened Search
  import opened Teardown

  /** Where the loop of `addReferenceClass` stops, and what it does there. */
  lemma {:induction false} BumpAt(fanIn: seq<ClassCount>, i: nat, c: Obj)
    requires i <= |fanIn| && (forall j: nat | j < i :: fanIn[j].klass != c)
    requires i < |fanIn| ==> fanIn[i].klass == c
    ensures CountOf(fanIn, c) == if i < |fanIn| then fanIn[i].count else 0
    ensures Bump(fanIn, c) == if i < |fanIn| then fanIn[i := ClassCount(c, fanIn[i].count + 1)]
                              else fanIn + [ClassCount(c, 1)]
  {
    if fanIn != [] && i > 0 {
      BumpAt(fanIn[1..], i - 1, c);
    }
  }

  /** `MemoryNode`.  `id` is its address. */
  class MemoryNode {
    const id: NodeId
    var visited: bool
    var dead: bool
    var isClass: bool
    var obj: Option<Obj>
    var size: int
    var leaks: Bits
    var refs: seq<Ref>
    var rc: int
    var fanIn: seq<ClassCount>
    var ignore: seq<IgnoreField>

    /** `newMemoryNode` */
    constructor (id: NodeId, leaks: nat)
      ensures this.id == id && View() == NewNode(leaks)
    {
      this.id := id;
      visited, dead, isClass, obj, size := false, false, false, None, 0;
      this.leaks, refs, rc, fanIn, ignore := Empty(leaks), [], 1, [], [];
    }

    function View(): Node
      reads this
    {
      Node(visited, dead, isClass, obj, size, leaks, refs, rc, fanIn, ignore)
    }

    /** `addReferenceClass`: counts one more reference from an instance of that class.  If the node is no class node it
        calls `fatal_error`, and there is no result. */
    method AddReferenceClass(classNode: MemoryNode) returns (count: Option<nat>)
      requires classNode.isClass ==> classNode.obj.Some?
      modifies this`fanIn
      ensures count.Some? == classNode.isClass
      ensures count.None? ==> fanIn == old(fanIn)
      ensures count.Some? ==> fanIn == Bump(old(fanIn), classNode.obj.value)
                              && count.value == CountOf(fanIn, classNode.obj.value)
    {
      if !classNode.isClass {
        return None;
      }
      var c := classNode.obj.value;
      var i := 0;
      while i < |fanIn| && fanIn[i].klass != c
        invariant i <= |fanIn| && forall j: nat | j < i :: fanIn[j].klass != c
      {
        i := i + 1;
      }
      BumpAt(fanIn, i, c);
      BumpCounts(fanIn, c, c);
      if i < |fanIn| {
        fanIn := fanIn[i := ClassCount(c, fanIn[i].count + 1)];
        return Some(fanIn[i].count);
      }
      fanIn := fanIn + [ClassCount(c, 1)];
      return Some(1);
    }

    /** `isFieldIgnored`, for references that this class makes to `node`. */
    method IsFieldIgnored(node: MemoryNode, field: int) returns (ignored: bool)
      ensures ignored == Ignored(ignore, node.size, field)
    {
      for i := 0 to |ignore|
        invariant forall j | 0 <= j < i :: !(ignore[j].field == field && node.size < ignore[j].threshold)
      {
        if ignore[i].field == field && node.size < ignore[i].threshold {
          return true;
        }
      }
      return false;
    }

    /** `hasReferenceBetweenObjects`: whether `n` was recorded before as such a referrer of this node. */
    method HasReferenceFrom(n: NodeId, kind: Kind, info: Option<Info>) returns (found: bool)
      ensures found == HasReference(refs, n, kind, info)
      ensures found <==> exists i: nat :: i < |refs| && refs[i].kind == kind && refs[i].node == Some(n)
                                          && (info.Some? ==> refs[i].info == info.value)
    {
      for i := 0 to |refs|
        invariant forall j | 0 <= j < i ::
                    !(refs[j].kind == kind && (info.None? || refs[j].info == info.value) && refs[j].node == Some(n))
      {
        if refs[i].kind == kind && (info.None? || refs[i].info == info.value) && refs[i].node == Some(n) {
          return true;
        }
      }
      return false;
    }
  }

  /** The address space: the node at each address. */
  predicate Addressed(nodes: seq<MemoryNode>) {
    forall k: NodeId | k < |nodes| :: nodes[k].id == k
  }

  function Views(nodes: seq<MemoryNode>): (v: seq<Node>)
    reads nodes
    ensures |v| == |nodes| && forall k: NodeId | k < |nodes| :: v[k] == nodes[k].View()
  {
    seq(|nodes|, k requires 0 <= k < |nodes| reads nodes => nodes[k].View())
  }

  /** Node `k` is being freed, and freeing its references from the `i`-th on leads to `last`. */
  ghost predicate RefsLeft(h: Memory, k: NodeId, i: nat, last: Memory)
    requires k < |h.nodes|
  {
    && WellLinked(h.nodes) && h.nodes[k].visited && k !in h.freed && i <= |h.nodes[k].refs|
    && FreeRefs(h, k, i) == last && !last.fault
  }

  lemma RefsNext(h: Memory, k: NodeId, i: nat, last: Memory)
    requires k < |h.nodes| && RefsLeft(h, k, i, last) && i < |h.nodes[k].refs|
    ensures var node := h.nodes[k].refs[i].node;
            && (node.Some? ==> node.value < |h.nodes|)
            && var h1 := FreeNode(h, node).0;
               && !h1.fault && |h1.nodes| == |h.nodes| && h1.nodes[k].refs == h.nodes[k].refs
               && RefsLeft(h1, k, i + 1, last) && |Unvisited(h1.nodes)| <= |Unvisited(h.nodes)|
  {
    KeepsUnvisited(h, FreeNode(h, h.nodes[k].refs[i].node).0);
  }

  lemma RefsDone(h: Memory, k: NodeId, i: nat, last: Memory)
    requires k < |h.nodes| && RefsLeft(h, k, i, last) && i == |h.nodes[k].refs|
    ensures h == last && k !in h.freed
  {
  }

  lemma FreesNext(h: Memory, from: nat, k: nat, end: nat, now: Memory, results: seq<bool>)
    requires WellLinked(h.nodes) && from <= k < end <= |h.nodes| && FreedSoFar(h, from, k, now, results)
    requires !FreeRange(h, from, end).0.fault
    ensures WellLinked(now.nodes) && |now.nodes| == |h.nodes| && !FreeNode(now, Some(k)).0.fault
    ensures FreedSoFar(h, from, k + 1, FreeNode(now, Some(k)).0, results + [FreeNode(now, Some(k)).1])
  {
    FaultStays(h, from, k + 1, end);
    FreeRangeNext(h, from, k + 1, now, results, FreeNode(now, Some(k)).0, FreeNode(now, Some(k)).1);
  }

  /** What freeing a node that is not being freed yet comes to. */
  lemma FreesFirst(h: Memory, k: NodeId)
    requires WellLinked(h.nodes) && k < |h.nodes| && k !in h.freed && !h.nodes[k].visited
    ensures WellLinked(Opened(h, k).nodes)
    ensures var h3 := FreeRefs(Opened(h, k), k, 0);
            && |h3.nodes| == |h.nodes| && FreeNode(h, Some(k)) == (Closed(h3, k), h3.nodes[k].rc <= 0)
            && FreeNode(h, Some(k)).0.fault == h3.fault
  {
    OpenedLinked(h, k);
  }

  /** The part of `ThreadData` that owns the nodes. */
  class ThreadData {
    var nodes: seq<MemoryNode>
    var nodesAllocated: nat
    var nodesFreed: nat
    ghost var freed: set<NodeId>

    constructor ()
      ensures nodes == [] && nodesAllocated == nodesFreed == 0 && freed == {}
    {
      nodes, nodesAllocated, nodesFreed, freed := [], 0, 0, {};
    }

    /** The memory as the allocator sees it; `fault` stays false because the methods ask for live nodes. */
    ghost function Mem(): Memory
      reads this, nodes
    {
      Memory(Views(nodes), freed, nodesFreed, false)
    }

    /** Nodes may have been allocated since, but none was freed. */
    twostate predicate OnlyAdds()
      reads this
    {
      && nodesFreed == old(nodesFreed) && freed == old(freed)
      && |old(nodes)| <= |nodes|
      && forall i | 0 <= i < |nodes| ::
           if i < |old(nodes)| then nodes[i] == old(nodes)[i] else fresh(nodes[i])
    }

    /** Allocates a node. */
    method NewMemoryNode(leaks: nat) returns (n: MemoryNode)
      requires Addressed(nodes)
      modifies this
      ensures Addressed(nodes) && nodes == old(nodes) + [n] && fresh(n) && n.View() == NewNode(leaks)
      ensures nodesAllocated == old(nodesAllocated) + 1 && OnlyAdds()
    {
      n := new MemoryNode(|nodes|, leaks);
      nodes := nodes + [n];
      nodesAllocated := nodesAllocated + 1;
    }

    /** `freeMemoryNode`.  Every dereference is of a live node. */
    method FreeMemoryNode(n: Option<NodeId>, ghost unvisited: nat) returns (done: bool)
      requires |Unvisited(Views(nodes))| <= unvisited
      requires Addressed(nodes) && WellLinked(Views(nodes)) && (n.Some? ==> n.value < |nodes|)
      requires !FreeNode(Mem(), n).0.fault
      modifies this`nodesFreed, this`freed, nodes
      ensures nodes == old(nodes) && Addressed(nodes)
      ensures Mem() == old(FreeNode(Mem(), n).0) && done == old(FreeNode(Mem(), n).1)
      decreases unvisited, 2
    {
      if n.None? {
        return false;
      }
      assert n.value !in freed;
      ghost var h := Mem();
      OpenedLinked(h, n.value);
      if nodes[n.value].visited {
        LowerNode(n.value);
        return false;
      }
      OpenedVisits(h, n.value);
      FreesFirst(h, n.value);
      done := FreeUnvisited(n.value, unvisited);
    }

    /** `freeMemoryNode` on a node that is not being freed yet. */
    method FreeUnvisited(k: NodeId, ghost unvisited: nat) returns (done: bool)
      requires Addressed(nodes) && k < |nodes| && k !in freed && unvisited > 0
      requires var h1 := Opened(Mem(), k);
               && |Unvisited(h1.nodes)| < unvisited && WellLinked(h1.nodes)
               && !FreeRefs(h1, k, 0).fault
      modifies this`nodesFreed, this`freed, nodes
      ensures nodes == old(nodes) && Addressed(nodes)
      ensures Mem() == old(Closed(FreeRefs(Opened(Mem(), k), k, 0), k))
      ensures done == old(FreeRefs(Opened(Mem(), k), k, 0).nodes[k].rc <= 0)
      decreases unvisited, 1
    {
      OpenNode(k);
      FreeReferences(k, unvisited - 1);
      done := CloseNode(k);
    }

    /** `freeMemoryNode` on a node that is being freed: it only counts. */
    method LowerNode(k: NodeId)
      requires Addressed(nodes) && k < |nodes| && k !in freed
      modifies nodes[k]
      ensures Mem() == old(Lowered(Mem(), k))
    {
      ghost var h := Mem();
      nodes[k].rc := nodes[k].rc - 1;
      assert Views(nodes) == Lowered(h, k).nodes;
    }

    /** The first part of `freeMemoryNode`: the flag is set and the contents go. */
    method OpenNode(k: NodeId)
      requires Addressed(nodes) && k < |nodes| && k !in freed
      modifies nodes[k]
      ensures Mem() == old(Opened(Mem(), k))
    {
      ghost var h := Mem();
      var node := nodes[k];
      node.rc := node.rc - 1;
      node.visited := true;
      node.obj := None;
      node.ignore := [];
      node.leaks := Empty(0);
      assert Views(nodes) == Opened(h, k).nodes;
    }

    /** The last part: the lists go, and the node itself if nothing refers to it. */
    method CloseNode(k: NodeId) returns (done: bool)
      requires Addressed(nodes) && k < |nodes| && k !in freed
      modifies this`nodesFreed, this`freed, nodes[k]
      ensures Mem() == old(Closed(Mem(), k)) && done == (old(nodes[k].rc) <= 0)
    {
      ghost var h := Mem();
      var node := nodes[k];
      node.refs := [];
      node.fanIn := [];
      if 0 < node.rc {
        node.visited := false;
        assert Views(nodes) == Closed(h, k).nodes;
        return false;
      }
      nodesFreed := nodesFreed + 1;
      freed := freed + {k};
      assert Views(nodes) == Closed(h, k).nodes;
      return true;
    }

    /** The loop of `freeMemoryNode` over the references of node `k`. */
    method FreeReferences(k: NodeId, ghost unvisited: nat)
      requires |Unvisited(Views(nodes))| <= unvisited
      requires Addressed(nodes) && WellLinked(Views(nodes)) && k < |nodes| && nodes[k].visited && k !in freed
      requires !FreeRefs(Mem(), k, 0).fault
      modifies this`nodesFreed, this`freed, nodes
      ensures nodes == old(nodes) && Addressed(nodes)
      ensures Mem() == old(FreeRefs(Mem(), k, 0)) && k !in freed
      decreases unvisited, 4
    {
      ghost var last, n := FreeRefs(Mem(), k, 0), |nodes[k].refs|;
      var i := 0;
      while i < |nodes[k].refs|
        invariant Addressed(nodes) && nodes == old(nodes) && |nodes[k].refs| == n
        invariant RefsLeft(Mem(), k, i, last) && |Unvisited(Mem().nodes)| <= unvisited
        decreases n - i
      {
        FreeReference(k, i, Mem(), last, unvisited);
        i := i + 1;
      }
      RefsDone(Mem(), k, i, last);
    }

    /** One turn of it. */
    method FreeReference(k: NodeId, i: nat, ghost h: Memory, ghost last: Memory, ghost unvisited: nat)
      requires Addressed(nodes) && Mem() == h && k < |nodes| == |h.nodes| && |Unvisited(h.nodes)| <= unvisited
      requires RefsLeft(h, k, i, last) && i < |h.nodes[k].refs|
      modifies this`nodesFreed, this`freed, nodes
      ensures nodes == old(nodes) && Addressed(nodes) && |Mem().nodes| == |h.nodes|
      ensures Mem().nodes[k].refs == h.nodes[k].refs && RefsLeft(Mem(), k, i + 1, last)
      ensures |Unvisited(Mem().nodes)| <= unvisited
      decreases unvisited, 3
    {
      RefsNext(h, k, i, last);
      var _ := FreeMemoryNode(nodes[k].refs[i].node, unvisited);
    }

    /** The loops of `freeMemoryForLeakList` and `untagAllClasses` over their nodes, with the results of the calls. */
    method FreeHandles(from: nat, end: nat) returns (results: seq<bool>)
      requires Addressed(nodes) && WellLinked(Views(nodes)) && from <= end <= |nodes|
      requires !FreeRange(Mem(), from, end).0.fault
      modifies this`nodesFreed, this`freed, nodes
      ensures Mem() == old(FreeRange(Mem(), from, end).0) && results == old(FreeRange(Mem(), from, end).1)
    {
      ghost var h := Mem();
      results := [];
      var k := from;
      while k < end
        invariant from <= k <= end && Addressed(nodes) && nodes == old(nodes)
        invariant FreedSoFar(h, from, k, Mem(), results)
      {
        var done := FreeHandle(h, from, k, end, results);
        results := results + [done];
        k := k + 1;
      }
    }

    /** One turn of them. */
    method FreeHandle(ghost h: Memory, ghost from: nat, k: nat, ghost end: nat, ghost results: seq<bool>)
      returns (done: bool)
      requires Addressed(nodes) && WellLinked(h.nodes) && from <= k < end <= |h.nodes| == |nodes|
      requires FreedSoFar(h, from, k, Mem(), results) && !FreeRange(h, from, end).0.fault
      modifies this`nodesFreed, this`freed, nodes
      ensures nodes == old(nodes) && Addressed(nodes)
      ensures FreedSoFar(h, from, k + 1, Mem(), results + [done])
    {
      FreesNext(h, from, k, end, Mem(), results);
      done := FreeMemoryNode(Some(k), |Unvisited(Views(nodes))|);
    }
  }
}
