/** Soundness of the taint: whatever a run of callbacks leaves on a node is justified by a chain of recorded references
    that leads to it from a leak. */
module Taint {
  import opened Wrappers
  import opened LeakBits
  import opened DataStruct
  import opened Recording

  /** The state in which the pass loop starts: leak nodes, then class nodes, nothing recorded. */
  predicate Start(cfg: Config, s: State) {
    && Inv(cfg, s)
    && s.finished == Empty(cfg.leaks)
    && forall k: NodeId | k < |s.nodes| ::
         var n := s.nodes[k];
         && n.refs == [] && n.fanIn == [] && n.rc == 1 && !n.visited && !n.dead
         && n.leaks.raw == (if k < cfg.leaks then {k} else {})
         && (k >= cfg.leaks ==> n.isClass && n.size == 0)
         && n.obj == Some(s.owner[k])
  }

  /** `from` was recorded as referenced by `to`. */
  predicate Edge(nodes: seq<Node>, from: NodeId, to: NodeId) {
    from < |nodes| && to < |nodes| && exists ref <- nodes[from].refs :: ref.node == Some(to)
  }

  /** A chain of recorded references that leads from `from` to its (indirect) referrer `to`. */
  ghost predicate RefPath(nodes: seq<Node>, from: NodeId, to: NodeId, path: seq<NodeId>) {
    && path != [] && path[0] == from && path[|path| - 1] == to
    && (forall j | 0 <= j < |path| :: path[j] < |nodes|)
    && (forall j | 0 < j < |path| :: Edge(nodes, path[j - 1], path[j]))
  }

  /** Every node of the chain carries bit `i`. */
  ghost predicate Carried(nodes: seq<Node>, i: nat, path: seq<NodeId>) {
    forall j | 0 <= j < |path| :: path[j] < |nodes| && i in nodes[path[j]].leaks.raw
  }

  ghost predicate TaintPath(nodes: seq<Node>, i: nat, to: NodeId, path: seq<NodeId>) {
    RefPath(nodes, i, to, path) && Carried(nodes, i, path)
  }

  /** A raw bit is always the bit of a leak from which tainted references lead here. */
  ghost predicate BitsSound(cfg: Config, s: State) {
    forall m: NodeId, i: nat | m < |s.nodes| && i in s.nodes[m].leaks.raw ::
      i < cfg.leaks && exists path :: TaintPath(s.nodes, i, m, path)
  }

  /** A size on a node is the size of a leak from which recorded references lead here. */
  ghost predicate SizesSound(cfg: Config, s: State, sizes: seq<int>) {
    |sizes| == cfg.leaks &&
    forall m: NodeId | m < |s.nodes| && s.nodes[m].size != 0 ::
      exists i: nat, path :: i < cfg.leaks && sizes[i] == s.nodes[m].size && RefPath(s.nodes, i, m, path)
  }

  /** A leak leads to node `k`. */
  ghost predicate FromLeak(nodes: seq<Node>, leaks: nat, k: NodeId) {
    exists i: nat, path :: i < leaks && RefPath(nodes, i, k, path)
  }

  /** A node with references, or one made by the callback, is linked to a leak. */
  ghost predicate Linkage(cfg: Config, s: State, handles: nat) {
    forall m: NodeId | m < |s.nodes| && (m >= handles || s.nodes[m].refs != []) :: FromLeak(s.nodes, cfg.leaks, m)
  }

  lemma EdgeGrows(s: State, s': State, from: NodeId, to: NodeId)
    requires Grows(s, s') && Edge(s.nodes, from, to)
    ensures Edge(s'.nodes, from, to)
  {
    assert NodeGrows(s.nodes[from], s'.nodes[from]);
    var ref :| ref in s.nodes[from].refs && ref.node == Some(to);
    assert ref in s'.nodes[from].refs;
  }

  lemma PathGrows(s: State, s': State, from: NodeId, to: NodeId, path: seq<NodeId>)
    requires Grows(s, s') && RefPath(s.nodes, from, to, path)
    ensures RefPath(s'.nodes, from, to, path)
    ensures forall i: nat | Carried(s.nodes, i, path) :: Carried(s'.nodes, i, path)
  {
    forall j | 0 < j < |path| ensures Edge(s'.nodes, path[j - 1], path[j]) {
      EdgeGrows(s, s', path[j - 1], path[j]);
    }
    forall j | 0 <= j < |path| ensures NodeGrows(s.nodes[path[j]], s'.nodes[path[j]]) {
    }
  }

  lemma PathExtends(nodes: seq<Node>, from: NodeId, via: NodeId, to: NodeId, path: seq<NodeId>)
    requires RefPath(nodes, from, via, path) && Edge(nodes, via, to)
    ensures RefPath(nodes, from, to, path + [to])
    ensures forall i: nat | Carried(nodes, i, path) && i in nodes[to].leaks.raw :: Carried(nodes, i, path + [to])
  {
    var p := path + [to];
    forall j | 0 < j < |p| ensures Edge(nodes, p[j - 1], p[j]) {
      if j < |path| {
        assert p[j - 1] == path[j - 1] && p[j] == path[j];
      }
    }
  }

  /** The new reference of an accepted callback leads from the target to the referrer. */
  lemma AcceptedEdge(cfg: Config, s: State, r: HeapRef)
    requires Inv(cfg, s) && WellShaped(r) && Judge(cfg, s, r) == Accept && r.referrer.Some?
    ensures var s' := Step(cfg, s, r);
            var f := ReferrerNode(s, r).value;
            Edge(s'.nodes, s.tags[r.target], f)
  {
    CountedInv(cfg, s, r);
    LinkedNodes(cfg, Counted(cfg, s, r), r);
    var s' := Step(cfg, s, r);
    var t := s.tags[r.target];
    var refs := s'.nodes[t].refs;
    assert refs[|refs| - 1] == RefOf(s, r);
    StepInv(cfg, s, r);
    assert NodeOk(cfg, s', t);
  }

  /** How a step may leave node `m`: only the referrer of an accepted reference gains bits of the target or its size,
      and only the target gains a reference. */
  predicate NodeMoves(cfg: Config, s: State, r: HeapRef, m: NodeId, n: Node)
    requires Inv(cfg, s)
  {
    var raw := if m < |s.nodes| then s.nodes[m].leaks.raw else {};
    var size := if m < |s.nodes| then s.nodes[m].size else 0;
    && (n.leaks.raw != raw || n.size != size || m >= |s.nodes| ==>
          && Judge(cfg, s, r) == Accept && ReferrerNode(s, r) == Some(m)
          && n.leaks.raw <= raw + s.nodes[s.tags[r.target]].leaks.raw
          && (n.size == size || n.size == s.nodes[s.tags[r.target]].size))
    && (m < |s.nodes| && n.refs != s.nodes[m].refs ==> Judge(cfg, s, r) == Accept && m == s.tags[r.target])
    && (m >= |s.nodes| ==> n.refs == [])
  }

  lemma AcceptedMoves(cfg: Config, s: State, r: HeapRef, m: NodeId)
    requires Inv(cfg, s) && Judge(cfg, s, r) == Accept && m < |Step(cfg, s, r).nodes|
    ensures NodeMoves(cfg, s, r, m, Step(cfg, s, r).nodes[m])
  {
    AcceptedNode(cfg, s, r, m);
  }

  /** What a step does to the bits and sizes of one node. */
  lemma StepNode(cfg: Config, s: State, r: HeapRef, m: NodeId)
    requires Inv(cfg, s) && WellShaped(r) && m < |Step(cfg, s, r).nodes|
    ensures NodeMoves(cfg, s, r, m, Step(cfg, s, r).nodes[m])
  {
    if Judge(cfg, s, r) == Accept {
      AcceptedMoves(cfg, s, r, m);
    }
  }

  lemma StepBits(cfg: Config, s: State, r: HeapRef)
    requires Inv(cfg, s) && WellShaped(r) && BitsSound(cfg, s)
    ensures BitsSound(cfg, Step(cfg, s, r))
  {
    var s' := Step(cfg, s, r);
    StepGrows(cfg, s, r);
    forall m: NodeId, i: nat | m < |s'.nodes| && i in s'.nodes[m].leaks.raw
      ensures i < cfg.leaks && exists path :: TaintPath(s'.nodes, i, m, path)
    {
      StepNode(cfg, s, r, m);
      if m < |s.nodes| && i in s.nodes[m].leaks.raw {
        var path :| TaintPath(s.nodes, i, m, path);
        PathGrows(s, s', i, m, path);
        assert TaintPath(s'.nodes, i, m, path);
      } else {
        var t := s.tags[r.target];
        var path :| TaintPath(s.nodes, i, t, path);
        PathGrows(s, s', i, t, path);
        AcceptedEdge(cfg, s, r);
        PathExtends(s'.nodes, i, t, m, path);
        assert TaintPath(s'.nodes, i, m, path + [m]);
      }
    }
  }

  lemma StepSizes(cfg: Config, s: State, r: HeapRef, sizes: seq<int>)
    requires Inv(cfg, s) && WellShaped(r) && SizesSound(cfg, s, sizes)
    ensures SizesSound(cfg, Step(cfg, s, r), sizes)
  {
    var s' := Step(cfg, s, r);
    StepGrows(cfg, s, r);
    forall m: NodeId | m < |s'.nodes| && s'.nodes[m].size != 0
      ensures exists i: nat, path :: i < cfg.leaks && sizes[i] == s'.nodes[m].size && RefPath(s'.nodes, i, m, path)
    {
      StepNode(cfg, s, r, m);
      if m < |s.nodes| && s'.nodes[m].size == s.nodes[m].size {
        var i: nat, path :| i < cfg.leaks && sizes[i] == s.nodes[m].size && RefPath(s.nodes, i, m, path);
        PathGrows(s, s', i, m, path);
      } else {
        var t := s.tags[r.target];
        var i: nat, path :| i < cfg.leaks && sizes[i] == s.nodes[t].size && RefPath(s.nodes, i, t, path);
        PathGrows(s, s', i, t, path);
        AcceptedEdge(cfg, s, r);
        PathExtends(s'.nodes, i, t, m, path);
      }
    }
  }

  lemma StepLinkage(cfg: Config, s: State, r: HeapRef, handles: nat)
    requires Inv(cfg, s) && WellShaped(r) && BitsSound(cfg, s) && Linkage(cfg, s, handles)
    ensures Linkage(cfg, Step(cfg, s, r), handles)
  {
    var s' := Step(cfg, s, r);
    StepGrows(cfg, s, r);
    forall m: NodeId | m < |s'.nodes| && (m >= handles || s'.nodes[m].refs != [])
      ensures FromLeak(s'.nodes, cfg.leaks, m)
    {
      StepNode(cfg, s, r, m);
      if m < |s.nodes| && (m >= handles || s.nodes[m].refs != []) {
        assert FromLeak(s.nodes, cfg.leaks, m);
        var i: nat, path :| i < cfg.leaks && RefPath(s.nodes, i, m, path);
        PathGrows(s, s', i, m, path);
      } else {
        var t := s.tags[r.target];
        var i :| i in s.nodes[t].leaks.raw;
        var path :| TaintPath(s.nodes, i, t, path);
        PathGrows(s, s', i, t, path);
        if m != t {
          AcceptedEdge(cfg, s, r);
          PathExtends(s'.nodes, i, t, m, path);
        }
      }
    }
  }

  ghost predicate Sound(cfg: Config, s: State, sizes: seq<int>, handles: nat) {
    BitsSound(cfg, s) && SizesSound(cfg, s, sizes) && Linkage(cfg, s, handles)
  }

  lemma StartSound(cfg: Config, s: State, sizes: seq<int>)
    requires Start(cfg, s) && |sizes| == cfg.leaks
    requires forall k: nat | k < cfg.leaks :: s.nodes[k].size == sizes[k]
    ensures Sound(cfg, s, sizes, |s.nodes|)
  {
    forall m: NodeId, i: nat | m < |s.nodes| && i in s.nodes[m].leaks.raw
      ensures i < cfg.leaks && exists path :: TaintPath(s.nodes, i, m, path)
    {
      assert i == m < cfg.leaks;
      assert TaintPath(s.nodes, i, m, [m]);
    }
    forall m: NodeId | m < |s.nodes| && s.nodes[m].size != 0
      ensures exists i: nat, path :: i < cfg.leaks && sizes[i] == s.nodes[m].size && RefPath(s.nodes, i, m, path)
    {
      assert RefPath(s.nodes, m, m, [m]);
    }
  }

  lemma VisitSound(cfg: Config, s: State, heap: seq<HeapRef>, from: nat, sizes: seq<int>, handles: nat)
    requires Inv(cfg, s) && Shaped(heap) && from <= |heap|
    requires Sound(cfg, s, sizes, handles)
    ensures Sound(cfg, Visit(cfg, s, heap, from), sizes, handles)
    decreases |heap| - from
  {
    if from < |heap| {
      var r := heap[from];
      StepInv(cfg, s, r);
      StepBits(cfg, s, r);
      StepSizes(cfg, s, r, sizes);
      StepLinkage(cfg, s, r, handles);
      VisitSound(cfg, Step(cfg, s, r), heap, from + 1, sizes, handles);
    }
  }

  lemma PassLoopSound(cfg: Config, s: State, heap: seq<HeapRef>, left: nat, sizes: seq<int>, handles: nat)
    requires Inv(cfg, s) && Shaped(heap) && Sound(cfg, s, sizes, handles)
    ensures Sound(cfg, PassLoop(cfg, s, heap, left), sizes, handles)
    decreases left
  {
    if left > 0 {
      PassFacts(cfg, s, heap);
      ResetInv(cfg, s);
      VisitSound(cfg, Reset(s), heap, 0, sizes, handles);
      var s' := Pass(cfg, s, heap);
      if HasUnfinished(cfg, s') {
        PassLoopSound(cfg, s', heap, left - 1, sizes, handles);
      }
    }
  }

  /** For any sequence of callbacks after the start, whatever heap each of them came from. */
  lemma TaintIsSound(cfg: Config, s: State, trace: seq<HeapRef>, sizes: seq<int>)
    requires Start(cfg, s) && Shaped(trace)
    requires |sizes| == cfg.leaks && forall k: nat | k < cfg.leaks :: s.nodes[k].size == sizes[k]
    ensures var s' := Visit(cfg, s, trace, 0);
            && (forall m: NodeId, i: nat | m < |s'.nodes| && i in s'.nodes[m].leaks.raw ::
                  i < cfg.leaks && exists path :: TaintPath(s'.nodes, i, m, path))
            && (forall m: NodeId | m < |s'.nodes| && s'.nodes[m].size != 0 ::
                  exists i: nat, path ::
                    i < cfg.leaks && sizes[i] == s'.nodes[m].size && RefPath(s'.nodes, i, m, path))
  {
    StartSound(cfg, s, sizes);
    VisitSound(cfg, s, trace, 0, sizes, |s.nodes|);
  }
}
