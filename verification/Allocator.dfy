/** The live-allocation list of the agent's self check (`allocator.c`). */
module Allocators {
  import opened Wrappers

  /** `MallocatedNode`: the header of a block, or a sentinel.  `serial` counts the allocations before this one. */
  class MallocatedNode {
    const file: string
    const line: int
    ghost const serial: nat
    var prev: MallocatedNode?
    var next: MallocatedNode?

    constructor (file: string, line: int, ghost serial: nat)
      ensures this.file == file && this.line == line && this.serial == serial
    {
      this.file, this.line, this.serial := file, line, serial;
      prev, next := null, null;
    }
  }

  datatype Place = Place(file: string, line: int)

  /** Neighbours point at each other. */
  ghost predicate Chain(nodes: seq<MallocatedNode>)
    reads nodes
  {
    forall i | 0 <= i < |nodes| - 1 :: nodes[i].next == nodes[i + 1] && nodes[i + 1].prev == nodes[i]
  }

  /** Blocks in allocation order; in particular no block occurs twice. */
  ghost predicate InOrder(live: seq<MallocatedNode>, allocations: nat) {
    && (forall i | 0 <= i < |live| :: live[i].serial < allocations)
    && (forall i, j | 0 <= i < j < |live| :: live[i].serial < live[j].serial)
  }

  /** The sequence without the first occurrence of `x`. */
  function Remove<T(==)>(s: seq<T>, x: T): seq<T> {
    if s == [] then [] else if s[0] == x then s[1..] else [s[0]] + Remove(s[1..], x)
  }

  lemma {:induction false} RemoveAt<T>(s: seq<T>, i: nat)
    requires i < |s| && forall j | 0 <= j < i :: s[j] != s[i]
    ensures Remove(s, s[i]) == s[..i] + s[i + 1..]
  {
    if i > 0 {
      RemoveAt(s[1..], i - 1);
    }
  }

  /** The blocks that are left when one is freed. */
  lemma Without(live: seq<MallocatedNode>, p: MallocatedNode, allocations: nat)
    returns (i: nat, rest: seq<MallocatedNode>)
    requires InOrder(live, allocations) && p in live
    ensures i < |live| && live[i] == p && rest == live[..i] + live[i + 1..] == Remove(live, p)
    ensures InOrder(rest, allocations) && forall q :: q in rest ==> q in live
  {
    i :| 0 <= i < |live| && live[i] == p;
    RemoveAt(live, i);
    rest := live[..i] + live[i + 1..];
    LeftInOrder(live, i, rest, allocations);
  }

  lemma LeftInOrder(live: seq<MallocatedNode>, i: nat, rest: seq<MallocatedNode>, allocations: nat)
    requires InOrder(live, allocations) && i < |live| && rest == live[..i] + live[i + 1..]
    ensures InOrder(rest, allocations) && forall q :: q in rest ==> q in live
  {
    assert |rest| == |live| - 1 && forall j | 0 <= j < |rest| :: rest[j] == live[if j < i then j else j + 1];
  }

  function Places(live: seq<MallocatedNode>): seq<Place> {
    seq(|live|, i requires 0 <= i < |live| => Place(live[i].file, live[i].line))
  }

  class Allocator {
    var allocations: nat
    var frees: nat
    const selfCheck: bool
    const head: MallocatedNode
    const tail: MallocatedNode
    ghost var live: seq<MallocatedNode>
    ghost var reported: nat

    ghost predicate Valid()
      reads this, head, tail, live
    {
      && head != tail && head !in live && tail !in live
      && InOrder(live, allocations)
      && Chain([head] + (if selfCheck then live else []) + [tail])
      && |live| + reported == allocations - frees
    }

    /** `initAllocator`; both `memset` calls there clear nothing. */
    constructor (selfCheck: bool)
      ensures Valid() && live == [] && reported == 0 && allocations == frees == 0 && this.selfCheck == selfCheck
      ensures fresh(head) && fresh(tail)
    {
      allocations, frees, live, reported := 0, 0, [], 0;
      this.selfCheck := selfCheck;
      var h := new MallocatedNode("", 0, 0);
      var t := new MallocatedNode("", 0, 0);
      h.next := t;
      t.prev := h;
      head, tail := h, t;
    }

    /** `fillMallocNode` */
    method FillMallocNode(n: MallocatedNode)
      requires Valid() && selfCheck && n != head && n != tail && n !in live
      modifies n, head, tail, live
      ensures Chain([head] + live + [n] + [tail])
    {
      ghost var nodes, before := [head] + live, [head] + live + [tail];
      ghost var last := |nodes| - 1;
      assert before[last] == nodes[last] && before[last + 1] == tail;
      n.prev := tail.prev;
      n.next := tail;
      tail.prev.next := n;
      tail.prev := n;
      ghost var after := [head] + live + [n] + [tail];
      forall i | 0 <= i < |after| - 1 ensures after[i].next == after[i + 1] && after[i + 1].prev == after[i] {
        if i < last {
          assert before[i] == nodes[i] == after[i] && before[i + 1] == nodes[i + 1] == after[i + 1];
        }
      }
    }

    /** `_myAlloc` */
    method MyAlloc(file: string, line: int) returns (p: MallocatedNode)
      requires Valid()
      modifies this, head, tail, live
      ensures Valid() && fresh(p) && p.file == file && p.line == line && p.serial == old(allocations)
      ensures live == old(live) + [p]
      ensures allocations == old(allocations) + 1 && frees == old(frees) && reported == old(reported)
    {
      p := new MallocatedNode(file, line, allocations);
      if selfCheck {
        FillMallocNode(p);
        assert [head] + (live + [p]) + [tail] == [head] + live + [p] + [tail];
      }
      allocations := allocations + 1;
      live := live + [p];
    }

    /** `myFree`, for a live block */
    method MyFree(p: MallocatedNode)
      requires Valid() && p in live
      modifies this, head, tail, live
      ensures Valid() && live == Remove(old(live), p)
      ensures allocations == old(allocations) && frees == old(frees) + 1 && reported == old(reported)
    {
      ghost var i, rest := Without(live, p, allocations);
      if selfCheck {
        Neighbours(i);
        Unlink(p, i, rest);
      }
      frees := frees + 1;
      live := rest;
    }

    lemma Neighbours(i: nat)
      requires Valid() && selfCheck && i < |live|
      ensures live[i].prev == (if i == 0 then head else live[i - 1])
      ensures live[i].next == if i + 1 < |live| then live[i + 1] else tail
    {
      var nodes := [head] + live + [tail];
      assert nodes[i].next == nodes[i + 1] && nodes[i + 1].next == nodes[i + 2];
      assert nodes[i + 1].prev == nodes[i];
    }

    /** The neighbours of a block meet. */
    method Unlink(p: MallocatedNode, ghost i: nat, ghost rest: seq<MallocatedNode>)
      requires selfCheck && head != tail && head !in live && tail !in live && InOrder(live, allocations)
      requires Chain([head] + live + [tail]) && i < |live| && live[i] == p && rest == live[..i] + live[i + 1..]
      modifies p.prev, p.next
      ensures Chain([head] + rest + [tail])
    {
      ghost var before := [head] + live + [tail];
      ghost var after := [head] + rest + [tail];
      assert before[i].next == before[i + 1] && before[i + 1].prev == before[i];
      assert before[i + 1].next == before[i + 2] && before[i + 2].prev == before[i + 1] == p;
      p.prev.next := p.next;
      p.next.prev := p.prev;
      forall j | 0 <= j < |after| - 1 ensures after[j].next == after[j + 1] && after[j + 1].prev == after[j] {
        assert after[j] == before[if j <= i then j else j + 1];
        assert after[j + 1] == before[if j + 1 <= i then j + 1 else j + 2];
      }
    }

    /** `findInternalMallocsLeaks`: nothing if all blocks were freed, and the places of the live blocks otherwise.  The
        counters keep their values. */
    method FindInternalMallocsLeaks() returns (report: Option<seq<Place>>)
      requires Valid()
      modifies this, head, tail
      ensures Valid() && allocations == old(allocations) && frees == old(frees)
      ensures report.None? <==> old(live) == [] && old(reported) == 0
      ensures report.Some? ==> report.value == if selfCheck then Places(old(live)) else []
      ensures report.Some? && selfCheck ==>
                |report.value| == |old(live)| && forall k: nat | k < |report.value| ::
                  report.value[k].file == old(live)[k].file && report.value[k].line == old(live)[k].line
      ensures report.None? ==> live == old(live) && reported == old(reported)
      ensures report.Some? && selfCheck ==> live == [] && head.next == tail && tail.prev == head
    {
      if allocations == frees {
        return None;
      }
      ghost var all := if selfCheck then live else [];
      ghost var chain := [head] + all + [tail];
      assert Chain(chain) && chain[1..|chain| - 1] == all;
      var lines := WalkList(chain);
      tail.prev := head;
      if selfCheck {
        reported := reported + |live|;
        live := [];
      }
      return Some(lines);
    }

    /** The loop of the report: takes block after block off the list. */
    method WalkList(ghost chain: seq<MallocatedNode>) returns (lines: seq<Place>)
      requires Chain(chain) && |chain| >= 2 && chain[0] == head && chain[|chain| - 1] == tail
      requires forall i | 0 < i < |chain| - 1 :: chain[i] != head && chain[i] != tail
      modifies head
      ensures lines == Places(chain[1..|chain| - 1]) && head.next == tail
    {
      lines := [];
      assert chain[0].next == chain[1];
      while head.next != tail
        invariant |lines| <= |chain| - 2 && head.next == chain[|lines| + 1]
        invariant forall i | 0 < i < |chain| - 1 :: chain[i].next == chain[i + 1]
        invariant lines == Places(chain[1..|lines| + 1])
        decreases |chain| - |lines|
      {
        var first := head.next;
        assert chain[|lines| + 1] != tail && |lines| < |chain| - 2;
        lines := lines + [Place(first.file, first.line)];
        head.next := first.next;
      }
    }
  }

  // ---- Any interleaving ----

  /** An allocation, or a free of the block that the allocation with that number returned. */
  datatype Op = Alloc(place: Place) | Free(serial: nat)

  function Allocs(ops: seq<Op>, n: nat): nat
    requires n <= |ops|
  {
    if n == 0 then 0 else Allocs(ops, n - 1) + if ops[n - 1].Alloc? then 1 else 0
  }

  /** The numbers of the live blocks after the first `n` operations. */
  function LiveAfter(ops: seq<Op>, n: nat): seq<nat>
    requires n <= |ops|
  {
    if n == 0 then []
    else if ops[n - 1].Alloc? then LiveAfter(ops, n - 1) + [Allocs(ops, n - 1)]
    else Remove(LiveAfter(ops, n - 1), ops[n - 1].serial)
  }

  /** The first `n` operations free live blocks only. */
  predicate Proper(ops: seq<Op>, n: nat)
    requires n <= |ops|
  {
    n == 0 || (Proper(ops, n - 1) && (ops[n - 1].Free? ==> ops[n - 1].serial in LiveAfter(ops, n - 1)))
  }

  lemma {:induction false} ProperBefore(ops: seq<Op>, i: nat, n: nat)
    requires i <= n <= |ops| && Proper(ops, n)
    ensures Proper(ops, i)
  {
    if i < n {
      ProperBefore(ops, i, n - 1);
    }
  }

  /** Strictly increasing and below `bound`. */
  predicate Increasing(s: seq<nat>, bound: nat) {
    (forall i | 0 <= i < |s| :: s[i] < bound) && (forall i, j | 0 <= i < j < |s| :: s[i] < s[j])
  }

  lemma {:induction false} RemoveFrom(s: seq<nat>, x: nat, bound: nat)
    requires Increasing(s, bound) && x in s
    ensures Increasing(Remove(s, x), bound) && |Remove(s, x)| == |s| - 1
    ensures Remove(s, x) != [] ==> s[0] <= Remove(s, x)[0]
  {
    if s[0] != x {
      RemoveFrom(s[1..], x, bound);
    }
  }

  lemma {:induction false} RemoveHas(s: seq<nat>, x: nat, y: nat, bound: nat)
    requires Increasing(s, bound)
    ensures y in Remove(s, x) <==> y in s && y != x
  {
    if s != [] {
      assert y in s <==> y == s[0] || y in s[1..];
      if s[0] != x {
        RemoveHas(s[1..], x, y, bound);
        assert y in [s[0]] + Remove(s[1..], x) <==> y == s[0] || y in Remove(s[1..], x);
      }
    }
  }

  /** The live blocks are in allocation order, and there are as many as allocations without a free. */
  lemma {:induction false} LiveInOrder(ops: seq<Op>, n: nat)
    requires n <= |ops| && Proper(ops, n)
    ensures Increasing(LiveAfter(ops, n), Allocs(ops, n))
    ensures |LiveAfter(ops, n)| == Allocs(ops, n) - (n - Allocs(ops, n))
  {
    if n > 0 {
      LiveInOrder(ops, n - 1);
      if ops[n - 1].Free? {
        RemoveFrom(LiveAfter(ops, n - 1), ops[n - 1].serial, Allocs(ops, n - 1));
      }
    }
  }

  /** Block `k` was allocated and not freed. */
  predicate IsLive(ops: seq<Op>, n: nat, k: nat)
    requires n <= |ops|
  {
    k < Allocs(ops, n) && forall i: nat | i < n :: ops[i] != Free(k)
  }

  /** The live blocks are exactly those that were allocated and not freed. */
  lemma {:induction false} LiveAreTheRest(ops: seq<Op>, n: nat, k: nat)
    requires n <= |ops| && Proper(ops, n)
    ensures k in LiveAfter(ops, n) <==> IsLive(ops, n, k)
  {
    if n > 0 {
      LiveAreTheRest(ops, n - 1, k);
      var before := LiveAfter(ops, n - 1);
      if ops[n - 1].Free? {
        LiveInOrder(ops, n - 1);
        RemoveHas(before, ops[n - 1].serial, k, Allocs(ops, n - 1));
      } else {
        assert k in before + [Allocs(ops, n - 1)] <==> k in before || k == Allocs(ops, n - 1);
        NeverFreedBefore(ops, n - 1);
      }
    }
  }

  /** No block is freed before it is allocated. */
  lemma NeverFreedBefore(ops: seq<Op>, n: nat)
    requires n <= |ops| && Proper(ops, n)
    ensures forall i: nat | i < n :: ops[i] != Free(Allocs(ops, n))
  {
    forall i: nat | i < n && ops[i].Free? ensures ops[i].serial < Allocs(ops, n) {
      ProperBefore(ops, i + 1, n);
      LiveInOrder(ops, i);
      AllocsGrow(ops, i, n);
    }
  }

  lemma {:induction false} AllocsGrow(ops: seq<Op>, i: nat, n: nat)
    requires i <= n <= |ops|
    ensures Allocs(ops, i) <= Allocs(ops, n)
  {
    if i < n {
      AllocsGrow(ops, i, n - 1);
    }
  }

  ghost function Serials(live: seq<MallocatedNode>): seq<nat> {
    seq(|live|, i requires 0 <= i < |live| => live[i].serial)
  }

  lemma {:induction false} SerialsRemove(live: seq<MallocatedNode>, p: MallocatedNode)
    requires forall i, j | 0 <= i < j < |live| :: live[i].serial < live[j].serial
    requires p in live
    ensures Serials(Remove(live, p)) == Remove(Serials(live), p.serial)
  {
    var rest := live[1..];
    assert Serials(live)[1..] == Serials(rest);
    if live[0] != p {
      var i :| 0 < i < |live| && live[i] == p;
      SerialsRemove(rest, p);
      assert Serials([live[0]] + Remove(rest, p)) == [live[0].serial] + Serials(Remove(rest, p));
    }
  }

  /** The allocator does what the operations say: the list holds exactly the live blocks, in order. */
  ghost predicate Follows(a: Allocator, ops: seq<Op>, n: nat, blocks: seq<MallocatedNode>)
    requires n <= |ops|
    reads a, a.head, a.tail, a.live
  {
    && a.Valid() && a.reported == 0
    && a.allocations == Allocs(ops, n) == |blocks| && a.allocations + a.frees == n
    && Serials(a.live) == LiveAfter(ops, n)
    && (forall i | 0 <= i < |a.live| :: a.live[i] == blocks[a.live[i].serial])
  }

  /** One operation. */
  method ReplayOne(a: Allocator, ops: seq<Op>, n: nat, blocks: seq<MallocatedNode>)
    returns (blocks': seq<MallocatedNode>)
    requires n < |ops| && Proper(ops, n + 1) && Follows(a, ops, n, blocks)
    modifies a, a.head, a.tail, a.live
    ensures Follows(a, ops, n + 1, blocks')
    ensures forall i | 0 <= i < |a.live| :: a.live[i] in old(a.live) || fresh(a.live[i])
  {
    ghost var live := a.live;
    if ops[n].Alloc? {
      var p := a.MyAlloc(ops[n].place.file, ops[n].place.line);
      blocks' := blocks + [p];
    } else {
      blocks' := blocks;
      assert ops[n].serial in Serials(live);
      var p := blocks[ops[n].serial];
      SerialsRemove(live, p);
      RemoveKeeps(live, p);
      a.MyFree(p);
    }
  }

  lemma {:induction false} RemoveKeeps<T>(s: seq<T>, x: T)
    ensures forall i | 0 <= i < |Remove(s, x)| :: Remove(s, x)[i] in s
  {
    if s != [] && s[0] != x {
      RemoveKeeps(s[1..], x);
    }
  }

  /** Runs the operations from initialisation on. */
  method Replay(ops: seq<Op>, selfCheck: bool) returns (a: Allocator, blocks: seq<MallocatedNode>)
    requires Proper(ops, |ops|)
    ensures fresh(a) && a.selfCheck == selfCheck && Follows(a, ops, |ops|, blocks)
  {
    a := new Allocator(selfCheck);
    blocks := [];
    for n := 0 to |ops|
      invariant fresh(a) && fresh(a.head) && fresh(a.tail) && a.selfCheck == selfCheck && Follows(a, ops, n, blocks)
      invariant forall i | 0 <= i < |a.live| :: fresh(a.live[i])
    {
      ProperBefore(ops, n + 1, |ops|);
      blocks := ReplayOne(a, ops, n, blocks);
    }
  }
}
