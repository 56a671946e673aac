/** The byte-packed bitset (`bitmask_set.c`), proved to refine the values of LeakBits. */
module BitmaskSets {
  import opened LeakBits

  /** `1 << (n & 7)` */
  function Mask(i: nat): bv8
    requires i < 8
  {
    match i
    case 0 => 1
    case 1 => 2
    case 2 => 4
    case 3 => 8
    case 4 => 16
    case 5 => 32
    case 6 => 64
    case _ => 128
  }

  predicate Bit(b: bv8, i: nat)
    requires i < 8
  {
    b & Mask(i) != 0
  }

  /** Bit `i` of a byte is the one that a shift by `i` brings to the front. */
  lemma BitExactly(b: bv8, i: nat)
    requires i < 8
    ensures Mask(i) == 1 << i && (Bit(b, i) <==> (b >> i) & 1 == 1)
  {
  }

  lemma OrBit(a: bv8, b: bv8, i: nat)
    requires i < 8
    ensures Bit(a | b, i) <==> Bit(a, i) || Bit(b, i)
  {
  }

  lemma AndNotBit(a: bv8, b: bv8, i: nat)
    requires i < 8
    ensures Bit(a & !b, i) <==> Bit(a, i) && !Bit(b, i)
  {
  }

  lemma MaskBit(n: nat, i: nat)
    requires n < 8 && i < 8
    ensures Bit(Mask(n), i) <==> i == n
  {
  }

  lemma IncludesBits(a: bv8, b: bv8)
    ensures a & b == b <==> forall i: nat | i < 8 :: Bit(b, i) ==> Bit(a, i)
  {
    if forall i: nat | i < 8 :: Bit(b, i) ==> Bit(a, i) {
      assert Bit(b, 0) ==> Bit(a, 0);
      assert Bit(b, 1) ==> Bit(a, 1);
      assert Bit(b, 2) ==> Bit(a, 2);
      assert Bit(b, 3) ==> Bit(a, 3);
      assert Bit(b, 4) ==> Bit(a, 4);
      assert Bit(b, 5) ==> Bit(a, 5);
      assert Bit(b, 6) ==> Bit(a, 6);
      assert Bit(b, 7) ==> Bit(a, 7);
    }
  }

  lemma ZeroBits(b: bv8)
    ensures b == 0 <==> forall i: nat | i < 8 :: !Bit(b, i)
  {
    IncludesBits(0, b);
  }

  /** The bits of a buffer, padding included. */
  function RawBits(bytes: seq<bv8>): (raw: set<nat>)
    ensures forall k: nat :: k in raw <==> k / 8 < |bytes| && Bit(bytes[k / 8], k % 8)
  {
    set k | 0 <= k < 8 * |bytes| && Bit(bytes[k / 8], k % 8)
  }

  lemma OneBit(bytes: seq<bv8>, byte: bv8, n: nat, k: nat)
    requires n / 8 < |bytes|
    ensures k in RawBits(bytes[n / 8 := byte]) <==>
            if k / 8 == n / 8 then Bit(byte, k % 8) else k in RawBits(bytes)
  {
  }

  lemma SetBit(bytes: seq<bv8>, n: nat, k: nat)
    requires n / 8 < |bytes|
    ensures k in RawBits(bytes[n / 8 := bytes[n / 8] | Mask(n % 8)]) <==> k in RawBits(bytes) || k == n
  {
    OneBit(bytes, bytes[n / 8] | Mask(n % 8), n, k);
    OrBit(bytes[n / 8], Mask(n % 8), k % 8);
    MaskBit(n % 8, k % 8);
  }

  lemma ClearBit(bytes: seq<bv8>, n: nat, k: nat)
    requires n / 8 < |bytes|
    ensures k in RawBits(bytes[n / 8 := bytes[n / 8] & !Mask(n % 8)]) <==> k in RawBits(bytes) && k != n
  {
    OneBit(bytes, bytes[n / 8] & !Mask(n % 8), n, k);
    AndNotBit(bytes[n / 8], Mask(n % 8), k % 8);
    MaskBit(n % 8, k % 8);
  }

  lemma OneByte(bytes: seq<bv8>, n: nat)
    requires n / 8 < |bytes|
    ensures RawBits(bytes[n / 8 := bytes[n / 8] | Mask(n % 8)]) == RawBits(bytes) + {n}
    ensures RawBits(bytes[n / 8 := bytes[n / 8] & !Mask(n % 8)]) == RawBits(bytes) - {n}
  {
    var with, without := bytes[n / 8 := bytes[n / 8] | Mask(n % 8)], bytes[n / 8 := bytes[n / 8] & !Mask(n % 8)];
    forall k: nat
      ensures k in RawBits(with) <==> k in RawBits(bytes) + {n}
      ensures k in RawBits(without) <==> k in RawBits(bytes) - {n}
    {
      SetBit(bytes, n, k);
      ClearBit(bytes, n, k);
    }
  }

  /** The byte that `bitMapSet_addAllWithExclusion` writes at `j`. */
  function Merged(s: seq<bv8>, o: seq<bv8>, e: seq<bv8>, j: nat): bv8
    requires j < |s| && j < |o|
  {
    s[j] | (if j < |e| then o[j] & !e[j] else o[j])
  }

  /** The buffer after the first `n` bytes were merged. */
  predicate IsMerged(s: seq<bv8>, o: seq<bv8>, e: seq<bv8>, n: nat, after: seq<bv8>) {
    && n <= |s| == |after| && n <= |o|
    && forall j: nat {:trigger after[j]} | j < |s| :: after[j] == if j < n then Merged(s, o, e, j) else s[j]
  }

  lemma MergedByte(s: bv8, o: bv8, e: bv8, i: nat)
    requires i < 8
    ensures Bit(s | (o & !e), i) <==> Bit(s, i) || (Bit(o, i) && !Bit(e, i))
  {
    AndNotBit(o, e, i);
    OrBit(s, o & !e, i);
  }

  lemma MergedBit(s: seq<bv8>, o: seq<bv8>, e: seq<bv8>, n: nat, after: seq<bv8>, k: nat)
    requires IsMerged(s, o, e, n, after) && k < 8 * |s|
    ensures k in RawBits(after) <==>
            k in RawBits(s) || (k in RawBits(o) && k < 8 * n && !(k < 8 * |e| && k in RawBits(e)))
  {
    var j := k / 8;
    MergedAt(s, o, e, n, after, j, k % 8);
    assert k in RawBits(after) <==> Bit(after[j], k % 8);
  }

  lemma MergedAt(s: seq<bv8>, o: seq<bv8>, e: seq<bv8>, n: nat, after: seq<bv8>, j: nat, i: nat)
    requires IsMerged(s, o, e, n, after) && j < |s| && i < 8
    ensures Bit(after[j], i) <==>
            Bit(s[j], i) || (j < n && Bit(o[j], i) && !(j < |e| && Bit(e[j], i)))
  {
    if j < n {
      MergedValue(s, o, e, j, i);
    }
    assert after[j] == if j < n then Merged(s, o, e, j) else s[j];
  }

  lemma MergedValue(s: seq<bv8>, o: seq<bv8>, e: seq<bv8>, j: nat, i: nat)
    requires j < |s| && j < |o| && i < 8
    ensures Bit(Merged(s, o, e, j), i) <==> Bit(s[j], i) || (Bit(o[j], i) && !(j < |e| && Bit(e[j], i)))
  {
    if j < |e| {
      MergedByte(s[j], o[j], e[j], i);
    } else {
      OrBit(s[j], o[j], i);
    }
  }

  /** Byte by byte is bit by bit: `o` without `e` goes into the first `n` bytes of `s`. */
  lemma MergedBits(s: seq<bv8>, o: seq<bv8>, e: seq<bv8>, n: nat, after: seq<bv8>)
    requires IsMerged(s, o, e, n, after)
    ensures RawBits(after) == RawBits(s) + set k | k in RawBits(o) && k < 8 * n && !(k < 8 * |e| && k in RawBits(e))
  {
    var added := set k | k in RawBits(o) && k < 8 * n && !(k < 8 * |e| && k in RawBits(e));
    forall k: nat ensures k in RawBits(after) <==> k in RawBits(s) + added {
      if k < 8 * |s| {
        MergedBit(s, o, e, n, after, k);
      }
    }
  }

  lemma IncludedAt(s: seq<bv8>, o: seq<bv8>, k: nat)
    requires k / 8 < |s| && k / 8 < |o| && s[k / 8] & o[k / 8] == o[k / 8] && k in RawBits(o)
    ensures k in RawBits(s)
  {
    IncludesBits(s[k / 8], o[k / 8]);
  }

  /** A byte that is not included has a bit that is not. */
  lemma NotIncludedAt(s: seq<bv8>, o: seq<bv8>, j: nat) returns (k: nat)
    requires j < |s| && j < |o| && s[j] & o[j] != o[j]
    ensures k / 8 == j && k in RawBits(o) && k !in RawBits(s)
  {
    IncludesBits(s[j], o[j]);
    var i: nat :| i < 8 && Bit(o[j], i) && !Bit(s[j], i);
    k := 8 * j + i;
  }

  /** The first `n` bytes of `o` lie in those of `s`. */
  predicate Included(s: seq<bv8>, o: seq<bv8>, n: nat)
    requires n <= |s| && n <= |o|
  {
    n == 0 || (Included(s, o, n - 1) && s[n - 1] & o[n - 1] == o[n - 1])
  }

  lemma {:induction false} NotIncluded(s: seq<bv8>, o: seq<bv8>, i: nat, n: nat)
    requires i <= n <= |s| && n <= |o| && !Included(s, o, i)
    ensures !Included(s, o, n)
  {
    if i < n {
      NotIncluded(s, o, i, n - 1);
    }
  }

  /** The same, bit by bit. */
  predicate IncludedBelow(s: seq<bv8>, o: seq<bv8>, n: nat) {
    forall k <- RawBits(o) :: k < 8 * n ==> k in RawBits(s)
  }

  lemma IncludedNext(s: seq<bv8>, o: seq<bv8>, n: nat)
    requires n < |s| && n < |o|
    ensures IncludedBelow(s, o, n + 1) <==> IncludedBelow(s, o, n) && s[n] & o[n] == o[n]
  {
    if s[n] & o[n] == o[n] {
      forall k <- RawBits(o) | k / 8 == n ensures k in RawBits(s) {
        IncludedAt(s, o, k);
      }
    } else {
      var k := NotIncludedAt(s, o, n);
    }
  }

  lemma {:induction false} IncludedBits(s: seq<bv8>, o: seq<bv8>, n: nat)
    requires n <= |s| && n <= |o|
    ensures Included(s, o, n) <==> IncludedBelow(s, o, n)
  {
    if n > 0 {
      IncludedBits(s, o, n - 1);
      IncludedNext(s, o, n - 1);
    }
  }

  lemma EmptyBits(bytes: seq<bv8>)
    ensures (forall j: nat | j < |bytes| :: bytes[j] == 0) <==> RawBits(bytes) == {}
  {
    if forall j: nat | j < |bytes| :: bytes[j] == 0 {
      forall k: nat ensures k !in RawBits(bytes) {
        if k / 8 < |bytes| {
          assert bytes[k / 8] == 0;
        }
      }
    } else {
      var j: nat :| j < |bytes| && bytes[j] != 0;
      ZeroBits(bytes[j]);
      var i: nat :| i < 8 && Bit(bytes[j], i);
      assert 8 * j + i in RawBits(bytes);
    }
  }

  /** `bitmask_set` */
  class BitmaskSet {
    const size: nat
    const ptr: array<bv8>

    ghost predicate Valid() { ptr.Length == Bytes(size) }

    /** The value that the buffer stands for. */
    ghost function View(): (b: Bits)
      reads ptr
      requires Valid()
      ensures Fits(b)
    {
      Bits(size, RawBits(ptr[..]))
    }

    /** `bitMaskSet_new` */
    constructor (size: nat)
      ensures Valid() && fresh(ptr) && View() == Empty(size)
    {
      this.size := size;
      ptr := new bv8[1 + size / 8](_ => 0);
      new;
      EmptyBits(ptr[..]);
    }

    method PutByte(i: nat, byte: bv8)
      requires i < ptr.Length
      modifies ptr
      ensures ptr[..] == old(ptr[..])[i := byte]
      ensures forall j | 0 <= j < ptr.Length && j != i :: ptr[j] == old(ptr[j])
    {
      ptr[i] := byte;
    }

    /** `bitMapSet_add` */
    method AddBit(n: nat)
      requires Valid()
      modifies ptr
      ensures View() == old(Add(View(), n))
    {
      if n >= size {
        return;
      }
      OneByte(ptr[..], n);
      PutByte(n / 8, ptr[n / 8] | Mask(n % 8));
    }

    /** `bitMapSet_remove` */
    method RemoveBit(n: nat)
      requires Valid()
      modifies ptr
      ensures View() == old(Remove(View(), n))
    {
      if n >= size {
        return;
      }
      OneByte(ptr[..], n);
      PutByte(n / 8, ptr[n / 8] & !Mask(n % 8));
    }

    /** `bitMapSet_contains` */
    method ContainsBit(n: nat) returns (r: bool)
      requires Valid()
      ensures r == Contains(View(), n)
    {
      if n >= size {
        return false;
      }
      return ptr[n / 8] & Mask(n % 8) != 0;
    }

    /** `bitMapSet_addAll`; both sets may be the same. */
    method AddAllBits(o: BitmaskSet)
      requires Valid() && o.Valid()
      modifies ptr
      ensures View() == old(AddAll(View(), o.View()))
    {
      ghost var s0, o0 := ptr[..], o.ptr[..];
      var minSize := if size < o.size then size else o.size;
      minSize := minSize / 8 + 1;
      for i := 0 to minSize
        invariant forall j | i <= j < o.ptr.Length :: o.ptr[j] == o0[j]
        invariant IsMerged(s0, o0, [], i, ptr[..])
      {
        ptr[i] := ptr[i] | o.ptr[i];
      }
      MergedBits(s0, o0, [], minSize, ptr[..]);
    }

    /** `bitMapSet_addAllWithExclusion`; any of the sets may be the same. */
    method AddAllBitsWithExclusion(o: BitmaskSet, e: BitmaskSet)
      requires Valid() && o.Valid() && e.Valid()
      modifies ptr
      ensures View() == old(AddAllWithExclusion(View(), o.View(), e.View()))
    {
      ghost var s0, o0, e0 := ptr[..], o.ptr[..], e.ptr[..];
      var minSize := if size < o.size then size else o.size;
      var exclSize := if minSize < e.size then minSize else e.size;
      minSize := 1 + minSize / 8;
      exclSize := 1 + exclSize / 8;
      MergeWithout(o, e, exclSize);
      MergeRest(o, exclSize, minSize, s0, o0, e0[..exclSize]);
      MergedBits(s0, o0, e0[..exclSize], minSize, ptr[..]);
      Excluded(Bits(size, RawBits(s0)), Bits(o.size, RawBits(o0)), Bits(e.size, RawBits(e0)), e0);
    }

    /** The first loop of `bitMapSet_addAllWithExclusion`. */
    method MergeWithout(o: BitmaskSet, e: BitmaskSet, n: nat)
      requires n <= ptr.Length && n <= o.ptr.Length && n <= e.ptr.Length
      modifies ptr
      ensures IsMerged(old(ptr[..]), old(o.ptr[..]), old(e.ptr[..n]), n, ptr[..])
      ensures forall j | n <= j < o.ptr.Length :: o.ptr[j] == old(o.ptr[j])
    {
      ghost var s0, o0, e0 := ptr[..], o.ptr[..], e.ptr[..n];
      for i := 0 to n
        invariant forall j | i <= j < o.ptr.Length :: o.ptr[j] == o0[j]
        invariant forall j | i <= j < n :: e.ptr[j] == e0[j]
        invariant IsMerged(s0, o0, e0, i, ptr[..])
      {
        PutByte(i, ptr[i] | (o.ptr[i] & !e.ptr[i]));
      }
    }

    /** The second loop. */
    method MergeRest(o: BitmaskSet, from: nat, end: nat, ghost s0: seq<bv8>, ghost o0: seq<bv8>, ghost e0: seq<bv8>)
      requires |e0| <= from <= end <= ptr.Length && end <= o.ptr.Length
      requires IsMerged(s0, o0, e0, from, ptr[..])
      requires |o0| == o.ptr.Length && forall j | from <= j < o.ptr.Length :: o.ptr[j] == o0[j]
      modifies ptr
      ensures IsMerged(s0, o0, e0, end, ptr[..])
    {
      for i := from to end
        invariant forall j | i <= j < o.ptr.Length :: o.ptr[j] == o0[j]
        invariant IsMerged(s0, o0, e0, i, ptr[..])
      {
        PutByte(i, ptr[i] | o.ptr[i]);
      }
    }

    /** `bitMapSet_containsAll`, which reads outside a buffer unless the sizes are comparable. */
    method ContainsAllBits(o: BitmaskSet) returns (r: bool)
      requires Valid() && o.Valid() && Comparable(size, o.size)
      ensures r == ContainsAll(View(), o.View())
    {
      var minSize := if size < o.size then 1 + size else 1 + o.size / 8;
      IncludedBits(ptr[..], o.ptr[..], minSize);
      r := IncludesBytes(o, minSize);
    }

    /** The loop of `bitMapSet_containsAll`. */
    method IncludesBytes(o: BitmaskSet, minSize: nat) returns (r: bool)
      requires minSize <= ptr.Length && minSize <= o.ptr.Length
      ensures r == Included(ptr[..], o.ptr[..], minSize)
    {
      ghost var s0, o0 := ptr[..], o.ptr[..];
      for i := 0 to minSize
        invariant Included(s0, o0, i)
      {
        var a, b := ptr[i], o.ptr[i];
        if a & b != b {
          NotIncluded(s0, o0, i + 1, minSize);
          return false;
        }
      }
      return true;
    }

    /** `bitMapSet_isEmpty` */
    method IsEmptySet() returns (r: bool)
      requires Valid()
      ensures r == IsEmpty(View())
    {
      EmptyBits(ptr[..]);
      for i := 0 to 1 + size / 8
        invariant forall j: nat | j < i :: ptr[j] == 0
      {
        if ptr[i] != 0 {
          assert ptr[..][i] != 0;
          return false;
        }
      }
      return true;
    }
  }

  /** The bytes that both loops leave out are those that the exclusion set shares with the other two. */
  lemma Excluded(s: Bits, o: Bits, e: Bits, bytes: seq<bv8>)
    requires e.raw == RawBits(bytes) && |bytes| == Bytes(e.size)
    ensures var n := Bytes(Min(Min(s.size, o.size), e.size));
            AddAllWithExclusion(s, o, e).raw ==
            s.raw + set k | k in o.raw && k < 8 * Bytes(Min(s.size, o.size)) && !(k < 8 * n && k in RawBits(bytes[..n]))
  {
    var n := Bytes(Min(Min(s.size, o.size), e.size));
    assert forall k: nat | k < 8 * n :: k in e.raw <==> k in RawBits(bytes[..n]);
  }

  // ---- What the values promise ----

  predicate Clean(b: Bits) { forall k <- b.raw :: k < b.size }

  /** With equal sizes and clean padding these are the plain set operations, and the padding stays clean. */
  lemma PlainSets(s: Bits, o: Bits, e: Bits, n: nat)
    requires s.size == o.size == e.size && Clean(s) && Clean(o) && Clean(e)
    ensures AddAll(s, o).raw == s.raw + o.raw && Clean(AddAll(s, o))
    ensures AddAllWithExclusion(s, o, e).raw == s.raw + (o.raw - e.raw) && Clean(AddAllWithExclusion(s, o, e))
    ensures Comparable(s.size, o.size) && (ContainsAll(s, o) <==> o.raw <= s.raw)
    ensures IsEmpty(s) <==> forall k: nat | k < s.size :: !Contains(s, k)
    ensures Clean(Add(s, n)) && Clean(Remove(s, n))
  {
    if forall k: nat | k < s.size :: !Contains(s, k) {
      assert forall k <- s.raw :: Contains(s, k);
    }
  }

  /** Add, remove and contains are exact below the size, whatever the padding holds. */
  lemma ElementsAreExact(s: Bits, n: nat, k: nat)
    ensures Contains(Add(s, n), k) <==> Contains(s, k) || (k == n && n < s.size)
    ensures Contains(Remove(s, n), k) <==> Contains(s, k) && k != n
  {
  }

  /** The bulk operations work on the bytes that the sets share: bit `k` is in byte `k / 8`, and a set of size `n`
      has the bytes up to `n / 8`. */
  lemma BytesExactly(s: Bits, o: Bits, e: Bits, k: nat)
    ensures AddAll(s, o).size == AddAllWithExclusion(s, o, e).size == s.size
    ensures k in AddAll(s, o).raw <==> k in s.raw || (k in o.raw && k / 8 <= s.size / 8 && k / 8 <= o.size / 8)
    ensures k in AddAllWithExclusion(s, o, e).raw <==>
            k in s.raw || (k in o.raw && k / 8 <= s.size / 8 && k / 8 <= o.size / 8 &&
                           !(k in e.raw && k / 8 <= e.size / 8))
  {
    BytesShared(s.size, o.size, k);
    BytesShared(Min(s.size, o.size), e.size, k);
  }

  lemma BytesShared(a: nat, b: nat, k: nat)
    ensures k < Width(Min(a, b)) <==> k / 8 <= a / 8 && k / 8 <= b / 8
  {
  }

  /** The inclusion test looks at the bytes of the second set, unless that is the larger one: then at one byte more than
      the size of the first, which it must not be called for. */
  lemma InclusionExactly(s: Bits, o: Bits)
    requires o.size <= s.size
    ensures ContainsAll(s, o) <==> forall k <- o.raw :: k / 8 <= o.size / 8 ==> k in s.raw
  {
    assert forall k <- o.raw :: k / 8 <= o.size / 8 <==> k < 8 * (1 + o.size / 8);
  }

  /** `bitMapSet_containsAll` stays inside both buffers only if the first set is not the smaller one (or has size 0). */
  lemma ComparableExactly(s: nat, o: nat)
    ensures Comparable(s, o) <==> o <= s || s == 0
  {
  }

  /** Between sets of different sizes the padding gets dirty exactly when a bit of the larger one falls into it. */
  lemma PaddingExactly(s: Bits, o: Bits)
    requires Clean(s) && Clean(o)
    ensures Clean(AddAll(s, o)) <==> forall k <- o.raw :: k < s.size || k >= Width(s.size)
  {
    var all := AddAll(s, o).raw;
    if k :| k in o.raw && s.size <= k < Width(s.size) {
      assert k in all;
    }
  }
}
