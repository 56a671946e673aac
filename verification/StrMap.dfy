/** The bucketed string map (`strmap.c`), proved to refine a finite map. */
module StrMaps {
  import opened Wrappers

  // ---- Strings and their hash ----

  /** A C string is the sequence of its bytes before the terminating NUL; `char` is signed. */
  function Signed(c: char): int { if c as int < 128 then c as int else c as int - 256 }

  /** The number of values of an `unsigned long`: 32 bits on Windows, 64 elsewhere. */
  type Word = w: nat | w == 0x1_0000_0000 || w == 0x1_0000_0000_0000_0000 witness 0x1_0000_0000

  function Power33(n: nat): nat { if n == 0 then 1 else 33 * Power33(n - 1) }

  /** Every character times the power of 33 that its place calls for. */
  function Weighted(s: string): int {
    if s == [] then 0 else Signed(s[0]) * Power33(|s| - 1) + Weighted(s[1..])
  }

  /** The hash: a polynomial in 33, reduced once at the end. */
  function HashOf(word: Word, key: string): (h: nat)
    ensures h < word
  {
    (5381 * Power33(|key|) + Weighted(key)) % word
  }

  lemma {:induction false} WeightedMore(s: string, c: char)
    ensures Weighted(s + [c]) == 33 * Weighted(s) + Signed(c)
  {
    if s == [] {
      assert s + [c] == [c] && [c][1..] == [];
    } else {
      assert (s + [c])[1..] == s[1..] + [c];
      WeightedMore(s[1..], c);
      PowerMore(Signed(s[0]), |s| - 1);
    }
  }

  lemma PowerMore(a: int, n: nat)
    ensures a * Power33(n + 1) == 33 * (a * Power33(n))
  {
  }

  /** The hash starts at 5381, and `((hash << 5) + hash) + c`, with wrap-around in every operation and a signed `c`, is
      the next value of the polynomial. */
  lemma HashMore(word: Word, s: string, c: char)
    ensures HashOf(word, "") == 5381
    ensures var h := HashOf(word, s);
            HashOf(word, s + [c]) == ((h * 32) % word + h + (c as int - if c as int < 128 then 0 else 256)) % word
  {
    var v := 5381 * Power33(|s|) + Weighted(s);
    WeightedMore(s, c);
    PowerMore(5381, |s|);
    assert 5381 * Power33(|s + [c]|) + Weighted(s + [c]) == 33 * v + Signed(c);
    ShiftAndAdd(word, v, Signed(c));
  }

  lemma ShiftAndAdd(word: Word, v: int, c: int)
    ensures ((v % word * 32) % word + v % word + c) % word == (33 * v + c) % word
  {
    var q, h := v / word, v % word;
    var p := h * 32 / word;
    assert (h * 32) % word == h * 32 - p * word;
    assert 33 * v + c == (h * 32) % word + h + c + (33 * q + p) * word;
    ModPlus(word, (h * 32) % word + h + c, 33 * q + p);
  }

  lemma ModPlus(word: Word, a: int, q: int)
    ensures (a + q * word) % word == a % word
  {
  }

  function Index(word: Word, key: string, count: nat): (i: nat)
    requires count > 0
    ensures i < count
  {
    HashOf(word, key) % count
  }

  // ---- What the buckets hold ----

  datatype Pair<V> = Pair(key: string, value: V)

  /** The position of a key in a bucket. */
  predicate At<V>(bucket: seq<Pair<V>>, key: string, j: nat) { j < |bucket| && bucket[j].key == key }

  ghost predicate Has<V>(pairs: seq<Pair<V>>, key: string) { exists j :: At(pairs, key, j) }

  /** The buckets hold the map: every pair is in the bucket of its hash, no key occurs twice, and no other key is
      bound. */
  ghost predicate Holds<V>(word: Word, buckets: seq<seq<Pair<V>>>, m: map<string, V>) {
    && buckets != []
    && (forall b: nat | b < |buckets| :: BucketHolds(word, buckets[b], b, |buckets|, m))
    && (forall k <- m :: Has(buckets[Index(word, k, |buckets|)], k))
  }

  /** The pairs of one bucket belong there and have different keys. */
  ghost predicate BucketHolds<V>(word: Word, bucket: seq<Pair<V>>, b: nat, count: nat, m: map<string, V>)
    requires count > 0
  {
    && (forall j: nat | j < |bucket| ::
          Index(word, bucket[j].key, count) == b && bucket[j].key in m && m[bucket[j].key] == bucket[j].value)
    && (forall i: nat, j: nat | i < j < |bucket| :: bucket[i].key != bucket[j].key)
  }

  /** The pairs of the first `n` buckets, in the order in which they are visited. */
  function Pairs<V>(buckets: seq<seq<Pair<V>>>, n: nat): seq<Pair<V>>
    requires n <= |buckets|
  {
    if n == 0 then [] else Pairs(buckets, n - 1) + buckets[n - 1]
  }

  ghost function KeysOf<V>(pairs: seq<Pair<V>>): (keys: set<string>)
    ensures forall k :: k in keys <==> exists j: nat | j < |pairs| :: pairs[j].key == k
  {
    set j | 0 <= j < |pairs| :: pairs[j].key
  }

  /** Every association exactly once. */
  ghost predicate ListsOnce<V>(pairs: seq<Pair<V>>, m: map<string, V>) {
    && |pairs| == |m|
    && (forall i: nat, j: nat | i < j < |pairs| :: pairs[i].key != pairs[j].key)
    && (forall j: nat | j < |pairs| :: pairs[j].key in m && m[pairs[j].key] == pairs[j].value)
    && (forall k <- m :: Has(pairs, k))
  }

  predicate PairsIn<V(==)>(word: Word, pairs: seq<Pair<V>>, count: nat, m: map<string, V>, n: nat) {
    count > 0 && forall j: nat | j < |pairs| ::
      Index(word, pairs[j].key, count) < n && pairs[j].key in m && m[pairs[j].key] == pairs[j].value
  }

  lemma {:induction false} PairsFrom<V>(word: Word, buckets: seq<seq<Pair<V>>>, m: map<string, V>, n: nat)
    requires Holds(word, buckets, m) && n <= |buckets|
    ensures PairsIn(word, Pairs(buckets, n), |buckets|, m, n)
  {
    if n > 0 {
      PairsFrom(word, buckets, m, n - 1);
    }
  }

  lemma {:induction false} PairsDistinct<V>(word: Word, buckets: seq<seq<Pair<V>>>, m: map<string, V>, n: nat)
    requires Holds(word, buckets, m) && n <= |buckets|
    ensures forall i: nat, j: nat | i < j < |Pairs(buckets, n)| :: Pairs(buckets, n)[i].key != Pairs(buckets, n)[j].key
  {
    if n > 0 {
      PairsDistinct(word, buckets, m, n - 1);
      PairsFrom(word, buckets, m, n - 1);
      var before: seq<Pair<V>>, bucket: seq<Pair<V>> := Pairs(buckets, n - 1), buckets[n - 1];
      forall i: nat, j: nat | i < j < |before + bucket| ensures (before + bucket)[i].key != (before + bucket)[j].key {
        if i < |before| <= j {
          assert Index(word, before[i].key, |buckets|) < n - 1;
          assert Index(word, bucket[j - |before|].key, |buckets|) == n - 1;
        }
      }
    }
  }

  lemma {:induction false} PairsHave<V>(buckets: seq<seq<Pair<V>>>, n: nat, b: nat, k: string, j: nat) returns (i: nat)
    requires b < n <= |buckets| && At(buckets[b], k, j)
    ensures At(Pairs(buckets, n), k, i)
  {
    if b == n - 1 {
      i := |Pairs(buckets, n - 1)| + j;
    } else {
      i := PairsHave(buckets, n - 1, b, k, j);
    }
  }

  lemma {:induction false} DistinctKeys<V>(pairs: seq<Pair<V>>)
    requires forall i: nat, j: nat | i < j < |pairs| :: pairs[i].key != pairs[j].key
    ensures |KeysOf(pairs)| == |pairs|
  {
    if pairs != [] {
      var n := |pairs| - 1;
      DistinctKeys(pairs[..n]);
      assert KeysOf(pairs) == KeysOf(pairs[..n]) + {pairs[n].key};
    }
  }

  /** The pairs are listed bucket by bucket, from the first, and in every bucket from the front. */
  lemma {:induction false} PairsInOrder<V>(buckets: seq<seq<Pair<V>>>, n: nat, b: nat, j: nat)
    requires b < n <= |buckets| && j < |buckets[b]|
    ensures |Pairs(buckets, 0)| == 0 && |Pairs(buckets, b + 1)| == |Pairs(buckets, b)| + |buckets[b]|
    ensures |Pairs(buckets, b)| + j < |Pairs(buckets, n)| && Pairs(buckets, n)[|Pairs(buckets, b)| + j] == buckets[b][j]
  {
    if b < n - 1 {
      PairsInOrder(buckets, n - 1, b, j);
    }
  }

  /** The buckets list every association of the map exactly once. */
  lemma BucketsListOnce<V>(word: Word, buckets: seq<seq<Pair<V>>>, m: map<string, V>)
    requires Holds(word, buckets, m)
    ensures ListsOnce(Pairs(buckets, |buckets|), m)
  {
    var pairs := Pairs(buckets, |buckets|);
    PairsFrom(word, buckets, m, |buckets|);
    PairsDistinct(word, buckets, m, |buckets|);
    DistinctKeys(pairs);
    forall k <- m ensures Has(pairs, k) {
      assert Has(buckets[Index(word, k, |buckets|)], k);
      var j :| At(buckets[Index(word, k, |buckets|)], k, j);
      var i := PairsHave(buckets, |buckets|, Index(word, k, |buckets|), k, j);
    }
    assert KeysOf(pairs) == m.Keys;
  }

  /** A bucket that does not hold the key does not notice a put. */
  lemma OtherBucket<V>(word: Word, bucket: seq<Pair<V>>, b: nat, count: nat, m: map<string, V>, key: string, value: V)
    requires count > 0 && BucketHolds(word, bucket, b, count, m) && b != Index(word, key, count)
    ensures BucketHolds(word, bucket, b, count, m[key := value])
  {
  }

  /** A put changes the bucket of its key only. */
  lemma PutHolds<V>(word: Word, buckets: seq<seq<Pair<V>>>, m: map<string, V>, key: string, value: V,
                    bucket: seq<Pair<V>>)
    requires Holds(word, buckets, m)
    requires BucketHolds(word, bucket, Index(word, key, |buckets|), |buckets|, m[key := value])
    requires Has(bucket, key) && forall k | Has(buckets[Index(word, key, |buckets|)], k) :: Has(bucket, k)
    ensures Holds(word, buckets[Index(word, key, |buckets|) := bucket], m[key := value])
  {
    var b, count := Index(word, key, |buckets|), |buckets|;
    var after := buckets[b := bucket];
    forall c: nat | c < count ensures BucketHolds(word, after[c], c, count, m[key := value]) {
      if c != b {
        OtherBucket(word, buckets[c], c, count, m, key, value);
      }
    }
    forall k <- m[key := value] ensures Has(after[Index(word, k, count)], k) {
      assert k != key ==> Has(buckets[Index(word, k, count)], k);
    }
  }

  /** A value is replaced in place. */
  lemma Replaced<V>(word: Word, buckets: seq<seq<Pair<V>>>, m: map<string, V>, key: string, j: nat, value: V)
    requires Holds(word, buckets, m) && At(buckets[Index(word, key, |buckets|)], key, j)
    ensures var b := Index(word, key, |buckets|);
            Holds(word, buckets[b := buckets[b][j := Pair(key, value)]], m[key := value])
  {
    var b := Index(word, key, |buckets|);
    var bucket := buckets[b][j := Pair(key, value)];
    assert BucketHolds(word, buckets[b], b, |buckets|, m);
    assert At(bucket, key, j);
    forall k | Has(buckets[b], k) ensures Has(bucket, k) {
      var i :| At(buckets[b], k, i);
      assert At(bucket, k, i);
    }
    PutHolds(word, buckets, m, key, value, bucket);
  }

  /** A new pair is appended to its bucket. */
  lemma Appended<V>(word: Word, buckets: seq<seq<Pair<V>>>, m: map<string, V>, key: string, value: V)
    requires Holds(word, buckets, m) && key !in m
    ensures var b := Index(word, key, |buckets|);
            Holds(word, buckets[b := buckets[b] + [Pair(key, value)]], m[key := value])
  {
    var b := Index(word, key, |buckets|);
    var bucket := buckets[b] + [Pair(key, value)];
    assert BucketHolds(word, buckets[b], b, |buckets|, m);
    assert At(bucket, key, |buckets[b]|);
    forall k | Has(buckets[b], k) ensures Has(bucket, k) {
      var i :| At(buckets[b], k, i);
      assert At(bucket, k, i);
    }
    PutHolds(word, buckets, m, key, value, bucket);
  }

  /** `StrMap` */
  class StrMap<V> {
    const word: Word
    const buckets: array<seq<Pair<V>>>
    ghost var contents: map<string, V>

    ghost predicate Valid()
      reads this, buckets
    {
      Holds(word, buckets[..], contents)
    }

    /** `sm_new`, for a positive capacity */
    constructor (word: Word, capacity: nat)
      requires capacity > 0
      ensures Valid() && fresh(buckets) && contents == map[] && buckets.Length == capacity && this.word == word
    {
      this.word := word;
      buckets := new seq<Pair<V>>[capacity](_ => []);
      contents := map[];
    }

    /** `hash` */
    method Hash(str: string) returns (hash: nat)
      ensures hash == HashOf(word, str)
    {
      hash := 5381;
      var i := 0;
      while i < |str|
        invariant i <= |str| && hash == HashOf(word, str[..i])
      {
        HashMore(word, str[..i], str[i]);
        assert str[..i + 1] == str[..i] + [str[i]];
        hash := ((hash * 32) % word + hash + Signed(str[i])) % word;
        i := i + 1;
      }
      assert str[..i] == str;
    }

    /** `get_pair`: the position of the pair with the key. */
    static method GetPair(bucket: seq<Pair<V>>, key: string) returns (pair: Option<nat>)
      ensures pair.Some? ==> At(bucket, key, pair.value)
      ensures pair.None? ==> forall j :: !At(bucket, key, j)
    {
      for i := 0 to |bucket|
        invariant forall j: nat | j < i :: bucket[j].key != key
      {
        if bucket[i].key == key {
          return Some(i);
        }
      }
      return None;
    }

    /** `sm_get`; no key stands for the null pointer. */
    method Get(key: Option<string>) returns (res: Option<V>)
      requires Valid()
      ensures res == if key.Some? && key.value in contents then Some(contents[key.value]) else None
    {
      if key.None? {
        return None;
      }
      var hash := Hash(key.value);
      var index := hash % buckets.Length;
      var pair := GetPair(buckets[index], key.value);
      if pair.None? {
        return None;
      }
      return Some(buckets[index][pair.value].value);
    }

    /** `sm_exists` */
    method Exists(key: Option<string>) returns (r: bool)
      requires Valid()
      ensures r == (key.Some? && key.value in contents)
    {
      if key.None? {
        return false;
      }
      var hash := Hash(key.value);
      var pair := GetPair(buckets[hash % buckets.Length], key.value);
      return pair.Some?;
    }

    /** `sm_put`: returns the value that was replaced. */
    method Put(key: Option<string>, value: V) returns (replaced: Option<V>)
      requires Valid()
      modifies this, buckets
      ensures Valid()
      ensures contents == if key.None? then old(contents) else old(contents)[key.value := value]
      ensures replaced == old(if key.Some? && key.value in contents then Some(contents[key.value]) else None)
      ensures key.Some? && replaced.None? ==>
                var b := HashOf(word, key.value) % buckets.Length;
                buckets[..] == old(buckets[..])[b := old(buckets[..])[b] + [Pair(key.value, value)]]
      ensures replaced.Some? ==>
                forall b: nat | b < buckets.Length ::
                  && |buckets[b]| == |old(buckets[..])[b]|
                  && forall j: nat | j < |buckets[b]| :: buckets[b][j].key == old(buckets[..])[b][j].key
    {
      if key.None? {
        return None;
      }
      var hash := Hash(key.value);
      var index := hash % buckets.Length;
      var pair := GetPair(buckets[index], key.value);
      ghost var now := buckets[..];
      if pair.Some? {
        replaced := Some(buckets[index][pair.value].value);
        Replaced(word, now, contents, key.value, pair.value, value);
        buckets[index] := buckets[index][pair.value := Pair(key.value, value)];
      } else {
        replaced := None;
        Appended(word, now, contents, key.value, value);
        buckets[index] := buckets[index] + [Pair(key.value, value)];
      }
      contents := contents[key.value := value];
      assert buckets[..] == now[index := buckets[index]];
    }

    /** `sm_get_count` */
    method GetCount() returns (count: nat)
      requires Valid()
      ensures count == |contents|
    {
      BucketsListOnce(word, buckets[..], contents);
      count := 0;
      for i := 0 to buckets.Length
        invariant count == |Pairs(buckets[..], i)|
      {
        for j := 0 to |buckets[i]|
          invariant count == |Pairs(buckets[..], i)| + j
        {
          count := count + 1;
        }
      }
    }

    /** `sm_enum`: the calls of the callback, in order. */
    method Enum() returns (calls: seq<Pair<V>>)
      requires Valid()
      ensures ListsOnce(calls, contents) && calls == Pairs(buckets[..], buckets.Length)
    {
      BucketsListOnce(word, buckets[..], contents);
      calls := [];
      for i := 0 to buckets.Length
        invariant calls == Pairs(buckets[..], i)
      {
        var more := EnumBucket(buckets[i]);
        calls := calls + more;
      }
    }

    /** The inner loop. */
    static method EnumBucket(bucket: seq<Pair<V>>) returns (calls: seq<Pair<V>>)
      ensures calls == bucket
    {
      calls := [];
      for j := 0 to |bucket|
        invariant calls == bucket[..j]
      {
        calls := calls + [bucket[j]];
      }
    }
  }

  // ---- Sequences of puts ----

  /** The map after the first `n` of a sequence of puts into an empty map. */
  function AfterPuts<V>(puts: seq<Pair<V>>, n: nat): map<string, V>
    requires n <= |puts|
  {
    if n == 0 then map[] else AfterPuts(puts, n - 1)[puts[n - 1].key := puts[n - 1].value]
  }

  /** `sm_put`, call by call. */
  method PutAll<V>(word: Word, puts: seq<Pair<V>>, capacity: nat) returns (m: StrMap<V>)
    requires capacity > 0
    ensures fresh(m) && m.Valid() && m.contents == AfterPuts(puts, |puts|)
  {
    m := new StrMap(word, capacity);
    for i := 0 to |puts|
      invariant fresh(m) && fresh(m.buckets) && m.Valid() && m.contents == AfterPuts(puts, i)
    {
      var _ := m.Put(Some(puts[i].key), puts[i].value);
    }
  }

  /** A key is bound exactly if it was put, and the last put counts. */
  lemma {:induction false} LastPutCounts<V>(puts: seq<Pair<V>>, n: nat, key: string)
    requires n <= |puts|
    ensures key in AfterPuts(puts, n) <==> exists i: nat | i < n :: puts[i].key == key
    ensures forall i: nat | i < n && puts[i].key == key && (forall j | i < j < n :: puts[j].key != key) ::
              AfterPuts(puts, n)[key] == puts[i].value
  {
    if n > 0 {
      LastPutCounts(puts, n - 1, key);
    }
  }
}
