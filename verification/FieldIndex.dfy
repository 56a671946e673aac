/** Field numbers (`getFieldOffset` and `getFieldNameByIndex` in `jvm_reference.c`): the numbering that the JVM Tool
    Interface specification gives for `jvmtiHeapReferenceInfoField`. */
module FieldIndex {
  import opened Wrappers

  type ClassId = nat

  /** What the JVM says about a class or interface: what it implements (or extends) directly, its superclass, and the
      names of its own fields in `GetClassFields` order. */
  datatype Klass = Klass(interfaces: seq<ClassId>, super: Option<ClassId>, fields: seq<string>)

  /** The loaded classes in load order: supertypes are loaded first, so the hierarchy has no cycles.  An interface has
      no superclass. */
  predicate Loaded(h: seq<Klass>) {
    forall c: ClassId | c < |h| ::
      && (forall j | 0 <= j < |h[c].interfaces| ::
            h[c].interfaces[j] < c && h[h[c].interfaces[j]].super == None)
      && (h[c].super.Some? ==> h[c].super.value < c)
  }

  // ---- What the numbers mean ----

  /** The interfaces among `list[..k]` and all that these extend. */
  function Listed(h: seq<Klass>, c: ClassId, k: nat): set<ClassId>
    requires Loaded(h) && c < |h| && k <= |h[c].interfaces|
    decreases c, 0, k
  {
    if k == 0 then {}
    else
      var i := h[c].interfaces[k - 1];
      Listed(h, c, k - 1) + {i} + Interfaces(h, i)
  }

  /** All interfaces that a class implements, directly or not. */
  function Interfaces(h: seq<Klass>, c: ClassId): set<ClassId>
    requires Loaded(h) && c < |h|
    decreases c, 1
  {
    Listed(h, c, |h[c].interfaces|) + if h[c].super.Some? then Interfaces(h, h[c].super.value) else {}
  }

  /** The fields that the classes of a set declare, each class counted once. */
  function FieldCount(h: seq<Klass>, s: set<ClassId>, k: nat): nat
    requires k <= |h|
  {
    if k == 0 then 0 else FieldCount(h, s, k - 1) + if k - 1 in s then |h[k - 1].fields| else 0
  }

  /** The fields from `java.lang.Object` down to the class. */
  function AllFields(h: seq<Klass>, c: ClassId): seq<string>
    requires Loaded(h) && c < |h|
  {
    (if h[c].super.Some? then AllFields(h, h[c].super.value) else []) + h[c].fields
  }

  /** The number of the first field: the fields of all interfaces come before it. */
  function Base(h: seq<Klass>, c: ClassId): nat
    requires Loaded(h) && c < |h|
  {
    FieldCount(h, Interfaces(h, c), |h|)
  }

  /** The position of the first field of a name, or the number of fields. */
  function Position(fields: seq<string>, name: string): (p: nat)
    ensures p <= |fields| && (p < |fields| <==> name in fields)
    ensures p < |fields| ==> fields[p] == name
    ensures forall j | 0 <= j < p :: fields[j] != name
  {
    if fields == [] then 0
    else if fields[0] == name then 0
    else 1 + Position(fields[1..], name)
  }

  /** The number of a field, as the specification assigns it; -1 for an unknown name. */
  function OffsetOf(h: seq<Klass>, c: ClassId, name: string): int
    requires Loaded(h) && c < |h|
  {
    if name in AllFields(h, c) then Base(h, c) + Position(AllFields(h, c), name) else -1
  }

  /** The field that has a number. */
  function NameAt(h: seq<Klass>, c: ClassId, index: int): Option<string>
    requires Loaded(h) && c < |h|
  {
    var i := index - Base(h, c);
    if 0 <= i < |AllFields(h, c)| then Some(AllFields(h, c)[i]) else None
  }

  // ---- The memo list ----

  /** A set counts as its two parts. */
  lemma {:induction false} CountMore(h: seq<Klass>, s: set<ClassId>, t: set<ClassId>, k: nat)
    requires k <= |h| && s !! t
    ensures FieldCount(h, s + t, k) == FieldCount(h, s, k) + FieldCount(h, t, k)
  {
    if k > 0 {
      CountMore(h, s, t, k - 1);
    }
  }

  lemma {:induction false} CountNone(h: seq<Klass>, k: nat)
    requires k <= |h|
    ensures FieldCount(h, {}, k) == 0
  {
    if k > 0 {
      CountNone(h, k - 1);
    }
  }

  lemma {:induction false} CountOne(h: seq<Klass>, i: ClassId, k: nat)
    requires k <= |h|
    ensures FieldCount(h, {i}, k) == if i < k then |h[i].fields| else 0
  {
    if k > 0 {
      CountOne(h, i, k - 1);
    }
  }

  /** What is below `c` in the list was walked completely; what is being walked has larger numbers. */
  predicate Walked(h: seq<Klass>, seen: set<ClassId>, c: ClassId)
    requires Loaded(h)
  {
    && (forall i <- seen :: i < |h|)
    && (forall i <- seen :: i < c ==> Interfaces(h, i) <= seen)
  }

  lemma {:induction false} ListedBelow(h: seq<Klass>, c: ClassId, k: nat)
    requires Loaded(h) && c < |h| && k <= |h[c].interfaces|
    ensures forall i <- Listed(h, c, k) :: i < c
    decreases c, 0, k
  {
    if k > 0 {
      ListedBelow(h, c, k - 1);
      InterfacesBelow(h, h[c].interfaces[k - 1]);
    }
  }

  lemma {:induction false} InterfacesBelow(h: seq<Klass>, c: ClassId)
    requires Loaded(h) && c < |h|
    ensures forall i <- Interfaces(h, c) :: i < c
    decreases c, 1
  {
    ListedBelow(h, c, |h[c].interfaces|);
    if h[c].super.Some? {
      InterfacesBelow(h, h[c].super.value);
    }
  }

  lemma {:induction false} ListedIncludes(h: seq<Klass>, c: ClassId, k: nat, i: ClassId)
    requires Loaded(h) && c < |h| && k <= |h[c].interfaces| && i in Listed(h, c, k)
    ensures i < |h| && Interfaces(h, i) <= Listed(h, c, k)
    decreases c, 0, k
  {
    ListedBelow(h, c, k);
    if i in Listed(h, c, k - 1) {
      ListedIncludes(h, c, k - 1, i);
    } else if i != h[c].interfaces[k - 1] {
      InterfacesInclude(h, h[c].interfaces[k - 1], i);
    }
  }

  /** The interfaces of an interface of a class are interfaces of the class. */
  lemma {:induction false} InterfacesInclude(h: seq<Klass>, c: ClassId, i: ClassId)
    requires Loaded(h) && c < |h| && i in Interfaces(h, c)
    ensures i < |h| && Interfaces(h, i) <= Interfaces(h, c)
    decreases c, 1
  {
    if i in Listed(h, c, |h[c].interfaces|) {
      ListedIncludes(h, c, |h[c].interfaces|, i);
    } else {
      InterfacesInclude(h, h[c].super.value, i);
    }
  }

  /** A new interface may be walked, and its own fields are one more summand. */
  lemma NewInterface(h: seq<Klass>, klass: ClassId, seen: set<ClassId>, intr: ClassId)
    requires Loaded(h) && klass < |h| && Walked(h, seen, klass) && intr in h[klass].interfaces && intr !in seen
    ensures Walked(h, seen + {intr}, intr)
    ensures FieldCount(h, seen + {intr}, |h|) == FieldCount(h, seen, |h|) + |h[intr].fields|
  {
    CountMore(h, seen, {intr}, |h|);
    CountOne(h, intr, |h|);
  }

  /** When it was walked, the list is complete again below the class. */
  lemma WalkedNow(h: seq<Klass>, klass: ClassId, seen: set<ClassId>, intr: ClassId)
    requires Loaded(h) && klass < |h| && Walked(h, seen, klass) && intr in h[klass].interfaces
    ensures Walked(h, seen + {intr} + Interfaces(h, intr), klass)
  {
    var after := seen + {intr} + Interfaces(h, intr);
    InterfacesBelow(h, intr);
    forall i <- after | i < klass ensures Interfaces(h, i) <= after {
      if i in Interfaces(h, intr) {
        InterfacesInclude(h, intr, i);
      }
    }
  }

  /** `InterfaceList` */
  class InterfaceList {
    var list: seq<ClassId>

    constructor ()
      ensures Seen() == {}
    {
      list := [];
    }

    ghost function Seen(): set<ClassId>
      reads this
    {
      set i | i in list
    }

    /** `findInterfaceInList`: appends the interface if it is new. */
    method FindInterfaceInList(intr: ClassId) returns (found: bool)
      modifies this
      ensures found == old(intr in list) && Seen() == old(Seen()) + {intr}
    {
      for i := 0 to |list|
        invariant intr !in list[..i]
      {
        if list[i] == intr {
          return true;
        }
      }
      assert list[..|list|] == list;
      list := list + [intr];
      return false;
    }

    /** `removeImplementedInterfacesFromIndex`: takes the fields of every interface that was not yet seen off the index,
        each once, and sees them. */
    method RemoveImplementedInterfacesFromIndex(h: seq<Klass>, klass: ClassId, idx: int) returns (idx': int)
      requires Loaded(h) && klass < |h| && Walked(h, Seen(), klass)
      modifies this
      ensures Seen() == old(Seen()) + Listed(h, klass, |h[klass].interfaces|)
      ensures idx' == idx + FieldCount(h, old(Seen()), |h|) - FieldCount(h, Seen(), |h|)
      decreases klass
    {
      idx' := idx;
      ghost var before := Seen();
      for i := 0 to |h[klass].interfaces|
        invariant Seen() == before + Listed(h, klass, i) && Walked(h, Seen(), klass)
        invariant idx' == idx + FieldCount(h, before, |h|) - FieldCount(h, Seen(), |h|)
      {
        var intr := h[klass].interfaces[i];
        ghost var seen := Seen();
        WalkedNow(h, klass, seen, intr);
        assert Interfaces(h, intr) == Listed(h, intr, |h[intr].interfaces|);
        var found := FindInterfaceInList(intr);
        if found {
          assert Seen() == seen;
        } else {
          NewInterface(h, klass, seen, intr);
          idx' := RemoveImplementedInterfacesFromIndex(h, intr, idx');
          idx' := idx' - |h[intr].fields|;
        }
      }
    }

    /** `getFieldOffsetInternal` */
    method GetFieldOffsetInternal(h: seq<Klass>, klass: ClassId, name: string, idx: int)
      returns (found: bool, idx': int)
      requires Loaded(h) && klass < |h| && Walked(h, Seen(), klass)
      modifies this
      ensures Seen() == old(Seen()) + Interfaces(h, klass)
      ensures found == (name in AllFields(h, klass))
      ensures idx' == idx + FieldCount(h, Seen(), |h|) - FieldCount(h, old(Seen()), |h|)
                      + Position(AllFields(h, klass), name)
      decreases klass
    {
      ghost var seen := Seen();
      var tmp := RemoveImplementedInterfacesFromIndex(h, klass, 0);
      idx' := idx - tmp;
      ghost var inherited := if h[klass].super.Some? then AllFields(h, h[klass].super.value) else [];
      PositionIn(inherited, h[klass].fields, name);
      if h[klass].super.Some? {
        WalkedSuper(h, klass, seen);
        found, idx' := GetFieldOffsetInternal(h, h[klass].super.value, name, idx');
        if found {
          return;
        }
      }
      var i := FindField(h[klass].fields, name);
      return i < |h[klass].fields|, idx' + i;
    }

    /** The loop over the fields of one class. */
    static method FindField(fields: seq<string>, name: string) returns (i: nat)
      ensures i == Position(fields, name)
    {
      for j := 0 to |fields|
        invariant name !in fields[..j]
      {
        if fields[j] == name {
          PositionIs(fields, name, j);
          return j;
        }
      }
      assert fields[..|fields|] == fields;
      return |fields|;
    }

    /** `getFieldNameByIndexInternal`; without a name, the index that is left. */
    method GetFieldNameByIndexInternal(h: seq<Klass>, klass: ClassId, idx: int)
      returns (name: Option<string>, idx': int)
      requires Loaded(h) && klass < |h| && Walked(h, Seen(), klass)
      modifies this
      ensures Seen() == old(Seen()) + Interfaces(h, klass)
      ensures var i := idx + FieldCount(h, old(Seen()), |h|) - FieldCount(h, Seen(), |h|);
              Looked(AllFields(h, klass), i, name, idx')
      decreases klass
    {
      ghost var seen := Seen();
      idx' := RemoveImplementedInterfacesFromIndex(h, klass, idx);
      ghost var i := idx + FieldCount(h, seen, |h|) - FieldCount(h, seen + Interfaces(h, klass), |h|);
      if h[klass].super.Some? {
        WalkedSuper(h, klass, seen);
        name, idx' := GetFieldNameByIndexInternal(h, h[klass].super.value, idx');
        assert Seen() == seen + Interfaces(h, klass);
        LookedOn(AllFields(h, h[klass].super.value), h[klass].fields, i, name, idx');
        if name.Some? {
          return;
        }
      }
      name, idx' := LookAt(h[klass].fields, idx');
    }

    /** The own fields of one class. */
    static method LookAt(fields: seq<string>, idx: int) returns (name: Option<string>, idx': int)
      ensures Looked(fields, idx, name, idx')
    {
      if idx < 0 {
        return None, idx;
      }
      if idx < |fields| {
        return Some(fields[idx]), idx;
      }
      return None, idx - |fields|;
    }
  }

  /** The field with number `i`, or the number that is left when there is none. */
  predicate Looked(fields: seq<string>, i: int, name: Option<string>, rest: int) {
    && name == (if 0 <= i < |fields| then Some(fields[i]) else None)
    && (name.None? ==> rest == if i < 0 then i else i - |fields|)
  }

  /** Looking in `a` first, and then in `b`. */
  lemma LookedOn(a: seq<string>, b: seq<string>, i: int, name: Option<string>, rest: int)
    requires Looked(a, i, name, rest)
    ensures name.Some? ==> Looked(a + b, i, name, rest)
    ensures name.None? ==> forall n, r :: Looked(b, rest, n, r) ==> Looked(a + b, i, n, r)
  {
  }

  /** After the interfaces of a class, the list is ready for its superclass. */
  lemma WalkedSuper(h: seq<Klass>, klass: ClassId, seen: set<ClassId>)
    requires Loaded(h) && klass < |h| && Walked(h, seen, klass) && h[klass].super.Some?
    ensures Walked(h, seen + Listed(h, klass, |h[klass].interfaces|), h[klass].super.value)
  {
    var after := seen + Listed(h, klass, |h[klass].interfaces|);
    ListedBelow(h, klass, |h[klass].interfaces|);
    forall i <- after | i < klass ensures Interfaces(h, i) <= after {
      if i !in seen {
        ListedIncludes(h, klass, |h[klass].interfaces|, i);
      }
    }
  }

  lemma {:induction false} PositionIn(a: seq<string>, b: seq<string>, name: string)
    ensures Position(a + b, name) == if name in a then Position(a, name) else |a| + Position(b, name)
  {
    if a == [] {
      assert a + b == b;
    } else {
      PositionIn(a[1..], b, name);
      assert (a + b)[1..] == a[1..] + b;
    }
  }

  lemma PositionIs(fields: seq<string>, name: string, i: nat)
    requires i < |fields| && fields[i] == name && name !in fields[..i]
    ensures Position(fields, name) == i
  {
    forall j | 0 <= j < i ensures fields[j] != name {
      assert fields[j] in fields[..i];
    }
    assert name in fields;
  }

  /** `getFieldOffset` */
  method GetFieldOffset(h: seq<Klass>, klass: ClassId, name: string) returns (idx: int)
    requires Loaded(h) && klass < |h|
    ensures idx == OffsetOf(h, klass, name)
  {
    var interfaces := new InterfaceList();
    CountNone(h, |h|);
    var found;
    found, idx := interfaces.GetFieldOffsetInternal(h, klass, name, 0);
    assert interfaces.Seen() == Interfaces(h, klass);
    if !found {
      return -1;
    }
  }

  /** `getFieldNameByIndex` */
  method GetFieldNameByIndex(h: seq<Klass>, klass: ClassId, index: int) returns (name: Option<string>)
    requires Loaded(h) && klass < |h|
    ensures name == NameAt(h, klass, index)
  {
    var interfaces := new InterfaceList();
    CountNone(h, |h|);
    var rest;
    name, rest := interfaces.GetFieldNameByIndexInternal(h, klass, index);
    assert interfaces.Seen() == Interfaces(h, klass);
  }

  // ---- What the numbering promises ----

  /** From name to number to name is the identity. */
  lemma NameRoundTrip(h: seq<Klass>, c: ClassId, name: string)
    requires Loaded(h) && c < |h| && name in AllFields(h, c)
    ensures NameAt(h, c, OffsetOf(h, c, name)) == Some(name)
  {
  }

  /** No earlier field has the name of the `i`-th. */
  predicate Unhidden(fields: seq<string>, i: nat)
    requires i < |fields|
  {
    forall j: nat | j < i :: fields[j] != fields[i]
  }

  lemma PositionExactly(fields: seq<string>, i: nat)
    requires i < |fields|
    ensures fields[i] in fields && (Position(fields, fields[i]) == i <==> Unhidden(fields, i))
  {
    var p: nat := Position(fields, fields[i]);
    assert fields[i] in fields;
    assert p <= i && (p < i ==> fields[p] == fields[i]);
  }

  /** From number to name to number is the identity exactly for fields that no earlier field hides. */
  lemma OffsetRoundTripExactly(h: seq<Klass>, c: ClassId, index: int)
    requires Loaded(h) && c < |h| && NameAt(h, c, index).Some?
    ensures OffsetOf(h, c, NameAt(h, c, index).value) == index <==> Unhidden(AllFields(h, c), index - Base(h, c))
  {
    PositionExactly(AllFields(h, c), index - Base(h, c));
  }

  /** A chain of direct supertypes. */
  ghost predicate SupertypeChain(h: seq<Klass>, chain: seq<ClassId>) {
    && chain != [] && (forall j | 0 <= j < |chain| :: chain[j] < |h|)
    && forall j | 0 < j < |chain| ::
         chain[j] in h[chain[j - 1]].interfaces || h[chain[j - 1]].super == Some(chain[j])
  }

  /** A class implements an interface: supertypes lead to it, the last step to an interface. */
  ghost predicate Implements(h: seq<Klass>, c: ClassId, i: ClassId) {
    exists chain: seq<ClassId> ::
      && SupertypeChain(h, chain) && |chain| >= 2 && chain[0] == c && chain[|chain| - 1] == i
      && i in h[chain[|chain| - 2]].interfaces
  }

  /** The interfaces that are counted are exactly those that the class implements. */
  lemma InterfacesExactly(h: seq<Klass>, c: ClassId, i: ClassId)
    requires Loaded(h) && c < |h|
    ensures i in Interfaces(h, c) <==> Implements(h, c, i)
  {
    if i in Interfaces(h, c) {
      var chain := ChainTo(h, c, i);
    }
    if Implements(h, c, i) {
      var chain :| SupertypeChain(h, chain) && |chain| >= 2 && chain[0] == c && chain[|chain| - 1] == i
                   && i in h[chain[|chain| - 2]].interfaces;
      ChainEnds(h, chain, i);
    }
  }

  lemma {:induction false} ChainTo(h: seq<Klass>, c: ClassId, i: ClassId) returns (chain: seq<ClassId>)
    requires Loaded(h) && c < |h| && i in Interfaces(h, c)
    ensures SupertypeChain(h, chain) && |chain| >= 2 && chain[0] == c && chain[|chain| - 1] == i
    ensures i in h[chain[|chain| - 2]].interfaces
    decreases c, 1
  {
    if i in Listed(h, c, |h[c].interfaces|) {
      chain := ListedChainTo(h, c, |h[c].interfaces|, i);
    } else {
      var rest := ChainTo(h, h[c].super.value, i);
      chain := [c] + rest;
    }
  }

  lemma {:induction false} ListedChainTo(h: seq<Klass>, c: ClassId, k: nat, i: ClassId) returns (chain: seq<ClassId>)
    requires Loaded(h) && c < |h| && k <= |h[c].interfaces| && i in Listed(h, c, k)
    ensures SupertypeChain(h, chain) && |chain| >= 2 && chain[0] == c && chain[|chain| - 1] == i
    ensures i in h[chain[|chain| - 2]].interfaces
    decreases c, 0, k
  {
    var direct := h[c].interfaces[k - 1];
    if i in Listed(h, c, k - 1) {
      chain := ListedChainTo(h, c, k - 1, i);
    } else if i == direct {
      chain := [c, i];
    } else {
      var rest := ChainTo(h, direct, i);
      chain := [c] + rest;
    }
  }

  lemma {:induction false} InListed(h: seq<Klass>, c: ClassId, k: nat, j: nat)
    requires Loaded(h) && c < |h| && j < k <= |h[c].interfaces|
    ensures h[c].interfaces[j] in Listed(h, c, k) && Interfaces(h, h[c].interfaces[j]) <= Listed(h, c, k)
  {
    if j < k - 1 {
      InListed(h, c, k - 1, j);
    }
  }

  lemma {:induction false} ChainEnds(h: seq<Klass>, chain: seq<ClassId>, i: ClassId)
    requires Loaded(h) && SupertypeChain(h, chain) && |chain| >= 2 && chain[|chain| - 1] == i
    requires i in h[chain[|chain| - 2]].interfaces
    ensures i in Interfaces(h, chain[0])
    decreases chain
  {
    var c, next := chain[0], chain[1];
    if |chain| > 2 {
      ChainEnds(h, chain[1..], i);
    }
    if next in h[c].interfaces {
      var j :| 0 <= j < |h[c].interfaces| && h[c].interfaces[j] == next;
      InListed(h, c, |h[c].interfaces|, j);
    }
  }
}
