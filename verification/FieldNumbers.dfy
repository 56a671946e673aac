/** The field numbers, counted: how many fields the JVM Tool Interface specification puts before a field. */
module FieldNumbers {
  import opened Wrappers
  import opened FieldIndex

  /** The fields that the classes of a set declare: the class and the place in it. */
  ghost function FieldsOf(h: seq<Klass>, classes: set<ClassId>): set<(ClassId, nat)> {
    set i: ClassId, j: nat | i in classes && i < |h| && j < |h[i].fields| :: (i, j)
  }

  /** The interfaces that a class implements. */
  ghost function Implemented(h: seq<Klass>, c: ClassId): set<ClassId> {
    set i: ClassId | i < |h| && Implements(h, c, i)
  }

  /** The class, its superclass, and so on. */
  function Line(h: seq<Klass>, c: ClassId): (line: seq<ClassId>)
    requires Loaded(h) && c < |h|
    ensures line != [] && line[0] == c && forall d <- line :: d <= c
  {
    [c] + if h[c].super.Some? then Line(h, h[c].super.value) else []
  }

  /** The proper superclasses of a class. */
  function Supers(h: seq<Klass>, c: ClassId): set<ClassId>
    requires Loaded(h) && c < |h|
  {
    set d <- Line(h, c)[1..]
  }

  // ---- Counting ----

  ghost function Row(i: ClassId, n: nat): set<(ClassId, nat)> { set j: nat | j < n :: (i, j) }

  lemma {:induction false} RowCount(i: ClassId, n: nat)
    ensures |Row(i, n)| == n
  {
    if n > 0 {
      RowCount(i, n - 1);
      assert Row(i, n) == Row(i, n - 1) + {(i, n - 1)};
    }
  }

  lemma OneMore(h: seq<Klass>, classes: set<ClassId>, i: ClassId)
    requires i < |h| && i !in classes
    ensures |FieldsOf(h, classes + {i})| == |FieldsOf(h, classes)| + |h[i].fields|
  {
    var row := Row(i, |h[i].fields|);
    RowCount(i, |h[i].fields|);
    assert FieldsOf(h, classes + {i}) == FieldsOf(h, classes) + row;
    assert FieldsOf(h, classes) !! row;
  }

  function Upto(s: set<ClassId>, k: nat): set<ClassId> { set i <- s | i < k }

  lemma {:induction false} CountIs(h: seq<Klass>, s: set<ClassId>, k: nat)
    requires k <= |h|
    ensures FieldCount(h, s, k) == |FieldsOf(h, Upto(s, k))|
  {
    if k == 0 {
      assert Upto(s, k) == {};
      assert FieldsOf(h, {}) == {};
    } else {
      CountIs(h, s, k - 1);
      if k - 1 in s {
        OneMore(h, Upto(s, k - 1), k - 1);
        assert Upto(s, k) == Upto(s, k - 1) + {k - 1};
      } else {
        assert Upto(s, k) == Upto(s, k - 1);
      }
    }
  }

  /** The number of the first field. */
  lemma FirstNumber(h: seq<Klass>, c: ClassId)
    requires Loaded(h) && c < |h|
    ensures Base(h, c) == |FieldsOf(h, Implemented(h, c))|
  {
    var s := Interfaces(h, c);
    InterfacesBelow(h, c);
    CountIs(h, s, |h|);
    forall i: ClassId ensures i in Upto(s, |h|) <==> i in Implemented(h, c) {
      InterfacesExactly(h, c, i);
    }
    assert Upto(s, |h|) == Implemented(h, c);
  }

  /** The fields that a class inherits. */
  function Inherited(h: seq<Klass>, c: ClassId): seq<string>
    requires Loaded(h) && c < |h|
  {
    if h[c].super.Some? then AllFields(h, h[c].super.value) else []
  }

  lemma {:induction false} LineCount(h: seq<Klass>, c: ClassId)
    requires Loaded(h) && c < |h|
    ensures |Inherited(h, c)| == |FieldsOf(h, Supers(h, c))|
    ensures |AllFields(h, c)| == |FieldsOf(h, Supers(h, c) + {c})|
  {
    if h[c].super.Some? {
      LineCount(h, h[c].super.value);
      assert Supers(h, c) == Supers(h, h[c].super.value) + {h[c].super.value};
    } else {
      assert Supers(h, c) == {};
      assert FieldsOf(h, {}) == {};
    }
    OneMore(h, Supers(h, c), c);
  }

  /** The fields of a superclass are the first ones. */
  lemma {:induction false} LineFields(h: seq<Klass>, c: ClassId, t: nat)
    requires Loaded(h) && c < |h| && t < |Line(h, c)|
    ensures var d := Line(h, c)[t];
            d < |h| && AllFields(h, d) <= AllFields(h, c) && Line(h, d) == Line(h, c)[t..]
  {
    if t > 0 {
      LineFields(h, h[c].super.value, t - 1);
    }
  }

  /** `d` is the class or one of its superclasses: the `t`-th of the line. */
  predicate InLine(h: seq<Klass>, c: ClassId, t: nat, d: ClassId) {
    Loaded(h) && c < |h| && t < |Line(h, c)| && Line(h, c)[t] == d < |h|
  }

  /** The place of field `j` of `d`. */
  lemma PlaceOf(h: seq<Klass>, c: ClassId, t: nat, d: ClassId, j: nat, p: nat)
    requires InLine(h, c, t, d) && j < |h[d].fields| && p == |Inherited(h, d)| + j
    ensures p < |AllFields(h, c)| && AllFields(h, c)[p] == h[d].fields[j]
  {
    LineFields(h, c, t);
    PlaceIn(Inherited(h, d), h[d].fields, AllFields(h, c), j);
  }

  lemma PlaceIn(a: seq<string>, b: seq<string>, all: seq<string>, j: nat)
    requires a + b <= all && j < |b|
    ensures |a| + j < |all| && all[|a| + j] == b[j]
  {
    assert (a + b)[|a| + j] == b[j];
  }

  /** What comes before it. */
  lemma Before(h: seq<Klass>, c: ClassId, t: nat, d: ClassId, j: nat, p: nat)
    requires InLine(h, c, t, d) && j <= |h[d].fields| && p == |Inherited(h, d)| + j
    ensures p <= |AllFields(h, c)| && AllFields(h, c)[..p] == Inherited(h, d) + h[d].fields[..j]
  {
    LineFields(h, c, t);
    StartOf(Inherited(h, d), h[d].fields, AllFields(h, c), j);
  }

  lemma StartOf(a: seq<string>, b: seq<string>, all: seq<string>, j: nat)
    requires a + b <= all && j <= |b|
    ensures |a| + j <= |all| && all[..|a| + j] == a + b[..j]
  {
    assert all[..|a| + |b|] == a + b;
  }

  // ---- Names ----

  /** Some class of the sequence has a field with the name. */
  predicate Named(h: seq<Klass>, classes: seq<ClassId>, name: string) {
    exists d <- classes :: d < |h| && name in h[d].fields
  }

  lemma {:induction false} NamesExactly(h: seq<Klass>, c: ClassId, name: string)
    requires Loaded(h) && c < |h|
    ensures name in AllFields(h, c) <==> Named(h, Line(h, c), name)
  {
    var rest := Line(h, c)[1..];
    assert Line(h, c) == [c] + rest;
    if h[c].super.Some? {
      NamesExactly(h, h[c].super.value, name);
      assert rest == Line(h, h[c].super.value);
    }
    NamedMore(h, c, rest, name);
  }

  lemma NamedMore(h: seq<Klass>, c: ClassId, rest: seq<ClassId>, name: string)
    requires c < |h|
    ensures Named(h, [c] + rest, name) <==> name in h[c].fields || Named(h, rest, name)
  {
    assert forall d: ClassId :: d in [c] + rest <==> d == c || d in rest;
  }

  lemma InheritedNames(h: seq<Klass>, c: ClassId, t: nat, d: ClassId, name: string)
    requires InLine(h, c, t, d)
    ensures name in Inherited(h, d) <==> Named(h, Line(h, c)[t + 1..], name)
  {
    LineFields(h, c, t);
    assert Line(h, c)[t + 1..] == Line(h, d)[1..];
    if h[d].super.Some? {
      NamesExactly(h, h[d].super.value, name);
      assert Line(h, d)[1..] == Line(h, h[d].super.value);
    }
  }

  // ---- The numbers ----

  /** How many fields come before field `j` of a class `d`: those of all interfaces of the class `c`, each interface
      counted once, those of the superclasses of `d`, and those in front of it. */
  ghost function NumberOf(h: seq<Klass>, c: ClassId, d: ClassId, j: nat): nat
    requires Loaded(h) && d < |h|
  {
    |FieldsOf(h, Implemented(h, c))| + |FieldsOf(h, Supers(h, d))| + j
  }

  lemma NumberIs(h: seq<Klass>, c: ClassId, d: ClassId, j: nat)
    requires Loaded(h) && c < |h| && d < |h|
    ensures NumberOf(h, c, d, j) == Base(h, c) + |Inherited(h, d)| + j
  {
    FirstNumber(h, c);
    LineCount(h, d);
  }

  lemma NameIs(h: seq<Klass>, c: ClassId, p: nat, number: nat)
    requires Loaded(h) && c < |h| && p < |AllFields(h, c)| && number == Base(h, c) + p
    ensures NameAt(h, c, number) == Some(AllFields(h, c)[p])
  {
  }

  /** The field that a number stands for: `d` is the class or one of its superclasses. */
  lemma NumberedField(h: seq<Klass>, c: ClassId, t: nat, d: ClassId, j: nat)
    requires InLine(h, c, t, d) && j < |h[d].fields|
    ensures NameAt(h, c, NumberOf(h, c, d, j)) == Some(h[d].fields[j])
  {
    var p := |Inherited(h, d)| + j;
    NumberIs(h, c, d, j);
    PlaceOf(h, c, t, d, j, p);
    NameIs(h, c, p, NumberOf(h, c, d, j));
  }

  /** No field with the name of field `j` of `d` comes before it. */
  predicate FirstOfName(h: seq<Klass>, c: ClassId, t: nat, d: ClassId, j: nat)
    requires InLine(h, c, t, d) && j < |h[d].fields|
  {
    !Named(h, Line(h, c)[t + 1..], h[d].fields[j]) && h[d].fields[j] !in h[d].fields[..j]
  }

  lemma FirstOfNameExactly(h: seq<Klass>, c: ClassId, t: nat, d: ClassId, j: nat)
    requires InLine(h, c, t, d) && j < |h[d].fields|
    ensures FirstOfName(h, c, t, d, j) <==>
            OffsetOf(h, c, h[d].fields[j]) == Base(h, c) + |Inherited(h, d)| + j
  {
    var name, p := h[d].fields[j], |Inherited(h, d)| + j;
    PlaceOf(h, c, t, d, j, p);
    Before(h, c, t, d, j, p);
    InheritedNames(h, c, t, d, name);
    EitherPart(Inherited(h, d), h[d].fields[..j], name);
    UnhiddenExactly(AllFields(h, c), p);
  }

  lemma EitherPart(a: seq<string>, b: seq<string>, name: string)
    ensures name in a + b <==> name in a || name in b
  {
  }

  lemma UnhiddenExactly(fields: seq<string>, p: nat)
    requires p < |fields|
    ensures fields[p] in fields && (Position(fields, fields[p]) == p <==> fields[p] !in fields[..p])
  {
    PositionExactly(fields, p);
  }

  /** A field gets its number exactly if no earlier field has its name. */
  lemma NumberExactly(h: seq<Klass>, c: ClassId, t: nat, d: ClassId, j: nat)
    requires InLine(h, c, t, d) && j < |h[d].fields|
    ensures OffsetOf(h, c, h[d].fields[j]) == NumberOf(h, c, d, j) <==> FirstOfName(h, c, t, d, j)
  {
    NumberIs(h, c, d, j);
    FirstOfNameExactly(h, c, t, d, j);
  }

  /** A name has no number exactly if neither the class nor a superclass has such a field. */
  lemma UnknownExactly(h: seq<Klass>, c: ClassId, name: string)
    requires Loaded(h) && c < |h|
    ensures OffsetOf(h, c, name) == -1 <==> forall d <- Line(h, c) | d < |h| :: name !in h[d].fields
    ensures OffsetOf(h, c, name) >= -1
  {
    NamesExactly(h, c, name);
  }

  /** The numbers of a class are those behind its interfaces' fields, one for each field of the class and its
      superclasses. */
  lemma NumbersExactly(h: seq<Klass>, c: ClassId, index: int)
    requires Loaded(h) && c < |h|
    ensures NameAt(h, c, index).Some? <==>
            var first := |FieldsOf(h, Implemented(h, c))|;
            first <= index < first + |FieldsOf(h, Supers(h, c) + {c})|
  {
    FirstNumber(h, c);
    LineCount(h, c);
  }
}
