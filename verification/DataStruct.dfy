/** Leak bitsets as values (`bitmask_set.h`).  `raw` holds every bit that is set in the byte buffer, including padding
    bits at or above `size`, because the bulk operations work on whole bytes.  BitmaskSet.dfy proves that the byte
    buffer refines these values. */
module LeakBits {

  datatype Bits = Bits(size: nat, raw: set<nat>)

  function Min(a: nat, b: nat): nat { if a < b then a else b }

  /** The length of the buffer in bytes. */
  function Bytes(size: nat): nat { 1 + size / 8 }

  /** The number of bits physically present. */
  function Width(size: nat): nat { 8 * Bytes(size) }

  predicate Fits(b: Bits) { forall k <- b.raw :: k < Width(b.size) }

  function Empty(size: nat): Bits { Bits(size, {}) }

  function Add(b: Bits, n: nat): Bits {
    if n >= b.size then b else b.(raw := b.raw + {n})
  }

  function Remove(b: Bits, n: nat): Bits {
    if n >= b.size then b else b.(raw := b.raw - {n})
  }

  predicate Contains(b: Bits, n: nat) { n < b.size && n in b.raw }

  /** The bits in the bytes that two sets have in common. */
  function Common(a: Bits, b: Bits): nat { Width(Min(a.size, b.size)) }

  function AddAll(s: Bits, o: Bits): Bits {
    s.(raw := s.raw + set k | k in o.raw && k < Common(s, o))
  }

  function AddAllWithExclusion(s: Bits, o: Bits, e: Bits): Bits {
    var excluded := Width(Min(Min(s.size, o.size), e.size));
    s.(raw := s.raw + set k | k in o.raw && k < Common(s, o) && !(k < excluded && k in e.raw))
  }

  /** The number of bytes that `bitMapSet_containsAll` compares: the macro argument is not parenthesised, so only the
      third operand of the conditional is divided by eight. */
  function ContainsAllBytes(s: nat, o: nat): nat { if s < o then 1 + s else Bytes(o) }

  /** The comparison stays inside both buffers. */
  predicate Comparable(s: nat, o: nat) { ContainsAllBytes(s, o) <= Bytes(s) && ContainsAllBytes(s, o) <= Bytes(o) }

  predicate ContainsAll(s: Bits, o: Bits)
    requires Comparable(s.size, o.size)
  {
    forall k <- o.raw :: k < 8 * ContainsAllBytes(s.size, o.size) ==> k in s.raw
  }

  predicate IsEmpty(b: Bits) { b.raw == {} }
}

/** The records of `data_struct.h`.  A node's address is its allocation number, which is also its JVM tag: the agent
    casts node pointers to tags and back. */
module DataStruct {
  import opened Wrappers
  import opened LeakBits

  type Obj = nat
  type NodeId = nat

  /** `jvmtiHeapReferenceKind` */
  datatype Kind =
    | ClassRef | Field | ArrayElement | ClassLoader | Signers | ProtectionDomain | Interface | StaticField
    | ConstantPool | Superclass | JniGlobal | SystemClass | Monitor | StackLocal | JniLocal | Thread | Other

  /** `jvmtiHeapReferenceInfo`: the index of a field, array element or pool entry; the thread of a local; the rest of
      the union. */
  datatype Info = Info(index: int, thread: int, detail: int)

  /** `memset(ref, 0, …)`: what is kept when the JVM passes no information. */
  const NO_INFO := Info(0, 0, 0)

  /** `MemoryReferer` */
  datatype Ref = Ref(kind: Kind, info: Info, node: Option<NodeId>)

  /** `ClassReferenceCount` */
  datatype ClassCount = ClassCount(klass: Obj, count: nat)

  /** `IgnoreField` */
  datatype IgnoreField = IgnoreField(field: int, threshold: int)

  /** The value of a `MemoryNode`. */
  datatype Node = Node(
    visited: bool, dead: bool, isClass: bool, obj: Option<Obj>, size: int, leaks: Bits,
    refs: seq<Ref>, rc: int, fanIn: seq<ClassCount>, ignore: seq<IgnoreField>)

  predicate IsRootReference(kind: Kind) {
    match kind
    case StackLocal | JniLocal | ConstantPool | StaticField | Monitor | Thread | Other | SystemClass | JniGlobal => true
    case _ => false
  }

  predicate ShouldConsider(considerLocal: bool, kind: Kind) {
    match kind
    case StackLocal | JniLocal => considerLocal
    case _ => true
  }

  /** `newMemoryNode`, as the address space sees it: zeroed, with one reference. */
  function NewNode(leaks: nat): Node {
    Node(false, false, false, None, 0, Empty(leaks), [], 1, [], [])
  }

  /** The count of the first entry for `c`; there is at most one. */
  function CountOf(fanIn: seq<ClassCount>, c: Obj): nat {
    if fanIn == [] then 0
    else if fanIn[0].klass == c then fanIn[0].count
    else CountOf(fanIn[1..], c)
  }

  /** `addReferenceClass`: increments the entry of `c`, appending one if there is none. */
  function Bump(fanIn: seq<ClassCount>, c: Obj): seq<ClassCount> {
    if fanIn == [] then [ClassCount(c, 1)]
    else if fanIn[0].klass == c then [ClassCount(c, fanIn[0].count + 1)] + fanIn[1..]
    else [fanIn[0]] + Bump(fanIn[1..], c)
  }

  lemma {:induction false} BumpCounts(fanIn: seq<ClassCount>, c: Obj, d: Obj)
    ensures CountOf(Bump(fanIn, c), d) == CountOf(fanIn, d) + if c == d then 1 else 0
  {
    if fanIn != [] && fanIn[0].klass != c {
      BumpCounts(fanIn[1..], c, d);
      assert Bump(fanIn, c)[1..] == Bump(fanIn[1..], c);
    } else if fanIn != [] {
      assert Bump(fanIn, c)[1..] == fanIn[1..];
    }
  }

  /** `isFieldIgnored` */
  predicate Ignored(ignore: seq<IgnoreField>, size: int, field: int) {
    exists g <- ignore :: g.field == field && size < g.threshold
  }

  /** `hasReferenceBetweenObjects` */
  predicate HasReference(refs: seq<Ref>, n: NodeId, kind: Kind, info: Option<Info>) {
    exists ref <- refs :: ref.kind == kind && (info.None? || ref.info == info.value) && ref.node == Some(n)
  }
}
