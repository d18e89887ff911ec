/**
 * The two HOB descriptors that are intervals: the memory allocation descriptor of a Memory Allocation
 * HOB and the resource descriptor of a Resource Descriptor HOB, with their `start`, `end`, `merge` and
 * ordering.
 */
module SerializableHob {
  import opened Primitives

  datatype Ordering = Less | Equal | Greater {
    /** `Ordering::reverse`. */
    function Reverse(): Ordering {
      match this
      case Less => Greater
      case Equal => Equal
      case Greater => Less
    }
  }

  /** `Ordering::then`: the second comparison breaks a tie in the first. */
  function Then(first: Ordering, second: Ordering): Ordering {
    if first == Equal then second else first
  }

  function CompareNat(a: nat, b: nat): (r: Ordering)
    ensures r == Equal <==> a == b
    ensures r == Less <==> a < b
  {
    if a < b then Less else if a == b then Equal else Greater
  }

  /** `String`'s ordering: lexicographic by character, a proper prefix first. */
  function CompareStrings(a: string, b: string): Ordering {
    if a == [] && b == [] then Equal
    else if a == [] then Less
    else if b == [] then Greater
    else if a[0] < b[0] then Less
    else if a[0] > b[0] then Greater
    else CompareStrings(a[1..], b[1..])
  }

  /**
   * `MemAllocDescriptorSerDe` and `ResourceDescriptorSerDe`. Names and owners are GUID strings; the
   * interval is [base, base + length).
   */
  datatype Descriptor =
    | MemAlloc(name: string, memoryBaseAddress: uint64, memoryLength: uint64, memoryType: uint32)
    | Resource(owner: string, resourceType: uint32, resourceAttribute: uint32, physicalStart: uint64,
               resourceLength: uint64)
  {
    /** `start()`. */
    function Start(): nat {
      match this
      case MemAlloc(_, base, _, _) => base
      case Resource(_, _, _, start, _) => start
    }

    /** `end()`: start plus length, which the source computes in u64 (see EndFits). */
    function End(): (r: nat)
      ensures Start() <= r
    {
      match this
      case MemAlloc(_, base, length, _) => base + length
      case Resource(_, _, _, start, length) => start + length
    }

    /** `end()` does not overflow u64. */
    predicate EndFits() {
      End() < TWO_TO_THE_64
    }
  }

  /**
   * `merge()`: the hull [min start, max end) of the two intervals, keeping the receiver's kind and its
   * other fields.
   */
  function Merge(a: Descriptor, b: Descriptor): (m: Descriptor)
    requires a.EndFits() && b.EndFits()
    ensures m.EndFits()
    ensures m.Start() == if a.Start() <= b.Start() then a.Start() else b.Start()
    ensures m.End() == if a.End() >= b.End() then a.End() else b.End()
    ensures m.MemAlloc? <==> a.MemAlloc?
    ensures m.MemAlloc? ==> m.name == a.name && m.memoryType == a.memoryType
    ensures m.Resource? ==> m.owner == a.owner && m.resourceType == a.resourceType && m.resourceAttribute == a.resourceAttribute
  {
    var start := Min(a.Start(), b.Start());
    var end := Max(a.End(), b.End());
    match a
    case MemAlloc(name, _, _, memoryType) => MemAlloc(name, start, end - start, memoryType)
    case Resource(owner, resourceType, resourceAttribute, _, _) =>
      Resource(owner, resourceType, resourceAttribute, start, end - start)
  }

  function Min(a: nat, b: nat): nat { if a <= b then a else b }
  function Max(a: nat, b: nat): nat { if a >= b then a else b }

  /**
   * `cmp()`: memory allocation descriptors by the derived order (name, then base, length and type);
   * resource descriptors by start, then length. A list holds descriptors of one kind only; the model puts
   * memory allocation descriptors first when the kinds differ.
   */
  function Cmp(a: Descriptor, b: Descriptor): Ordering {
    match (a, b)
    case (MemAlloc(n1, b1, l1, t1), MemAlloc(n2, b2, l2, t2)) =>
      Then(CompareStrings(n1, n2), Then(CompareNat(b1, b2), Then(CompareNat(l1, l2), CompareNat(t1, t2))))
    case (Resource(_, _, _, s1, l1), Resource(_, _, _, s2, l2)) =>
      Then(CompareNat(s1, s2), CompareNat(l1, l2))
    case (MemAlloc(_, _, _, _), Resource(_, _, _, _, _)) => Less
    case (Resource(_, _, _, _, _), MemAlloc(_, _, _, _)) => Greater
  }

  // Properties.

  /** Comparing the other way round reverses the result. */
  lemma {:induction false} CompareStringsReverse(a: string, b: string)
    ensures CompareStrings(b, a) == CompareStrings(a, b).Reverse()
    ensures CompareStrings(a, b) == Equal <==> a == b
    decreases |a|
  {
    if a != [] && b != [] && a[0] == b[0] {
      CompareStringsReverse(a[1..], b[1..]);
      if a[1..] == b[1..] {
        assert a == [a[0]] + a[1..] && b == [b[0]] + b[1..];
      }
    }
  }

  /** The string order is transitive, and strictly so when either step is strict. */
  lemma {:induction false} CompareStringsTransitive(a: string, b: string, c: string)
    requires CompareStrings(a, b) != Greater && CompareStrings(b, c) != Greater
    ensures CompareStrings(a, c) != Greater
    ensures CompareStrings(a, b) == Less || CompareStrings(b, c) == Less ==> CompareStrings(a, c) == Less
    decreases |a|
  {
    if a != [] && b != [] && c != [] && a[0] == b[0] == c[0] {
      CompareStringsTransitive(a[1..], b[1..], c[1..]);
    }
  }

  /** The order is transitive, as `Ord` requires. */
  lemma CmpTransitive(a: Descriptor, b: Descriptor, c: Descriptor)
    requires Cmp(a, b) != Greater && Cmp(b, c) != Greater
    ensures Cmp(a, c) != Greater
  {
    if a.MemAlloc? && b.MemAlloc? && c.MemAlloc? {
      CompareStringsReverse(a.name, b.name);
      CompareStringsReverse(b.name, c.name);
      CompareStringsReverse(a.name, c.name);
      CompareStringsTransitive(a.name, b.name, c.name);
    }
  }

  /** The order is antisymmetric: swapping the operands reverses the result. */
  lemma CmpReverse(a: Descriptor, b: Descriptor)
    ensures Cmp(b, a) == Cmp(a, b).Reverse()
  {
    if a.MemAlloc? && b.MemAlloc? {
      CompareStringsReverse(a.name, b.name);
    }
  }

  /** Two resource descriptors compare Equal exactly when their starts and lengths agree; nothing else counts. */
  lemma ResourceCmpEqualIff(a: Descriptor, b: Descriptor)
    requires a.Resource? && b.Resource?
    ensures Cmp(a, b) == Equal <==> a.physicalStart == b.physicalStart && a.resourceLength == b.resourceLength
  {
  }

  /** Resource descriptors in order have non-decreasing starts. */
  lemma ResourceCmpOrdersStarts(a: Descriptor, b: Descriptor)
    requires a.Resource? && b.Resource?
    requires Cmp(a, b) != Greater
    ensures a.Start() <= b.Start()
  {
  }

  /** Memory allocation descriptors are ordered by name first: a later start can come first. */
  lemma MemAllocOrderIsNotByStart()
    ensures var a := MemAlloc("a", 0x2000, 0x1000, 0);
            var b := MemAlloc("b", 0x1000, 0x1000, 0);
            Cmp(a, b) == Less && a.Start() > b.Start()
  {
    assert "a"[0] < "b"[0];
  }

  /** The merged interval contains both operands, and its bounds do not depend on the operand order. */
  lemma MergeContainsBoth(a: Descriptor, b: Descriptor)
    requires a.EndFits() && b.EndFits()
    ensures Merge(a, b).Start() <= a.Start() && a.End() <= Merge(a, b).End()
    ensures Merge(a, b).Start() <= b.Start() && b.End() <= Merge(a, b).End()
    ensures Merge(a, b).Start() == Merge(b, a).Start() && Merge(a, b).End() == Merge(b, a).End()
  {
  }

  /** The merged interval is the least one containing both operands. */
  lemma MergeIsLeast(a: Descriptor, b: Descriptor, c: Descriptor)
    requires a.EndFits() && b.EndFits()
    requires c.Start() <= a.Start() && a.End() <= c.End()
    requires c.Start() <= b.Start() && b.End() <= c.End()
    ensures c.Start() <= Merge(a, b).Start() && Merge(a, b).End() <= c.End()
  {
  }

  /** The metadata of a merge is the receiver's: merging the other way round can give a different descriptor. */
  lemma MergeKeepsReceiverMetadata()
    ensures var a := Resource("a", 1, 2, 0x1000, 0x1000);
            var b := Resource("b", 3, 4, 0x2000, 0x1000);
            Merge(a, b) == Resource("a", 1, 2, 0x1000, 0x2000)
            && Merge(b, a) == Resource("b", 3, 4, 0x1000, 0x2000)
  {
  }
}
