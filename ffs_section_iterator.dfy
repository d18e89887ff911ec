/**
 * `FfsSectionIterator`: walks the sections of a file and, through a section extractor, the sections
 * nested inside its encapsulation sections, depth first, each encapsulation section before its contents.
 */
module FfsSectionIterator {
  import opened Wrappers
  import opened FfsSection

  /**
   * A section extractor: `NullExtractor` unpacks nothing; any other extractor is a function from an
   * encapsulation section to the sections it contains, in order.
   */
  datatype Extractor = NullExtractor | Extracting(extract: Section -> seq<Section>)

  /** `extract()`. */
  function Extract(e: Extractor, s: Section): (r: seq<Section>)
    ensures e.NullExtractor? ==> r == []
  {
    match e
    case NullExtractor => []
    case Extracting(f) => f(s)
  }

  /** The sections the iterator queues after yielding s: what the extractor gives for an encapsulation section. */
  function Children(e: Extractor, s: Section): (r: seq<Section>)
    ensures !IsEncapsulation(s) ==> r == []
    ensures IsEncapsulation(s) ==> r == Extract(e, s)
  {
    if IsEncapsulation(s) then Extract(e, s) else []
  }

  /** The iterator's state: the next physical section and the queue of extracted sections still to yield. */
  datatype IterState = IterState(next: Option<Section>, pending: seq<Section>)

  /** The state of an iterator with nothing left to yield. */
  const Drained: IterState := IterState(None, [])

  /** A state whose next physical section can be walked from. */
  predicate StateValid(layout: MetadataLayout, st: IterState) {
    st.next.Some? ==> st.next.value.Valid(layout)
  }

  /**
   * One call of `next()`: the front of the queue if there is one, else the next physical section (whose
   * successor becomes the next one); an encapsulation section's extracted sections go to the front of the
   * queue in their order.
   */
  function Step(layout: MetadataLayout, e: Extractor, st: IterState): (res: (Option<Section>, IterState))
    requires StateValid(layout, st)
    ensures StateValid(layout, res.1)
    ensures res.0.None? <==> st == Drained
    ensures res.0.None? ==> res.1 == Drained
    ensures st.pending != [] ==> res == (Some(st.pending[0]), IterState(st.next, Children(e, st.pending[0]) + st.pending[1..]))
    ensures st.pending == [] && st.next.Some? ==>
      res == (st.next, IterState(NextSection(layout, st.next.value), Children(e, st.next.value)))
  {
    if st.pending == [] then
      match st.next
      case None => (None, st)
      case Some(current) => (Some(current), IterState(NextSection(layout, current), Children(e, current)))
    else
      var current := st.pending[0];
      (Some(current), IterState(st.next, Children(e, current) + st.pending[1..]))
  }

  /** The sections n calls of `next()` yield (fewer once the iterator runs dry), and the state they leave. */
  function Run(layout: MetadataLayout, e: Extractor, st: IterState, n: nat): (res: (seq<Section>, IterState))
    requires StateValid(layout, st)
    ensures |res.0| <= n
    ensures StateValid(layout, res.1)
    decreases n
  {
    if n == 0 then ([], st)
    else
      var (r, st') := Step(layout, e, st);
      match r
      case None => ([], st')
      case Some(s) =>
        var (ys, last) := Run(layout, e, st', n - 1);
        ([s] + ys, last)
  }

  /** The physical sections from an optional first one on. */
  function PhysicalFrom(layout: MetadataLayout, start: Option<Section>): (r: seq<Section>)
    requires start.Some? ==> start.value.Valid(layout)
    ensures start.None? <==> r == []
  {
    match start
    case None => []
    case Some(s) => SectionsFrom(layout, s)
  }

  /** The physical sections after s are those from its successor on. */
  lemma PhysicalFromSuccessor(layout: MetadataLayout, s: Section)
    requires s.Valid(layout)
    ensures SectionsFrom(layout, s) == [s] + PhysicalFrom(layout, NextSection(layout, s))
  {
  }

  /**
   * Pre-order expansion of a list of items under a children function: each item, then the expansion of its
   * children, then the expansion of the rest. None when the nesting is deeper than depth (an extractor may
   * return encapsulation sections without end).
   */
  function Expand<T>(kids: T -> seq<T>, ss: seq<T>, depth: nat): (r: Option<seq<T>>)
    ensures r.Some? ==> |r.value| >= |ss|
    decreases depth, |ss|, 1
  {
    if ss == [] then Some([])
    else
      match (ExpandInside(kids, ss[0], depth), Expand(kids, ss[1..], depth))
      case (Some(inside), Some(rest)) => Some([ss[0]] + inside + rest)
      case _ => None
  }

  /** The expansion of the children of s, one level deeper. */
  function ExpandInside<T>(kids: T -> seq<T>, s: T, depth: nat): (r: Option<seq<T>>)
    ensures kids(s) == [] ==> r == Some([])
    decreases depth, 0, 0
  {
    if kids(s) == [] then Some([])
    else if depth == 0 then None
    else Expand(kids, kids(s), depth - 1)
  }

  /** Items without children expand to themselves. */
  lemma {:induction false} LeavesExpandToThemselves<T>(kids: T -> seq<T>, ss: seq<T>, depth: nat)
    requires forall i | 0 <= i < |ss| :: kids(ss[i]) == []
    ensures Expand(kids, ss, depth) == Some(ss)
    decreases |ss|
  {
    if ss != [] {
      assert kids(ss[0]) == [];
      LeavesExpandToThemselves(kids, ss[1..], depth);
      assert ss == [ss[0]] + [] + ss[1..];
    }
  }

  /** An expansion that fits in depth d also fits in d + 1, with the same result. */
  lemma {:induction false} ExpandDeeper<T>(kids: T -> seq<T>, ss: seq<T>, depth: nat)
    requires Expand(kids, ss, depth).Some?
    ensures Expand(kids, ss, depth + 1) == Expand(kids, ss, depth)
    decreases depth, |ss|
  {
    if ss != [] {
      if kids(ss[0]) != [] {
        ExpandDeeper(kids, kids(ss[0]), depth - 1);
      }
      ExpandDeeper(kids, ss[1..], depth);
    }
  }

  /** The children of s expand, at the same depth, to the expansion inside s. */
  lemma ExpandChildren<T>(kids: T -> seq<T>, s: T, depth: nat)
    requires ExpandInside(kids, s, depth).Some?
    ensures Expand(kids, kids(s), depth) == ExpandInside(kids, s, depth)
  {
    if kids(s) != [] {
      ExpandDeeper(kids, kids(s), depth - 1);
    }
  }

  /** Expansion distributes over concatenation. */
  lemma {:induction false} ExpandAppend<T>(kids: T -> seq<T>, a: seq<T>, b: seq<T>, depth: nat)
    requires Expand(kids, a, depth).Some? && Expand(kids, b, depth).Some?
    ensures Expand(kids, a + b, depth) == Some(Expand(kids, a, depth).value + Expand(kids, b, depth).value)
    decreases |a|
  {
    var B := Expand(kids, b, depth).value;
    if a == [] {
      assert a + b == b && [] + B == B;
    } else {
      ExpandAppend(kids, a[1..], b, depth);
      var inside := ExpandInside(kids, a[0], depth).value;
      var restA := Expand(kids, a[1..], depth).value;
      ExpandCons(kids, a[0], a[1..] + b, depth);
      ConsAppend(a, b);
      AppendAssociative([a[0]] + inside, restA, B);
    }
  }

  lemma ConsAppend<T>(a: seq<T>, b: seq<T>)
    requires a != []
    ensures [a[0]] + (a[1..] + b) == a + b
  {
  }

  lemma AppendAssociative<T>(x: seq<T>, y: seq<T>, z: seq<T>)
    ensures x + (y + z) == (x + y) + z
  {
  }

  /** Expanding x followed by rest: x, the expansion of its children, the expansion of rest. */
  lemma ExpandCons<T>(kids: T -> seq<T>, x: T, rest: seq<T>, depth: nat)
    ensures Expand(kids, [x] + rest, depth)
         == if ExpandInside(kids, x, depth).Some? && Expand(kids, rest, depth).Some?
            then Some([x] + ExpandInside(kids, x, depth).value + Expand(kids, rest, depth).value)
            else None
  {
    var ss := [x] + rest;
    assert ss[0] == x && ss[1..] == rest;
  }

  /** Children as a function value, for Expand. */
  function ChildrenOf(e: Extractor): (kids: Section -> seq<Section>)
    ensures forall s :: kids(s) == Children(e, s)
  {
    s => Children(e, s)
  }

  /** The sections left to yield from a state: the expanded queue, then the expanded physical sections. */
  function Remaining(layout: MetadataLayout, e: Extractor, st: IterState, depth: nat): Option<seq<Section>>
    requires StateValid(layout, st)
  {
    var p := Expand(ChildrenOf(e), st.pending, depth);
    var q := Expand(ChildrenOf(e), PhysicalFrom(layout, st.next), depth);
    if p.Some? && q.Some? then Some(p.value + q.value) else None
  }

  /** One step yields the first remaining section and leaves the rest remaining. */
  lemma StepPopsRemaining(layout: MetadataLayout, e: Extractor, st: IterState, depth: nat)
    requires StateValid(layout, st)
    requires Remaining(layout, e, st, depth).Some? && Remaining(layout, e, st, depth).value != []
    ensures Step(layout, e, st).0 == Some(Remaining(layout, e, st, depth).value[0])
    ensures Remaining(layout, e, Step(layout, e, st).1, depth) == Some(Remaining(layout, e, st, depth).value[1..])
  {
    if st.pending != [] {
      StepPopsPending(layout, e, st, depth);
    } else {
      assert st.next.Some?;
      StepPopsPhysical(layout, e, st, depth);
    }
  }

  lemma StepPopsPending(layout: MetadataLayout, e: Extractor, st: IterState, depth: nat)
    requires StateValid(layout, st) && st.pending != []
    requires Remaining(layout, e, st, depth).Some?
    ensures Remaining(layout, e, st, depth).value != []
    ensures Step(layout, e, st).0 == Some(Remaining(layout, e, st, depth).value[0])
    ensures Remaining(layout, e, Step(layout, e, st).1, depth) == Some(Remaining(layout, e, st, depth).value[1..])
  {
    var kids := ChildrenOf(e);
    var s, tail := st.pending[0], st.pending[1..];
    HeadTail(st.pending);
    ExpandCons(kids, s, tail, depth);
    var inside := ExpandInside(kids, s, depth).value;
    var rest := Expand(kids, tail, depth).value;
    var q := Expand(kids, PhysicalFrom(layout, st.next), depth).value;
    ExpandChildren(kids, s, depth);
    ExpandAppend(kids, kids(s), tail, depth);
    AppendAssociative([s] + inside, rest, q);
    AppendAssociative([s], inside, rest + q);
    AppendAssociative(inside, rest, q);
    ConsParts(s, inside + rest + q);
  }

  lemma StepPopsPhysical(layout: MetadataLayout, e: Extractor, st: IterState, depth: nat)
    requires StateValid(layout, st) && st.pending == [] && st.next.Some?
    requires Remaining(layout, e, st, depth).Some?
    ensures Remaining(layout, e, st, depth).value != []
    ensures Step(layout, e, st).0 == Some(Remaining(layout, e, st, depth).value[0])
    ensures Remaining(layout, e, Step(layout, e, st).1, depth) == Some(Remaining(layout, e, st, depth).value[1..])
  {
    var kids := ChildrenOf(e);
    var s := st.next.value;
    var after := PhysicalFrom(layout, NextSection(layout, s));
    PhysicalFromSuccessor(layout, s);
    ExpandPopsFirst(kids, s, after, depth);
    var inside := Expand(kids, kids(s), depth).value;
    var rest := Expand(kids, after, depth).value;
    EmptyAppend([s] + (inside + rest));
    ConsParts(s, inside + rest);
  }

  /** Expanding s followed by more: s, then its children expanded, then the rest expanded. */
  lemma ExpandPopsFirst<T>(kids: T -> seq<T>, s: T, after: seq<T>, depth: nat)
    requires Expand(kids, [s] + after, depth).Some?
    ensures Expand(kids, kids(s), depth).Some? && Expand(kids, after, depth).Some?
    ensures Expand(kids, [s] + after, depth).value
         == [s] + (Expand(kids, kids(s), depth).value + Expand(kids, after, depth).value)
  {
    ExpandCons(kids, s, after, depth);
    ExpandChildren(kids, s, depth);
    AppendAssociative([s], ExpandInside(kids, s, depth).value, Expand(kids, after, depth).value);
  }

  lemma HeadTail<T>(a: seq<T>)
    requires a != []
    ensures a == [a[0]] + a[1..]
  {
  }

  lemma ConsParts<T>(x: T, t: seq<T>)
    ensures ([x] + t)[0] == x && ([x] + t)[1..] == t
  {
  }

  lemma EmptyAppend<T>(t: seq<T>)
    ensures [] + t == t
  {
  }

  /**
   * The iterator yields exactly the pre-order expansion of its queue and then of the physical sections, and
   * is then drained, whenever that expansion is finite.
   */
  lemma {:induction false} IteratorYieldsPreOrder(layout: MetadataLayout, e: Extractor, st: IterState, depth: nat)
    requires StateValid(layout, st)
    requires Remaining(layout, e, st, depth).Some?
    ensures Run(layout, e, st, |Remaining(layout, e, st, depth).value|)
         == (Remaining(layout, e, st, depth).value, Drained)
    decreases |Remaining(layout, e, st, depth).value|
  {
    var all := Remaining(layout, e, st, depth).value;
    if all == [] {
      NothingRemainingIsDrained(layout, e, st, depth);
    } else {
      StepPopsRemaining(layout, e, st, depth);
      var st' := Step(layout, e, st).1;
      IteratorYieldsPreOrder(layout, e, st', depth);
      RunUnfold(layout, e, st, |all| - 1);
      HeadTail(all);
    }
  }

  /** Only a drained state has nothing left to yield. */
  lemma NothingRemainingIsDrained(layout: MetadataLayout, e: Extractor, st: IterState, depth: nat)
    requires StateValid(layout, st)
    requires Remaining(layout, e, st, depth) == Some([])
    ensures st == Drained
  {
    var p := Expand(ChildrenOf(e), st.pending, depth).value;
    var q := Expand(ChildrenOf(e), PhysicalFrom(layout, st.next), depth).value;
    assert |p + q| == |p| + |q|;
  }

  /** n + 1 calls of `next()`: the first call's section, then what n more calls yield. */
  lemma RunUnfold(layout: MetadataLayout, e: Extractor, st: IterState, n: nat)
    requires StateValid(layout, st) && st != Drained
    ensures Run(layout, e, st, n + 1)
         == ([Step(layout, e, st).0.value] + Run(layout, e, Step(layout, e, st).1, n).0, Run(layout, e, Step(layout, e, st).1, n).1)
  {
  }

  /** A drained iterator keeps yielding None. */
  lemma DrainedStaysDrained(layout: MetadataLayout, e: Extractor)
    ensures Step(layout, e, Drained) == (None, Drained)
  {
  }

  /**
   * With the null extractor the iterator yields exactly the physical sections of the file, in order,
   * encapsulation sections included but not opened.
   */
  lemma NullExtractorYieldsPhysicalSections(layout: MetadataLayout, start: Option<Section>)
    requires start.Some? ==> start.value.Valid(layout)
    ensures Run(layout, NullExtractor, IterState(start, []), |PhysicalFrom(layout, start)|)
         == (PhysicalFrom(layout, start), Drained)
  {
    NullExtractorRemaining(layout, start);
    IteratorYieldsPreOrder(layout, NullExtractor, IterState(start, []), 0);
  }

  /** With the null extractor, what remains to be yielded is the physical sections themselves. */
  lemma NullExtractorRemaining(layout: MetadataLayout, start: Option<Section>)
    requires start.Some? ==> start.value.Valid(layout)
    ensures Remaining(layout, NullExtractor, IterState(start, []), 0) == Some(PhysicalFrom(layout, start))
  {
    var phys := PhysicalFrom(layout, start);
    NullExtractorExpandsToItself(phys);
    NullExtractorExpandsToItself([]);
    EmptyAppend(phys);
  }

  /** The null extractor opens nothing, so any list of sections expands to itself. */
  lemma NullExtractorExpandsToItself(ss: seq<Section>)
    ensures Expand(ChildrenOf(NullExtractor), ss, 0) == Some(ss)
  {
    NullExtractorOpensNothing(ss);
    LeavesExpandToThemselves(ChildrenOf(NullExtractor), ss, 0);
  }

  lemma NullExtractorOpensNothing(ss: seq<Section>)
    ensures forall i | 0 <= i < |ss| :: ChildrenOf(NullExtractor)(ss[i]) == []
  {
  }

  /** `FfsSectionIterator`: the next physical section, the extractor, and the queue of extracted sections. */
  class SectionIterator {
    const layout: MetadataLayout
    const extractor: Extractor
    var nextSection: Option<Section>
    var pending: seq<Section>

    ghost predicate Valid()
      reads this
    {
      StateValid(layout, State())
    }

    function State(): IterState
      reads this
    {
      IterState(nextSection, pending)
    }

    /** `FfsSectionIterator::new`: the null extractor and an empty queue. */
    constructor (layout: MetadataLayout, start: Option<Section>)
      requires start.Some? ==> start.value.Valid(layout)
      ensures Valid() && State() == IterState(start, [])
      ensures this.layout == layout && extractor == NullExtractor
    {
      this.layout := layout;
      extractor := NullExtractor;
      nextSection := start;
      pending := [];
    }

    /** `FfsSectionIterator::new_with_extractor`. */
    constructor WithExtractor(layout: MetadataLayout, start: Option<Section>, extractor: Extractor)
      requires start.Some? ==> start.value.Valid(layout)
      ensures Valid() && State() == IterState(start, [])
      ensures this.layout == layout && this.extractor == extractor
    {
      this.layout := layout;
      this.extractor := extractor;
      nextSection := start;
      pending := [];
    }

    /** `next()`: pops the queue or advances along the physical sections, then queues extracted sections in front. */
    method Next() returns (r: Option<Section>)
      requires Valid()
      modifies this
      ensures Valid()
      ensures (r, State()) == Step(layout, extractor, old(State()))
    {
      var current: Section;
      if |pending| == 0 {
        if nextSection.None? {
          return None;
        }
        current := nextSection.value;
        nextSection := NextSection(layout, current);
      } else {
        current := pending[0];
        pending := pending[1..];
      }
      ghost var rest := pending;
      if IsEncapsulation(current) {
        var extracted := Extract(extractor, current);
        PushFront(extracted);
      } else {
        EmptyAppend(rest);
      }
      assert pending == Children(extractor, current) + rest;
      if rest == [] {
        AppendEmpty(Children(extractor, current));
      }
      r := Some(current);
    }

    /** The loop that pushes the extracted sections, last first, onto the front of the queue. */
    method PushFront(extracted: seq<Section>)
      modifies this
      ensures pending == extracted + old(pending)
      ensures nextSection == old(nextSection)
    {
      ghost var rest := pending;
      var i := |extracted|;
      while i > 0
        invariant 0 <= i <= |extracted|
        invariant pending == extracted[i..] + rest
        invariant nextSection == old(nextSection)
      {
        i := i - 1;
        pending := [extracted[i]] + pending;
        ConsDrop(extracted, i, rest);
      }
      WholeDrop(extracted);
    }
  }

  lemma AppendEmpty<T>(t: seq<T>)
    ensures t + [] == t
  {
  }

  lemma ConsDrop<T>(s: seq<T>, i: nat, rest: seq<T>)
    requires i < |s|
    ensures [s[i]] + (s[i + 1..] + rest) == s[i..] + rest
  {
  }

  lemma WholeDrop<T>(s: seq<T>)
    ensures s[0..] == s
  {
  }
}
