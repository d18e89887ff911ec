/**
 * The helpers of the serializable HOB view: `format_guid`, and the `Interval` operations on memory
 * allocation and resource descriptors, up to `merge_intervals`, which sorts a list of descriptors and
 * coalesces the ones that overlap or touch.
 */
module Serializable {
  import opened Primitives
  import opened Wrappers
  import opened Guids
  import opened HexFormat
  import opened SerializableHob

  // GUID formatting.

  function Pow16(w: nat): (p: nat)
    ensures p >= 1
  {
    if w == 0 then 1 else 16 * Pow16(w - 1)
  }

  lemma Pow16Widths()
    ensures Pow16(2) == TWO_TO_THE_8
    ensures Pow16(4) == TWO_TO_THE_16
    ensures Pow16(8) == TWO_TO_THE_32
  {
    assert Pow16(1) == 16;
    assert Pow16(2) == 256;
    assert Pow16(3) == 4096;
    assert Pow16(4) == 65536;
    assert Pow16(5) == 1048576;
    assert Pow16(6) == 16777216;
    assert Pow16(7) == 268435456;
  }

  /** `{:0wx}`: exactly `w` lower-case hex digits, zero-padded on the left. */
  function PaddedHex(n: nat, w: nat): (r: string)
    ensures |r| == w
    ensures forall i | 0 <= i < |r| :: IsLowerHexDigit(r[i])
  {
    if w == 0 then [] else PaddedHex(n / 16, w - 1) + [HexChar(n % 16)]
  }

  /** A number below 16^w reads back from its `w` padded digits. */
  lemma {:induction false} PaddedHexValue(n: nat, w: nat)
    ensures AllHexDigits(PaddedHex(n, w))
    ensures n < Pow16(w) ==> DigitsValue(PaddedHex(n, w)) == n
  {
    var r := PaddedHex(n, w);
    forall i | 0 <= i < |r| ensures IsHexDigit(r[i]) {
      assert IsLowerHexDigit(r[i]);
    }
    if w > 0 {
      PaddedHexValue(n / 16, w - 1);
      DigitsValueSnoc(PaddedHex(n / 16, w - 1), HexChar(n % 16));
    }
  }

  /** A run of `w` hex digits denotes a number below 16^w. */
  lemma {:induction false} DigitsValueBound(t: string)
    requires AllHexDigits(t)
    ensures DigitsValue(t) < Pow16(|t|)
    decreases |t|
  {
    if t != [] {
      DigitsValueBound(t[..|t| - 1]);
    }
  }

  /** Reads `w` hex digits off the front of `s`: the inverse of `Hex`. */
  function TakeHex(s: string, w: nat): (r: Option<(nat, string)>)
    ensures r.Some? ==> r.value.0 < Pow16(w) && |r.value.1| + w == |s|
  {
    if |s| >= w && AllHexDigits(s[..w]) then
      DigitsValueBound(s[..w]);
      Some((DigitsValue(s[..w]), s[w..]))
    else None
  }

  /** Reads a '-' off the front of `s`: the inverse of `Dash`. */
  function TakeDash(s: string): (r: Option<string>)
    ensures r.Some? ==> |r.value| + 1 == |s|
  {
    if |s| >= 1 && s[0] == '-' then Some(s[1..]) else None
  }

  /** Only lower-case hex digits. */
  predicate LowerHexRun(s: string) {
    forall i | 0 <= i < |s| :: IsLowerHexDigit(s[i])
  }

  /** `w` padded digits of `n` in front of `rest`. */
  function Hex(n: nat, w: nat, rest: string): (r: string)
    ensures |r| == w + |rest|
    ensures LowerHexRun(r[..w]) && r[w..] == rest
    ensures n < Pow16(w) ==> TakeHex(r, w) == Some((n, rest))
  {
    PaddedHexValue(n, w);
    var r := PaddedHex(n, w) + rest;
    assert r[..w] == PaddedHex(n, w) && r[w..] == rest;
    r
  }

  /** A '-' in front of `rest`. */
  function Dash(rest: string): (r: string)
    ensures |r| == 1 + |rest|
    ensures r[0] == '-' && r[1..] == rest
    ensures TakeDash(r) == Some(rest)
  {
    var r := "-" + rest;
    assert r[1..] == rest;
    r
  }

  /** `format_guid`: the 8-4-4-4-12 form, lower-case, the first three fields as numbers and the rest byte by byte. */
  function FormatGuid(g: Guid): (r: string)
    ensures |r| == 36
  {
    Hex(g.timeLow, 8, Dash(
    Hex(g.timeMid, 4, Dash(
    Hex(g.timeHiAndVersion, 4, Dash(
    ClockAndNodeHex(g.clockSeqHighAndReserved, g.clockSeqLow, g.node)))))))
  }

  /** The last two groups: the two clock-sequence bytes, a '-', and the six node bytes. */
  function ClockAndNodeHex(high: uint8, low: uint8, node: Node): (r: string)
    ensures |r| == 17
  {
    Hex(high, 2, Hex(low, 2, Dash(NodeHex(node))))
  }

  /** The six node bytes, two digits each. */
  function NodeHex(node: Node): (r: string)
    ensures |r| == 12
  {
    Hex(node[0], 2, Hex(node[1], 2, Hex(node[2], 2, Hex(node[3], 2, Hex(node[4], 2, Hex(node[5], 2, ""))))))
  }

  /** Reads a two-digit byte off the front of `s`. */
  function TakeByte(s: string): (r: Option<(uint8, string)>) {
    var t :- TakeHex(s, 2);
    Pow16Widths();
    Some((t.0, t.1))
  }

  /** Reads four digits off the front of `s`. */
  function TakeUint16(s: string): (r: Option<(uint16, string)>) {
    var t :- TakeHex(s, 4);
    Pow16Widths();
    Some((t.0, t.1))
  }

  /** Reads eight digits off the front of `s`. */
  function TakeUint32(s: string): (r: Option<(uint32, string)>) {
    var t :- TakeHex(s, 8);
    Pow16Widths();
    Some((t.0, t.1))
  }

  /** Reads the twelve digits of the node, byte by byte. */
  function TakeNode(s: string): (r: Option<(Node, string)>) {
    var n0 :- TakeByte(s);
    var n1 :- TakeByte(n0.1);
    var n2 :- TakeByte(n1.1);
    var n3 :- TakeByte(n2.1);
    var n4 :- TakeByte(n3.1);
    var n5 :- TakeByte(n4.1);
    Some(([n0.0, n1.0, n2.0, n3.0, n4.0, n5.0], n5.1))
  }

  /** Reads a GUID in the 8-4-4-4-12 form; hex digits of either case are accepted. */
  function ParseGuid(s: string): (r: Option<Guid>) {
    var timeLow :- TakeUint32(s);
    var s1 :- TakeDash(timeLow.1);
    var timeMid :- TakeUint16(s1);
    var s2 :- TakeDash(timeMid.1);
    var timeHi :- TakeUint16(s2);
    var s3 :- TakeDash(timeHi.1);
    var clockHi :- TakeByte(s3);
    var clockLow :- TakeByte(clockHi.1);
    var s4 :- TakeDash(clockLow.1);
    var node :- TakeNode(s4);
    if node.1 != [] then None
    else Some(Guid(timeLow.0, timeMid.0, timeHi.0, clockHi.0, clockLow.0, node.0))
  }

  /** Reading back the formatted GUID gives the GUID: `format_guid` loses nothing. */
  lemma FormatGuidRoundTrip(g: Guid)
    ensures ParseGuid(FormatGuid(g)) == Some(g)
  {
    Pow16Widths();
    assert [g.node[0], g.node[1], g.node[2], g.node[3], g.node[4], g.node[5]] == g.node;
  }

  /** Values shorter than their field are padded with leading zeros. */
  lemma PaddedHexExamples()
    ensures PaddedHex(0xa, 2) == "0a"
    ensures PaddedHex(0x4f1c, 4) == "4f1c"
    ensures PaddedHex(0x12, 8) == "00000012"
  {
    assert PaddedHex(0, 1) == "0";
    assert PaddedHex(0x4, 1) == "4";
    assert PaddedHex(0x4f, 2) == "4f";
    assert PaddedHex(0x4f1, 3) == "4f1";
    assert PaddedHex(0, 2) == "00";
    assert PaddedHex(0, 3) == "000";
    assert PaddedHex(0, 4) == "0000";
    assert PaddedHex(0, 5) == "00000";
    assert PaddedHex(0, 6) == "000000";
    assert PaddedHex(0x1, 7) == "0000001";
  }

  /** The 8-4-4-4-12 layout: lower-case hex digits in five groups, with a '-' at 8, 13, 18 and 23. */
  lemma FormatGuidShape(g: Guid)
    ensures var r := FormatGuid(g);
            && LowerHexRun(r[..8]) && r[8] == '-'
            && LowerHexRun(r[9..13]) && r[13] == '-'
            && LowerHexRun(r[14..18]) && r[18] == '-'
            && LowerHexRun(r[19..23]) && r[23] == '-'
            && LowerHexRun(r[24..])
  {
    var x5 := NodeHex(g.node);
    var x4 := ClockAndNodeHex(g.clockSeqHighAndReserved, g.clockSeqLow, g.node);
    ClockAndNodeShape(g.clockSeqHighAndReserved, g.clockSeqLow, g.node);
    var x3 := Hex(g.timeHiAndVersion, 4, Dash(x4));
    var x2 := Hex(g.timeMid, 4, Dash(x3));
    var r := Hex(g.timeLow, 8, Dash(x2));
    assert r == FormatGuid(g);
    GroupAt(r, 9, 4, x2, Dash(x3));
    GroupAt(r, 14, 4, x3, Dash(x4));
    GroupAt(r, 19, 4, x4, Dash(x5));
    GroupAt(r, 24, 0, x5, x5);
  }

  lemma ClockAndNodeShape(high: uint8, low: uint8, node: Node)
    ensures var r := ClockAndNodeHex(high, low, node);
            LowerHexRun(r[..4]) && r[4..] == Dash(NodeHex(node)) && LowerHexRun(NodeHex(node))
  {
    var r := ClockAndNodeHex(high, low, node);
    HexPrefixRun(high, 2, Hex(low, 2, Dash(NodeHex(node))), 2);
    DropDrop(r, 2, 2);
    NodeShape(node);
  }

  lemma NodeShape(node: Node)
    ensures LowerHexRun(NodeHex(node))
  {
    var n := node;
    HexPrefixRun(n[5], 2, "", 0);
    HexPrefixRun(n[4], 2, Hex(n[5], 2, ""), 2);
    HexPrefixRun(n[3], 2, Hex(n[4], 2, Hex(n[5], 2, "")), 4);
    HexPrefixRun(n[2], 2, Hex(n[3], 2, Hex(n[4], 2, Hex(n[5], 2, ""))), 6);
    HexPrefixRun(n[1], 2, Hex(n[2], 2, Hex(n[3], 2, Hex(n[4], 2, Hex(n[5], 2, "")))), 8);
    HexPrefixRun(n[0], 2, Hex(n[1], 2, Hex(n[2], 2, Hex(n[3], 2, Hex(n[4], 2, Hex(n[5], 2, ""))))), 10);
    assert NodeHex(node)[..12] == NodeHex(node);
  }

  /** Digits in front of a run of lower-case digits extend the run. */
  lemma HexPrefixRun(n: nat, w: nat, rest: string, k: nat)
    requires k <= |rest| && LowerHexRun(rest[..k])
    ensures LowerHexRun(Hex(n, w, rest)[..w + k])
  {
    var r := Hex(n, w, rest);
    forall i | 0 <= i < w + k ensures IsLowerHexDigit(r[i]) {
      if i < w {
        assert r[i] == r[..w][i];
      } else {
        assert r[i] == r[w..][i - w] == rest[..k][i - w];
      }
    }
  }

  /** A group behind a '-': its digits, and what follows it, sit at the same place in the whole string. */
  lemma GroupAt(s: string, at: nat, w: nat, group: string, rest: string)
    requires 1 <= at && at + w <= |s|
    requires s[at - 1..] == Dash(group)
    requires LowerHexRun(group[..w]) && group[w..] == rest
    ensures s[at - 1] == '-' && LowerHexRun(s[at..at + w]) && s[at + w..] == rest
  {
    DropDrop(s, at - 1, 1);
    DropDrop(s, at, w);
    assert s[at..at + w] == group[..w];
  }

  lemma DropDrop<T>(s: seq<T>, a: nat, b: nat)
    requires a + b <= |s|
    ensures s[a..][b..] == s[a + b..]
  {
  }

  /** Two GUIDs format alike only when they are equal. */
  lemma FormatGuidInjective(g: Guid, h: Guid)
    requires FormatGuid(g) == FormatGuid(h)
    ensures g == h
  {
    FormatGuidRoundTrip(g);
    FormatGuidRoundTrip(h);
  }

  // Intervals.

  /** `length()`: the end minus the start, which is the descriptor's own length field. */
  function Length(d: Descriptor): (r: nat)
    ensures r == if d.MemAlloc? then d.memoryLength else d.resourceLength
  {
    d.End() - d.Start()
  }

  /** The point `p` lies in the half-open interval [start, end). */
  predicate Within(p: int, d: Descriptor) {
    d.Start() <= p < d.End()
  }

  /** `contains()`. */
  predicate Contains(a: Descriptor, b: Descriptor) {
    a.Start() <= b.Start() && a.End() >= b.End()
  }

  /** `overlaps()`. */
  predicate Overlaps(a: Descriptor, b: Descriptor) {
    a.Start() < b.End() && b.Start() < a.End()
  }

  /** `adjacent()`. */
  predicate Adjacent(a: Descriptor, b: Descriptor) {
    a.End() == b.Start() || b.End() == a.Start()
  }

  /**
   * `try_merge()`: the merge when the intervals overlap or touch; nothing when a gap of at least one
   * address separates them.
   */
  function TryMerge(a: Descriptor, b: Descriptor): (r: Option<Descriptor>)
    requires a.EndFits() && b.EndFits()
    ensures r.None? <==> a.End() < b.Start() || b.End() < a.Start()
    ensures r.Some? ==> r.value == Merge(a, b)
  {
    if Overlaps(a, b) || Adjacent(a, b) then Some(Merge(a, b)) else None
  }

  /** Two non-empty intervals overlap exactly when some address lies in both. */
  lemma OverlapsIffCommonPoint(a: Descriptor, b: Descriptor)
    requires a.Start() < a.End() && b.Start() < b.End()
    ensures Overlaps(a, b) <==> exists p :: Within(p, a) && Within(p, b)
  {
    if Overlaps(a, b) {
      var p := if a.Start() <= b.Start() then b.Start() else a.Start();
      assert Within(p, a) && Within(p, b);
    }
  }

  /** Overlapping and touching do not depend on the operand order. */
  lemma OverlapsAdjacentSymmetric(a: Descriptor, b: Descriptor)
    ensures Overlaps(a, b) == Overlaps(b, a)
    ensures Adjacent(a, b) == Adjacent(b, a)
  {
  }

  /** Intervals are half-open: one that ends where the other starts touches it without overlapping. */
  lemma TouchingIntervalsDoNotOverlap(a: Descriptor, b: Descriptor)
    requires a.End() == b.Start()
    ensures !Overlaps(a, b) && Adjacent(a, b)
  {
  }

  /** For a non-empty `b`, `contains()` holds exactly when every address of `b` lies in `a`. */
  lemma ContainsIffEveryPoint(a: Descriptor, b: Descriptor)
    requires b.Start() < b.End()
    ensures Contains(a, b) <==> forall p :: Within(p, b) ==> Within(p, a)
  {
    if forall p :: Within(p, b) ==> Within(p, a) {
      assert Within(b.Start(), b);
      assert Within(b.End() - 1, b);
    }
  }

  /** A successful `try_merge()` covers exactly the addresses of its two operands. */
  lemma TryMergeLossless(a: Descriptor, b: Descriptor, p: int)
    requires a.EndFits() && b.EndFits()
    requires TryMerge(a, b).Some?
    ensures Within(p, TryMerge(a, b).value) <==> Within(p, a) || Within(p, b)
  {
  }

  // Sorting, as `slice::sort` does it with `cmp()`.

  /** No descriptor is greater than the next one. */
  predicate Sorted(xs: seq<Descriptor>) {
    forall i | 0 <= i < |xs| - 1 :: Cmp(xs[i], xs[i + 1]) != Greater
  }

  lemma ConsSorted(x: Descriptor, l: seq<Descriptor>)
    requires Sorted(l)
    requires l != [] ==> Cmp(x, l[0]) != Greater
    ensures Sorted([x] + l)
  {
    var r := [x] + l;
    forall i | 0 <= i < |r| - 1 ensures Cmp(r[i], r[i + 1]) != Greater {
      if i > 0 {
        assert r[i] == l[i - 1] && r[i + 1] == l[i];
      }
    }
  }

  lemma TailSorted(l: seq<Descriptor>)
    requires l != [] && Sorted(l)
    ensures Sorted(l[1..])
  {
    var t := l[1..];
    forall i | 0 <= i < |t| - 1 ensures Cmp(t[i], t[i + 1]) != Greater {
      assert t[i] == l[i + 1] && t[i + 1] == l[i + 2];
    }
  }

  /** Puts `x` into the sorted `l` after every element that is not greater than it. */
  function Insert(x: Descriptor, l: seq<Descriptor>): (r: seq<Descriptor>)
    requires Sorted(l)
    ensures Sorted(r)
    ensures multiset(r) == multiset(l) + multiset{x}
    ensures |r| == |l| + 1
    ensures r[0] == x || (l != [] && r[0] == l[0])
  {
    if l == [] || Cmp(x, l[0]) == Less then
      ConsSorted(x, l);
      [x] + l
    else
      CmpReverse(x, l[0]);
      TailSorted(l);
      var rest := Insert(x, l[1..]);
      ConsSorted(l[0], rest);
      assert l == [l[0]] + l[1..];
      [l[0]] + rest
  }

  /** The sorted permutation of `xs`, built by inserting its elements in input order, each after the equal ones already placed. */
  function Sort(xs: seq<Descriptor>): (r: seq<Descriptor>)
    ensures Sorted(r)
    ensures multiset(r) == multiset(xs)
    ensures |r| == |xs|
  {
    if xs == [] then []
    else
      assert xs == xs[..|xs| - 1] + [xs[|xs| - 1]];
      Insert(xs[|xs| - 1], Sort(xs[..|xs| - 1]))
  }

  /** In a sorted list nothing is greater than the last element. */
  lemma {:induction false} SortedBelowLast(l: seq<Descriptor>, x: Descriptor, i: nat)
    requires Sorted(l) && l != [] && Cmp(l[|l| - 1], x) != Greater && i < |l|
    ensures Cmp(l[i], x) != Greater
    decreases |l| - i
  {
    if i < |l| - 1 {
      SortedBelowLast(l, x, i + 1);
      CmpTransitive(l[i], l[i + 1], x);
    }
  }

  /** An element no smaller than the whole sorted list goes at its end. */
  lemma {:induction false} InsertAfterAll(x: Descriptor, l: seq<Descriptor>)
    requires Sorted(l) && (l != [] ==> Cmp(l[|l| - 1], x) != Greater)
    ensures Insert(x, l) == l + [x]
  {
    if l != [] {
      SortedBelowLast(l, x, 0);
      CmpReverse(l[0], x);
      TailSorted(l);
      if |l| > 1 {
        assert l[1..][|l| - 2] == l[|l| - 1];
      }
      InsertAfterAll(x, l[1..]);
      assert l == [l[0]] + l[1..];
    }
  }

  /** Sorting a sorted list changes nothing. */
  lemma {:induction false} SortKeepsSorted(xs: seq<Descriptor>)
    requires Sorted(xs)
    ensures Sort(xs) == xs
  {
    if xs != [] {
      var init := xs[..|xs| - 1];
      assert Sorted(init) by {
        forall i | 0 <= i < |init| - 1 ensures Cmp(init[i], init[i + 1]) != Greater {
          assert init[i] == xs[i] && init[i + 1] == xs[i + 1];
        }
      }
      SortKeepsSorted(init);
      if |xs| > 1 {
        assert init[|init| - 1] == xs[|xs| - 2];
      }
      InsertAfterAll(xs[|xs| - 1], init);
      assert init + [xs[|xs| - 1]] == xs;
    }
  }

  /** Every end fits in u64. */
  predicate AllEndFit(xs: seq<Descriptor>) {
    forall i | 0 <= i < |xs| :: xs[i].EndFits()
  }

  /** Every descriptor is a resource descriptor. */
  predicate AllResource(xs: seq<Descriptor>) {
    forall i | 0 <= i < |xs| :: xs[i].Resource?
  }

  lemma InPermutation(xs: seq<Descriptor>, ys: seq<Descriptor>, i: nat) returns (j: nat)
    requires multiset(xs) == multiset(ys) && i < |ys|
    ensures j < |xs| && xs[j] == ys[i]
  {
    assert ys[i] in multiset(ys);
    assert ys[i] in xs;
    j :| j < |xs| && xs[j] == ys[i];
  }

  lemma PermutationKeepsKinds(xs: seq<Descriptor>, ys: seq<Descriptor>)
    requires multiset(xs) == multiset(ys)
    ensures AllEndFit(xs) ==> AllEndFit(ys)
    ensures AllResource(xs) ==> AllResource(ys)
  {
    forall i | 0 <= i < |ys| ensures exists j | 0 <= j < |xs| :: xs[j] == ys[i] {
      var j := InPermutation(xs, ys, i);
    }
  }

  // `merge_intervals`.

  /** One step of the loop: `cur` merges into the last result, or is pushed after it. */
  function Absorb(acc: seq<Descriptor>, cur: Descriptor): (r: seq<Descriptor>)
    requires acc != [] && AllEndFit(acc) && cur.EndFits()
    ensures r != [] && AllEndFit(r) && |acc| <= |r| <= |acc| + 1
  {
    match TryMerge(acc[|acc| - 1], cur)
    case Some(m) => acc[..|acc| - 1] + [m]
    case None => acc + [cur]
  }

  /** The result after the loop has seen the first `n` sorted descriptors. */
  function Coalesced(sorted: seq<Descriptor>, n: nat): (r: seq<Descriptor>)
    requires 1 <= n <= |sorted| && AllEndFit(sorted)
    ensures r != [] && |r| <= n && AllEndFit(r)
  {
    if n == 1 then [sorted[0]] else Absorb(Coalesced(sorted, n - 1), sorted[n - 1])
  }

  /** What `merge_intervals` returns: nothing for no input, else the sorted input coalesced. */
  function MergedIntervals(xs: seq<Descriptor>): (r: seq<Descriptor>)
    requires AllEndFit(xs)
    ensures r == [] <==> xs == []
    ensures |r| <= |xs|
    ensures AllEndFit(r)
  {
    if xs == [] then []
    else
      var sorted := Sort(xs);
      PermutationKeepsKinds(xs, sorted);
      Coalesced(sorted, |sorted|)
  }

  /** `merge_intervals`: sort, then merge each descriptor into the last result when they overlap or touch. */
  method MergeIntervals(intervals: seq<Descriptor>) returns (result: seq<Descriptor>)
    requires AllEndFit(intervals)
    ensures result == MergedIntervals(intervals)
  {
    if |intervals| == 0 {
      return [];
    }
    var sorted := Sort(intervals);
    PermutationKeepsKinds(intervals, sorted);
    result := [sorted[0]];
    for i := 1 to |sorted|
      invariant result == Coalesced(sorted, i)
    {
      var last := result[|result| - 1];
      var merged := TryMerge(last, sorted[i]);
      if merged.Some? {
        result := result[..|result| - 1] + [merged.value];
      } else {
        result := result + [sorted[i]];
      }
    }
  }

  // What the merged list covers.

  /** Some descriptor of `ds` holds the address `p`. */
  predicate Covers(ds: seq<Descriptor>, p: int) {
    exists i | 0 <= i < |ds| :: Within(p, ds[i])
  }

  lemma CoversAppend(a: seq<Descriptor>, b: seq<Descriptor>, p: int)
    ensures Covers(a + b, p) <==> Covers(a, p) || Covers(b, p)
  {
    var ab := a + b;
    if Covers(ab, p) {
      var i :| 0 <= i < |ab| && Within(p, ab[i]);
      if i < |a| {
        assert a[i] == ab[i];
      } else {
        assert b[i - |a|] == ab[i];
      }
    }
    if Covers(a, p) {
      var i :| 0 <= i < |a| && Within(p, a[i]);
      assert ab[i] == a[i];
    }
    if Covers(b, p) {
      var i :| 0 <= i < |b| && Within(p, b[i]);
      assert ab[|a| + i] == b[i];
    }
  }

  lemma CoversSingleton(d: Descriptor, p: int)
    ensures Covers([d], p) <==> Within(p, d)
  {
    if Within(p, d) {
      assert [d][0] == d;
    }
  }

  lemma AbsorbCovers(acc: seq<Descriptor>, cur: Descriptor, p: int)
    requires acc != [] && AllEndFit(acc) && cur.EndFits()
    ensures Covers(Absorb(acc, cur), p) <==> Covers(acc, p) || Within(p, cur)
  {
    var k := |acc| - 1;
    CoversSingleton(cur, p);
    CoversAppend(acc, [cur], p);
    match TryMerge(acc[k], cur)
    case Some(m) =>
      assert acc == acc[..k] + [acc[k]];
      CoversAppend(acc[..k], [acc[k]], p);
      CoversAppend(acc[..k], [m], p);
      CoversSingleton(acc[k], p);
      CoversSingleton(m, p);
      TryMergeLossless(acc[k], cur, p);
    case None =>
  }

  lemma {:induction false} CoalescedCovers(sorted: seq<Descriptor>, n: nat, p: int)
    requires 1 <= n <= |sorted| && AllEndFit(sorted)
    ensures Covers(Coalesced(sorted, n), p) <==> Covers(sorted[..n], p)
  {
    assert sorted[..n] == sorted[..n - 1] + [sorted[n - 1]];
    CoversAppend(sorted[..n - 1], [sorted[n - 1]], p);
    CoversSingleton(sorted[n - 1], p);
    if n == 1 {
      assert sorted[..n - 1] == [];
    } else {
      CoalescedCovers(sorted, n - 1, p);
      AbsorbCovers(Coalesced(sorted, n - 1), sorted[n - 1], p);
    }
  }

  lemma PermutationCovers(xs: seq<Descriptor>, ys: seq<Descriptor>, p: int)
    requires multiset(xs) == multiset(ys)
    ensures Covers(xs, p) <==> Covers(ys, p)
  {
    if Covers(ys, p) {
      var i :| 0 <= i < |ys| && Within(p, ys[i]);
      var j := InPermutation(xs, ys, i);
    }
    if Covers(xs, p) {
      var i :| 0 <= i < |xs| && Within(p, xs[i]);
      var j := InPermutation(ys, xs, i);
    }
  }

  /** `merge_intervals` loses no address and adds none: its result covers exactly what its input covers. */
  lemma MergedIntervalsCoverInput(xs: seq<Descriptor>, p: int)
    requires AllEndFit(xs)
    ensures Covers(MergedIntervals(xs), p) <==> Covers(xs, p)
  {
    if xs != [] {
      var sorted := Sort(xs);
      PermutationKeepsKinds(xs, sorted);
      CoalescedCovers(sorted, |sorted|, p);
      assert sorted[..|sorted|] == sorted;
      PermutationCovers(xs, sorted, p);
    }
  }

  // Each input inside one output.

  /** Some descriptor of `ds` contains `x`. */
  predicate ContainedIn(x: Descriptor, ds: seq<Descriptor>) {
    exists j | 0 <= j < |ds| :: Contains(ds[j], x)
  }

  lemma AbsorbKeepsContained(acc: seq<Descriptor>, cur: Descriptor, x: Descriptor)
    requires acc != [] && AllEndFit(acc) && cur.EndFits()
    requires ContainedIn(x, acc)
    ensures ContainedIn(x, Absorb(acc, cur))
  {
    var k := |acc| - 1;
    var r := Absorb(acc, cur);
    var j :| 0 <= j < |acc| && Contains(acc[j], x);
    match TryMerge(acc[k], cur)
    case Some(m) =>
      if j < k {
        assert r[j] == acc[j];
      } else {
        MergeContainsBoth(acc[k], cur);
        assert r[k] == m;
      }
    case None =>
      assert r[j] == acc[j];
  }

  lemma AbsorbContainsCurrent(acc: seq<Descriptor>, cur: Descriptor)
    requires acc != [] && AllEndFit(acc) && cur.EndFits()
    ensures ContainedIn(cur, Absorb(acc, cur))
  {
    var k := |acc| - 1;
    var r := Absorb(acc, cur);
    match TryMerge(acc[k], cur)
    case Some(m) =>
      MergeContainsBoth(acc[k], cur);
      assert r[k] == m;
    case None =>
      assert r[k + 1] == cur;
  }

  lemma {:induction false} CoalescedContains(sorted: seq<Descriptor>, n: nat, i: nat)
    requires 1 <= n <= |sorted| && AllEndFit(sorted) && i < n
    ensures ContainedIn(sorted[i], Coalesced(sorted, n))
  {
    if n == 1 {
      assert Coalesced(sorted, n)[0] == sorted[0];
    } else if i == n - 1 {
      AbsorbContainsCurrent(Coalesced(sorted, n - 1), sorted[n - 1]);
    } else {
      CoalescedContains(sorted, n - 1, i);
      AbsorbKeepsContained(Coalesced(sorted, n - 1), sorted[n - 1], sorted[i]);
    }
  }

  /** Every input descriptor lies inside one descriptor of the result. */
  lemma MergedIntervalsContainInputs(xs: seq<Descriptor>, i: nat)
    requires AllEndFit(xs) && i < |xs|
    ensures ContainedIn(xs[i], MergedIntervals(xs))
  {
    var sorted := Sort(xs);
    PermutationKeepsKinds(xs, sorted);
    var j := InPermutation(sorted, xs, i);
    CoalescedContains(sorted, |sorted|, j);
  }

  // Resource descriptors come out apart and in order.

  /** A gap of at least one address lies between each descriptor and the next. */
  predicate Separated(ds: seq<Descriptor>) {
    forall k | 0 <= k < |ds| - 1 :: ds[k].End() < ds[k + 1].Start()
  }

  lemma AbsorbSeparated(acc: seq<Descriptor>, cur: Descriptor)
    requires acc != [] && AllEndFit(acc) && cur.EndFits()
    requires Separated(acc) && acc[|acc| - 1].Start() <= cur.Start()
    ensures Separated(Absorb(acc, cur))
    ensures Absorb(acc, cur)[|Absorb(acc, cur)| - 1].Start() <= cur.Start()
  {
    var k := |acc| - 1;
    var r := Absorb(acc, cur);
    match TryMerge(acc[k], cur)
    case Some(m) =>
      assert m.Start() == acc[k].Start();
      forall j | 0 <= j < |r| - 1 ensures r[j].End() < r[j + 1].Start() {
        assert r[j] == acc[j];
        if j + 1 < k {
          assert r[j + 1] == acc[j + 1];
        }
      }
    case None =>
      assert acc[k].End() < cur.Start();
      forall j | 0 <= j < |r| - 1 ensures r[j].End() < r[j + 1].Start() {
        assert r[j] == acc[j];
      }
  }

  lemma {:induction false} CoalescedSeparated(sorted: seq<Descriptor>, n: nat)
    requires 1 <= n <= |sorted| && AllEndFit(sorted)
    requires Sorted(sorted) && AllResource(sorted)
    ensures Separated(Coalesced(sorted, n))
    ensures Coalesced(sorted, n)[|Coalesced(sorted, n)| - 1].Start() <= sorted[n - 1].Start()
  {
    if n > 1 {
      CoalescedSeparated(sorted, n - 1);
      ResourceCmpOrdersStarts(sorted[n - 2], sorted[n - 1]);
      AbsorbSeparated(Coalesced(sorted, n - 1), sorted[n - 1]);
    }
  }

  /**
   * Resource descriptors are ordered by start, so their merged list is in increasing order of start with
   * a gap between each descriptor and the next: nothing is left to merge.
   */
  lemma MergedResourcesSeparated(xs: seq<Descriptor>)
    requires AllEndFit(xs) && AllResource(xs)
    ensures Separated(MergedIntervals(xs))
    ensures var r := MergedIntervals(xs);
            forall k | 0 <= k < |r| - 1 :: !Overlaps(r[k], r[k + 1]) && !Adjacent(r[k], r[k + 1])
  {
    if xs != [] {
      var sorted := Sort(xs);
      PermutationKeepsKinds(xs, sorted);
      CoalescedSeparated(sorted, |sorted|);
    }
  }

  /** No descriptor overlaps or touches the next one, so `try_merge()` refuses every neighbouring pair. */
  predicate NeighboursApart(xs: seq<Descriptor>) {
    forall k | 0 <= k < |xs| - 1 :: xs[k].End() < xs[k + 1].Start() || xs[k + 1].End() < xs[k].Start()
  }

  /** When neighbours are apart the loop pushes every descriptor: nothing is merged. */
  lemma {:induction false} CoalescedApart(sorted: seq<Descriptor>, n: nat)
    requires 1 <= n <= |sorted| && AllEndFit(sorted) && NeighboursApart(sorted)
    ensures Coalesced(sorted, n) == sorted[..n]
  {
    TakeSnoc(sorted, n);
    if n > 1 {
      CoalescedApart(sorted, n - 1);
      AbsorbApart(sorted[..n - 1], sorted[n - 1]);
    }
  }

  lemma AbsorbApart(acc: seq<Descriptor>, cur: Descriptor)
    requires acc != [] && AllEndFit(acc) && cur.EndFits()
    requires acc[|acc| - 1].End() < cur.Start() || cur.End() < acc[|acc| - 1].Start()
    ensures Absorb(acc, cur) == acc + [cur]
  {
  }

  lemma TakeSnoc<T>(s: seq<T>, n: nat)
    requires 1 <= n <= |s|
    ensures s[..n] == s[..n - 1] + [s[n - 1]]
    ensures n >= 2 ==> s[..n - 1][n - 2] == s[n - 2]
  {
  }

  lemma {:induction false} CoalescedResources(sorted: seq<Descriptor>, n: nat)
    requires 1 <= n <= |sorted| && AllEndFit(sorted) && AllResource(sorted)
    ensures AllResource(Coalesced(sorted, n))
  {
    if n > 1 {
      CoalescedResources(sorted, n - 1);
      var acc := Coalesced(sorted, n - 1);
      var r := Absorb(acc, sorted[n - 1]);
      forall i | 0 <= i < |r| ensures r[i].Resource? {
        if i < |acc| - 1 {
          assert r[i] == acc[i];
        }
      }
    }
  }

  /** For resource descriptors `merge_intervals` is idempotent: its result is already merged. */
  lemma MergedResourcesIdempotent(xs: seq<Descriptor>)
    requires AllEndFit(xs) && AllResource(xs)
    ensures MergedIntervals(MergedIntervals(xs)) == MergedIntervals(xs)
  {
    var r := MergedIntervals(xs);
    if xs != [] {
      var sorted := Sort(xs);
      PermutationKeepsKinds(xs, sorted);
      CoalescedResources(sorted, |sorted|);
      MergedResourcesSeparated(xs);
      assert Sorted(r) by {
        forall k | 0 <= k < |r| - 1 ensures Cmp(r[k], r[k + 1]) != Greater {
          assert r[k].Start() < r[k + 1].Start();
        }
      }
      SortKeepsSorted(r);
      CoalescedApart(r, |r|);
      assert r[..|r|] == r;
    }
  }

  /** Three memory allocations in name order: "a" at [0, 10), "b" at [100, 110) and "c" at [5, 15). */
  const NAME_ORDERED_ALLOCS: seq<Descriptor> :=
    [MemAlloc("a", 0, 10, 0), MemAlloc("b", 100, 10, 0), MemAlloc("c", 5, 10, 0)]

  /**
   * Memory allocation descriptors sort by name, so `merge_intervals` only merges neighbours in name
   * order: "a" and "c" overlap, but "b" sorts between them, and all three come out unmerged.
   */
  lemma MergedMemAllocsCanOverlap()
    ensures var xs := NAME_ORDERED_ALLOCS;
            AllEndFit(xs) && MergedIntervals(xs) == xs && Overlaps(xs[0], xs[2])
  {
    NameOrderedAllocsApart();
    NameOrderedAllocsSorted();
    MergedApartSorted(NAME_ORDERED_ALLOCS);
  }

  /** A sorted list whose neighbours are apart comes out of `merge_intervals` unchanged. */
  lemma MergedApartSorted(xs: seq<Descriptor>)
    requires xs != [] && AllEndFit(xs) && NeighboursApart(xs) && Sort(xs) == xs
    ensures MergedIntervals(xs) == xs
  {
    CoalescedApart(xs, |xs|);
    assert xs[..|xs|] == xs;
  }

  lemma NameOrderedAllocsApart()
    ensures var xs := NAME_ORDERED_ALLOCS;
            |xs| == 3 && AllEndFit(xs) && NeighboursApart(xs) && Overlaps(xs[0], xs[2])
  {
  }

  lemma NameOrderedAllocsSorted()
    ensures Sort(NAME_ORDERED_ALLOCS) == NAME_ORDERED_ALLOCS
  {
    var xs := NAME_ORDERED_ALLOCS;
    NamesInOrder();
    CmpReverse(xs[1], xs[0]);
    CmpReverse(xs[2], xs[1]);
    SortKeepsSorted(xs);
  }

  lemma NamesInOrder()
    ensures var xs := NAME_ORDERED_ALLOCS;
            Cmp(xs[1], xs[0]) == Greater && Cmp(xs[2], xs[1]) == Greater
  {
    assert CompareStrings("b", "a") == Greater;
    assert CompareStrings("c", "b") == Greater;
  }
}
