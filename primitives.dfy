/**
 * Fixed-width integers, little-endian field access over an immutable byte buffer,
 * and the `align_up` helper used to find the next file and the next section.
 */
module Primitives {

  const TWO_TO_THE_8: int := 0x100
  const TWO_TO_THE_16: int := 0x1_0000
  const TWO_TO_THE_32: int := 0x1_0000_0000
  const TWO_TO_THE_64: int := 0x1_0000_0000_0000_0000

  type uint8 = x: int | 0 <= x < 0x100
  type uint16 = x: int | 0 <= x < 0x1_0000
  type uint32 = x: int | 0 <= x < 0x1_0000_0000
  type uint64 = x: int | 0 <= x < 0x1_0000_0000_0000_0000

  /** A read-only byte buffer; every address of the firmware image is an offset into one. */
  type Bytes = seq<uint8>

  function LeUint16(data: Bytes, off: nat): (r: uint16)
    requires off + 2 <= |data|
  {
    data[off] as int + data[off + 1] as int * 0x100
  }

  /** The 3-byte size field of FFS file and section headers. */
  function LeUint24(data: Bytes, off: nat): (r: uint32)
    requires off + 3 <= |data|
    ensures r < 0x100_0000
  {
    data[off] as int + data[off + 1] as int * 0x100 + data[off + 2] as int * 0x1_0000
  }

  function LeUint32(data: Bytes, off: nat): (r: uint32)
    requires off + 4 <= |data|
  {
    LeUint16(data, off) + LeUint16(data, off + 2) * 0x1_0000
  }

  function LeUint64(data: Bytes, off: nat): (r: uint64)
    requires off + 8 <= |data|
  {
    LeUint32(data, off) + LeUint32(data, off + 4) * 0x1_0000_0000
  }

  /** The little-endian encodings of a 16-, 32- and 64-bit value. */
  function LeBytes16(v: uint16): (r: Bytes)
    ensures |r| == 2 && LeUint16(r, 0) == v
  {
    [v % 0x100, v / 0x100]
  }

  function LeBytes32(v: uint32): (r: Bytes)
    ensures |r| == 4 && LeUint32(r, 0) == v
  {
    var r := LeBytes16(v % 0x1_0000) + LeBytes16(v / 0x1_0000);
    assert LeUint16(r, 0) == LeUint16(LeBytes16(v % 0x1_0000), 0);
    assert LeUint16(r, 2) == LeUint16(LeBytes16(v / 0x1_0000), 0);
    r
  }

  function LeBytes64(v: uint64): (r: Bytes)
    ensures |r| == 8 && LeUint64(r, 0) == v
  {
    var r := LeBytes32(v % 0x1_0000_0000) + LeBytes32(v / 0x1_0000_0000);
    assert LeUint32(r, 0) == LeUint32(LeBytes32(v % 0x1_0000_0000), 0) by {
      assert LeUint16(r, 0) == LeUint16(LeBytes32(v % 0x1_0000_0000), 0);
      assert LeUint16(r, 2) == LeUint16(LeBytes32(v % 0x1_0000_0000), 2);
    }
    assert LeUint32(r, 4) == LeUint32(LeBytes32(v / 0x1_0000_0000), 0) by {
      assert LeUint16(r, 4) == LeUint16(LeBytes32(v / 0x1_0000_0000), 0);
      assert LeUint16(r, 6) == LeUint16(LeBytes32(v / 0x1_0000_0000), 2);
    }
    r
  }

  /** `data` with the bytes at `off` replaced by `bytes`: a field of the buffer written over. */
  function Overwrite(data: Bytes, off: nat, bytes: Bytes): (r: Bytes)
    requires off + |bytes| <= |data|
    ensures |r| == |data|
    ensures forall i | 0 <= i < |data| :: r[i] == if off <= i < off + |bytes| then bytes[i - off] else data[i]
  {
    data[..off] + bytes + data[off + |bytes|..]
  }

  /** Reading back the field just written gives the written value. */
  lemma {:induction false} OverwriteReadBack16(data: Bytes, off: nat, v: uint16)
    requires off + 2 <= |data|
    ensures LeUint16(Overwrite(data, off, LeBytes16(v)), off) == v
  {
    var r := Overwrite(data, off, LeBytes16(v));
    var e := LeBytes16(v);
    assert r[off] == e[0] && r[off + 1] == e[1];
  }

  lemma {:induction false} OverwriteReadBack32(data: Bytes, off: nat, v: uint32)
    requires off + 4 <= |data|
    ensures LeUint32(Overwrite(data, off, LeBytes32(v)), off) == v
  {
    var r := Overwrite(data, off, LeBytes32(v));
    var e := LeBytes32(v);
    assert r[off] == e[0] && r[off + 1] == e[1] && r[off + 2] == e[2] && r[off + 3] == e[3];
    assert LeUint16(r, off) == LeUint16(e, 0);
    assert LeUint16(r, off + 2) == LeUint16(e, 2);
  }

  lemma {:induction false} OverwriteReadBack64(data: Bytes, off: nat, v: uint64)
    requires off + 8 <= |data|
    ensures LeUint64(Overwrite(data, off, LeBytes64(v)), off) == v
  {
    var r := Overwrite(data, off, LeBytes64(v));
    var e := LeBytes64(v);
    forall k | 0 <= k < 8 ensures r[off + k] == e[k] { }
    assert LeUint16(r, off) == LeUint16(e, 0);
    assert LeUint16(r, off + 2) == LeUint16(e, 2);
    assert LeUint16(r, off + 4) == LeUint16(e, 4);
    assert LeUint16(r, off + 6) == LeUint16(e, 6);
  }

  /** The single-bit flag `flag` (a power of two) is set in x: the test `x & flag != 0`, written arithmetically. */
  predicate HasFlag(x: nat, flag: nat)
    requires flag > 0
  {
    (x / flag) % 2 == 1
  }

  /** `align_up(x, a)`: the least multiple of `a` that is at least `x`. */
  function AlignUp(x: nat, a: nat): (r: nat)
    requires a > 0
    ensures x <= r < x + a
    ensures r % a == 0
  {
    var q := (x + a - 1) / a;
    MultipleMod(q, a);
    q * a
  }

  lemma MultipleMod(q: nat, a: nat)
    requires a > 0
    ensures (q * a) % a == 0
  {
    var k, m := (q * a) / a, (q * a) % a;
    assert (q - k) * a == m by {
      assert q * a == k * a + m;
    }
    if q - k >= 1 {
      MulMonotoneInt(1, q - k, a);
    } else if q - k <= -1 {
      MulMonotoneInt(q - k, -1, a);
    }
  }

  lemma MulMonotoneInt(p: int, q: int, a: nat)
    requires p <= q
    ensures p * a <= q * a
  {
  }

  /** No multiple of `a` lies in [x, AlignUp(x, a)). */
  lemma {:induction false} AlignUpIsLeast(x: nat, a: nat, m: nat)
    requires a > 0
    requires x <= m && m % a == 0
    ensures AlignUp(x, a) <= m
  {
    var r := AlignUp(x, a);
    if m < r {
      // Both are multiples of a, so they are at least a apart; but r - a < x <= m.
      assert r % a == 0;
      var qm, qr := m / a, r / a;
      assert m == qm * a && r == qr * a;
      assert qm < qr by {
        if qm >= qr { MulMonotone(qr, qm, a); }
      }
      MulMonotone(qm + 1, qr, a);
      assert false;
    }
  }

  lemma MulMonotone(p: nat, q: nat, a: nat)
    requires p <= q
    ensures p * a <= q * a
  {
  }

  /** Intervals each ending at or before the start of the next are in order: each ends before every later one starts. */
  lemma {:induction false} ChainedIntervalsDisjoint(starts: seq<int>, ends: seq<int>, i: nat, j: nat)
    requires |starts| == |ends|
    requires forall k | 0 <= k < |starts| :: starts[k] <= ends[k]
    requires forall k, l | 0 <= k && l == k + 1 && l < |starts| :: ends[k] <= starts[l]
    requires i < j < |starts|
    ensures ends[i] <= starts[j]
    decreases j
  {
    if i < j - 1 {
      ChainedIntervalsDisjoint(starts, ends, i, j - 1);
      assert ends[j - 2] <= starts[j - 1];
    }
  }
}
