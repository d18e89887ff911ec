/**
 * The `hex_format` serde helpers: numbers are written as "0x" followed by lower-case hexadecimal digits,
 * and read back by stripping the "0x" prefix and parsing the rest in radix 16 at the field's width, with
 * the rules of Rust's `from_str_radix` for unsigned integers.
 */
module HexFormat {
  import opened Wrappers
  import opened Primitives

  /** The integer types that implement `FromStrRadix`; usize is taken as 64 bits wide. */
  datatype Width = U8 | U16 | U32 | U64 | Usize {
    /** One past the largest value of the type. */
    function Bound(): nat {
      match this
      case U8 => TWO_TO_THE_8
      case U16 => TWO_TO_THE_16
      case U32 => TWO_TO_THE_32
      case U64 => TWO_TO_THE_64
      case Usize => TWO_TO_THE_64
    }

    /** The error `from_str_radix_16` maps every parse failure to. */
    function InvalidMessage(): string {
      match this
      case U8 => "Invalid hex u8"
      case U16 => "Invalid hex u16"
      case U32 => "Invalid hex u32"
      case U64 => "Invalid hex u64"
      case Usize => "Invalid hex usize"
    }
  }

  const MISSING_PREFIX: string := "Missing '0x' prefix"
  const PREFIX: string := "0x"

  /** `char::to_digit(16)`: decimal digits, and the letters a-f in either case. */
  function DigitValue(c: char): (r: Option<nat>)
    ensures r.Some? ==> r.value < 16
  {
    if '0' <= c <= '9' then Some(c as nat - '0' as nat)
    else if 'a' <= c <= 'f' then Some(c as nat - 'a' as nat + 10)
    else if 'A' <= c <= 'F' then Some(c as nat - 'A' as nat + 10)
    else None
  }

  predicate IsHexDigit(c: char) {
    DigitValue(c).Some?
  }

  predicate AllHexDigits(s: string) {
    forall i | 0 <= i < |s| :: IsHexDigit(s[i])
  }

  /** The number a string of hex digits denotes, most significant digit first. */
  function DigitsValue(s: string): nat
    requires AllHexDigits(s)
  {
    if s == [] then 0
    else DigitsValue(s[..|s| - 1]) * 16 + DigitValue(s[|s| - 1]).value
  }

  /** The digit `{:x}` writes for a value below 16. */
  function HexChar(d: nat): (c: char)
    requires d < 16
    ensures DigitValue(c) == Some(d)
    ensures IsLowerHexDigit(c)
  {
    if d < 10 then ('0' as nat + d) as char else ('a' as nat + d - 10) as char
  }

  predicate IsLowerHexDigit(c: char) {
    '0' <= c <= '9' || 'a' <= c <= 'f'
  }

  /** `{:x}`: lower-case hex digits without leading zeros; zero is "0". */
  function ToHex(n: nat): (r: string)
    ensures |r| >= 1
    ensures forall i | 0 <= i < |r| :: IsLowerHexDigit(r[i])
    decreases n
  {
    if n < 16 then [HexChar(n)] else ToHex(n / 16) + [HexChar(n % 16)]
  }

  /** `serialize`: "0x" followed by the number in lower-case hex. */
  function Serialize(n: nat): (r: string)
    ensures |r| >= 3 && r[..2] == PREFIX && r[2..] == ToHex(n)
  {
    PREFIX + ToHex(n)
  }

  /**
   * `from_str_radix(src, 16)` for an unsigned type, with the error mapped to the width's message: the
   * input must be non-empty; one leading '+' is skipped (a '-' is not); what is left must be a non-empty
   * run of hex digits whose value fits the width.
   */
  function FromStrRadix16(w: Width, src: string): (r: Result<nat, string>)
    ensures r.Ok? ==> r.value < w.Bound()
    ensures r.Err? ==> r.error == w.InvalidMessage()
  {
    if src == [] then Err(w.InvalidMessage())
    else
      var digits := if src[0] == '+' then src[1..] else src;
      if digits == [] || !AllHexDigits(digits) then Err(w.InvalidMessage())
      else if DigitsValue(digits) >= w.Bound() then Err(w.InvalidMessage())
      else Ok(DigitsValue(digits))
  }

  /** `deserialize`: the "0x" prefix is required, then the rest is parsed at the field's width. */
  function Deserialize(w: Width, s: string): (r: Result<nat, string>)
    ensures r.Ok? ==> r.value < w.Bound()
    ensures !(|s| >= 2 && s[..2] == PREFIX) ==> r == Err(MISSING_PREFIX)
    ensures |s| >= 2 && s[..2] == PREFIX ==> r == FromStrRadix16(w, s[2..])
  {
    if |s| >= 2 && s[..2] == PREFIX then FromStrRadix16(w, s[2..]) else Err(MISSING_PREFIX)
  }

  // Properties.

  /** Reading back what `{:x}` writes gives the number. */
  lemma {:induction false} ToHexValue(n: nat)
    ensures AllHexDigits(ToHex(n))
    ensures DigitsValue(ToHex(n)) == n
    decreases n
  {
    var r := ToHex(n);
    assert AllHexDigits(r) by {
      forall i | 0 <= i < |r| ensures IsHexDigit(r[i]) {
        assert IsLowerHexDigit(r[i]);
      }
    }
    if n >= 16 {
      ToHexValue(n / 16);
      assert r[..|r| - 1] == ToHex(n / 16);
    }
  }

  /** `{:x}` writes no leading zero, except for zero itself. */
  lemma ToHexNoLeadingZero(n: nat)
    ensures ToHex(n)[0] == '0' <==> n == 0
    decreases n
  {
    if n >= 16 {
      ToHexNoLeadingZero(n / 16);
    }
  }

  /** `deserialize(serialize(n)) == n` at every width n fits in. */
  lemma RoundTrip(w: Width, n: nat)
    requires n < w.Bound()
    ensures Deserialize(w, Serialize(n)) == Ok(n)
  {
    ToHexValue(n);
    var digits := ToHex(n);
    assert digits[0] != '+' by { assert IsLowerHexDigit(digits[0]); }
  }

  /** A string that `{:x}` could have written: lower-case hex digits with no leading zero. */
  predicate Canonical(t: string) {
    && |t| >= 1
    && (forall i | 0 <= i < |t| :: IsLowerHexDigit(t[i]))
    && (t[0] == '0' ==> |t| == 1)
  }

  /** A canonical digit string is exactly what `{:x}` writes for its value. */
  lemma {:induction false} CanonicalIsToHex(t: string)
    requires Canonical(t)
    ensures AllHexDigits(t)
    ensures ToHex(DigitsValue(t)) == t
    decreases |t|
  {
    assert AllHexDigits(t) by {
      forall i | 0 <= i < |t| ensures IsHexDigit(t[i]) {
        assert IsLowerHexDigit(t[i]);
      }
    }
    var last := t[|t| - 1];
    LowerDigitRoundTrip(last);
    if |t| == 1 {
      assert t == [last];
    } else {
      var init := t[..|t| - 1];
      assert init[0] == t[0];
      assert Canonical(init);
      CanonicalIsToHex(init);
      LeadingDigitBound(init);
      var d := DigitValue(last).value;
      var v := DigitsValue(init) * 16 + d;
      assert v / 16 == DigitsValue(init) && v % 16 == d;
      assert t == init + [last];
    }
  }

  lemma LowerDigitRoundTrip(c: char)
    requires IsLowerHexDigit(c)
    ensures DigitValue(c).Some? && HexChar(DigitValue(c).value) == c
  {
  }

  /** A digit string whose first digit is non-zero denotes at least 1. */
  lemma {:induction false} LeadingDigitBound(t: string)
    requires |t| >= 1 && AllHexDigits(t) && DigitValue(t[0]).value >= 1
    ensures DigitsValue(t) >= 1
    decreases |t|
  {
    if |t| > 1 {
      var init := t[..|t| - 1];
      assert init[0] == t[0];
      LeadingDigitBound(init);
    }
  }

  /** Serializing what was read from a canonical "0x" string gives that string back. */
  lemma CanonicalRoundTrip(w: Width, s: string)
    requires |s| >= 3 && s[..2] == PREFIX && Canonical(s[2..])
    requires Deserialize(w, s).Ok?
    ensures Serialize(Deserialize(w, s).value) == s
  {
    var t := s[2..];
    CanonicalIsToHex(t);
    assert t[0] != '+' by { assert IsLowerHexDigit(t[0]); }
    assert s == PREFIX + t;
  }

  /** A number past the width is rejected with the width's message. */
  lemma OverflowRejected(w: Width, n: nat)
    requires n >= w.Bound()
    ensures Deserialize(w, Serialize(n)) == Err(w.InvalidMessage())
  {
    ToHexValue(n);
    var digits := ToHex(n);
    assert digits[0] != '+' by { assert IsLowerHexDigit(digits[0]); }
  }

  /** Every accepted string is "0x", an optional '+', and a non-empty run of hex digits. */
  lemma AcceptedShape(w: Width, s: string)
    requires Deserialize(w, s).Ok?
    ensures |s| >= 3 && s[..2] == PREFIX
    ensures var digits := if s[2] == '+' then s[3..] else s[2..];
      digits != [] && AllHexDigits(digits) && DigitsValue(digits) == Deserialize(w, s).value
  {
  }

  // The examples of the module's own tests and of the descriptor tests.

  /** Appending a digit multiplies the value by 16 and adds the digit. */
  lemma DigitsValueSnoc(t: string, c: char)
    requires AllHexDigits(t) && IsHexDigit(c)
    ensures AllHexDigits(t + [c])
    ensures DigitsValue(t + [c]) == DigitsValue(t) * 16 + DigitValue(c).value
  {
    assert (t + [c])[..|t|] == t;
  }

  /** `{:x}` of 16n + d, for n > 0, is that of n followed by the digit d. */
  lemma ToHexSnoc(n: nat, d: nat)
    requires n >= 1 && d < 16
    ensures ToHex(n * 16 + d) == ToHex(n) + [HexChar(d)]
  {
    var m := n * 16 + d;
    assert m / 16 == n && m % 16 == d;
  }

  /** The upper-case form of a hex digit. */
  function UpperDigit(c: char): (u: char)
    requires IsLowerHexDigit(c)
    ensures IsHexDigit(u) && DigitValue(u) == DigitValue(c)
  {
    if 'a' <= c <= 'f' then (c as nat - 'a' as nat + 'A' as nat) as char else c
  }

  /** Upper-case digits denote what the lower-case ones do. */
  lemma {:induction false} UpperCaseDigitsValue(t: string, u: string)
    requires forall i | 0 <= i < |t| :: IsLowerHexDigit(t[i])
    requires |u| == |t| && forall i | 0 <= i < |t| :: u[i] == UpperDigit(t[i])
    ensures AllHexDigits(t) && AllHexDigits(u)
    ensures DigitsValue(u) == DigitsValue(t)
    decreases |t|
  {
    assert AllHexDigits(t) by {
      forall i | 0 <= i < |t| ensures IsHexDigit(t[i]) {
        assert IsLowerHexDigit(t[i]);
      }
    }
    assert AllHexDigits(u) by {
      forall i | 0 <= i < |u| ensures IsHexDigit(u[i]) {
        assert u[i] == UpperDigit(t[i]);
      }
    }
    if t != [] {
      UpperCaseDigitsValue(t[..|t| - 1], u[..|u| - 1]);
    }
  }

  /** `deserialize` reads a number written with upper-case digits as the same number. */
  lemma UpperCaseAccepted(w: Width, n: nat, u: string)
    requires |u| == |ToHex(n)| && forall i | 0 <= i < |u| :: u[i] == UpperDigit(ToHex(n)[i])
    ensures Deserialize(w, PREFIX + u) == Deserialize(w, Serialize(n))
  {
    var t := ToHex(n);
    UpperCaseDigitsValue(t, u);
    PrefixSplit(u);
    assert u[0] != '+' by { assert u[0] == UpperDigit(t[0]); }
    assert t[0] != '+' by { assert IsLowerHexDigit(t[0]); }
  }

  // The examples of the module's own tests and of the descriptor tests.

  lemma SerializeExamples()
    ensures Serialize(0x1A2B3C) == "0x1a2b3c"
    ensures Serialize(0) == "0x0"
    ensures Serialize(0xFF) == "0xff"
  {
    ToHexSnoc(0x1, 0xA);
    ToHexSnoc(0x1A, 0x2);
    ToHexSnoc(0x1A2, 0xB);
    ToHexSnoc(0x1A2B, 0x3);
    ToHexSnoc(0x1A2B3, 0xC);
    ToHexSnoc(0xF, 0xF);
  }

  lemma MissingPrefixExample()
    ensures Deserialize(U32, "1a2b3c") == Err(MISSING_PREFIX)
  {
    assert "1a2b3c"[..2] != PREFIX by { assert "1a2b3c"[1] != PREFIX[1]; }
  }

  /** Upper-case digits are accepted: "0xDEADCFEE" reads as 3735932910. */
  lemma UpperCaseExample()
    ensures Deserialize(U32, "0xDEADCFEE") == Ok(0xDEADCFEE)
  {
    UpperCaseDigits();
    PrefixSplit("DEADCFEE");
    assert "0xDEADCFEE" == PREFIX + "DEADCFEE";
  }

  lemma UpperCaseDigits()
    ensures AllHexDigits("DEADCFEE") && DigitsValue("DEADCFEE") == 0xDEADCFEE
  {
    var t1 := ['D'];
    var t2 := t1 + ['E'];
    var t3 := t2 + ['A'];
    var t4 := t3 + ['D'];
    var t5 := t4 + ['C'];
    var t6 := t5 + ['F'];
    var t7 := t6 + ['E'];
    var t8 := t7 + ['E'];
    DigitsValueSnoc([], 'D');
    assert [] + ['D'] == t1;
    DigitsValueSnoc(t1, 'E');
    DigitsValueSnoc(t2, 'A');
    DigitsValueSnoc(t3, 'D');
    DigitsValueSnoc(t4, 'C');
    DigitsValueSnoc(t5, 'F');
    DigitsValueSnoc(t6, 'E');
    DigitsValueSnoc(t7, 'E');
    assert t8 == "DEADCFEE";
  }

  lemma PrefixSplit(u: string)
    ensures (PREFIX + u)[..2] == PREFIX && (PREFIX + u)[2..] == u
  {
  }

  /** `from_str_radix` skips one leading '+', so "0x+ff" reads as 255. */
  lemma PlusSignAccepted()
    ensures Deserialize(U8, "0x+ff") == Ok(0xFF)
  {
    var t1 := ['f'];
    var t2 := t1 + ['f'];
    DigitsValueSnoc([], 'f');
    assert [] + ['f'] == t1;
    DigitsValueSnoc(t1, 'f');
    var s := "0x+ff";
    assert s[..2] == PREFIX && s[2..] == ['+'] + t2;
  }

  /** A '-' sign, an empty number and a non-digit are all rejected. */
  lemma MalformedRejected()
    ensures Deserialize(U32, "0x-1") == Err(U32.InvalidMessage())
    ensures Deserialize(U32, "0x") == Err(U32.InvalidMessage())
    ensures Deserialize(U32, "0x+") == Err(U32.InvalidMessage())
    ensures Deserialize(U32, "0xfg") == Err(U32.InvalidMessage())
  {
    assert "0x-1"[..2] == PREFIX && "0x-1"[2..] == "-1" && !IsHexDigit("-1"[0]);
    assert "0x"[..2] == PREFIX && "0x"[2..] == [];
    assert "0x+"[..2] == PREFIX && "0x+"[2..] == "+" && "+"[1..] == [];
    assert "0xfg"[..2] == PREFIX && "0xfg"[2..] == "fg" && !IsHexDigit("fg"[1]);
  }
}
