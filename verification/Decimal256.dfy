// 256-bit decimals: the hand-written two's-complement negation on big-endian bytes, and its inverse.
module Decimal256 {
  import opened Arithmetic
  import opened Wrappers

  // Bytes of an i256.
  const WIDTH: nat := 32

  type Byte = x: int | 0 <= x < 256

  function Pow256(n: nat): (p: nat)
    ensures p > 0
  {
    if n == 0 then 1 else 256 * Pow256(n - 1)
  }

  // The unsigned big-endian value.
  function BE(s: seq<Byte>): nat {
    if s == [] then 0 else 256 * BE(s[..|s| - 1]) + s[|s| - 1]
  }

  function Modulus(): int { Pow256(WIDTH) }
  function Half(): int { 128 * Pow256(WIDTH - 1) }

  lemma TwoHalves()
    ensures Modulus() == 2 * Half() && Half() > 0
  {
  }

  // The two's-complement value of 32 bytes.
  function Signed(s: seq<Byte>): int
    requires |s| == WIDTH
  {
    if s[0] >= 128 then BE(s) - Modulus() else BE(s)
  }

  // A leading digit against the place it stands in.
  lemma Digit(d: int, p: int, rest: int)
    requires 0 <= rest < p
    ensures d <= 255 ==> d * p + rest < 256 * p
    ensures d >= 128 ==> d * p + rest >= 128 * p
    ensures d <= 127 ==> d * p + rest < 128 * p
    ensures d >= 1 ==> d * p + rest >= p
    ensures d <= -1 ==> d * p + rest < 0
  {
    if d <= 255 { MulMonotone(d, 255, p); }
    if d >= 128 { MulMonotone(128, d, p); }
    if d <= 127 { MulMonotone(d, 127, p); }
    if d >= 1 { MulMonotone(1, d, p); }
    if d <= -1 { MulMonotone(d, -1, p); }
  }

  lemma {:induction false} BEBound(s: seq<Byte>)
    ensures BE(s) < Pow256(|s|)
  {
    if s != [] { BEBound(s[..|s| - 1]); }
  }

  lemma {:induction false} BEInjective(s: seq<Byte>, t: seq<Byte>)
    requires |s| == |t| && BE(s) == BE(t)
    ensures s == t
  {
    if s != [] {
      var n := |s| - 1;
      BEInjective(s[..n], t[..n]);
      assert s == s[..n] + [s[n]] && t == t[..n] + [t[n]];
    }
  }

  lemma {:induction false} Prepend(b: Byte, s: seq<Byte>)
    ensures BE([b] + s) == b * Pow256(|s|) + BE(s)
  {
    var t, n := [b] + s, |s|;
    if n == 0 {
      assert t[..0] == [];
    } else {
      Prepend(b, s[..n - 1]);
      assert t[..n] == [b] + s[..n - 1];
      Assoc(b, Pow256(n - 1));
    }
  }

  lemma Assoc(b: int, p: int)
    ensures 256 * (b * p) == b * (256 * p)
  {
  }

  // Exactly the integers from -2^255 up to, not including, 2^255 are denoted, each by one byte string.
  lemma SignedRange(s: seq<Byte>)
    requires |s| == WIDTH
    ensures -Half() <= Signed(s) < Half()
    ensures s[0] >= 128 <==> Signed(s) < 0
    ensures s[0] >= 128 <==> BE(s) >= Half()
    ensures Half() > 0
    ensures BE(s) < Modulus()
  {
    assert s == [s[0]] + s[1..];
    Prepend(s[0], s[1..]);
    BEBound(s[1..]);
    Digit(s[0], Pow256(WIDTH - 1), BE(s[1..]));
  }

  lemma SignedInjective(s: seq<Byte>, t: seq<Byte>)
    requires |s| == |t| == WIDTH && Signed(s) == Signed(t)
    ensures s == t
  {
    SignedRange(s);
    SignedRange(t);
    BEInjective(s, t);
  }

  // ---- Decoding ----

  datatype BigDecimal = BigDecimal(digits: int, scale: int)

  datatype Sign = Minus | NoSign | Plus

  // What the big-integer library makes of a sign and a magnitude.
  function FromBytesBE(sign: Sign, magnitude: seq<Byte>): int {
    var n: int := BE(magnitude);
    match sign case Minus => -n case NoSign => 0 case Plus => n
  }

  // A suffix inverted so far, with the one that is still to be added to the bytes before it.
  ghost predicate Negated(abs: seq<Byte>, bytes: seq<Byte>, carry: bool) {
    var p := Pow256(|bytes|);
    |abs| == |bytes| && BE(abs) + (if carry then p else 0) == p - BE(bytes)
  }

  // The byte written, and whether the one is still to be added.
  function NegatedByte(b: Byte, carry: bool): (Byte, bool) {
    if !carry then (255 - b, false) else if b == 0 then (0, true) else (256 - b, false)
  }

  lemma NegateByte(abs: seq<Byte>, bytes: seq<Byte>, carry: bool, b: Byte)
    requires Negated(abs, bytes, carry)
    ensures var (x, c) := NegatedByte(b, carry); Negated([x] + abs, [b] + bytes, c)
  {
    var p := Pow256(|bytes|);
    var (x, c) := NegatedByte(b, carry);
    Prepend(x, abs);
    Prepend(b, bytes);
    SumTimes(x, b, if !carry then 255 else if b == 0 then 0 else 256, p);
  }

  lemma SumTimes(x: int, b: int, k: int, p: int)
    requires x + b == k
    ensures x * p + b * p == k * p
  {
  }

  // A negative value is not zero, so the one has found its place.
  lemma NegatedWhole(abs: seq<Byte>, bytes: seq<Byte>, carry: bool)
    requires Negated(abs, bytes, carry) && |bytes| == WIDTH && bytes[0] >= 128
    ensures BE(abs) == Pow256(|bytes|) - BE(bytes)
  {
    SignedRange(bytes);
  }

  // Invert every byte and add one, from the last byte to the first.
  method Negate(bytes: seq<Byte>) returns (magnitude: seq<Byte>)
    requires |bytes| == WIDTH && bytes[0] >= 128
    ensures BE(magnitude) == Pow256(|bytes|) - BE(bytes)
  {
    var absBytes := new Byte[WIDTH](_ => 0);
    var carry := true;
    var i := WIDTH;
    while i > 0
      invariant 0 <= i <= WIDTH
      invariant Negated(absBytes[i..], bytes[i..], carry)
    {
      ghost var done := absBytes[i..];
      ghost var (x, c) := NegatedByte(bytes[i - 1], carry);
      NegateByte(done, bytes[i..], carry, bytes[i - 1]);
      i := i - 1;
      absBytes[i] := 255 - bytes[i];
      if carry {
        if absBytes[i] == 255 {
          absBytes[i] := 0;
        } else {
          absBytes[i] := absBytes[i] + 1;
          carry := false;
        }
      }
      assert absBytes[i] == x && carry == c;
      assert absBytes[i..] == [x] + done;
      assert bytes[i..] == [bytes[i]] + bytes[i + 1..];
    }
    magnitude := absBytes[..];
    assert absBytes[0..] == magnitude && bytes[0..] == bytes;
    NegatedWhole(magnitude, bytes, carry);
  }

  lemma {:induction false} LeadingZeros(s: seq<Byte>, n: nat)
    requires n <= |s| && forall j :: 0 <= j < n ==> s[j] == 0
    ensures BE(s) == BE(s[n..])
    decreases |s|
  {
    var m := |s| - 1;
    if n == |s| > 0 {
      LeadingZeros(s[..m], m);
    } else if n < |s| {
      LeadingZeros(s[..m], n);
      assert s[n..][..m - n] == s[..m][n..];
    }
  }

  method FirstNonzero(bytes: seq<Byte>) returns (n: nat)
    requires |bytes| == WIDTH
    ensures n < WIDTH
    ensures BE(bytes[n..]) == BE(bytes)
    ensures bytes[n] != 0 || BE(bytes) == 0
  {
    n := 0;
    while n < WIDTH
      invariant n <= WIDTH
      invariant forall j :: 0 <= j < n ==> bytes[j] == 0
    {
      if bytes[n] != 0 {
        LeadingZeros(bytes, n);
        return;
      }
      n := n + 1;
    }
    n := WIDTH - 1;
    LeadingZeros(bytes, WIDTH - 1);
    LeadingZeros(bytes, WIDTH);
  }

  // Every i256 decodes to the same integer, the smallest one included; the scale is kept.
  method Decimal256ToValue(bytes: seq<Byte>, scale: int) returns (r: BigDecimal)
    requires |bytes| == WIDTH
    ensures r == BigDecimal(Signed(bytes), scale)
  {
    var digits;
    if bytes[0] >= 128 {
      var magnitude := Negate(bytes);
      digits := FromBytesBE(Minus, magnitude);
    } else if forall j :: 0 <= j < WIDTH ==> bytes[j] == 0 {
      LeadingZeros(bytes, WIDTH);
      digits := FromBytesBE(NoSign, [0]);
    } else {
      var first := FirstNonzero(bytes);
      digits := FromBytesBE(Plus, bytes[first..]);
    }
    r := BigDecimal(digits, scale);
  }

  // ---- Encoding ----

  // The shortest big-endian form of a magnitude, as the library gives it.
  function MagBytes(n: nat): seq<Byte> {
    if n < 256 then [n] else MagBytes(n / 256) + [n % 256]
  }

  lemma {:induction false} MagBytesFacts(n: nat)
    ensures BE(MagBytes(n)) == n && |MagBytes(n)| > 0 && n < Pow256(|MagBytes(n)|)
    ensures |MagBytes(n)| > 1 ==> n >= Pow256(|MagBytes(n)| - 1)
  {
    if n < 256 {
      assert [n][..0] == [];
    } else {
      var most := MagBytes(n / 256);
      MagBytesFacts(n / 256);
      assert (most + [n % 256])[..|most|] == most;
    }
  }

  lemma {:induction false} PowMonotone(m: nat, n: nat)
    requires m <= n
    ensures Pow256(m) <= Pow256(n)
  {
    if m < n { PowMonotone(m, n - 1); }
  }

  lemma FitsIffBelow(n: nat, length: nat, width: nat)
    requires n < Pow256(length) && length > 0 && (length > 1 ==> n >= Pow256(length - 1)) && width > 0
    ensures length <= width <==> n < Pow256(width)
  {
    if length <= width {
      PowMonotone(length, width);
    } else {
      PowMonotone(width, length - 1);
    }
  }

  // The i256 value that differs from v by a multiple of 2^256, for magnitudes below 2^256.
  function Wrap(v: int): int {
    if v >= Half() then v - Modulus() else if v < -Half() then v + Modulus() else v
  }

  function WrappingNeg(x: int): int {
    if x == -Half() then x else -x
  }

  function ToI256(v: int): Option<int> {
    if -Modulus() < v < Modulus() then Some(Wrap(v)) else None
  }

  // The 32 bytes of a magnitude read as a signed value, then negated for a negative v.
  lemma WrapMagnitude(buf: seq<Byte>, v: int)
    requires |buf| == WIDTH && BE(buf) == if v < 0 then -v else v
    ensures ToI256(v) == Some(if v < 0 then WrappingNeg(Signed(buf)) else Signed(buf))
  {
    SignedRange(buf);
    WrapArithmetic(BE(buf), v, Modulus(), Half());
  }

  lemma WrapArithmetic(n: int, v: int, m: int, h: int)
    requires m == 2 * h && 0 <= n < m && n == if v < 0 then -v else v
    ensures var val := if n >= h then n - m else n;
            (if v < 0 then (if val == -h then val else -val) else val) ==
            (if v >= h then v - m else if v < -h then v + m else v)
  {
  }

  // The magnitude, right aligned in a zeroed buffer.
  method Pad(bytes: seq<Byte>) returns (padded: seq<Byte>)
    requires |bytes| <= WIDTH
    ensures |padded| == WIDTH && BE(padded) == BE(bytes)
  {
    var buf := new Byte[WIDTH](_ => 0);
    var start := WIDTH - |bytes|;
    var n := 0;
    while n < |bytes|
      invariant 0 <= n <= |bytes|
      invariant forall j :: 0 <= j < start ==> buf[j] == 0
      invariant forall j :: 0 <= j < n ==> buf[start + j] == bytes[j]
    {
      buf[start + n] := bytes[n];
      n := n + 1;
    }
    padded := buf[..];
    assert padded[start..] == bytes;
    LeadingZeros(padded, start);
  }

  method ToBytesBE(v: int) returns (magnitude: nat, bytes: seq<Byte>)
    ensures magnitude == (if v < 0 then -v else v) && BE(bytes) == magnitude
    ensures bytes != [] && magnitude < Pow256(|bytes|)
    ensures |bytes| > 1 ==> magnitude >= Pow256(|bytes| - 1)
  {
    magnitude := if v < 0 then -v else v;
    bytes := MagBytes(magnitude);
    MagBytesFacts(magnitude);
  }

  method BigintToI256(v: int) returns (r: Option<int>)
    ensures r == ToI256(v)
  {
    var magnitude, bytes := ToBytesBE(v);
    FitsIffBelow(magnitude, |bytes|, WIDTH);
    if |bytes| > WIDTH {
      return None;
    }
    var buf := Pad(bytes);
    WrapMagnitude(buf, v);
    var val := Signed(buf);
    r := Some(if v < 0 then WrappingNeg(val) else val);
  }

  // ---- What encoding returns ----

  // Encoding differs from its input by a multiple of 2^256, it is the only i256 value that does, and it
  // is the input itself exactly on the i256 range: from there up to 2^256 it silently wraps around.
  lemma EncodeIsTheResidue(v: int, x: int, k: int)
    ensures ToI256(v).Some? <==> -Modulus() < v < Modulus()
    ensures ToI256(v).Some? ==>
      && -Half() <= ToI256(v).value < Half()
      && ToI256(v).value - v in {-Modulus(), 0, Modulus()}
    ensures ToI256(v).Some? && -Half() <= x < Half() && x == v + k * Modulus() ==> x == ToI256(v).value
    ensures ToI256(v) == Some(v) <==> -Half() <= v < Half()
  {
    TwoHalves();
    if ToI256(v).Some? && -Half() <= x < Half() && x == v + k * Modulus() {
      OnlyMultiple(x - v, k, Modulus());
    }
  }

  lemma OnlyMultiple(d: int, k: int, m: int)
    requires d == k * m && -2 * m < d < 2 * m
    ensures d in {-m, 0, m}
  {
    assert (k - 2) * m == d - 2 * m && (k + 2) * m == d + 2 * m;
    assert k < 2 && k > -2;
  }

  lemma PowStep(n: nat)
    ensures Pow256(n + 4) == 0x1_0000_0000 * Pow256(n)
  {
    assert Pow256(n + 4) == 256 * Pow256(n + 3) && Pow256(n + 3) == 256 * Pow256(n + 2);
    assert Pow256(n + 2) == 256 * Pow256(n + 1) && Pow256(n + 1) == 256 * Pow256(n);
  }

  lemma SixteenBytes()
    ensures Pow256(16) == 0x1_0000_0000_0000_0000_0000_0000_0000_0000
  {
    PowStep(0);
    PowStep(4);
    PowStep(8);
    PowStep(12);
  }

  // Every 128-bit integer is an i256.
  lemma HoldsI128()
    ensures Half() > 0x1_0000_0000_0000_0000_0000_0000_0000_0000
  {
    SixteenBytes();
    PowMonotone(16, WIDTH - 1);
  }

  // Decoding and encoding again is the identity on every i256.
  lemma DecodeEncode(bytes: seq<Byte>, again: seq<Byte>)
    requires |bytes| == |again| == WIDTH
    ensures ToI256(Signed(bytes)) == Some(Signed(bytes))
    ensures Some(Signed(again)) == ToI256(Signed(bytes)) ==> again == bytes
  {
    SignedRange(bytes);
    EncodeIsTheResidue(Signed(bytes), 0, 0);
    if Signed(again) == Signed(bytes) { SignedInjective(again, bytes); }
  }

  // 2^255 encodes without an error, as -2^255.
  lemma WrapsAtHalf()
    ensures ToI256(Half()) == Some(-Half())
  {
    TwoHalves();
  }
}
