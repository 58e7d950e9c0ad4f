// Rescaling decimals to the scale of an Arrow column, in 128-bit arithmetic.
module DecimalScale {
  import opened Arithmetic
  import opened Wrappers
  import I256 = Decimal256

  const TWO_96: int := 0x1_0000_0000_0000_0000_0000_0000
  const TWO_127: int := 0x8000_0000_0000_0000_0000_0000_0000_0000

  predicate FitsI128(x: int) { -TWO_127 <= x < TWO_127 }

  function Pow10(k: nat): (p: int)
    ensures p >= 1
  {
    if k == 0 then 1 else 10 * Pow10(k - 1)
  }

  // A rust_decimal value, or an arbitrary precision one.
  datatype Value = Decimal(mantissa: int, scale: int) | BigDecimal(digits: int, exponent: int)

  // rust_decimal's own bounds.
  predicate ValidDecimal(v: Value) {
    v.Decimal? ==> -TWO_96 < v.mantissa < TWO_96 && 0 <= v.scale <= 28
  }

  // The unbounded rescaling of the big decimal library.
  function WithScale(digits: int, from: int, to: int): int {
    if to >= from then digits * Pow10(to - from) else TruncDiv(digits, Pow10(from - to))
  }

  // The i128 expression: None is an arithmetic overflow, in the i8 difference of the scales, in the
  // power of ten or in the product. It panics in a build with overflow checks; a build without them
  // would go on with the low bits, which is not modelled.
  function Rescale(mantissa: int, from: int, to: int): Option<int> {
    var diff := to - from;
    if !(-128 < diff < 128) then None
    else if !FitsI128(Pow10(if diff >= 0 then diff else -diff)) then None
    else
      var r := if diff >= 0 then mantissa * Pow10(diff) else TruncDiv(mantissa, Pow10(-diff));
      if FitsI128(r) then Some(r) else None
  }

  // An extracted cell: a value too wide for the column becomes null.
  datatype Cell = Overflow | Null | Number(n: int)

  function ExtractDecimal64(v: Value, target: int): Cell {
    match v
    case Decimal(m, s) =>
      (match Rescale(m, s, target)
       case None => Overflow
       case Some(r) => if FitsI64(r) then Number(r) else Null)
    case BigDecimal(m, s) =>
      var r := WithScale(m, s, target); if FitsI64(r) then Number(r) else Null
  }

  function ExtractDecimal128(v: Value, target: int): Cell {
    match v
    case Decimal(m, s) =>
      (match Rescale(m, s, target) case None => Overflow case Some(r) => Number(r))
    case BigDecimal(m, s) =>
      var r := WithScale(m, s, target); if FitsI128(r) then Number(r) else Null
  }

  // A 256-bit cell: a big decimal is rescaled without bounds and then encoded, a decimal in 128 bits.
  function ExtractDecimal256(v: Value, target: int): Cell {
    match v
    case Decimal(m, s) =>
      (match Rescale(m, s, target) case None => Overflow case Some(r) => Number(r))
    case BigDecimal(m, s) =>
      (match I256.ToI256(WithScale(m, s, target)) case None => Null case Some(r) => Number(r))
  }

  // Decoding a 128-bit cell: what rust_decimal cannot hold becomes a big decimal.
  function Decimal128ToValue(value: int, precision: nat, scale: int): Value {
    if precision > 28 || scale > 28 || scale < 0 then BigDecimal(value, scale) else Decimal(value, scale)
  }

  function Decimal64ToValue(value: int, scale: int): Value {
    if scale < 0 then BigDecimal(value, scale) else Decimal(value, scale)
  }

  // ---- Powers and truncation ----

  lemma {:induction false} PowAdd(a: nat, b: nat)
    ensures Pow10(a + b) == Pow10(a) * Pow10(b)
  {
    if a > 0 {
      PowAdd(a - 1, b);
      assert 10 * (Pow10(a - 1) * Pow10(b)) == (10 * Pow10(a - 1)) * Pow10(b);
    }
  }

  lemma {:induction false} PowMonotone(a: nat, b: nat)
    requires a <= b
    ensures Pow10(a) <= Pow10(b)
  {
    if a < b { PowMonotone(a, b - 1); }
  }

  // ---- The properties ----

  predicate NeverOverflows(k: nat, mantissa: int, from: int) {
    Rescale(mantissa, from, from + k) == Some(mantissa * Pow10(k))
  }

  // Ten to the ninth is the largest factor that overflows for no mantissa of 96 bits.
  lemma UpscaleBound(k: nat)
    ensures k <= 9 <==> forall m, from: int :: -TWO_96 < m < TWO_96 ==> NeverOverflows(k, m, from)
  {
    if k <= 9 {
      PowMonotone(k, 9);
      SmallPowers();
      forall m, from: int | -TWO_96 < m < TWO_96 ensures NeverOverflows(k, m, from) {
        MulMonotone(m, TWO_96, Pow10(k));
        MulMonotone(-TWO_96, m, Pow10(k));
      }
    } else {
      PowMonotone(10, k);
      SmallPowers();
      MulMonotone(10_000_000_000, Pow10(k), TWO_96 - 1);
      assert !NeverOverflows(k, TWO_96 - 1, 0);
    }
  }

  lemma SmallPowers()
    ensures Pow10(9) == 1_000_000_000 && Pow10(10) == 10_000_000_000
    ensures Pow10(28) == 10_000_000_000_000_000_000_000_000_000
  {
    PowAdd(9, 9);
    PowAdd(18, 10);
  }

  lemma BigPowers()
    ensures Pow10(38) == 100_000_000_000_000_000_000_000_000_000_000_000_000
    ensures Pow10(39) == 1_000_000_000_000_000_000_000_000_000_000_000_000_000
  {
    SmallPowers();
    PowAdd(28, 10);
    PowAdd(28, 9);
    PowAdd(37, 2);
  }

  // Where 128 bits are enough: at most 38 digits apart, and the rescaled number fits.
  predicate InReach(m: int, from: int, to: int) {
    -38 <= to - from <= 38 && -TWO_127 <= WithScale(m, from, to) < TWO_127
  }

  // For every decimal and every scale an Arrow column can have, the i128 form overflows exactly out of
  // reach, and within reach it is the unbounded rescaling.
  lemma RescaleIsWithScale(m: int, from: int, to: int)
    requires ValidDecimal(Decimal(m, from)) && -128 <= to < 128
    ensures Rescale(m, from, to) == if InReach(m, from, to) then Some(WithScale(m, from, to)) else None
  {
    var k := if to >= from then to - from else from - to;
    BigPowers();
    if k <= 38 { PowMonotone(k, 38); } else { PowMonotone(39, k); }
  }

  // So a decimal and the equal big decimal are extracted alike, at 64, 128 and 256 bits, exactly within
  // reach: out of reach the big decimal becomes a number or a null and the decimal overflows.
  lemma ExtractedAlike(m: int, from: int, to: int)
    requires ValidDecimal(Decimal(m, from)) && -128 <= to < 128
    ensures ExtractDecimal64(Decimal(m, from), to) == ExtractDecimal64(BigDecimal(m, from), to)
            <==> InReach(m, from, to)
    ensures ExtractDecimal128(Decimal(m, from), to) == ExtractDecimal128(BigDecimal(m, from), to)
            <==> InReach(m, from, to)
    ensures ExtractDecimal256(Decimal(m, from), to) == ExtractDecimal256(BigDecimal(m, from), to)
            <==> InReach(m, from, to)
  {
    RescaleIsWithScale(m, from, to);
    I256.HoldsI128();
    if InReach(m, from, to) {
      I256.EncodeIsTheResidue(WithScale(m, from, to), 0, 0);
    }
  }

  // The smallest decimal of scale 28 overflows under scale -11, although the rescaled number is 0; and
  // 2^95 overflows under scale 10, at 39 digits.
  lemma DecimalsOutOfReach()
    ensures WithScale(1, 28, -11) == 0 && ExtractDecimal128(Decimal(1, 28), -11) == Overflow
    ensures ValidDecimal(Decimal(TWO_96 / 2, 0)) && ExtractDecimal128(Decimal(TWO_96 / 2, 0), 10) == Overflow
  {
    BigPowers();
    SmallPowers();
    RescaleIsWithScale(1, 28, -11);
  }

  // Upscaling keeps the exact rational value digits / 10^scale. The shift clears negative scales.
  lemma UpscaleIsExact(m: int, from: int, to: int, shift: nat)
    requires from <= to && from + shift >= 0
    ensures WithScale(m, from, to) * Pow10(from + shift) == m * Pow10(to + shift)
  {
    PowAdd(to - from, from + shift);
    MulAssociates(m, Pow10(to - from), Pow10(from + shift));
  }

  // Downscaling keeps the sign and loses less than one unit of the target scale, toward zero.
  lemma DownscaleTruncates(m: int, from: int, to: int)
    requires to < from
    ensures var r, unit := WithScale(m, from, to), Pow10(from - to);
            && (m >= 0 ==> r >= 0 && r * unit <= m < r * unit + unit)
            && (m <= 0 ==> r <= 0 && r * unit - unit < m <= r * unit)
  {
    TruncSplit(m, Pow10(from - to));
  }

  lemma TruncDivOne(x: int)
    ensures TruncDiv(x, 1) == x && x * Pow10(0) == x
  {
  }

  // Staying at a scale is the same as narrowing by no digits.
  lemma NarrowIsTruncDiv(m: int, from: int, to: int)
    requires to <= from
    ensures WithScale(m, from, to) == TruncDiv(m, Pow10(from - to))
  {
    TruncDivOne(m);
  }

  // Narrowing in two hops is narrowing once.
  lemma NarrowTwice(m: int, s0: int, s1: int, s2: int)
    requires s2 <= s1 <= s0
    ensures WithScale(WithScale(m, s0, s1), s1, s2) == WithScale(m, s0, s2)
  {
    var a, b := Pow10(s0 - s1), Pow10(s1 - s2);
    PowAdd(s0 - s1, s1 - s2);
    NarrowIsTruncDiv(m, s0, s1);
    NarrowIsTruncDiv(TruncDiv(m, a), s1, s2);
    NarrowIsTruncDiv(m, s0, s2);
    TruncDivDiv(m, a, b);
  }

  // Widening and narrowing back is the identity; the other way round exactly for whole units.
  lemma WidenThenNarrow(m: int, s0: int, s1: int)
    requires s0 <= s1
    ensures WithScale(WithScale(m, s0, s1), s1, s0) == m
    ensures WithScale(WithScale(m, s1, s0), s0, s1) == m <==> m % Pow10(s1 - s0) == 0
  {
    var p := Pow10(s1 - s0);
    NarrowIsTruncDiv(m * p, s1, s0);
    NarrowIsTruncDiv(m, s1, s0);
    MulDistributes(m, 0, p);
    MulMonotone(0, if m >= 0 then m else -m, p);
    DivUnique(m * p, p, m, 0);
    DivUnique((-m) * p, p, -m, 0);
    TruncDivWhole(m, p);
  }

  lemma TruncDivWhole(m: int, p: int)
    requires p > 0
    ensures TruncDiv(m, p) * p == m <==> m % p == 0
  {
    var q := TruncDiv(m, p);
    if q * p == m { DivUnique(m, p, q, 0); }
    if m % p == 0 {
      var k := m / p;
      MulDistributes(k, 0, p);
      DivUnique(-m, p, -k, 0);
    }
  }

  lemma SameScale(m: int, scale: int)
    ensures WithScale(m, scale, scale) == m
    ensures FitsI128(m) ==> Rescale(m, scale, scale) == Some(m)
  {
    TruncDivOne(m);
  }

  // Every cell that fits its declared precision survives decoding and extraction at the column's scale,
  // and what is decoded is within rust_decimal's bounds.
  lemma Decimal128RoundTrip(value: int, precision: nat, scale: int)
    requires FitsI128(value) && -Pow10(precision) < value < Pow10(precision)
    ensures var v := Decimal128ToValue(value, precision, scale);
            ValidDecimal(v) && ExtractDecimal128(v, scale) == Number(value)
  {
    SameScale(value, scale);
    if precision <= 28 {
      PowMonotone(precision, 28);
      SmallPowers();
    }
  }

  lemma Decimal64RoundTrip(value: int, scale: int)
    requires FitsI64(value) && scale <= 28
    ensures var v := Decimal64ToValue(value, scale);
            ValidDecimal(v) && ExtractDecimal64(v, scale) == Number(value)
  {
    SameScale(value, scale);
  }

  // ---- One decimal as a number ----

  function Digits(v: Value): int { if v.Decimal? then v.mantissa else v.digits }
  function ScaleOf(v: Value): int { if v.Decimal? then v.scale else v.exponent }
  function Rescaled(v: Value, to: int): int { WithScale(Digits(v), ScaleOf(v), to) }

  // Equal as numbers: the same digits at the finer of the two scales.
  predicate SameNumber(v: Value, w: Value) {
    var finer := if ScaleOf(v) >= ScaleOf(w) then ScaleOf(v) else ScaleOf(w);
    Rescaled(v, finer) == Rescaled(w, finer)
  }

  predicate WholeUnits(v: Value, to: int) {
    to < ScaleOf(v) ==> Digits(v) % Pow10(ScaleOf(v) - to) == 0
  }

  // A number at a scale is the value exactly if the value is a whole number of units there, and then it is
  // the rescaled number.
  lemma OneNumber(v: Value, w: Value)
    ensures SameNumber(v, w) <==> WholeUnits(v, ScaleOf(w)) && Digits(w) == Rescaled(v, ScaleOf(w))
  {
    var m, from, r, to := Digits(v), ScaleOf(v), Digits(w), ScaleOf(w);
    if to >= from {
      SameScale(r, to);
    } else {
      var p := Pow10(from - to);
      SameScale(m, from);
      TruncDivWhole(m, p);
      if m == r * p {
        MulDistributes(r, 0, p);
        MulMonotone(0, if r >= 0 then r else -r, p);
        DivUnique(r * p, p, r, 0);
        DivUnique((-r) * p, p, -r, 0);
      }
    }
  }

  // A 256-bit cell, decoded from its bytes to a big decimal and extracted at the column's scale, is the
  // number the bytes denote.
  lemma Decimal256RoundTrip(bytes: seq<I256.Byte>, scale: int)
    requires |bytes| == I256.WIDTH
    ensures ExtractDecimal256(BigDecimal(I256.Signed(bytes), scale), scale) == Number(I256.Signed(bytes))
  {
    SameScale(I256.Signed(bytes), scale);
    I256.DecodeEncode(bytes, bytes);
  }
}
