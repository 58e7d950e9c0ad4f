// Machine arithmetic of Rust, and facts about products and quotients that the solver should
// not have to search for.
module Arithmetic {
  // `/` and `%` of Rust: toward zero, the remainder with the sign of the dividend.
  function TruncDiv(x: int, d: int): int
    requires d > 0
  {
    if x >= 0 then x / d else -((-x) / d)
  }

  function TruncMod(x: int, d: int): int
    requires d > 0
  {
    if x >= 0 then x % d else -((-x) % d)
  }

  // Casts to an unsigned type keep the low bits.
  function ToU8(x: int): nat { x % 0x100 }
  function ToU32(x: int): nat { x % 0x1_0000_0000 }

  const TWO_63: int := 0x8000_0000_0000_0000

  predicate FitsI32(x: int) { -0x8000_0000 <= x < 0x8000_0000 }
  predicate FitsI64(x: int) { -TWO_63 <= x < TWO_63 }

  function ToI64(x: int): int {
    var low := x % (2 * TWO_63);
    if low < TWO_63 then low else low - 2 * TWO_63
  }

  lemma MulMonotone(a: int, b: int, p: int)
    requires a <= b && p >= 0
    ensures a * p <= b * p
  {
    assert b * p - a * p == (b - a) * p;
  }

  lemma MulDistributes(a: int, b: int, p: int)
    ensures (a + b) * p == a * p + b * p
    ensures (a - b) * p == a * p - b * p
    ensures (-a) * p == -(a * p)
  {
  }

  lemma MulAssociates(a: int, b: int, c: int)
    ensures a * (b * c) == (a * b) * c
  {
  }

  // A multiple of d strictly between -d and d.
  lemma OnlyZero(k: int, d: int)
    requires -d < k * d < d
    ensures k == 0
  {
    if k >= 1 { MulMonotone(1, k, d); }
    if k <= -1 { MulMonotone(k, -1, d); }
  }

  lemma DivUnique(x: int, d: int, q: int, r: int)
    requires d > 0 && x == q * d + r && 0 <= r < d
    ensures x / d == q && x % d == r
  {
    MulDistributes(q, x / d, d);
    assert (q - x / d) * d == x % d - r;
    OnlyZero(q - x / d, d);
  }

  lemma DivDiv(x: int, a: int, b: int)
    requires a > 0 && b > 0
    ensures a * b > 0 && x / a / b == x / (a * b)
  {
    var q, r := x / a, x % a;
    var q', r' := q / b, q % b;
    MulDistributes(q' * b, r', a);
    MulAssociates(q', b, a);
    assert x == q' * (a * b) + (r' * a + r);
    MulMonotone(r' + 1, b, a);
    MulMonotone(0, r', a);
    MulDistributes(r', 1, a);
    MulMonotone(1, b, a);
    DivUnique(x, a * b, q', r' * a + r);
  }

  lemma NegatedMultiple(x: int, d: int)
    requires d > 0
    ensures x % d == 0 <==> (-x) % d == 0
  {
    MultipleOfNegated(x, d);
    MultipleOfNegated(-x, d);
  }

  lemma MultipleOfNegated(x: int, d: int)
    requires d > 0
    ensures x % d == 0 ==> (-x) % d == 0
  {
    if x % d == 0 {
      MulDistributes(x / d, 0, d);
      DivUnique(-x, d, -(x / d), 0);
    }
  }

  lemma TruncSplit(x: int, d: int)
    requires d > 0
    ensures x == TruncDiv(x, d) * d + TruncMod(x, d)
    ensures x >= 0 ==> TruncDiv(x, d) >= 0 && 0 <= TruncMod(x, d) < d
    ensures x <= 0 ==> TruncDiv(x, d) <= 0 && -d < TruncMod(x, d) <= 0
    ensures TruncMod(x, d) == 0 <==> x % d == 0
  {
    MulDistributes((-x) / d, 0, d);
    NegatedMultiple(x, d);
  }

  lemma TruncDivDiv(x: int, a: int, b: int)
    requires a > 0 && b > 0
    ensures a * b > 0 && TruncDiv(TruncDiv(x, a), b) == TruncDiv(x, a * b)
  {
    DivDiv(x, a, b);
    DivDiv(-x, a, b);
    TruncSplit(x, a);
  }

  lemma CastU32(x: int)
    requires -0x1_0000_0000 <= x < 0x1_0000_0000
    ensures ToU32(x) == if x >= 0 then x else x + 0x1_0000_0000
  {
    DivUnique(x, 0x1_0000_0000, if x >= 0 then 0 else -1, if x >= 0 then x else x + 0x1_0000_0000);
  }

  lemma CastU8(x: int)
    requires -0x100 <= x < 0x100
    ensures ToU8(x) == if x >= 0 then x else x + 0x100
  {
    DivUnique(x, 0x100, if x >= 0 then 0 else -1, if x >= 0 then x else x + 0x100);
  }
}
