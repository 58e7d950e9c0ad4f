// Arrow timestamp columns and the two time libraries.
module Timestamp {
  import opened Arithmetic
  import opened TimeUnits
  import opened Wrappers

  // The seconds a library can represent.
  datatype Range = Range(lo: int, hi: int) {
    predicate Contains(secs: int) { lo <= secs <= hi }
  }

  // ---- chrono ----

  // A fraction from one second up is a leap second.
  datatype DateTime = DateTime(secs: int, nsec: nat) {
    function Nanos(): int { secs * 1_000_000_000 + nsec }
    predicate Valid(range: Range) { range.Contains(secs) && nsec < 2_000_000_000 }
  }

  // Only ever called with a fraction below one second.
  function FromTimestamp(secs: int, nsec: nat, range: Range): Option<DateTime> {
    if range.Contains(secs) && nsec < 1_000_000_000 then Some(DateTime(secs, nsec)) else None
  }

  // Euclidean division: the fraction counts up from the second before the instant.
  function DecodeChrono(v: int, u: TimeUnit, range: Range): Option<DateTime> {
    match u
    case Second => FromTimestamp(v, 0, range)
    case Millisecond => FromTimestamp(v / 1_000, v % 1_000 * 1_000_000, range)
    case Microsecond => FromTimestamp(v / 1_000_000, v % 1_000_000 * 1_000, range)
    case Nanosecond => FromTimestamp(v / 1_000_000_000, v % 1_000_000_000, range)
  }

  // Nanoseconds outside an i64 are replaced by the epoch.
  function ExtractChrono(t: DateTime, u: TimeUnit): int {
    match u
    case Second => t.secs
    case Millisecond => t.secs * 1_000 + t.nsec / 1_000_000
    case Microsecond => t.secs * 1_000_000 + t.nsec / 1_000
    case Nanosecond => if FitsI64(t.Nanos()) then t.Nanos() else 0
  }

  // ---- the time crate: an instant is its nanoseconds since the epoch ----

  function FromUnixNanos(nanos: int, range: Range): Option<int> {
    if range.Contains(nanos / 1_000_000_000) then Some(nanos) else None
  }

  function DecodeTime(v: int, u: TimeUnit, range: Range): Option<int> {
    match u
    case Second => if range.Contains(v) then Some(v * 1_000_000_000) else None
    case Millisecond => FromUnixNanos(v * 1_000_000, range)
    case Microsecond => FromUnixNanos(v * 1_000, range)
    case Nanosecond => FromUnixNanos(v, range)
  }

  // Truncating i128 division, then a cast.
  function ExtractTime(nanos: int, u: TimeUnit): int {
    match u
    case Second => nanos / 1_000_000_000
    case Millisecond => ToI64(TruncDiv(nanos, 1_000_000))
    case Microsecond => ToI64(TruncDiv(nanos, 1_000))
    case Nanosecond => ToI64(nanos)
  }

  // ---- Decode, then extract ----

  // The cast keeps the residue, so it keeps exactly what an i64 holds.
  lemma CastI64(x: int)
    ensures -0x8000_0000_0000_0000 <= ToI64(x) < 0x8000_0000_0000_0000
    ensures exists k :: x == ToI64(x) + k * 0x1_0000_0000_0000_0000
    ensures ToI64(x) == x <==> FitsI64(x)
  {
    var k := x / (2 * TWO_63);
    var low := x % (2 * TWO_63);
    if low < TWO_63 {
      assert x == ToI64(x) + k * 0x1_0000_0000_0000_0000;
    } else {
      assert x == ToI64(x) + (k + 1) * 0x1_0000_0000_0000_0000;
    }
    if FitsI64(x) {
      DivUnique(x, 2 * TWO_63, if x >= 0 then 0 else -1, if x >= 0 then x else x + 2 * TWO_63);
    }
  }

  // A stored value, before or after 1970, is accepted by each library exactly if its whole seconds are in
  // the library's range; it denotes the same instant in both, and extracting gives it back.
  lemma StoredRoundTrip(v: int, u: TimeUnit, chrono: Range, time: Range)
    requires FitsI64(v)
    ensures DecodeChrono(v, u, chrono).Some? <==> chrono.Contains(v / PerSecond(u))
    ensures DecodeTime(v, u, time).Some? <==> time.Contains(v / PerSecond(u))
    ensures chrono.Contains(v / PerSecond(u)) ==>
      var c := DecodeChrono(v, u, chrono).value;
      && c.Valid(chrono) && c.nsec < 1_000_000_000 && c.Nanos() == v * Nanos(u) && ExtractChrono(c, u) == v
    ensures time.Contains(v / PerSecond(u)) ==>
      var t := DecodeTime(v, u, time).value;
      && t == v * Nanos(u) && ExtractTime(t, u) == v
  {
    var n := v * Nanos(u);
    var q, r := v / PerSecond(u), v % PerSecond(u);
    DivUnique(n, 1_000_000_000, q, r * Nanos(u));
    ExactQuotient(v, Nanos(u));
    CastI64(v);
  }

  lemma ExactQuotient(v: int, k: int)
    requires k > 0
    ensures TruncDiv(v * k, k) == v
  {
    MulMonotone(0, if v >= 0 then v else -v, k);
    MulDistributes(v, 0, k);
    DivUnique(v * k, k, v, 0);
    DivUnique((-v) * k, k, -v, 0);
  }

  // ---- Extract any instant ----

  // chrono stores the instant rounded down to the unit, a leap second in whole seconds as the second it
  // belongs to, and 0 for nanoseconds that do not fit.
  lemma ChronoRoundsDown(t: DateTime, u: TimeUnit)
    ensures ExtractChrono(t, u) ==
            if u.Nanosecond? && !FitsI64(t.Nanos()) then 0
            else if u.Second? then t.secs
            else t.Nanos() / Nanos(u)
    ensures t.nsec < 1_000_000_000 ==> t.secs == t.Nanos() / 1_000_000_000
  {
    if t.nsec < 1_000_000_000 { DivUnique(t.Nanos(), 1_000_000_000, t.secs, t.nsec); }
    match u
    case Second =>
    case Millisecond =>
      DivUnique(t.Nanos(), 1_000_000, t.secs * 1_000 + t.nsec / 1_000_000, t.nsec % 1_000_000);
    case Microsecond =>
      DivUnique(t.Nanos(), 1_000, t.secs * 1_000_000 + t.nsec / 1_000, t.nsec % 1_000);
    case Nanosecond =>
  }

  // The time crate rounds toward zero instead, except for whole seconds, and cuts the nanoseconds to 64
  // bits. So for every instant whose microseconds fit an i64, which holds beyond the ranges of both
  // libraries, they store the same number exactly when: in a nanosecond column out of an i64, the cut
  // number happens to be 0; otherwise, the instant is stored in seconds, is not before 1970 or is a whole
  // number of units.
  lemma LibrariesAgree(t: DateTime, u: TimeUnit)
    requires t.nsec < 1_000_000_000 && FitsI64(t.Nanos() / 1_000)
    ensures ExtractChrono(t, u) == ExtractTime(t.Nanos(), u) <==>
            if u.Nanosecond? && !FitsI64(t.Nanos()) then ToI64(t.Nanos()) == 0
            else u.Second? || t.Nanos() >= 0 || Whole(t.Nanos(), u)
  {
    var n := t.Nanos();
    ChronoRoundsDown(t, u);
    if u.Millisecond? {
      TruncAgainstFloor(n, 1_000_000);
      CastI64(TruncDiv(n, 1_000_000));
    } else if u.Microsecond? {
      TruncAgainstFloor(n, 1_000);
      CastI64(TruncDiv(n, 1_000));
    } else if u.Nanosecond? && FitsI64(n) {
      CastI64(n);
    }
  }

  lemma TruncAgainstFloor(n: int, d: int)
    requires d > 0
    ensures TruncDiv(n, d) == n / d <==> n >= 0 || n % d == 0
    ensures n < 0 ==> n <= TruncDiv(n, d) <= 0
    ensures n >= 0 ==> 0 <= TruncDiv(n, d) <= n
  {
    TruncSplit(n, d);
    var q, r := TruncDiv(n, d), TruncMod(n, d);
    MulMonotone(1, d, if q >= 0 then q else -q);
    MulDistributes(q, 1, d);
    if r < 0 {
      DivUnique(n, d, q - 1, r + d);
    } else {
      DivUnique(n, d, q, r);
    }
  }

  // One millisecond and a half before 1970, and a second of April 2262 in nanoseconds.
  lemma LibrariesDisagree()
    ensures var t := DateTime(-1, 998_500_000);
            ExtractChrono(t, Millisecond) == -2 && ExtractTime(t.Nanos(), Millisecond) == -1
    ensures var t := DateTime(9_223_372_037, 0);
            ExtractChrono(t, Nanosecond) == 0 && ExtractTime(t.Nanos(), Nanosecond) == -9_223_372_036_709_551_616
  {
    assert TruncDiv(-1_500_000, 1_000_000) == -1;
    CastI64(-1);
  }

  // Storing an instant in a column and reading it back rounds it down to the unit; in a nanosecond
  // column an instant that does not fit an i64 comes back as the epoch.
  lemma ReadBack(t: DateTime, u: TimeUnit, range: Range)
    requires t.Valid(range) && t.nsec < 1_000_000_000 && range.Contains(0)
    ensures var back := DecodeChrono(ExtractChrono(t, u), u, range);
            && back.Some? && back.value.nsec < 1_000_000_000
            && back.value.Nanos() == if u.Nanosecond? && !FitsI64(t.Nanos()) then 0
                                     else t.Nanos() - t.Nanos() % Nanos(u)
  {
    var v := ExtractChrono(t, u);
    ChronoRoundsDown(t, u);
    match u
    case Second => DivUnique(t.Nanos(), 1_000_000_000, t.secs, t.nsec);
    case Millisecond => DivUnique(v, 1_000, t.secs, t.nsec / 1_000_000);
    case Microsecond => DivUnique(v, 1_000_000, t.secs, t.nsec / 1_000);
    case Nanosecond => DivUnique(t.Nanos(), 1_000_000_000, t.secs, t.nsec);
  }

  // The same with the time crate: rounded toward zero, in whole seconds down, and in a nanosecond column
  // cut to 64 bits, which the library may or may not accept.
  lemma ReadBackTime(n: int, u: TimeUnit, range: Range)
    requires range.Contains(n / 1_000_000_000) && range.Contains(0) && FitsI64(n / 1_000)
    ensures var back := DecodeTime(ExtractTime(n, u), u, range);
            && (back.Some? <==> (u.Nanosecond? ==> range.Contains(ToI64(n) / 1_000_000_000)))
            && (back.Some? ==>
                  back.value == if u.Nanosecond? then ToI64(n)
                                else if u.Second? then n - n % 1_000_000_000
                                else n - TruncMod(n, Nanos(u)))
  {
    match u
    case Second =>
    case Millisecond =>
      TruncSplit(n, 1_000_000);
      TruncAgainstFloor(n, 1_000_000);
      CastI64(TruncDiv(n, 1_000_000));
    case Microsecond =>
      TruncSplit(n, 1_000);
      TruncAgainstFloor(n, 1_000);
      CastI64(TruncDiv(n, 1_000));
    case Nanosecond =>
  }

  // Microseconds fit 64 bits, with a second to spare for a leap second.
  predicate MicrosFit(range: Range) {
    FitsI64(range.lo * 1_000_000) && FitsI64((range.hi + 2) * 1_000_000)
  }

  // Seconds and a fraction put together in a unit, taken apart again.
  lemma DecodedAs(x: int, u: TimeUnit, secs: int, nsec: nat, range: Range)
    requires nsec < 1_000_000_000 && x == secs * PerSecond(u) + nsec / Nanos(u)
    ensures DecodeChrono(x, u, range) == FromTimestamp(secs, nsec - nsec % Nanos(u), range)
  {
    DivUnique(x, PerSecond(u), secs, nsec / Nanos(u));
  }

  // Reading back what chrono stored, leap seconds included: refused only for a leap second that rounds out
  // of the range, and equal exactly for whole units that are no leap second and fit the column.
  lemma ChronoReturns(t: DateTime, u: TimeUnit, range: Range)
    requires t.Valid(range) && range.Contains(0) && MicrosFit(range)
    ensures FitsI64(ExtractChrono(t, u))
    ensures DecodeChrono(ExtractChrono(t, u), u, range).Some? <==>
            t.nsec < 1_000_000_000 || u.Second? || (u.Nanosecond? && !FitsI64(t.Nanos())) || range.Contains(t.secs + 1)
    ensures DecodeChrono(ExtractChrono(t, u), u, range) == Some(t) <==>
            t.nsec < 1_000_000_000 && Whole(t.nsec, u) && (u.Nanosecond? ==> FitsI64(t.Nanos()))
  {
    var x := ExtractChrono(t, u);
    if u.Nanosecond? && !FitsI64(t.Nanos()) {
      DecodedAs(x, u, 0, 0, range);
    } else if t.nsec < 1_000_000_000 {
      DecodedAs(x, u, t.secs, t.nsec, range);
    } else if u.Second? {
      DecodedAs(x, u, t.secs, 0, range);
    } else {
      DecodedAs(x, u, t.secs + 1, t.nsec - 1_000_000_000, range);
    }
  }

  // What the time crate stored is accepted by both libraries, as long as both hold every 64-bit number of
  // nanoseconds, and comes back equal exactly for whole units that fit the column.
  lemma TimeReturns(n: int, u: TimeUnit, chrono: Range, time: Range)
    requires time.Contains(n / 1_000_000_000) && MicrosFit(chrono)
    requires chrono.lo <= time.lo <= -9_223_372_037 && 9_223_372_036 <= time.hi <= chrono.hi
    ensures FitsI64(ExtractTime(n, u))
    ensures DecodeChrono(ExtractTime(n, u), u, chrono).Some? && DecodeTime(ExtractTime(n, u), u, time).Some?
    ensures DecodeTime(ExtractTime(n, u), u, time) == Some(n) <==>
            Whole(n, u) && (u.Nanosecond? ==> FitsI64(n))
  {
    var x := ExtractTime(n, u);
    if u.Millisecond? {
      TruncAgainstFloor(n, 1_000_000);
      CastI64(TruncDiv(n, 1_000_000));
      TruncSplit(n, 1_000_000);
    } else if u.Microsecond? {
      TruncAgainstFloor(n, 1_000);
      CastI64(TruncDiv(n, 1_000));
      TruncSplit(n, 1_000);
    } else if u.Nanosecond? && FitsI64(n) {
      CastI64(n);
    }
    StoredRoundTrip(x, u, chrono, time);
  }
}
