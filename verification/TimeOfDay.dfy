// Arrow time-of-day columns and the two time libraries.
module TimeOfDay {
  import opened Arithmetic
  import opened TimeUnits
  import opened Wrappers

  // Seconds and milliseconds are stored in 32 bits, the others in 64.
  predicate Storable(v: int, u: TimeUnit) {
    if u.Second? || u.Millisecond? then FitsI32(v) else FitsI64(v)
  }

  // The values the Arrow format gives a meaning.
  predicate InDay(v: int, u: TimeUnit) {
    0 <= v < 86_400 * PerSecond(u)
  }

  // ---- chrono ----

  datatype NaiveTime = NaiveTime(secs: nat, frac: nat) {
    function DayNanos(): nat { secs * 1_000_000_000 + frac }
  }

  // The library's check; a fraction from one second up is a leap second. The decoder only ever gives it a
  // fraction below one second, or one beyond two seconds from a negative remainder.
  function NaiveTimeOpt(secs: nat, frac: nat): Option<NaiveTime> {
    if secs >= 86_400 || frac >= 2_000_000_000 || (frac >= 1_000_000_000 && secs % 60 != 59) then None
    else Some(NaiveTime(secs, frac))
  }

  function DecodeChrono(v: int, u: TimeUnit): Option<NaiveTime> {
    match u
    case Second => NaiveTimeOpt(ToU32(v), 0)
    case Millisecond => NaiveTimeOpt(ToU32(TruncDiv(v, 1_000)), ToU32(TruncMod(v, 1_000) * 1_000_000))
    case Microsecond => NaiveTimeOpt(ToU32(TruncDiv(v, 1_000_000)), ToU32(TruncMod(v, 1_000_000) * 1_000))
    case Nanosecond => NaiveTimeOpt(ToU32(TruncDiv(v, 1_000_000_000)), ToU32(TruncMod(v, 1_000_000_000)))
  }

  function ExtractChrono(t: NaiveTime, u: TimeUnit): int {
    match u
    case Second => t.secs
    case Millisecond => t.secs * 1_000 + t.frac / 1_000_000
    case Microsecond => t.secs * 1_000_000 + t.frac % 1_000_000_000 / 1_000
    case Nanosecond => t.secs * 1_000_000_000 + t.frac % 1_000_000_000
  }

  // ---- the time crate ----

  datatype Time = Time(hour: nat, minute: nat, second: nat, nano: nat) {
    predicate Valid() { hour < 24 && minute < 60 && second < 60 && nano < 1_000_000_000 }
    function DayNanos(): nat { (hour * 3600 + minute * 60 + second) * 1_000_000_000 + nano }
  }

  function FromHmsNano(hour: nat, minute: nat, second: nat, nano: nat): Option<Time> {
    var t := Time(hour, minute, second, nano);
    if t.Valid() then Some(t) else None
  }

  function FromTotalSeconds(secs: int, nano: nat): Option<Time> {
    FromHmsNano(ToU8(TruncDiv(secs, 3600)), ToU8(TruncDiv(TruncMod(secs, 3600), 60)), ToU8(TruncMod(secs, 60)), nano)
  }

  function DecodeTime(v: int, u: TimeUnit): Option<Time> {
    match u
    case Second => FromTotalSeconds(v, 0)
    case Millisecond => FromTotalSeconds(TruncDiv(v, 1_000), ToU32(TruncMod(v, 1_000) * 1_000_000))
    case Microsecond => FromTotalSeconds(TruncDiv(v, 1_000_000), ToU32(TruncMod(v, 1_000_000) * 1_000))
    case Nanosecond => FromTotalSeconds(TruncDiv(v, 1_000_000_000), ToU32(TruncMod(v, 1_000_000_000)))
  }

  function ExtractTime(t: Time, u: TimeUnit): int {
    var secs := t.hour * 3600 + t.minute * 60 + t.second;
    match u
    case Second => secs
    case Millisecond => secs * 1_000 + t.nano / 1_000_000
    case Microsecond => secs * 1_000_000 + t.nano / 1_000
    case Nanosecond => secs * 1_000_000_000 + t.nano
  }

  // ---- Which values are accepted ----

  // The sub-second part of a negative value becomes a fraction no library accepts.
  lemma Fraction(r: int, k: int)
    requires k in {1, 1_000, 1_000_000} && -1_000_000_000 < r * k < 1_000_000_000
    ensures ToU32(r * k) == if r >= 0 then r * k else r * k + 0x1_0000_0000
  {
    CastU32(r * k);
  }

  // With 32 bits the casts to u32 reject every value outside the day, negative ones included. With 64
  // bits the whole seconds are first cut to 32 bits: exactly the values below are accepted.
  lemma ChronoAccepts(v: int, u: TimeUnit)
    requires Storable(v, u)
    ensures DecodeChrono(v, u).Some? <==>
      if u.Second? || u.Millisecond? then InDay(v, u)
      else (v >= 0 || v % PerSecond(u) == 0) && ToU32(TruncDiv(v, PerSecond(u))) < 86_400
  {
    match u
    case Second => CastU32(v);
    case Millisecond =>
      TruncSplit(v, 1_000);
      CastU32(TruncDiv(v, 1_000));
      Fraction(TruncMod(v, 1_000), 1_000_000);
    case Microsecond =>
      TruncSplit(v, 1_000_000);
      Fraction(TruncMod(v, 1_000_000), 1_000);
    case Nanosecond =>
      TruncSplit(v, 1_000_000_000);
      Fraction(TruncMod(v, 1_000_000_000), 1);
  }

  // Hour, minute and second after the casts to u8.
  lemma SecondsAccepted(secs: int, nano: nat)
    ensures FromTotalSeconds(secs, nano).Some? <==>
      && (secs >= 0 || secs % 3600 == 0) && ToU8(TruncDiv(secs, 3600)) < 24 && nano < 1_000_000_000
    ensures 0 <= secs < 86_400 && nano < 1_000_000_000 ==>
      FromTotalSeconds(secs, nano) == Some(Time(secs / 3600, secs % 3600 / 60, secs % 60, nano))
  {
    var m := TruncMod(secs, 3600);
    TruncSplit(secs, 3600);
    TruncSplit(m, 60);
    TruncSplit(secs, 60);
    CastU8(TruncDiv(m, 60));
    CastU8(TruncMod(secs, 60));
    if 0 <= secs < 86_400 { CastU8(TruncDiv(secs, 3600)); }
  }

  // The hour is cut to 8 bits, so the time crate accepts values a multiple of 256 hours off.
  lemma TimeAccepts(v: int, u: TimeUnit)
    requires Storable(v, u)
    ensures DecodeTime(v, u).Some? <==>
      && (v >= 0 || v % (3600 * PerSecond(u)) == 0)
      && ToU8(TruncDiv(v, 3600 * PerSecond(u))) < 24
  {
    var per, k := PerSecond(u), Nanos(u);
    var q, r := TruncDiv(v, per), TruncMod(v, per);
    TruncSplit(v, per);
    Fraction(r, if u.Second? then 1 else k);
    SecondsAccepted(q, if u.Second? then 0 else ToU32(r * k));
    TruncDivDiv(v, per, 3600);
    WholeHours(v, per);
  }

  lemma WholeHours(v: int, per: int)
    requires per > 0
    ensures v % per == 0 && TruncDiv(v, per) % 3600 == 0 <==> v % (3600 * per) == 0
  {
    TruncSplit(v, per);
    if v % per == 0 && TruncDiv(v, per) % 3600 == 0 {
      MulAssociates(TruncDiv(v, per) / 3600, 3600, per);
      DivUnique(v, 3600 * per, TruncDiv(v, per) / 3600, 0);
    }
    if v % (3600 * per) == 0 {
      WholeSeconds(v, per, v / (3600 * per));
    }
  }

  lemma WholeSeconds(v: int, per: int, hours: int)
    requires per > 0 && v == hours * (3600 * per)
    ensures v % per == 0 && TruncDiv(v, per) == hours * 3600
  {
    MulAssociates(hours, 3600, per);
    MulDistributes(hours * 3600, 0, per);
    DivUnique(v, per, hours * 3600, 0);
    DivUnique(-v, per, -(hours * 3600), 0);
  }

  // ---- Values of the day ----

  // What a valid value decodes to: its whole seconds, and the rest in nanoseconds.
  lemma DayDecodes(v: int, u: TimeUnit)
    requires InDay(v, u)
    ensures var q, nano := v / PerSecond(u), v % PerSecond(u) * Nanos(u);
            && 0 <= q < 86_400 && 0 <= nano < 1_000_000_000
            && DecodeChrono(v, u) == Some(NaiveTime(q, nano))
            && DecodeTime(v, u) == Some(Time(q / 3600, q % 3600 / 60, q % 60, nano))
  {
    var q, r := v / PerSecond(u), v % PerSecond(u);
    CastU32(q);
    Fraction(r, if u.Second? then 1 else Nanos(u));
    SecondsAccepted(q, if u.Second? then 0 else r * Nanos(u));
  }

  lemma Recombine(v: int, u: TimeUnit)
    requires v >= 0
    ensures var t := NaiveTime(v / PerSecond(u), v % PerSecond(u) * Nanos(u));
            t.DayNanos() == v * Nanos(u) && ExtractChrono(t, u) == v
  {
    match u
    case Second =>
    case Millisecond =>
    case Microsecond =>
    case Nanosecond =>
  }

  // Splitting seconds into hours, minutes and seconds keeps the time of day.
  lemma SameTime(secs: nat, nano: nat, u: TimeUnit)
    requires nano < 1_000_000_000
    ensures var t := Time(secs / 3600, secs % 3600 / 60, secs % 60, nano);
            && t.DayNanos() == NaiveTime(secs, nano).DayNanos()
            && ExtractTime(t, u) == ExtractChrono(NaiveTime(secs, nano), u)
  {
    assert secs / 3600 * 3600 + secs % 3600 / 60 * 60 + secs % 60 == secs;
  }

  // Every valid value decodes, in both libraries to the same nanosecond, and extracts to itself.
  lemma DayRoundTrip(v: int, u: TimeUnit)
    requires InDay(v, u)
    ensures var c, t := DecodeChrono(v, u), DecodeTime(v, u);
            && c.Some? && t.Some?
            && c.value.DayNanos() == t.value.DayNanos() == v * Nanos(u)
            && ExtractChrono(c.value, u) == v && ExtractTime(t.value, u) == v
  {
    DayDecodes(v, u);
    Recombine(v, u);
    SameTime(v / PerSecond(u), v % PerSecond(u) * Nanos(u), u);
  }

  // Extracting any valid time, in either library, stores it rounded down to the unit.
  lemma ExtractRoundsDown(t: Time, u: TimeUnit)
    requires t.Valid()
    ensures var c := NaiveTime(t.hour * 3600 + t.minute * 60 + t.second, t.nano);
            var v := ExtractTime(t, u);
            && ExtractChrono(c, u) == v && InDay(v, u)
            && v * Nanos(u) <= t.DayNanos() < (v + 1) * Nanos(u)
  {
  }

  lemma PutTogether(x: int, u: TimeUnit, secs: nat, frac: nat)
    requires 0 <= secs < 86_400 && frac < 1_000_000_000
    requires x == secs * PerSecond(u) + frac / Nanos(u)
    ensures InDay(x, u) && Storable(x, u)
    ensures x / PerSecond(u) == secs && x % PerSecond(u) * Nanos(u) == frac - frac % Nanos(u)
  {
    match u {
      case Second =>
      case Millisecond => DivUnique(x, 1_000, secs, frac / 1_000_000);
      case Microsecond => DivUnique(x, 1_000_000, secs, frac / 1_000);
      case Nanosecond => DivUnique(x, 1_000_000_000, secs, frac);
    }
  }

  // Seconds and a fraction put together in a unit, taken apart again.
  lemma DecodedAs(x: int, u: TimeUnit, secs: nat, frac: nat)
    requires 0 <= secs < 86_400 && frac < 1_000_000_000
    requires x == secs * PerSecond(u) + frac / Nanos(u)
    ensures InDay(x, u) && Storable(x, u)
    ensures DecodeChrono(x, u) == Some(NaiveTime(secs, frac - frac % Nanos(u)))
    ensures DecodeTime(x, u) == Some(Time(secs / 3600, secs % 3600 / 60, secs % 60, frac - frac % Nanos(u)))
  {
    PutTogether(x, u, secs, frac);
    DayDecodes(x, u);
  }

  // Storing any time of chrono and reading it back, leap seconds included: only a leap second of the last
  // second of the day, in milliseconds, is refused, and whole units that are no leap second come back.
  lemma ReadBackChrono(t: NaiveTime, u: TimeUnit)
    requires t.secs < 86_400 && t.frac < 2_000_000_000
    ensures Storable(ExtractChrono(t, u), u)
    ensures DecodeChrono(ExtractChrono(t, u), u).Some? <==>
            !(u.Millisecond? && t.frac >= 1_000_000_000 && t.secs == 86_399)
    ensures DecodeChrono(ExtractChrono(t, u), u) == Some(t) <==>
            t.frac < 1_000_000_000 && Whole(t.frac, u)
  {
    var x := ExtractChrono(t, u);
    if t.frac < 1_000_000_000 {
      DecodedAs(x, u, t.secs, t.frac);
    } else if u.Second? {
      DecodedAs(x, u, t.secs, 0);
    } else if !u.Millisecond? {
      DecodedAs(x, u, t.secs, t.frac - 1_000_000_000);
    } else if t.secs < 86_399 {
      DecodedAs(x, u, t.secs + 1, t.frac - 1_000_000_000);
    } else {
      ChronoAccepts(x, u);
    }
  }

  // The same with the time crate, which has no leap seconds: always accepted, by chrono too.
  lemma ReadBackTime(t: Time, u: TimeUnit)
    requires t.Valid()
    ensures Storable(ExtractTime(t, u), u)
    ensures DecodeChrono(ExtractTime(t, u), u).Some? && DecodeTime(ExtractTime(t, u), u).Some?
    ensures DecodeTime(ExtractTime(t, u), u) == Some(t) <==> Whole(t.nano, u)
  {
    var secs := t.hour * 3600 + t.minute * 60 + t.second;
    DecodedAs(ExtractTime(t, u), u, secs, t.nano);
    DivUnique(secs, 3600, t.hour, t.minute * 60 + t.second);
    DivUnique(t.minute * 60 + t.second, 60, t.minute, t.second);
    DivUnique(secs, 60, t.hour * 60 + t.minute, t.second);
  }

  // 2^32 seconds are midnight to chrono, 256 hours are midnight to the time crate.
  lemma WrappedTimes()
    ensures DecodeChrono(0x1_0000_0000 * 1_000_000, Microsecond) == Some(NaiveTime(0, 0))
    ensures DecodeTime(256 * 3600, Second) == Some(Time(0, 0, 0, 0)) && DecodeChrono(256 * 3600, Second) == None
  {
  }
}
