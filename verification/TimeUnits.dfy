// The units of Arrow's time and timestamp columns.
module TimeUnits {
  datatype TimeUnit = Second | Millisecond | Microsecond | Nanosecond

  function PerSecond(u: TimeUnit): int {
    match u case Second => 1 case Millisecond => 1_000 case Microsecond => 1_000_000 case Nanosecond => 1_000_000_000
  }

  function Nanos(u: TimeUnit): int {
    match u case Second => 1_000_000_000 case Millisecond => 1_000_000 case Microsecond => 1_000 case Nanosecond => 1
  }

  // Nanoseconds that are a whole number of units.
  predicate Whole(nanos: int, u: TimeUnit) {
    match u
    case Second => nanos % 1_000_000_000 == 0
    case Millisecond => nanos % 1_000_000 == 0
    case Microsecond => nanos % 1_000 == 0
    case Nanosecond => true
  }
}
