// One cell of an Arrow array: what is stored for a value and what is read back, in a build with both date
// libraries and both decimal libraries.
module ArrowCell {
  import opened Arithmetic
  import opened TimeUnits
  import opened Wrappers
  import Clock = TimeOfDay
  import Dec = DecimalScale
  import I256 = Decimal256
  import Instant = Timestamp

  // ---- Values ----

  // The variants of a value. A date-time with an offset of its own is not the one in UTC; Other is any
  // variant the conversion does not know.
  datatype Kind =
    | TinyInt | SmallInt | Int | BigInt | TinyUnsigned | SmallUnsigned | Unsigned | BigUnsigned
    | Float | Double | String | Bytes | Bool
    | Decimal | BigDecimal
    | ChronoDate | TimeDate | ChronoTime | TimeTime
    | ChronoDateTime | ChronoDateTimeUtc | ChronoDateTimeOffset | TimeDateTime | TimeDateTimeTz
    | Other

  // Contents that are not interpreted, except for the length of bytes.
  datatype Payload = Scalar(id: int) | Blob(bytes: seq<int>)

  // Dates are days and instants of the time crate nanoseconds since 1970.
  datatype Value =
    | Null(kind: Kind)
    | Plain(kind: Kind, payload: Payload)
    | Money(number: Dec.Value)
    | Day(kind: Kind, days: int)
    | Naive(naive: Clock.NaiveTime)
    | Hms(time: Clock.Time)
    | Chrono(kind: Kind, dt: Instant.DateTime)
    | Unix(kind: Kind, nanos: int)

  function KindOf(v: Value): Kind {
    if v.Money? then if v.number.Decimal? then Kind.Decimal else Kind.BigDecimal
    else if v.Naive? then ChronoTime
    else if v.Hms? then TimeTime
    else v.kind
  }

  // The seconds each library can represent.
  datatype Limits = Limits(chrono: Instant.Range, time: Instant.Range) {
    // chrono reaches further than the time crate, which holds every 64-bit number of nanoseconds; the
    // microseconds of chrono fit 64 bits, with a second to spare for a leap second.
    predicate Sound() {
      && chrono.lo <= time.lo <= -9_223_372_037 && 9_223_372_036 <= time.hi <= chrono.hi
      && Instant.MicrosFit(chrono)
    }
  }

  predicate OnDay(days: int, range: Instant.Range) { range.Contains(days * 86_400) }

  predicate IsPlain(k: Kind) {
    k.TinyInt? || k.SmallInt? || k.Int? || k.BigInt? || k.TinyUnsigned? || k.SmallUnsigned? || k.Unsigned?
    || k.BigUnsigned? || k.Float? || k.Double? || k.String? || k.Bytes? || k.Bool?
  }

  // What the libraries' own types guarantee.
  predicate Valid(v: Value, lim: Limits) {
    if v.Null? then true
    else if v.Plain? then v.kind.Other? || (IsPlain(v.kind) && (v.kind.Bytes? ==> v.payload.Blob?))
    else if v.Money? then Dec.ValidDecimal(v.number)
    else if v.Day? then
      (v.kind.ChronoDate? && OnDay(v.days, lim.chrono)) || (v.kind.TimeDate? && OnDay(v.days, lim.time))
    else if v.Naive? then v.naive.secs < 86_400 && v.naive.frac < 2_000_000_000
    else if v.Hms? then v.time.Valid()
    else if v.Chrono? then
      (v.kind.ChronoDateTime? || v.kind.ChronoDateTimeUtc? || v.kind.ChronoDateTimeOffset?) && v.dt.Valid(lim.chrono)
    else (v.kind.TimeDateTime? || v.kind.TimeDateTimeTz?) && lim.time.Contains(v.nanos / 1_000_000_000)
  }

  // ---- Column types and array types ----

  // Text stands for the string types, Binary for the two of bytes, Decimal for money too, and DateTime for
  // timestamps without a zone; Other is every type Arrow does not know.
  datatype ColumnType =
    | TinyInteger | SmallInteger | Integer | BigInteger | TinyUnsigned | SmallUnsigned | Unsigned | BigUnsigned
    | Float | Double | Text | Binary | Boolean
    | Decimal | Date | Time | DateTime | TimestampWithTimeZone
    | Other

  // The scale of a decimal array.
  type I8 = x: int | -0x80 <= x < 0x80

  datatype DataType =
    | Int8 | Int16 | Int32 | Int64 | UInt8 | UInt16 | UInt32 | UInt64 | Float32 | Float64
    | Utf8 | LargeUtf8 | ShortBinary | LargeBinary | FixedSizeBinary(width: nat) | Bit
    | Date32 | Date64 | Time32(unit: TimeUnit) | Time64(unit: TimeUnit) | Timestamp(unit: TimeUnit)
    | Decimal64(precision: nat, scale: I8) | Decimal128(precision: nat, scale: I8)
    | Decimal256(precision: nat, scale: I8)
    | Unsupported

  // A column with the type of the model's field: its variant, and whether it is an Option.
  datatype Column = Column(name: string, columnType: ColumnType, kind: Kind, optional: bool)

  // The variant a null of this column is read as.
  function NullKind(t: ColumnType): Kind {
    match t
    case TinyInteger => Kind.TinyInt case SmallInteger => Kind.SmallInt
    case Integer => Kind.Int case BigInteger => Kind.BigInt
    case TinyUnsigned => Kind.TinyUnsigned case SmallUnsigned => Kind.SmallUnsigned
    case Unsigned => Kind.Unsigned case BigUnsigned => Kind.BigUnsigned
    case Float => Kind.Float case Double => Kind.Double
    case Text => Kind.String case Binary => Kind.Bytes case Boolean => Kind.Bool
    case Decimal => Kind.Decimal
    case Date => ChronoDate case Time => ChronoTime
    case DateTime => ChronoDateTime case TimestampWithTimeZone => ChronoDateTimeUtc
    case Other => Kind.Int
  }

  predicate IsDatetime(t: ColumnType) {
    t.Date? || t.Time? || t.DateTime? || t.TimestampWithTimeZone?
  }

  function NullKindTime(t: ColumnType): Kind
    requires IsDatetime(t)
  {
    match t case Date => TimeDate case Time => TimeTime case DateTime => TimeDateTime
    case TimestampWithTimeZone => TimeDateTimeTz
  }

  // The fields a column of this type has, unless it is declared with another type than its field's.
  predicate Holds(t: ColumnType, k: Kind) {
    if t.Decimal? then k.Decimal? || k.BigDecimal?
    else if t.Date? then k.ChronoDate? || k.TimeDate?
    else if t.Time? then k.ChronoTime? || k.TimeTime?
    else if t.DateTime? then k.ChronoDateTime? || k.TimeDateTime?
    else if t.TimestampWithTimeZone? then k.ChronoDateTimeUtc? || k.ChronoDateTimeOffset? || k.TimeDateTimeTz?
    else if t.Other? then k.Other?
    else k == NullKind(t)
  }

  predicate Unit32(u: TimeUnit) { u.Second? || u.Millisecond? }

  // The values an array of this type takes; any other value is silently stored as null.
  predicate Stores(d: DataType, k: Kind) {
    match d
    case Int8 => k.TinyInt? case Int16 => k.SmallInt? case Int32 => k.Int? case Int64 => k.BigInt?
    case UInt8 => k.TinyUnsigned? case UInt16 => k.SmallUnsigned?
    case UInt32 => k.Unsigned? case UInt64 => k.BigUnsigned?
    case Float32 => k.Float? case Float64 => k.Double?
    case Utf8 | LargeUtf8 => k.String?
    case ShortBinary | LargeBinary | FixedSizeBinary(_) => k.Bytes?
    case Bit => k.Bool?
    case Date32 => k.ChronoDate? || k.TimeDate?
    case Date64 | Unsupported => false
    case Time32(u) => Unit32(u) && (k.ChronoTime? || k.TimeTime?)
    case Time64(u) => !Unit32(u) && (k.ChronoTime? || k.TimeTime?)
    case Timestamp(_) => k.ChronoDateTime? || k.ChronoDateTimeUtc? || k.TimeDateTime? || k.TimeDateTimeTz?
    case Decimal64(_, _) | Decimal128(_, _) | Decimal256(_, _) => k.Decimal? || k.BigDecimal?
  }

  // The array types a column is read from.
  predicate Reads(t: ColumnType, d: DataType) {
    match t
    case TinyInteger => d.Int8? case SmallInteger => d.Int16? case Integer => d.Int32? case BigInteger => d.Int64?
    case TinyUnsigned => d.UInt8? case SmallUnsigned => d.UInt16?
    case Unsigned => d.UInt32? case BigUnsigned => d.UInt64?
    case Float => d.Float32? case Double => d.Float64?
    case Text => d.Utf8? || d.LargeUtf8?
    case Binary => d.ShortBinary? || d.LargeBinary? || d.FixedSizeBinary?
    case Boolean => d.Bit?
    case Decimal => d.Decimal64? || d.Decimal128? || d.Decimal256?
    case Date => d.Date32? || d.Date64?
    case Time => (d.Time32? && Unit32(d.unit)) || (d.Time64? && !Unit32(d.unit))
    case DateTime | TimestampWithTimeZone => d.Timestamp?
    case Other => false
  }

  lemma PlainArrays(t: ColumnType, d: DataType)
    requires IsPlain(NullKind(t)) && !t.Other?
    ensures Reads(t, d) <==> Stores(d, NullKind(t))
  {
  }

  lemma DatetimeArrays(t: ColumnType, k: Kind, d: DataType)
    requires Holds(t, k) && IsDatetime(t)
    ensures Reads(t, d) && !d.Date64? && !k.ChronoDateTimeOffset? <==> Stores(d, k)
  {
  }

  // A column is read from exactly the array types that store its field, but for Date64, which is only
  // read, and for date-times with an offset, which are stored in none.
  lemma ReadsWhatIsStored(t: ColumnType, k: Kind, d: DataType)
    requires Holds(t, k)
    ensures Reads(t, d) && !d.Date64? && !k.ChronoDateTimeOffset? <==> Stores(d, k)
  {
    if IsDatetime(t) {
      DatetimeArrays(t, k, d);
    } else if !t.Decimal? && !t.Other? {
      PlainArrays(t, d);
    }
  }

  // The width of a whole number, negative for an unsigned one, and 0 for anything else.
  function KindBits(k: Kind): int {
    match k
    case TinyInt => 8 case SmallInt => 16 case Int => 32 case BigInt => 64
    case TinyUnsigned => -8 case SmallUnsigned => -16 case Unsigned => -32 case BigUnsigned => -64
    case _ => 0
  }

  function ArrayBits(d: DataType): int {
    match d
    case Int8 => 8 case Int16 => 16 case Int32 => 32 case Int64 => 64
    case UInt8 => -8 case UInt16 => -16 case UInt32 => -32 case UInt64 => -64
    case _ => 0
  }

  // Whole numbers are stored at their own width and sign only. A time of day is stored in the narrower of the
  // two widths that holds a day of the unit, and in no other.
  lemma Widths(k: Kind, d: DataType, u: TimeUnit)
    ensures KindBits(k) != 0 || ArrayBits(d) != 0 ==> (Stores(d, k) <==> KindBits(k) == ArrayBits(d))
    ensures k.ChronoTime? || k.TimeTime? ==>
      && (Stores(Time32(u), k) <==> FitsI32(86_400 * PerSecond(u)))
      && (Stores(Time64(u), k) <==> !FitsI32(86_400 * PerSecond(u)))
      && (Stores(d, k) ==> d.Time32? || d.Time64?)
  {
  }

  predicate IsDecimal(d: DataType) { d.Decimal64? || d.Decimal128? || d.Decimal256? }
  predicate IsTimed(d: DataType) { d.Time32? || d.Time64? || d.Timestamp? }

  function UnitOf(d: DataType): TimeUnit { if IsTimed(d) then d.unit else Second }
  function ScaleOf(d: DataType): I8 { if IsDecimal(d) then d.scale else 0 }

  // What to_arrow can build. Decimal arrays check precision and scale, not their cells.
  predicate Buildable(d: DataType) {
    if d.Date64? || d.Unsupported? then false
    else if d.Time32? then Unit32(d.unit)
    else if d.Time64? then !Unit32(d.unit)
    else if d.Decimal64? then Precise(d.precision, d.scale, 18)
    else if d.Decimal128? then Precise(d.precision, d.scale, 38)
    else if d.Decimal256? then Precise(d.precision, d.scale, 76)
    else true
  }

  predicate Precise(precision: nat, scale: I8, max: nat) {
    1 <= precision <= max && scale <= max && (scale > 0 ==> scale <= precision)
  }

  // ---- Storing a value ----

  datatype Cell = Bits(payload: Payload) | Number(n: int)

  predicate InShape(d: DataType, cell: Cell) {
    cell.Number? == (IsDecimal(d) || IsTimed(d) || d.Date32? || d.Date64?)
  }

  predicate ValidCell(d: DataType, cell: Option<Cell>) {
    cell.Some? ==> InShape(d, cell.value)
  }

  // The cells an array can have; decimals may exceed the precision.
  predicate CellOf(d: DataType, cell: Cell) {
    && InShape(d, cell)
    && (d.Date32? || d.Time32? ==> FitsI32(cell.n))
    && (d.Date64? || d.Time64? || d.Timestamp? || d.Decimal64? ==> FitsI64(cell.n))
    && (d.Decimal128? ==> Dec.FitsI128(cell.n))
    && (d.Decimal256? ==> -I256.Half() <= cell.n < I256.Half())
  }

  function EncodeTime(v: Value, u: TimeUnit): Option<Cell> {
    if v.Naive? then Some(Number(Clock.ExtractChrono(v.naive, u)))
    else if v.Hms? then Some(Number(Clock.ExtractTime(v.time, u)))
    else None
  }

  function EncodeInstant(v: Value, u: TimeUnit): Option<Cell> {
    if v.Chrono? && !v.kind.ChronoDateTimeOffset? then Some(Number(Instant.ExtractChrono(v.dt, u)))
    else if v.Unix? then Some(Number(Instant.ExtractTime(v.nanos, u)))
    else None
  }

  function FromDecimal(c: Dec.Cell): Attempt<Option<Cell>> {
    match c
    case Overflow => Panic
    case Null => Done(None)
    case Number(n) => Done(Some(Number(n)))
  }

  function EncodeDecimal(number: Dec.Value, d: DataType): Dec.Cell
    requires IsDecimal(d)
  {
    if d.Decimal64? then Dec.ExtractDecimal64(number, d.scale)
    else if d.Decimal128? then Dec.ExtractDecimal128(number, d.scale)
    else Dec.ExtractDecimal256(number, d.scale)
  }

  // Bytes of another length than a fixed-size array's are an error.
  function EncodeElse(v: Value, d: DataType): Attempt<Option<Cell>> {
    if d.Date32? then Done(if v.Day? then Some(Number(v.days)) else None)
    else if d.Time32? then Done(if Unit32(d.unit) then EncodeTime(v, d.unit) else None)
    else if d.Time64? then Done(if Unit32(d.unit) then None else EncodeTime(v, d.unit))
    else if d.Timestamp? then Done(EncodeInstant(v, d.unit))
    else if !(v.Plain? && Stores(d, v.kind)) then Done(None)
    else if d.FixedSizeBinary? && !(v.payload.Blob? && |v.payload.bytes| == d.width) then Error
    else Done(Some(Bits(v.payload)))
  }

  function Encode(v: Value, d: DataType): Attempt<Option<Cell>> {
    if v.Money? then if IsDecimal(d) then FromDecimal(EncodeDecimal(v.number, d)) else Done(None)
    else if IsDecimal(d) then Done(None)
    else EncodeElse(v, d)
  }

  lemma ElseShape(v: Value, d: DataType)
    requires !IsDecimal(d)
    ensures EncodeElse(v, d).Done? ==> ValidCell(d, EncodeElse(v, d).value)
    ensures !EncodeElse(v, d).Panic? && (EncodeElse(v, d).Error? ==> d.FixedSizeBinary?)
  {
  }

  // Every stored cell is of its array's kind; only wrong byte lengths are errors and only decimals panic.
  lemma EncodedShape(v: Value, d: DataType)
    ensures Encode(v, d).Done? ==> ValidCell(d, Encode(v, d).value)
    ensures Encode(v, d).Error? ==> d.FixedSizeBinary?
    ensures Encode(v, d).Panic? ==> IsDecimal(d)
  {
    if !IsDecimal(d) { ElseShape(v, d); }
  }

  // ---- Reading a cell ----

  // rust_decimal panics beyond its bounds.
  function DecodeDecimal(n: int, d: DataType): Attempt<Value>
    requires IsDecimal(d)
  {
    var number := if d.Decimal64? then Dec.Decimal64ToValue(n, d.scale)
                  else if d.Decimal128? then Dec.Decimal128ToValue(n, d.precision, d.scale)
                  else Dec.BigDecimal(n, d.scale);
    if Dec.ValidDecimal(number) then Done(Money(number)) else Panic
  }

  // A Date64 cell is in milliseconds.
  function DaysIn(n: int, d: DataType): int {
    if d.Date64? then TruncDiv(n, 86_400_000) else n
  }

  // An instant of either library in a value.
  function InChrono(decoded: Option<Instant.DateTime>, k: Kind): Attempt<Value> {
    if decoded.None? then Error else Done(Chrono(k, decoded.value))
  }

  function InUnix(decoded: Option<int>, k: Kind): Attempt<Value> {
    if decoded.None? then Error else Done(Unix(k, decoded.value))
  }

  // A null is read without looking at the array's type. chrono cannot count the smallest i64 of
  // milliseconds.
  function Read(t: ColumnType, d: DataType, cell: Option<Cell>, lim: Limits): Attempt<Value>
    requires ValidCell(d, cell)
  {
    if cell.None? then Done(Null(NullKind(t)))
    else if !Reads(t, d) then Error
    else if t.Decimal? then DecodeDecimal(cell.value.n, d)
    else if t.Date? then
      if d.Date64? && cell.value.n == -TWO_63 then Panic
      else if OnDay(DaysIn(cell.value.n, d), lim.chrono) then Done(Day(ChronoDate, DaysIn(cell.value.n, d)))
      else Error
    else if t.Time? then
      var time := Clock.DecodeChrono(cell.value.n, d.unit);
      if time.None? then Error else Done(Naive(time.value))
    else if t.DateTime? then InChrono(Instant.DecodeChrono(cell.value.n, d.unit, lim.chrono), ChronoDateTime)
    else if t.TimestampWithTimeZone? then
      InChrono(Instant.DecodeChrono(cell.value.n, d.unit, lim.chrono), ChronoDateTimeUtc)
    else Done(Plain(NullKind(t), cell.value.payload))
  }

  // The same cell in the time crate's types.
  function ReadTime(t: ColumnType, d: DataType, cell: Option<Cell>, lim: Limits): Attempt<Value>
    requires IsDatetime(t)
    requires ValidCell(d, cell)
  {
    if cell.None? then Done(Null(NullKindTime(t)))
    else if !Reads(t, d) then Error
    else if t.Date? then
      if OnDay(DaysIn(cell.value.n, d), lim.time) then Done(Day(TimeDate, DaysIn(cell.value.n, d))) else Error
    else if t.Time? then
      var time := Clock.DecodeTime(cell.value.n, d.unit);
      if time.None? then Error else Done(Hms(time.value))
    else InUnix(Instant.DecodeTime(cell.value.n, d.unit, lim.time), NullKindTime(t))
  }

  // try_set: a value of the field's own variant, and a null only for an Option.
  predicate CanHold(c: Column, v: Value) {
    KindOf(v) == c.kind && (v.Null? ==> c.optional)
  }

  // chrono first; a field that does not take the value is tried again with the time crate, but only in a
  // date or time column.
  function ReadInto(c: Column, d: DataType, cell: Option<Cell>, lim: Limits): Attempt<Value>
    requires ValidCell(d, cell)
  {
    match Read(c.columnType, d, cell, lim)
    case Error => Error
    case Panic => Panic
    case Done(v) =>
      if CanHold(c, v) then Done(v)
      else if !IsDatetime(c.columnType) then Error
      else
        var again := ReadTime(c.columnType, d, cell, lim);
        if again.Done? && !CanHold(c, again.value) then Error else again
  }

  // ---- Which values come back ----

  // A value its field can have.
  predicate FieldValue(c: Column, v: Value, lim: Limits) {
    CanHold(c, v) && Valid(v, lim)
  }

  // A column of its field's type, and an array to_arrow can build that the column is read from.
  predicate Suits(c: Column, d: DataType) {
    Holds(c.columnType, c.kind) && Buildable(d) && Reads(c.columnType, d)
  }

  // Decimals are compared as numbers, like the libraries do.
  predicate Same(v: Value, w: Value) {
    if v.Money? && w.Money? then KindOf(v) == KindOf(w) && Dec.SameNumber(v.number, w.number) else v == w
  }

  // A null comes back to an Option, unless it is read as another variant: in a column declared with another
  // type, and for a big decimal or a date-time with an offset. A column of a type Arrow does not know is read
  // as an integer.
  predicate NullReturns(c: Column) {
    c.optional && if c.columnType.Other? then c.kind.Int?
                  else Holds(c.columnType, c.kind) && !c.kind.BigDecimal? && !c.kind.ChronoDateTimeOffset?
  }

  // The arrays whose cells are read as rust_decimal's decimals; all others are read as big decimals.
  predicate ReadsSmall(d: DataType) {
    (d.Decimal64? && d.scale >= 0) || (d.Decimal128? && d.precision <= 28 && 0 <= d.scale <= 28)
  }

  predicate Below96(r: int) { -Dec.TWO_96 < r < Dec.TWO_96 }

  // r is the number at the scale of the column. Too wide for 64 bits it is stored as null.
  predicate DecimalReturns(c: Column, d: DataType, r: int) {
    if d.Decimal64? && !FitsI64(r) then c.optional else ReadsSmall(d) && Below96(r)
  }

  predicate BigDecimalReturns(d: DataType, r: int) {
    if d.Decimal64? then !ReadsSmall(d) && FitsI64(r)
    else if d.Decimal128? then !ReadsSmall(d) && Dec.FitsI128(r)
    else -I256.Modulus() < r < I256.Modulus()
  }

  // The only cell that panics: a number too wide for the decimal its column is read as.
  predicate ReadPanics(d: DataType, r: int) {
    d.Decimal128? && ReadsSmall(d) && Dec.FitsI128(r) && !Below96(r)
  }

  // A leap second rounded into the next day.
  predicate PastMidnight(t: Clock.NaiveTime, u: TimeUnit) {
    u.Millisecond? && t.frac >= 1_000_000_000 && t.secs == 86_399
  }

  // A leap second rounded out of chrono's range.
  predicate PastTheEnd(dt: Instant.DateTime, u: TimeUnit, lim: Limits) {
    && dt.nsec >= 1_000_000_000 && !u.Second? && !(u.Nanosecond? && !FitsI64(dt.Nanos()))
    && !lim.chrono.Contains(dt.secs + 1)
  }

  predicate MoneyReturns(c: Column, number: Dec.Value, d: DataType) {
    var r := Dec.Rescaled(number, ScaleOf(d));
    if number.Decimal? then DecimalReturns(c, d, r) else BigDecimalReturns(d, r)
  }

  predicate ElseReturns(c: Column, v: Value, d: DataType, lim: Limits) {
    if v.Null? then NullReturns(c)
    else if v.Naive? then !PastMidnight(v.naive, UnitOf(d))
    else if v.Chrono? then !v.kind.ChronoDateTimeOffset? && !PastTheEnd(v.dt, UnitOf(d), lim)
    else true
  }

  // When from_arrow accepts what to_arrow stored for v. If the array or the column does not suit the field,
  // it accepts nulls only, and a value is a null if the array does not store it.
  predicate Returns(c: Column, v: Value, d: DataType, lim: Limits) {
    if !Suits(c, d) then NullReturns(c) && (v.Null? || !Stores(d, c.kind))
    else if v.Money? then MoneyReturns(c, v.number, d)
    else ElseReturns(c, v, d, lim)
  }

  predicate WholeMoney(number: Dec.Value, d: DataType) {
    var r := Dec.Rescaled(number, ScaleOf(d));
    && Dec.WholeUnits(number, ScaleOf(d))
    && (d.Decimal64? ==> FitsI64(r)) && (d.Decimal256? ==> -I256.Half() <= r < I256.Half())
  }

  predicate WholeElse(v: Value, u: TimeUnit) {
    if v.Naive? then v.naive.frac < 1_000_000_000 && Whole(v.naive.frac, u)
    else if v.Hms? then Whole(v.time.nano, u)
    else if v.Chrono? then
      v.dt.nsec < 1_000_000_000 && Whole(v.dt.nsec, u) && (u.Nanosecond? ==> FitsI64(v.dt.Nanos()))
    else if v.Unix? then Whole(v.nanos, u) && (u.Nanosecond? ==> FitsI64(v.nanos))
    else true
  }

  // When it comes back equal: whole units of the column, within the range of its cells, or a null.
  predicate Survives(c: Column, v: Value, d: DataType, lim: Limits) {
    Returns(c, v, d, lim) &&
    if !Suits(c, d) then v.Null?
    else if v.Money? then WholeMoney(v.number, d)
    else WholeElse(v, UnitOf(d))
  }

  // ---- One family at a time ----

  // What one cell's round trip has to be, for anything but a decimal.
  ghost predicate ElseComes(c: Column, v: Value, d: DataType, cell: Option<Cell>, lim: Limits) {
    && ValidCell(d, cell)
    && var back := ReadInto(c, d, cell, lim);
       && (if ElseReturns(c, v, d, lim) then back.Done? else back.Error?)
       && (back.Done? ==> CanHold(c, back.value) && (back.value == v <==> WholeElse(v, UnitOf(d))))
  }

  ghost predicate MoneyComes(c: Column, number: Dec.Value, d: DataType, cell: Option<Cell>, lim: Limits) {
    && ValidCell(d, cell)
    && var back := ReadInto(c, d, cell, lim);
       && (back.Done? <==> MoneyReturns(c, number, d))
       && (back.Panic? <==> ReadPanics(d, Dec.Rescaled(number, ScaleOf(d))))
       && (back.Done? ==> CanHold(c, back.value) && (Same(Money(number), back.value) <==> WholeMoney(number, d)))
  }

  // The cell of a decimal, and of a big decimal, that is r at the scale of the column.
  predicate DecimalCell(d: DataType, r: int, cell: Option<Cell>) {
    && Dec.FitsI128(r) && -I256.Half() <= r < I256.Half()
    && cell == if d.Decimal64? && !FitsI64(r) then None else Some(Number(r))
  }

  predicate BigDecimalCell(d: DataType, r: int, cell: Option<Cell>) {
    && (cell.Some? <==> if d.Decimal64? then FitsI64(r)
                        else if d.Decimal128? then Dec.FitsI128(r)
                        else -I256.Modulus() < r < I256.Modulus())
    && (cell.Some? ==>
          && cell.value.Number? && (d.Decimal128? ==> Dec.FitsI128(cell.value.n))
          && (cell.value.n == r <==> (d.Decimal256? ==> -I256.Half() <= r < I256.Half())))
  }

  // A decimal that is stored is within reach of the column's scale.
  lemma DecimalStored(number: Dec.Value, d: DataType, cell: Option<Cell>)
    requires number.Decimal? && Dec.ValidDecimal(number)
    requires IsDecimal(d) && FromDecimal(EncodeDecimal(number, d)) == Done(cell)
    ensures DecimalCell(d, Dec.Rescaled(number, d.scale), cell)
  {
    Dec.RescaleIsWithScale(number.mantissa, number.scale, d.scale);
    I256.HoldsI128();
  }

  lemma BigDecimalStored(number: Dec.Value, d: DataType, cell: Option<Cell>)
    requires number.BigDecimal?
    requires IsDecimal(d) && FromDecimal(EncodeDecimal(number, d)) == Done(cell)
    ensures BigDecimalCell(d, Dec.Rescaled(number, d.scale), cell)
  {
    I256.EncodeIsTheResidue(Dec.Rescaled(number, d.scale), 0, 0);
  }

  // Reading a decimal back: rust_decimal's own cells, big decimals, which the field refuses, or a panic.
  lemma DecimalRead(c: Column, d: DataType, r: int, cell: Option<Cell>, lim: Limits)
    requires c.columnType.Decimal? && c.kind.Decimal? && Suits(c, d) && DecimalCell(d, r, cell)
    ensures var back := ReadInto(c, d, cell, lim);
            && (back.Done? <==> DecimalReturns(c, d, r))
            && (back.Panic? <==> ReadPanics(d, r))
            && (back.Done? ==> back.value == if cell.None? then Null(Kind.Decimal) else Money(Dec.Decimal(r, d.scale)))
  {
  }

  // Reading a big decimal back: a big decimal; a decimal or a null of one, which the field refuses; or a
  // panic.
  lemma BigDecimalRead(c: Column, d: DataType, r: int, wide: bool, cell: Option<Cell>, lim: Limits)
    requires c.columnType.Decimal? && c.kind.BigDecimal? && Suits(c, d)
    requires cell.Some? <==> if d.Decimal64? then FitsI64(r) else if d.Decimal128? then Dec.FitsI128(r) else wide
    requires cell.Some? ==> cell.value.Number? && (!d.Decimal256? ==> cell.value.n == r)
    ensures var back := ReadInto(c, d, cell, lim);
            && (back.Done? <==> cell.Some? && !ReadsSmall(d))
            && (back.Panic? <==> ReadPanics(d, r))
            && (back.Done? ==> back.value == Money(Dec.BigDecimal(cell.value.n, d.scale)))
  {
  }

  lemma MoneyReadBack(c: Column, number: Dec.Value, d: DataType, cell: Option<Cell>, lim: Limits)
    requires FieldValue(c, Money(number), lim) && Suits(c, d) && IsDecimal(d)
    requires FromDecimal(EncodeDecimal(number, d)) == Done(cell)
    ensures MoneyComes(c, number, d, cell, lim)
  {
    var r := Dec.Rescaled(number, ScaleOf(d));
    if number.Decimal? {
      DecimalStored(number, d, cell);
      DecimalRead(c, d, r, cell, lim);
      Dec.OneNumber(number, Dec.Decimal(r, d.scale));
    } else {
      BigDecimalStored(number, d, cell);
      BigDecimalRead(c, d, r, cell.Some?, cell, lim);
      if cell.Some? { Dec.OneNumber(number, Dec.BigDecimal(cell.value.n, d.scale)); }
    }
  }

  lemma DayReadBack(c: Column, v: Value, d: DataType, lim: Limits)
    requires lim.Sound() && FieldValue(c, v, lim) && Suits(c, d) && v.Day? && d.Date32?
    ensures ElseComes(c, v, d, Some(Number(v.days)), lim)
  {
  }

  lemma NaiveReadBack(c: Column, v: Value, d: DataType, lim: Limits)
    requires FieldValue(c, v, lim) && Suits(c, d) && v.Naive? && IsTimed(d)
    ensures ElseComes(c, v, d, Some(Number(Clock.ExtractChrono(v.naive, d.unit))), lim)
  {
    Clock.ReadBackChrono(v.naive, d.unit);
  }

  lemma HmsReadBack(c: Column, v: Value, d: DataType, lim: Limits)
    requires FieldValue(c, v, lim) && Suits(c, d) && v.Hms? && IsTimed(d)
    ensures ElseComes(c, v, d, Some(Number(Clock.ExtractTime(v.time, d.unit))), lim)
  {
    Clock.ReadBackTime(v.time, d.unit);
  }

  lemma ChronoReadBack(c: Column, v: Value, d: DataType, lim: Limits)
    requires lim.Sound() && FieldValue(c, v, lim) && Suits(c, d) && v.Chrono? && IsTimed(d)
    requires !v.kind.ChronoDateTimeOffset?
    ensures ElseComes(c, v, d, Some(Number(Instant.ExtractChrono(v.dt, d.unit))), lim)
  {
    Instant.ChronoReturns(v.dt, d.unit, lim.chrono);
  }

  lemma UnixReadBack(c: Column, v: Value, d: DataType, lim: Limits)
    requires lim.Sound() && FieldValue(c, v, lim) && Suits(c, d) && v.Unix? && IsTimed(d)
    ensures ElseComes(c, v, d, Some(Number(Instant.ExtractTime(v.nanos, d.unit))), lim)
  {
    Instant.TimeReturns(v.nanos, d.unit, lim.chrono, lim.time);
  }

  lemma NullRead(c: Column, d: DataType, lim: Limits)
    ensures ReadInto(c, d, None, lim) == if NullReturns(c) then Done(Null(c.kind)) else Error
  {
  }

  // Nulls, and the values no array stores.
  lemma NullReadBack(c: Column, v: Value, d: DataType, lim: Limits)
    requires FieldValue(c, v, lim) && Suits(c, d)
    requires v.Null? || (v.Chrono? && v.kind.ChronoDateTimeOffset?)
    ensures ElseComes(c, v, d, None, lim)
  {
    NullRead(c, d, lim);
  }

  lemma PlainRead(t: ColumnType, d: DataType, payload: Payload, lim: Limits)
    requires Reads(t, d) && IsPlain(NullKind(t)) && !t.Decimal? && !t.Other?
    ensures Read(t, d, Some(Bits(payload)), lim) == Done(Plain(NullKind(t), payload))
  {
  }

  lemma PlainReadBack(c: Column, v: Value, d: DataType, lim: Limits)
    requires FieldValue(c, v, lim) && Suits(c, d) && v.Plain? && IsPlain(v.kind)
    ensures Stores(d, v.kind) && ElseComes(c, v, d, Some(Bits(v.payload)), lim)
  {
    ReadsWhatIsStored(c.columnType, c.kind, d);
    PlainRead(c.columnType, d, v.payload, lim);
  }

  // What is stored for anything but a decimal.
  lemma ElseStored(v: Value, d: DataType, cell: Option<Cell>, lim: Limits)
    requires Valid(v, lim) && Buildable(d)
    requires !v.Money? && !IsDecimal(d) && EncodeElse(v, d) == Done(cell)
    ensures cell.Some? <==> !v.Null? && Stores(d, KindOf(v))
    ensures cell.Some? && v.Plain? ==> cell == Some(Bits(v.payload))
    ensures cell.Some? && v.Day? ==> d.Date32? && cell == Some(Number(v.days))
    ensures cell.Some? && v.Naive? ==> IsTimed(d) && cell == Some(Number(Clock.ExtractChrono(v.naive, d.unit)))
    ensures cell.Some? && v.Hms? ==> IsTimed(d) && cell == Some(Number(Clock.ExtractTime(v.time, d.unit)))
    ensures cell.Some? && v.Chrono? ==> IsTimed(d) && cell == Some(Number(Instant.ExtractChrono(v.dt, d.unit)))
    ensures cell.Some? && v.Unix? ==> IsTimed(d) && cell == Some(Number(Instant.ExtractTime(v.nanos, d.unit)))
  {
  }

  lemma ElseReadBack(c: Column, v: Value, d: DataType, cell: Option<Cell>, lim: Limits)
    requires lim.Sound() && FieldValue(c, v, lim) && Suits(c, d)
    requires !v.Money? && !IsDecimal(d) && EncodeElse(v, d) == Done(cell)
    ensures ElseComes(c, v, d, cell, lim)
  {
    ElseStored(v, d, cell, lim);
    ReadsWhatIsStored(c.columnType, c.kind, d);
    match v
    case Null(_) => NullReadBack(c, v, d, lim);
    case Plain(_, _) => PlainReadBack(c, v, d, lim);
    case Day(_, _) => DayReadBack(c, v, d, lim);
    case Naive(_) => NaiveReadBack(c, v, d, lim);
    case Hms(_) => HmsReadBack(c, v, d, lim);
    case Chrono(k, _) =>
      if k.ChronoDateTimeOffset? { NullReadBack(c, v, d, lim); } else { ChronoReadBack(c, v, d, lim); }
    case Unix(_, _) => UnixReadBack(c, v, d, lim);
  }

  // ---- Arrays and columns that do not suit the field ----

  // A cell is read as a variant its column has.
  lemma ReadAsColumn(t: ColumnType, d: DataType, cell: Cell, lim: Limits)
    requires InShape(d, cell)
    ensures var v := Read(t, d, Some(cell), lim); v.Done? ==> Holds(t, KindOf(v.value)) && !v.value.Null?
    ensures IsDatetime(t) ==>
      var v := ReadTime(t, d, Some(cell), lim); !v.Panic? && (v.Done? ==> Holds(t, KindOf(v.value)))
    ensures !IsDecimal(d) && !d.Date64? ==> !Read(t, d, Some(cell), lim).Panic?
    ensures !Reads(t, d) ==> Read(t, d, Some(cell), lim).Error?
  {
  }

  // So a stored value is never accepted where the column is declared with another type than the field's.
  lemma MismatchRead(c: Column, d: DataType, cell: Cell, lim: Limits)
    requires InShape(d, cell) && Stores(d, c.kind) && !Suits(c, d) && Buildable(d)
    ensures ReadInto(c, d, Some(cell), lim) == Error
  {
    ReadAsColumn(c.columnType, d, cell, lim);
    if Holds(c.columnType, c.kind) { ReadsWhatIsStored(c.columnType, c.kind, d); }
  }

  lemma MoneyStored(number: Dec.Value, d: DataType, cell: Option<Cell>)
    requires Encode(Money(number), d) == Done(cell)
    ensures cell.Some? ==> IsDecimal(d) && cell.value.Number?
  {
  }

  // A value the array does not store is null, and a null is read without looking at the array.
  lemma MismatchReadBack(c: Column, v: Value, d: DataType, cell: Option<Cell>, lim: Limits)
    requires FieldValue(c, v, lim) && Buildable(d) && !Suits(c, d) && Encode(v, d) == Done(cell)
    ensures ValidCell(d, cell)
    ensures ReadInto(c, d, cell, lim) == if Returns(c, v, d, lim) then Done(Null(c.kind)) else Error
  {
    EncodedShape(v, d);
    if v.Money? {
      MoneyStored(v.number, d, cell);
    } else if !IsDecimal(d) {
      ElseStored(v, d, cell, lim);
    }
    NullRead(c, d, lim);
    if cell.Some? { MismatchRead(c, d, cell.value, lim); }
  }

  // ---- The round trip of a cell ----

  // Whether the cell that is stored for v is accepted, exactly if Returns says so, panics, exactly for a
  // number too wide for the decimal of the column, and is equal, exactly if Survives says so. What is read the
  // field can hold.
  ghost predicate Comes(c: Column, v: Value, d: DataType, cell: Option<Cell>, lim: Limits) {
    && ValidCell(d, cell)
    && var back := ReadInto(c, d, cell, lim);
       && (back.Done? <==> Returns(c, v, d, lim))
       && (back.Panic? <==> v.Money? && Suits(c, d) && ReadPanics(d, Dec.Rescaled(v.number, ScaleOf(d))))
       && (back.Done? ==> CanHold(c, back.value) && (Same(v, back.value) <==> Survives(c, v, d, lim)))
  }

  lemma MoneyComesBack(c: Column, v: Value, d: DataType, cell: Option<Cell>, lim: Limits)
    requires FieldValue(c, v, lim) && Suits(c, d) && v.Money? && Encode(v, d) == Done(cell)
    ensures Comes(c, v, d, cell, lim)
  {
    assert IsDecimal(d);
    MoneyReadBack(c, v.number, d, cell, lim);
  }

  lemma ElseComesBack(c: Column, v: Value, d: DataType, cell: Option<Cell>, lim: Limits)
    requires lim.Sound() && FieldValue(c, v, lim) && Suits(c, d) && !v.Money? && Encode(v, d) == Done(cell)
    ensures Comes(c, v, d, cell, lim)
  {
    if IsDecimal(d) {
      assert v.Null?;
      NullReadBack(c, v, d, lim);
    } else {
      ElseReadBack(c, v, d, cell, lim);
    }
  }

  // For every value its field can have, in any column and any array that can be built.
  lemma ComesBack(c: Column, v: Value, d: DataType, lim: Limits)
    requires lim.Sound() && FieldValue(c, v, lim) && Buildable(d)
    ensures Encode(v, d).Done? ==> Comes(c, v, d, Encode(v, d).value, lim)
  {
    if Encode(v, d).Done? {
      var cell := Encode(v, d).value;
      if !Suits(c, d) {
        MismatchReadBack(c, v, d, cell, lim);
      } else if v.Money? {
        MoneyComesBack(c, v, d, cell, lim);
      } else {
        ElseComesBack(c, v, d, cell, lim);
      }
    }
  }

  // Every stored cell fits the width of its array.
  lemma StoredFits(v: Value, d: DataType, lim: Limits)
    requires lim.Sound() && Valid(v, lim) && Buildable(d)
    ensures Encode(v, d).Done? && Encode(v, d).value.Some? ==> CellOf(d, Encode(v, d).value.value)
  {
    if Encode(v, d).Done? {
      var cell := Encode(v, d).value;
      if v.Money? {
        if IsDecimal(d) { MoneyFits(v.number, d, cell); } else { assert cell.None?; }
      } else {
        if IsDecimal(d) { assert cell.None?; } else { ElseFits(v, d, cell, lim); }
      }
    }
  }

  lemma MoneyFits(number: Dec.Value, d: DataType, cell: Option<Cell>)
    requires Dec.ValidDecimal(number) && IsDecimal(d) && FromDecimal(EncodeDecimal(number, d)) == Done(cell)
    ensures cell.Some? ==> CellOf(d, cell.value)
  {
    if number.Decimal? {
      DecimalStored(number, d, cell);
    } else {
      I256.EncodeIsTheResidue(Dec.Rescaled(number, d.scale), 0, 0);
    }
  }

  lemma ElseFits(v: Value, d: DataType, cell: Option<Cell>, lim: Limits)
    requires lim.Sound() && Valid(v, lim) && Buildable(d)
    requires !v.Money? && !IsDecimal(d) && EncodeElse(v, d) == Done(cell)
    ensures cell.Some? ==> CellOf(d, cell.value)
  {
    ElseStored(v, d, cell, lim);
    if cell.Some? {
      if v.Naive? { Clock.ReadBackChrono(v.naive, d.unit); }
      if v.Hms? { Clock.ReadBackTime(v.time, d.unit); }
      if v.Chrono? { Instant.ChronoReturns(v.dt, d.unit, lim.chrono); }
      if v.Unix? { Instant.TimeReturns(v.nanos, d.unit, lim.chrono, lim.time); }
    }
  }

  // ---- Fields that never come back ----

  // The default array of a rust_decimal field has 38 digits, ten of them decimals. It is read as a big
  // decimal, which the field refuses: 1.5 is stored as 15_000_000_000, and reading it is an error, as for
  // every value that is stored at all.
  lemma DefaultDecimalsAreRefused(c: Column, m: int, s: int, cell: Option<Cell>, lim: Limits)
    requires c.columnType.Decimal? && c.kind.Decimal? && Dec.ValidDecimal(Dec.Decimal(m, s))
    requires Encode(Money(Dec.Decimal(m, s)), Decimal128(38, 10)) == Done(cell)
    ensures cell.Some? && cell.value.Number? && ReadInto(c, Decimal128(38, 10), cell, lim) == Error
    ensures Encode(Money(Dec.Decimal(15, 1)), Decimal128(38, 10)) == Done(Some(Number(15_000_000_000)))
  {
    var d := Decimal128(38, 10);
    DecimalStored(Dec.Decimal(m, s), d, cell);
    DecimalRead(c, d, Dec.WithScale(m, s, 10), cell, lim);
    Dec.SmallPowers();
    Dec.RescaleIsWithScale(15, 1, 10);
  }

  // A big decimal in a column of 64 or 128 bits that rust_decimal can read, and a null of one in any
  // decimal column.
  lemma BigDecimalsAreRefused(c: Column, number: Dec.Value, d: DataType, cell: Option<Cell>, lim: Limits)
    requires c.columnType.Decimal? && c.kind.BigDecimal? && number.BigDecimal?
    requires IsDecimal(d) && Buildable(d) && Encode(Money(number), d) == Done(cell)
    ensures cell.Some? ==> cell.value.Number?
    ensures ReadsSmall(d) || cell.None? ==> !ReadInto(c, d, cell, lim).Done?
    ensures ReadInto(c, d, None, lim) == Error
  {
    BigDecimalStored(number, d, cell);
    BigDecimalRead(c, d, Dec.Rescaled(number, d.scale), cell.Some?, cell, lim);
    NullRead(c, d, lim);
  }

  // A date-time with an offset of its own is stored as null, in every unit, and the null is refused.
  lemma OffsetsAreRefused(c: Column, v: Value, u: TimeUnit, lim: Limits)
    requires c.columnType.TimestampWithTimeZone? && c.kind.ChronoDateTimeOffset?
    requires v.Chrono? && v.kind.ChronoDateTimeOffset?
    ensures Encode(v, DataType.Timestamp(u)) == Done(None)
    ensures ReadInto(c, DataType.Timestamp(u), None, lim) == Error
  {
    NullRead(c, DataType.Timestamp(u), lim);
  }

  // ---- Values that are silently lost ----

  // Under an array its column is not read from a value is stored as null, and an optional field takes the
  // null back: no step reports an error.
  lemma WrongArrayLosesValue(c: Column, v: Value, d: DataType, lim: Limits)
    requires FieldValue(c, v, lim) && Holds(c.columnType, c.kind) && Buildable(d) && !Reads(c.columnType, d)
    ensures Encode(v, d) == Done(None)
    ensures ReadInto(c, d, None, lim) == if NullReturns(c) then Done(Null(c.kind)) else Error
  {
    ReadsWhatIsStored(c.columnType, c.kind, d);
    NullRead(c, d, lim);
    if !v.Money? && !IsDecimal(d) {
      EncodedShape(v, d);
      ElseStored(v, d, EncodeElse(v, d).value, lim);
    }
  }

  // Seven in an optional integer field, under a field of 64 bits in the schema.
  lemma SevenUnderInt64(name: string, lim: Limits) returns (c: Column, v: Value)
    ensures c == Column(name, Integer, Kind.Int, true) && v == Plain(Kind.Int, Scalar(7))
    ensures Encode(v, Int64) == Done(None)
    ensures ReadInto(c, Int64, None, lim) == Done(Null(Kind.Int)) && CanHold(c, Null(Kind.Int))
  {
    c, v := Column(name, Integer, Kind.Int, true), Plain(Kind.Int, Scalar(7));
    WrongArrayLosesValue(c, v, Int64, lim);
  }

  // ---- What is stored, and what is not ----

  // A number that does not fit the cells of the array.
  predicate TooWide(number: Dec.Value, d: DataType)
    requires IsDecimal(d)
  {
    var r := Dec.Rescaled(number, d.scale);
    if d.Decimal64? then !FitsI64(r)
    else if d.Decimal128? then !Dec.FitsI128(r)
    else !(-I256.Modulus() < r < I256.Modulus())
  }

  predicate WrongLength(v: Value, d: DataType) {
    d.FixedSizeBinary? && v.Plain? && v.kind.Bytes? && v.payload.Blob? && |v.payload.bytes| != d.width
  }

  predicate OutOfReach(v: Value, d: DataType) {
    IsDecimal(d) && v.Money? && v.number.Decimal? && !Dec.InReach(v.number.mantissa, v.number.scale, d.scale)
  }

  // Storing a value fails only for bytes of a wrong length, and panics only for a decimal out of reach.
  // Otherwise the cell is null exactly for a null, a value of another variant, and a number that is too wide.
  lemma EncodeOutcome(v: Value, d: DataType, lim: Limits)
    requires Valid(v, lim)
    ensures Encode(v, d).Error? <==> WrongLength(v, d)
    ensures Encode(v, d).Panic? <==> OutOfReach(v, d)
    ensures Encode(v, d).Done? ==>
      (Encode(v, d).value.None? <==>
         v.Null? || !Stores(d, KindOf(v)) || (IsDecimal(d) && v.Money? && TooWide(v.number, d)))
  {
    if v.Money? && IsDecimal(d) {
      MoneyOutcome(v.number, d);
    } else if !v.Money? && !IsDecimal(d) {
      ElseOutcome(v, d, lim);
    }
  }

  lemma MoneyOutcome(number: Dec.Value, d: DataType)
    requires Dec.ValidDecimal(number) && IsDecimal(d)
    ensures var cell := FromDecimal(EncodeDecimal(number, d));
            && !cell.Error? && (cell.Panic? <==> OutOfReach(Money(number), d))
            && (cell.Done? ==> (cell.value.None? <==> TooWide(number, d)))
  {
    if number.Decimal? {
      Dec.RescaleIsWithScale(number.mantissa, number.scale, d.scale);
      I256.HoldsI128();
    } else {
      I256.EncodeIsTheResidue(Dec.Rescaled(number, d.scale), 0, 0);
    }
  }

  lemma ElseOutcome(v: Value, d: DataType, lim: Limits)
    requires Valid(v, lim) && !v.Money? && !IsDecimal(d)
    ensures EncodeElse(v, d).Error? <==> WrongLength(v, d)
    ensures !EncodeElse(v, d).Panic?
    ensures EncodeElse(v, d).Done? ==> (EncodeElse(v, d).value.None? <==> v.Null? || !Stores(d, KindOf(v)))
  {
  }

  // What can be built is what stores anything, with a precision and a scale within Arrow's bounds.
  lemma WhatIsBuilt(d: DataType)
    ensures Buildable(d) <==>
      && (exists k :: Stores(d, k))
      && (IsDecimal(d) ==>
            var digits := if d.Decimal64? then 18 else if d.Decimal128? then 38 else 76;
            1 <= d.precision <= digits && (d.scale <= 0 || d.scale <= d.precision))
  {
    assert Stores(d, Kind.TinyInt) || Stores(d, Kind.SmallInt) || Stores(d, Kind.Int) || Stores(d, Kind.BigInt)
        || Stores(d, Kind.TinyUnsigned) || Stores(d, Kind.SmallUnsigned) || Stores(d, Kind.Unsigned)
        || Stores(d, Kind.BigUnsigned) || Stores(d, Kind.Float) || Stores(d, Kind.Double) || Stores(d, Kind.String)
        || Stores(d, Kind.Bytes) || Stores(d, Kind.Bool) || Stores(d, Kind.Decimal) || Stores(d, ChronoDate)
        || Stores(d, ChronoTime) || Stores(d, ChronoDateTime) || !Buildable(d);
  }

  // ---- Dates of any array ----

  // Every cell of a date array, of days or of milliseconds, is read as its day, counted toward 1970, exactly
  // if the library of the field has that day. Only the smallest number of milliseconds panics.
  lemma DateCells(c: Column, d: DataType, n: int, lim: Limits) returns (days: int)
    requires lim.Sound() && c.columnType.Date? && (c.kind.ChronoDate? || c.kind.TimeDate?)
    requires (d.Date32? && FitsI32(n)) || (d.Date64? && FitsI64(n))
    ensures d.Date32? ==> days == n
    ensures d.Date64? && n >= 0 ==> days * 86_400_000 <= n < (days + 1) * 86_400_000
    ensures d.Date64? && n <= 0 ==> (days - 1) * 86_400_000 < n <= days * 86_400_000
    ensures ReadInto(c, d, Some(Number(n)), lim) ==
            if d.Date64? && n == -0x8000_0000_0000_0000 then Panic
            else if (if c.kind.ChronoDate? then lim.chrono else lim.time).Contains(days * 86_400)
              then Done(Day(c.kind, days))
            else Error
  {
    days := if d.Date32? then n else TruncDiv(n, 86_400_000);
    TruncSplit(n, 86_400_000);
  }
}
