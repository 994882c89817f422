/** Column values of a rows event: decodeColumnValue and its helpers
    (mysql/decode/events/types/E_ROWS_EVENT.go). */
module MysqlColumns {
  import opened Bytes
  import opened MysqlDecimal

  const TYPE_TINY := 0x01
  const TYPE_SHORT := 0x02
  const TYPE_LONG := 0x03
  const TYPE_FLOAT := 0x04
  const TYPE_DOUBLE := 0x05
  const TYPE_NULL := 0x06
  const TYPE_TIMESTAMP := 0x07
  const TYPE_LONGLONG := 0x08
  const TYPE_INT24 := 0x09
  const TYPE_DATE := 0x0a
  const TYPE_TIME := 0x0b
  const TYPE_DATETIME := 0x0c
  const TYPE_YEAR := 0x0d
  const TYPE_NEWDATE := 0x0e
  const TYPE_VARCHAR := 0x0f
  const TYPE_BIT := 0x10
  const TYPE_TIMESTAMP2 := 0x11
  const TYPE_DATETIME2 := 0x12
  const TYPE_TIME2 := 0x13
  const TYPE_JSON := 0xf5
  const TYPE_NEWDECIMAL := 0xf6
  const TYPE_ENUM := 0xf7
  const TYPE_SET := 0xf8
  const TYPE_TINY_BLOB := 0xf9
  const TYPE_MEDIUM_BLOB := 0xfa
  const TYPE_LONG_BLOB := 0xfb
  const TYPE_BLOB := 0xfc
  const TYPE_VAR_STRING := 0xfd
  const TYPE_STRING := 0xfe
  const TYPE_GEOMETRY := 0xff

  type uint16 = x: int | 0 <= x < 0x1_0000

  /** A point in time as its parts, in the order that Go's time.Date takes them. */
  datatype Moment = Moment(year: nat, month: nat, day: nat, hour: nat, minute: nat, second: nat)

  /** The decoded Go value. Floats keep their bits, timestamps their seconds and dates their parts. */
  datatype Scalar = Nil | Int(n: int) | Float(bits: nat) | Unix(seconds: nat) | Time(moment: Moment)
    | DecimalString(s: string)

  datatype ColumnValue = ColumnValue(
    typ: byte, meta: uint16, isNull: bool, skipped: bool, value: Scalar, raw: Option<bytes>)

  datatype Resolved = Resolved(typ: byte, length: nat)

  /** A STRING column whose metadata carries a real type: bits 4 and 5 of the high byte, inverted, are
      bits 8 and 9 of the length, unless both are set. */
  function Resolve(typ: byte, meta: uint16): Resolved {
    if typ == TYPE_STRING && meta >= 256 then
      var b0, b1 := meta / 256, meta % 256;
      var high := b0 / 16 % 4;
      if high != 3 then Resolved(b0 + 16 * (3 - high), b1 + 256 * (3 - high)) else Resolved(b0, b1)
    else Resolved(typ, meta)
  }

  /** How a value of a type is laid out. */
  datatype Kind =
    | NullKind
    | IntKind(width: nat)
    | YearKind
    | FloatKind(width: nat)
    | TimestampKind
    | DateKind
    | DatetimeKind
    | TimeKind
    | FixedKind(size: nat)
    | DecimalKind(precision: nat, scale: nat)
    | BitKind(size: nat)
    | EnumKind(size: nat)
    | PrefixedKind(width: nat)
    | BadKind(error: Error)

  function FractionalBytes(meta: uint16): nat { (meta + 1) % 0x1_0000 / 2 }

  function KindOf(tp: byte, meta: uint16, length: nat): (k: Kind)
    ensures k.PrefixedKind? ==> 1 <= k.width <= 4
    ensures k.DecimalKind? ==> k.scale <= k.precision
    ensures k.BadKind? ==> k.error != EOF
  {
    if tp == TYPE_NULL then NullKind
    else if tp == TYPE_TINY then IntKind(1)
    else if tp == TYPE_SHORT then IntKind(2)
    else if tp == TYPE_LONG then IntKind(4)
    else if tp == TYPE_LONGLONG then IntKind(8)
    else if tp == TYPE_INT24 then IntKind(3)
    else if tp == TYPE_YEAR then YearKind
    else if tp == TYPE_FLOAT then FloatKind(4)
    else if tp == TYPE_DOUBLE then FloatKind(8)
    else if tp == TYPE_TIMESTAMP then TimestampKind
    else if tp == TYPE_DATE || tp == TYPE_NEWDATE then DateKind
    else if tp == TYPE_DATETIME then DatetimeKind
    else if tp == TYPE_TIME then TimeKind
    else if tp == TYPE_TIMESTAMP2 then FixedKind(4 + FractionalBytes(meta))
    else if tp == TYPE_DATETIME2 then FixedKind(5 + FractionalBytes(meta))
    else if tp == TYPE_TIME2 then FixedKind(3 + FractionalBytes(meta))
    else if tp == TYPE_NEWDECIMAL then
      (if DecimalBinarySize(meta).None? then BadKind(Invalid) else DecimalKind(meta / 256, meta % 256))
    else if tp == TYPE_BIT then BitKind((meta / 256 * 8 + meta % 256 + 7) / 8)
    else if tp == TYPE_ENUM then (if meta % 256 == 1 || meta % 256 == 2 then EnumKind(meta % 256) else BadKind(Invalid))
    else if tp == TYPE_SET then FixedKind(meta % 256)
    else if tp == TYPE_TINY_BLOB then PrefixedKind(1)
    else if tp == TYPE_MEDIUM_BLOB then PrefixedKind(3)
    else if tp == TYPE_LONG_BLOB then PrefixedKind(4)
    else if tp == TYPE_BLOB || tp == TYPE_JSON || tp == TYPE_GEOMETRY then
      (if 1 <= meta <= 4 then PrefixedKind(meta) else BadKind(UnexpectedEOF))
    else if tp == TYPE_VARCHAR || tp == TYPE_VAR_STRING || tp == TYPE_STRING then
      PrefixedKind(if length > 255 then 2 else 1)
    else BadKind(Invalid)
  }

  function ColumnKind(typ: byte, meta: uint16): Kind {
    KindOf(Resolve(typ, meta).typ, meta, Resolve(typ, meta).length)
  }

  /** Two's complement of `width` bytes. */
  function Signed(n: nat, width: nat): int {
    if 2 * n < Pow(256, width) then n else n - Pow(256, width)
  }

  datatype Decoded = Decoded(isNull: bool, value: Scalar, raw: Option<bytes>, size: nat)

  function Scalars(data: bytes, width: nat, make: nat -> Scalar): (r: Result<Decoded>)
    ensures r.Ok? ==> r.value.size == width <= |data|
    ensures r.Err? ==> r.error != EOF
  {
    if |data| < width then Err(UnexpectedEOF)
    else Ok(Decoded(false, make(LittleEndian(data[..width])), None, width))
  }

  function Fixed(data: bytes, size: nat, error: Error, make: bytes -> Scalar): (r: Result<Decoded>)
    requires error != EOF
    ensures r.Err? ==> r.error != EOF
    ensures r.Ok? ==> r.value.size == size <= |data|
  {
    if |data| < size then Err(error)
    else Ok(Decoded(false, make(data[..size]), Some(data[..size]), size))
  }

  function Prefixed(data: bytes, width: nat): (r: Result<Decoded>)
    ensures r.Ok? ==> width <= r.value.size <= |data|
    ensures r.Err? ==> r.error != EOF
  {
    if |data| < width then Err(UnexpectedEOF)
    else
      var length, rest := LittleEndian(data[..width]), data[width..];
      if |rest| < length then Err(UnexpectedEOF)
      else Ok(Decoded(false, Nil, Some(rest[..length]), width + length))
  }

  function DecimalValue(data: bytes, precision: nat, scale: nat): (r: Result<Decoded>)
    requires scale <= precision
    ensures r.Ok? ==> r.value.size == LayoutOf(precision, scale).Size() <= |data|
    ensures r.Err? ==> r.error != EOF
  {
    var size := LayoutOf(precision, scale).Size();
    if |data| < size then Err(Invalid)
    else
      var text :- DecimalText(data[..size], precision, scale);
      Ok(Decoded(false, DecimalString(text), Some(data[..size]), size))
  }

  /** A DATE: five bits of day, four of month, the rest the year. */
  function DateOf(n: nat): Moment { Moment(n / 512, n / 32 % 16, n % 32, 0, 0, 0) }

  /** A DATETIME: the decimal digits YYYYMMDDhhmmss. */
  function DatetimeOf(n: nat): Moment {
    var d, t := n / 1_000_000, n % 1_000_000;
    Moment(d / 10000, d % 10000 / 100, d % 100, t / 10000, t % 10000 / 100, t % 100)
  }

  function DecodeKind(data: bytes, kind: Kind): (r: Result<Decoded>)
    requires kind.DecimalKind? ==> kind.scale <= kind.precision
    requires kind.BadKind? ==> kind.error != EOF
    ensures r.Ok? ==> r.value.size <= |data|
    ensures r.Err? ==> r.error != EOF
  {
    match kind
    case NullKind => Ok(Decoded(true, Nil, None, 0))
    case IntKind(w) => Scalars(data, w, (n: nat) => Int(Signed(n, w)))
    case YearKind => Scalars(data, 1, (n: nat) => Int(if n != 0 then n + 1900 else 0))
    case FloatKind(w) => Scalars(data, w, (n: nat) => Float(n))
    case TimestampKind => Scalars(data, 4, (n: nat) => if n != 0 then Unix(n) else Nil)
    case DateKind => Scalars(data, 3, (n: nat) => if n != 0 then Time(DateOf(n)) else Nil)
    case DatetimeKind => Scalars(data, 8, (n: nat) => if n != 0 then Time(DatetimeOf(n)) else Nil)
    case TimeKind => Scalars(data, 3, (n: nat) => Int(n))
    case EnumKind(size) => Scalars(data, size, (n: nat) => Int(n))
    case FixedKind(size) => Fixed(data, size, UnexpectedEOF, _ => Nil)
    case DecimalKind(precision, scale) => DecimalValue(data, precision, scale)
    case BitKind(size) => Fixed(data, size, Invalid, b => Int(BigEndian(b) % TWO_64))
    case PrefixedKind(width) => Prefixed(data, width)
    case BadKind(error) => Err(error)
  }

  function DecodeColumnValue(data: bytes, typ: byte, meta: uint16): (r: Result<Decoded>)
    ensures r.Ok? ==> r.value.size <= |data|
    ensures r.Err? ==> r.error != EOF
  {
    DecodeKind(data, ColumnKind(typ, meta))
  }

  function ToColumn(typ: byte, meta: uint16, d: Decoded): ColumnValue {
    ColumnValue(typ, meta, d.isNull, false, d.value, d.raw)
  }

  // ---- what a server writes ----

  /** One column of a row as the server holds it; `Absent` is a column the image leaves out. */
  datatype Cell = Absent | Null | Number(n: int) | Octets(b: bytes) | Decimal(unscaled: int)
    | Instant(moment: Moment)

  const ZERO_DATE := Moment(0, 0, 0, 0, 0, 0)

  /** Dates a server stores; months and days may be zero. */
  predicate StorableMoment(m: Moment) {
    m.year < 10000 && m.month <= 12 && m.day <= 31 && m.hour < 24 && m.minute < 60 && m.second < 60
  }

  predicate StorableDate(m: Moment) { StorableMoment(m) && m.hour == m.minute == m.second == 0 }

  function DateNumber(m: Moment): nat { m.year * 512 + m.month * 32 + m.day }

  function DatetimeNumber(m: Moment): nat {
    (m.year * 10000 + m.month * 100 + m.day) * 1_000_000 + (m.hour * 10000 + m.minute * 100 + m.second)
  }

  predicate InRange(cell: Cell, low: int, high: int) { cell.Number? && low <= cell.n < high }

  /** A value the server can put in a column of this kind. */
  predicate Storable(cell: Cell, kind: Kind) {
    match kind
    case NullKind => false
    case IntKind(w) => cell.Number? && -2 * cell.n <= Pow(256, w) && 2 * cell.n < Pow(256, w)
    case YearKind => cell == Number(0) || InRange(cell, 1901, 2156)
    case FloatKind(w) => InRange(cell, 0, Pow(256, w))
    case TimestampKind => InRange(cell, 0, Pow(256, 4))
    case DateKind => cell.Instant? && StorableDate(cell.moment)
    case DatetimeKind => cell.Instant? && StorableMoment(cell.moment)
    case TimeKind => InRange(cell, 0, Pow(256, 3))
    case EnumKind(size) => InRange(cell, 0, Pow(256, size))
    case FixedKind(size) => cell.Octets? && |cell.b| == size
    case DecimalKind(p, s) => cell.Decimal? && s <= p && 1 <= p && Abs(cell.unscaled) < Pow(10, p)
    case BitKind(size) => size <= 8 && InRange(cell, 0, Pow(256, size))
    case PrefixedKind(w) => cell.Octets? && |cell.b| < Pow(256, w)
    case BadKind(_) => false
  }

  predicate IsValue(cell: Cell) { !cell.Absent? && !cell.Null? }

  predicate WellFormed(cell: Cell, typ: byte, meta: uint16) {
    IsValue(cell) ==> Storable(cell, ColumnKind(typ, meta))
  }

  function EncodeKind(cell: Cell, kind: Kind): bytes
    requires Storable(cell, kind)
  {
    match kind
    case IntKind(w) => EncodeLittleEndian(if cell.n < 0 then cell.n + Pow(256, w) else cell.n, w)
    case YearKind => EncodeLittleEndian(if cell.n == 0 then 0 else cell.n - 1900, 1)
    case FloatKind(w) => EncodeLittleEndian(cell.n, w)
    case TimestampKind => EncodeLittleEndian(cell.n, 4)
    case DateKind => EncodeLittleEndian(DateNumber(cell.moment), 3)
    case DatetimeKind => EncodeLittleEndian(DatetimeNumber(cell.moment), 8)
    case TimeKind => EncodeLittleEndian(cell.n, 3)
    case EnumKind(size) => EncodeLittleEndian(cell.n, size)
    case FixedKind(_) => cell.b
    case DecimalKind(p, s) => EncodeDecimal(cell.unscaled, p, s)
    case BitKind(size) => EncodeBigEndian(cell.n, size)
    case PrefixedKind(w) => EncodeLittleEndian(|cell.b|, w) + cell.b
  }

  function EncodeCell(cell: Cell, typ: byte, meta: uint16): bytes
    requires IsValue(cell) && WellFormed(cell, typ, meta)
  {
    EncodeKind(cell, ColumnKind(typ, meta))
  }

  /** What a reader must be told about a stored value. A DECIMAL is told as text denoting its number. */
  predicate Shows(value: Scalar, raw: Option<bytes>, cell: Cell, kind: Kind)
    requires Storable(cell, kind)
  {
    match kind
    case IntKind(_) => value == Int(cell.n) && raw == None
    case YearKind => value == Int(cell.n) && raw == None
    case TimeKind => value == Int(cell.n) && raw == None
    case EnumKind(_) => value == Int(cell.n) && raw == None
    case FloatKind(_) => value == Float(cell.n) && raw == None
    case TimestampKind => value == (if cell.n == 0 then Nil else Unix(cell.n)) && raw == None
    case DateKind => value == (if cell.moment == ZERO_DATE then Nil else Time(cell.moment)) && raw == None
    case DatetimeKind => value == (if cell.moment == ZERO_DATE then Nil else Time(cell.moment)) && raw == None
    case BitKind(size) => value == Int(cell.n) && raw == Some(EncodeBigEndian(cell.n, size))
    case FixedKind(_) => value == Nil && raw == Some(cell.b)
    case PrefixedKind(_) => value == Nil && raw == Some(cell.b)
    case DecimalKind(p, s) =>
      && value.DecimalString? && ReadDecimal(value.s) == Some(MysqlDecimal.Fixed(cell.unscaled, s))
      && raw == Some(EncodeDecimal(cell.unscaled, p, s))
  }

  /** `c` says about a column exactly what the server put there. */
  predicate Represents(c: ColumnValue, cell: Cell, typ: byte, meta: uint16)
    requires WellFormed(cell, typ, meta)
  {
    && c.typ == typ && c.meta == meta && c.skipped == cell.Absent? && c.isNull == cell.Null?
    && if IsValue(cell) then Shows(c.value, c.raw, cell, ColumnKind(typ, meta)) else c.value == Nil && c.raw == None
  }

  // ---- decoding a value inverts encoding it ----

  lemma ScalarRoundTrip(n: nat, width: nat, suffix: bytes, make: nat -> Scalar)
    requires n < Pow(256, width)
    ensures Scalars(EncodeLittleEndian(n, width) + suffix, width, make) == Ok(Decoded(false, make(n), None, width))
  {
    LittleEndianRoundTrip(n, width);
    Concat(EncodeLittleEndian(n, width), suffix);
  }

  lemma By16(q: nat, r: nat)
    requires r < 16
    ensures (q * 16 + r) / 16 == q && (q * 16 + r) % 16 == r
  {
  }

  lemma By32(q: nat, r: nat)
    requires r < 32
    ensures (q * 32 + r) / 32 == q && (q * 32 + r) % 32 == r
  {
  }

  lemma By512(n: nat)
    ensures n / 512 == n / 32 / 16
  {
  }

  lemma By100(q: nat, r: nat)
    requires r < 100
    ensures (q * 100 + r) / 100 == q && (q * 100 + r) % 100 == r
  {
  }

  lemma By10000(q: nat, r: nat)
    requires r < 10000
    ensures (q * 10000 + r) / 10000 == q && (q * 10000 + r) % 10000 == r
  {
  }

  lemma By1000000(q: nat, r: nat)
    requires r < 1_000_000
    ensures (q * 1_000_000 + r) / 1_000_000 == q && (q * 1_000_000 + r) % 1_000_000 == r
  {
  }

  lemma DateParts(year: nat, month: nat, day: nat)
    requires month < 16 && day < 32
    ensures var n := year * 512 + month * 32 + day;
            n / 512 == year && n / 32 % 16 == month && n % 32 == day
  {
    var q := year * 16 + month;
    By512(q * 32 + day);
    By32(q, day);
    By16(year, month);
  }

  lemma DateBounds(m: Moment)
    requires StorableDate(m)
    ensures DateNumber(m) < 0x100_0000 && (DateNumber(m) == 0 <==> m == ZERO_DATE)
  {
  }

  lemma DateRoundTrip(m: Moment)
    requires StorableDate(m)
    ensures DateOf(DateNumber(m)) == m && DateNumber(m) < Pow(256, 3) && (DateNumber(m) == 0 <==> m == ZERO_DATE)
  {
    hide Pow, DateNumber, DateOf;
    Powers256();
    DateBounds(m);
    DateIs(m);
  }

  lemma DateIs(m: Moment)
    requires StorableDate(m)
    ensures DateOf(DateNumber(m)) == m
  {
    DateParts(m.year, m.month, m.day);
  }

  /** Six decimal digits, two at a time but for the leading ones. */
  lemma SixDigits(a: nat, b: nat, c: nat)
    requires b < 100 && c < 100
    ensures var n := a * 10000 + b * 100 + c;
            n / 10000 == a && n % 10000 / 100 == b && n % 100 == c
  {
    By10000(a, b * 100 + c);
    By100(b, c);
    By100(a * 100 + b, c);
    assert a * 10000 + b * 100 + c == (a * 100 + b) * 100 + c == a * 10000 + (b * 100 + c);
  }

  lemma DatetimeSplit(d: nat, t: nat)
    requires t < 1_000_000
    ensures DatetimeOf(d * 1_000_000 + t)
            == Moment(d / 10000, d % 10000 / 100, d % 100, t / 10000, t % 10000 / 100, t % 100)
  {
    By1000000(d, t);
  }

  lemma DatetimeIs(m: Moment)
    requires StorableMoment(m)
    ensures DatetimeOf(DatetimeNumber(m)) == m
  {
    hide DatetimeOf;
    DatetimeSplit(m.year * 10000 + m.month * 100 + m.day, m.hour * 10000 + m.minute * 100 + m.second);
    SixDigits(m.year, m.month, m.day);
    SixDigits(m.hour, m.minute, m.second);
  }

  lemma DatetimeBounds(m: Moment)
    requires StorableMoment(m)
    ensures DatetimeNumber(m) < TWO_64 && (DatetimeNumber(m) == 0 <==> m == ZERO_DATE)
  {
  }

  lemma DatetimeRoundTrip(m: Moment)
    requires StorableMoment(m)
    ensures DatetimeOf(DatetimeNumber(m)) == m && DatetimeNumber(m) < Pow(256, 8)
    ensures DatetimeNumber(m) == 0 <==> m == ZERO_DATE
  {
    hide Pow, DatetimeNumber, DatetimeOf;
    Powers256();
    DatetimeBounds(m);
    DatetimeIs(m);
  }

  lemma SignedRoundTrip(n: int, width: nat, suffix: bytes)
    requires -2 * n <= Pow(256, width) && 2 * n < Pow(256, width)
    ensures var m := if n < 0 then n + Pow(256, width) else n;
            Scalars(EncodeLittleEndian(m, width) + suffix, width, (k: nat) => Int(Signed(k, width)))
            == Ok(Decoded(false, Int(n), None, width))
  {
    hide LittleEndian, EncodeLittleEndian, Pow, Scalars;
    ScalarRoundTrip(if n < 0 then n + Pow(256, width) else n, width, suffix, (k: nat) => Int(Signed(k, width)));
  }

  lemma {:induction false} PowMonotone(base: nat, a: nat, b: nat)
    requires base >= 1 && a <= b
    ensures Pow(base, a) <= Pow(base, b)
    decreases b
  {
    if a == b {
    } else {
      PowMonotone(base, a, b - 1);
    }
  }

  /** For every kind, value and suffix: the decoder returns the value and exactly its length. */
  lemma KindRoundTrip(cell: Cell, kind: Kind, suffix: bytes)
    requires Storable(cell, kind) && (kind.PrefixedKind? ==> kind.width <= 4)
    requires kind.DecimalKind? ==> kind.scale <= kind.precision
    ensures var r := DecodeKind(EncodeKind(cell, kind) + suffix, kind);
            && r.Ok? && r.value.size == |EncodeKind(cell, kind)| && !r.value.isNull
            && Shows(r.value.value, r.value.raw, cell, kind)
  {
    hide LittleEndian, EncodeLittleEndian, Pow, BigEndian, EncodeBigEndian, EncodeDecimal, ReadDecimal, DecimalText,
      Scalars, Prefixed, Signed, DateOf, DatetimeOf, DateNumber, DatetimeNumber;
    Concat(EncodeKind(cell, kind), suffix);
    match kind
    case IntKind(w) => SignedRoundTrip(cell.n, w, suffix);
    case YearKind =>
      Powers256();
      ScalarRoundTrip(if cell.n == 0 then 0 else cell.n - 1900, 1, suffix,
                      (n: nat) => Int(if n != 0 then n + 1900 else 0));
    case FloatKind(w) => ScalarRoundTrip(cell.n, w, suffix, (n: nat) => Float(n));
    case TimestampKind => ScalarRoundTrip(cell.n, 4, suffix, (n: nat) => if n != 0 then Unix(n) else Nil);
    case DateKind =>
      DateRoundTrip(cell.moment);
      ScalarRoundTrip(DateNumber(cell.moment), 3, suffix, (n: nat) => if n != 0 then Time(DateOf(n)) else Nil);
    case DatetimeKind =>
      DatetimeRoundTrip(cell.moment);
      ScalarRoundTrip(DatetimeNumber(cell.moment), 8, suffix, (n: nat) => if n != 0 then Time(DatetimeOf(n)) else Nil);
    case TimeKind => ScalarRoundTrip(cell.n, 3, suffix, (n: nat) => Int(n));
    case EnumKind(size) => ScalarRoundTrip(cell.n, size, suffix, (n: nat) => Int(n));
    case FixedKind(_) =>
    case DecimalKind(p, s) => DecimalRoundTrip(cell.unscaled, p, s);
    case BitKind(size) =>
      BigEndianRoundTrip(cell.n, size);
      PowMonotone(256, size, 8);
      Powers256();
    case PrefixedKind(w) => PrefixedRoundTrip(cell.b, w, suffix);
  }

  lemma PrefixedRoundTrip(b: bytes, width: nat, suffix: bytes)
    requires |b| < Pow(256, width)
    ensures Prefixed(EncodeLittleEndian(|b|, width) + b + suffix, width)
            == Ok(Decoded(false, Nil, Some(b), width + |b|))
  {
    hide LittleEndian, EncodeLittleEndian, Pow;
    LittleEndianRoundTrip(|b|, width);
    Assoc(EncodeLittleEndian(|b|, width), b, suffix);
    Concat(EncodeLittleEndian(|b|, width), b + suffix);
    Concat(b, suffix);
  }

  lemma ColumnRoundTrip(cell: Cell, typ: byte, meta: uint16, suffix: bytes)
    requires IsValue(cell) && WellFormed(cell, typ, meta)
    ensures var r := DecodeColumnValue(EncodeCell(cell, typ, meta) + suffix, typ, meta);
            && r.Ok? && r.value.size == |EncodeCell(cell, typ, meta)|
            && Represents(ToColumn(typ, meta, r.value), cell, typ, meta)
  {
    KindRoundTrip(cell, ColumnKind(typ, meta), suffix);
  }

  /** The metadata a server packs for CHAR(n) in a multi-byte character set. */
  function CharMeta(length: nat): uint16
    requires length < 1024
  {
    (0xfe - 16 * (length / 256)) * 256 + length % 256
  }

  /** Every CHAR length up to 1023 bytes survives being packed into the type byte. */
  lemma PackedCharLength(length: nat)
    requires length < 1024
    ensures Resolve(TYPE_STRING, CharMeta(length)) == Resolved(TYPE_STRING, length)
    ensures ColumnKind(TYPE_STRING, CharMeta(length)) == PrefixedKind(if length > 255 then 2 else 1)
  {
    var q := length / 256;
    assert q == 0 || q == 1 || q == 2 || q == 3;
  }
}
