/** The layout of every column type, in bytes: what a value of each wire type looks like and how it is told
    (mysql/decode/events/types/E_ROWS_EVENT.go). Types, widths and readings are spelled out here and shared with
    no part of the decoder. */
module MysqlColumnsWire {
  import opened Bytes
  import opened Numerals
  import opened MysqlDecimal
  import opened MysqlColumns

  // ---- numbers ----

  lemma IntegerOnWire(n: int, typ: byte, meta: uint16, width: nat, rest: bytes)
    requires ColumnKind(typ, meta) == IntKind(width)
    requires -2 * n <= Pow(256, width) && 2 * n < Pow(256, width)
    ensures var m := if n < 0 then n + Pow(256, width) else n;
            DecodeColumnValue(EncodeLittleEndian(m, width) + rest, typ, meta) == Ok(Decoded(false, Int(n), None, width))
  {
    hide LittleEndian, EncodeLittleEndian, Pow, Scalars, Signed, ColumnKind;
    SignedRoundTrip(n, width, rest);
  }

  lemma IntegerKinds(meta: uint16)
    ensures ColumnKind(0x01, meta) == IntKind(1) && ColumnKind(0x02, meta) == IntKind(2)
    ensures ColumnKind(0x09, meta) == IntKind(3) && ColumnKind(0x03, meta) == IntKind(4)
    ensures ColumnKind(0x08, meta) == IntKind(8)
  {
  }

  /** TINY, SHORT, INT24, LONG and LONGLONG are two's complement in 1, 2, 3, 4 and 8 bytes. */
  lemma IntegersOnWire(n: int, meta: uint16, rest: bytes)
    ensures -0x80 <= n < 0x80 ==>
      DecodeColumnValue(EncodeLittleEndian(n % 0x100, 1) + rest, 0x01, meta) == Ok(Decoded(false, Int(n), None, 1))
    ensures -0x8000 <= n < 0x8000 ==>
      DecodeColumnValue(EncodeLittleEndian(n % 0x1_0000, 2) + rest, 0x02, meta) == Ok(Decoded(false, Int(n), None, 2))
    ensures -0x80_0000 <= n < 0x80_0000 ==>
      DecodeColumnValue(EncodeLittleEndian(n % 0x100_0000, 3) + rest, 0x09, meta)
      == Ok(Decoded(false, Int(n), None, 3))
    ensures -0x8000_0000 <= n < 0x8000_0000 ==>
      DecodeColumnValue(EncodeLittleEndian(n % 0x1_0000_0000, 4) + rest, 0x03, meta)
      == Ok(Decoded(false, Int(n), None, 4))
    ensures -0x8000_0000_0000_0000 <= n < 0x8000_0000_0000_0000 ==>
      DecodeColumnValue(EncodeLittleEndian(n % 0x1_0000_0000_0000_0000, 8) + rest, 0x08, meta)
      == Ok(Decoded(false, Int(n), None, 8))
  {
    hide LittleEndian, EncodeLittleEndian, Pow, DecodeColumnValue, ColumnKind;
    Powers256();
    IntegerKinds(meta);
    if -0x80 <= n < 0x80 { IntegerOnWire(n, 0x01, meta, 1, rest); }
    if -0x8000 <= n < 0x8000 { IntegerOnWire(n, 0x02, meta, 2, rest); }
    if -0x80_0000 <= n < 0x80_0000 { IntegerOnWire(n, 0x09, meta, 3, rest); }
    if -0x8000_0000 <= n < 0x8000_0000 { IntegerOnWire(n, 0x03, meta, 4, rest); }
    if -0x8000_0000_0000_0000 <= n < 0x8000_0000_0000_0000 { IntegerOnWire(n, 0x08, meta, 8, rest); }
  }

  /** FLOAT and DOUBLE are 4 and 8 bytes of bits, TIME 3 bytes, a YEAR one byte counted from 1900 and a TIMESTAMP
      4 bytes of seconds; a zero year stays zero and a zero timestamp has no value. */
  lemma CountsOnWire(n: nat, meta: uint16, rest: bytes)
    ensures n < 0x1_0000_0000 ==>
      DecodeColumnValue(EncodeLittleEndian(n, 4) + rest, 0x04, meta) == Ok(Decoded(false, Float(n), None, 4))
    ensures n < 0x1_0000_0000_0000_0000 ==>
      DecodeColumnValue(EncodeLittleEndian(n, 8) + rest, 0x05, meta) == Ok(Decoded(false, Float(n), None, 8))
    ensures n < 0x100_0000 ==>
      DecodeColumnValue(EncodeLittleEndian(n, 3) + rest, 0x0b, meta) == Ok(Decoded(false, Int(n), None, 3))
    ensures n < 0x100 ==>
      DecodeColumnValue(EncodeLittleEndian(n, 1) + rest, 0x0d, meta)
      == Ok(Decoded(false, Int(if n == 0 then 0 else 1900 + n), None, 1))
    ensures n < 0x1_0000_0000 ==>
      DecodeColumnValue(EncodeLittleEndian(n, 4) + rest, 0x07, meta)
      == Ok(Decoded(false, if n == 0 then Nil else Unix(n), None, 4))
  {
    hide LittleEndian, EncodeLittleEndian, Pow, Scalars;
    Powers256();
    if n < Pow(256, 4) {
      ScalarRoundTrip(n, 4, rest, (k: nat) => Float(k));
      ScalarRoundTrip(n, 4, rest, (k: nat) => if k != 0 then Unix(k) else Nil);
    }
    if n < Pow(256, 8) { ScalarRoundTrip(n, 8, rest, (k: nat) => Float(k)); }
    if n < Pow(256, 3) { ScalarRoundTrip(n, 3, rest, (k: nat) => Int(k)); }
    if n < Pow(256, 1) { ScalarRoundTrip(n, 1, rest, (k: nat) => Int(if k != 0 then k + 1900 else 0)); }
  }

  /** DATE and NEWDATE: 15 bits of year, 4 of month and 5 of day in 3 bytes; all zero has no value. */
  lemma DatesOnWire(year: nat, month: nat, day: nat, meta: uint16, rest: bytes)
    requires year < 0x8000 && month < 16 && day < 32
    ensures var data, value := EncodeLittleEndian(year * 512 + month * 32 + day, 3) + rest,
                               if year == month == day == 0 then Nil else Time(Moment(year, month, day, 0, 0, 0));
            && DecodeColumnValue(data, 0x0a, meta) == Ok(Decoded(false, value, None, 3))
            && DecodeColumnValue(data, 0x0e, meta) == Ok(Decoded(false, value, None, 3))
  {
    hide LittleEndian, EncodeLittleEndian, Pow, Scalars;
    Powers256();
    DateParts(year, month, day);
    ScalarRoundTrip(year * 512 + month * 32 + day, 3, rest, (k: nat) => if k != 0 then Time(DateOf(k)) else Nil);
  }

  /** DATETIME: the decimal digits of year, month, day, hour, minute and second, as one number in 8 bytes. */
  lemma DatetimesOnWire(m: Moment, meta: uint16, rest: bytes)
    requires m.month < 100 && m.day < 100 && m.hour < 100 && m.minute < 100 && m.second < 100
    requires m.year < 1_844_674_407
    ensures var n := m.year * 10_000_000_000 + m.month * 100_000_000 + m.day * 1_000_000
                     + m.hour * 10_000 + m.minute * 100 + m.second;
            DecodeColumnValue(EncodeLittleEndian(n, 8) + rest, 0x0c, meta)
            == Ok(Decoded(false, if n == 0 then Nil else Time(m), None, 8))
  {
    hide LittleEndian, EncodeLittleEndian, Pow, Scalars, DatetimeOf;
    Powers256();
    var d, t := m.year * 10000 + m.month * 100 + m.day, m.hour * 10000 + m.minute * 100 + m.second;
    DatetimeSplit(d, t);
    SixDigits(m.year, m.month, m.day);
    SixDigits(m.hour, m.minute, m.second);
    ScalarRoundTrip(d * 1_000_000 + t, 8, rest, (k: nat) => if k != 0 then Time(DatetimeOf(k)) else Nil);
  }

  /** The size of a BIT column: whole bytes in the high half of its metadata, single bits in the low half. */
  function BitBytes(meta: uint16): nat { meta / 256 + (meta % 256 + 7) / 8 }

  /** BIT: big-endian, and kept raw as well. */
  lemma BitsOnWire(n: nat, meta: uint16, rest: bytes)
    requires BitBytes(meta) <= 8 && n < Pow(256, BitBytes(meta))
    ensures var b := EncodeBigEndian(n, BitBytes(meta));
            DecodeColumnValue(b + rest, 0x10, meta) == Ok(Decoded(false, Int(n), Some(b), BitBytes(meta)))
  {
    hide EncodeBigEndian, BigEndian, Pow;
    var size := BitBytes(meta);
    assert (meta / 256 * 8 + meta % 256 + 7) / 8 == size;
    BigEndianRoundTrip(n, size);
    PowMonotone(256, size, 8);
    Powers256();
    Concat(EncodeBigEndian(n, size), rest);
  }

  /** ENUM: the low byte of the metadata says 1 or 2 bytes, and anything else is an error. */
  lemma EnumsOnWire(n: nat, meta: uint16, rest: bytes)
    ensures meta % 256 == 1 && n < 0x100 ==>
      DecodeColumnValue([n] + rest, 0xf7, meta) == Ok(Decoded(false, Int(n), None, 1))
    ensures meta % 256 == 2 && n < 0x1_0000 ==>
      DecodeColumnValue([n % 256, n / 256] + rest, 0xf7, meta) == Ok(Decoded(false, Int(n), None, 2))
    ensures meta % 256 != 1 && meta % 256 != 2 ==> DecodeColumnValue(rest, 0xf7, meta) == Err(Invalid)
  {
    hide LittleEndian;
    LittleEndianBytes(n % 256, n / 256 % 256, 0, 0, []);
    Concat([n % 256], rest);
    Concat([n % 256, n / 256 % 256], rest);
  }

  // ---- raw bytes ----

  /** Fractional temporal types and SET hand over their bytes: 4, 5 or 3 and one for every two digits of the
      fraction, or as many as the low byte of the metadata says. */
  lemma RawOnWire(b: bytes, meta: uint16, rest: bytes)
    ensures |b| == 4 + (meta + 1) % 0x1_0000 / 2 ==>
      DecodeColumnValue(b + rest, 0x11, meta) == Ok(Decoded(false, Nil, Some(b), |b|))
    ensures |b| == 5 + (meta + 1) % 0x1_0000 / 2 ==>
      DecodeColumnValue(b + rest, 0x12, meta) == Ok(Decoded(false, Nil, Some(b), |b|))
    ensures |b| == 3 + (meta + 1) % 0x1_0000 / 2 ==>
      DecodeColumnValue(b + rest, 0x13, meta) == Ok(Decoded(false, Nil, Some(b), |b|))
    ensures |b| == meta % 256 ==>
      DecodeColumnValue(b + rest, 0xf8, meta) == Ok(Decoded(false, Nil, Some(b), |b|))
  {
    Concat(b, rest);
  }

  /** What a string comes to: its bytes, and how far they and the length before them reach. */
  function Raw(b: bytes, prefix: nat): Result<Decoded> { Ok(Decoded(false, Nil, Some(b), prefix + |b|)) }

  lemma BlobOnWire(b: bytes, typ: byte, meta: uint16, width: nat, rest: bytes)
    requires ColumnKind(typ, meta) == PrefixedKind(width) && |b| < Pow(256, width)
    ensures DecodeColumnValue(EncodeLittleEndian(|b|, width) + b + rest, typ, meta) == Raw(b, width)
  {
    hide LittleEndian, EncodeLittleEndian, Pow, Prefixed, ColumnKind;
    PrefixedRoundTrip(b, width, rest);
  }

  lemma BlobKinds(meta: uint16)
    ensures ColumnKind(0xf9, meta) == PrefixedKind(1)
    ensures ColumnKind(0xfa, meta) == PrefixedKind(3) && ColumnKind(0xfb, meta) == PrefixedKind(4)
    ensures 1 <= meta <= 4 ==>
      ColumnKind(0xfc, meta) == ColumnKind(0xf5, meta) == ColumnKind(0xff, meta) == PrefixedKind(meta)
  {
  }

  /** TINY_BLOB, MEDIUM_BLOB and LONG_BLOB have lengths of 1, 3 and 4 bytes. */
  lemma BlobsOnWire(b: bytes, meta: uint16, rest: bytes)
    ensures |b| < 0x100 ==> DecodeColumnValue(EncodeLittleEndian(|b|, 1) + b + rest, 0xf9, meta) == Raw(b, 1)
    ensures |b| < 0x100_0000 ==> DecodeColumnValue(EncodeLittleEndian(|b|, 3) + b + rest, 0xfa, meta) == Raw(b, 3)
    ensures |b| < 0x1_0000_0000 ==> DecodeColumnValue(EncodeLittleEndian(|b|, 4) + b + rest, 0xfb, meta) == Raw(b, 4)
  {
    hide LittleEndian, EncodeLittleEndian, Pow, DecodeColumnValue, ColumnKind, Raw;
    Powers256();
    BlobKinds(meta);
    if |b| < Pow(256, 1) { BlobOnWire(b, 0xf9, meta, 1, rest); }
    if |b| < Pow(256, 3) { BlobOnWire(b, 0xfa, meta, 3, rest); }
    if |b| < Pow(256, 4) { BlobOnWire(b, 0xfb, meta, 4, rest); }
  }

  /** BLOB, JSON and GEOMETRY have lengths of as many bytes as their metadata says, which is from 1 to 4. */
  lemma SizedBlobsOnWire(b: bytes, meta: uint16, rest: bytes)
    ensures 1 <= meta <= 4 && |b| < Pow(256, meta) ==>
      var data := EncodeLittleEndian(|b|, meta) + b + rest;
      && DecodeColumnValue(data, 0xfc, meta) == Raw(b, meta)
      && DecodeColumnValue(data, 0xf5, meta) == Raw(b, meta)
      && DecodeColumnValue(data, 0xff, meta) == Raw(b, meta)
  {
    hide LittleEndian, EncodeLittleEndian, Pow, DecodeColumnValue, ColumnKind, Raw;
    if 1 <= meta <= 4 && |b| < Pow(256, meta) {
      BlobKinds(meta);
      BlobOnWire(b, 0xfc, meta, meta, rest);
      BlobOnWire(b, 0xf5, meta, meta, rest);
      BlobOnWire(b, 0xff, meta, meta, rest);
    }
  }

  lemma UnsizedBlobsRefused(data: bytes, meta: uint16)
    requires meta == 0 || meta > 4
    ensures DecodeColumnValue(data, 0xfc, meta) == DecodeColumnValue(data, 0xf5, meta) == Err(UnexpectedEOF)
    ensures DecodeColumnValue(data, 0xff, meta) == Err(UnexpectedEOF)
  {
  }

  /** VARCHAR and VAR_STRING: one byte of length while the column holds at most 255 bytes, two from 256 on. */
  lemma VarcharsOnWire(b: bytes, meta: uint16, rest: bytes)
    ensures meta <= 255 && |b| < 0x100 ==>
      && DecodeColumnValue([|b|] + b + rest, 0x0f, meta) == Raw(b, 1)
      && DecodeColumnValue([|b|] + b + rest, 0xfd, meta) == Raw(b, 1)
    ensures meta >= 256 && |b| < 0x1_0000 ==>
      && DecodeColumnValue([|b| % 256, |b| / 256] + b + rest, 0x0f, meta) == Raw(b, 2)
      && DecodeColumnValue([|b| % 256, |b| / 256] + b + rest, 0xfd, meta) == Raw(b, 2)
  {
    hide LittleEndian, Prefixed;
    if |b| < 0x100 { ShortString(b, rest); }
    if |b| < 0x1_0000 { LongString(b, rest); }
  }

  lemma ShortString(b: bytes, rest: bytes)
    requires |b| < 0x100
    ensures Prefixed([|b|] + b + rest, 1) == Raw(b, 1)
  {
    Assoc([|b|], b, rest);
    Concat([|b|], b + rest);
    Concat(b, rest);
    LittleEndianBytes(|b|, 0, 0, 0, []);
  }

  lemma LongString(b: bytes, rest: bytes)
    requires |b| < 0x1_0000
    ensures Prefixed([|b| % 256, |b| / 256] + b + rest, 2) == Raw(b, 2)
  {
    var head: bytes := [|b| % 256, |b| / 256];
    Assoc(head, b, rest);
    Concat(head, b + rest);
    Concat(b, rest);
    LittleEndianBytes(|b| % 256, |b| / 256, 0, 0, []);
  }

  /** CHAR of at most 1023 bytes: bits 8 and 9 of its size are in the type byte, inverted. */
  lemma CharsOnWire(size: nat, b: bytes, rest: bytes)
    requires size < 1024
    ensures var meta := 0xfe00 - 0x1000 * (size / 256) + size % 256;
            && (size <= 255 && |b| < 0x100 ==> DecodeColumnValue([|b|] + b + rest, 0xfe, meta) == Raw(b, 1))
            && (size >= 256 && |b| < 0x1_0000 ==>
                  DecodeColumnValue([|b| % 256, |b| / 256] + b + rest, 0xfe, meta) == Raw(b, 2))
  {
    hide LittleEndian, Prefixed, ColumnKind;
    CharKind(size);
    if |b| < 0x100 { ShortString(b, rest); }
    if |b| < 0x1_0000 { LongString(b, rest); }
  }

  lemma CharKind(size: nat)
    requires size < 1024
    ensures ColumnKind(0xfe, 0xfe00 - 0x1000 * (size / 256) + size % 256)
            == if size <= 255 then PrefixedKind(1) else PrefixedKind(2)
  {
    hide ColumnKind, Resolve;
    PackedCharLength(size);
    var q := size / 256;
    assert size - 256 * q == size % 256;
    assert CharMeta(size) == 0xfe00 - 0x1000 * q + size % 256;
  }

  /** ENUM and SET columns are announced as STRING, with their own type in the high byte of the metadata. */
  lemma CarriedInString(data: bytes, meta: uint16)
    ensures meta / 256 == 0xf7 ==> DecodeColumnValue(data, 0xfe, meta) == DecodeColumnValue(data, 0xf7, meta)
    ensures meta / 256 == 0xf8 ==> DecodeColumnValue(data, 0xfe, meta) == DecodeColumnValue(data, 0xf8, meta)
  {
    hide DecodeKind;
  }

  // ---- DECIMAL ----

  /** NEWDECIMAL: precision and scale are the two halves of the metadata. The sign is the top bit, flipped; the bytes
      of a negative number are complemented; the value is told as text, and kept raw as well. */
  lemma DecimalsOnWire(v: int, precision: byte, scale: byte, rest: bytes)
    requires scale <= precision && 1 <= precision && Abs(v) < Pow(10, precision)
    ensures var data := EncodeDecimal(v, precision, scale);
            var r := DecodeColumnValue(data + rest, 0xf6, precision as int * 256 + scale as int);
            && r.Ok? && !r.value.isNull && r.value.raw == Some(data) && r.value.size == |data|
            && r.value.value.DecimalString?
            && ReadDecimal(r.value.value.s) == Some(MysqlDecimal.Fixed(v, scale))
  {
    hide EncodeDecimal, DecimalText, ReadDecimal, Pow, LayoutOf;
    DecimalRoundTrip(v, precision, scale);
    Concat(EncodeDecimal(v, precision, scale), rest);
    DecimalsOfKind(EncodeDecimal(v, precision, scale) + rest, precision, scale);
  }

  lemma DecimalsOfKind(data: bytes, precision: byte, scale: byte)
    requires scale <= precision
    ensures DecodeColumnValue(data, 0xf6, precision as int * 256 + scale as int)
            == DecimalValue(data, precision, scale)
  {
    hide DecimalValue, LayoutOf;
    var meta := precision as int * 256 + scale as int;
    assert meta / 256 == precision && meta % 256 == scale;
  }

  /** A DECIMAL(10,2) that is not negative, byte by byte: four bytes hold the eight digits before the point and one
      the two behind it. */
  lemma TenTwoOnWire(a: byte, b: byte, c: byte, d: byte, e: byte, rest: bytes)
    requires a < 128 && e < 100
    ensures |Digits(e)| <= 2
    ensures var data: bytes := [128 + a, b, c, d, e];
            var n := 0x100_0000 * a as int + 0x1_0000 * b as int + 0x100 * c as int + d;
            var text := (if n != 0 then Digits(n) else "0") + "." + (Zeros(2 - |Digits(e)|) + Digits(e));
            DecodeColumnValue(data + rest, 0xf6, 0x0a02) == Ok(Decoded(false, DecimalString(text), Some(data), 5))
  {
    hide Digits, DecimalText, LayoutOf, Zeros;
    var data: bytes := [128 + a, b, c, d, e];
    TenTwoLayout();
    TenTwoText(data, a, b, c, d, e);
    DecimalsOfKind(data + rest, 10, 2);
    Concat(data, rest);
  }

  /** A known value: 12.34 in a DECIMAL(10,2). */
  lemma KnownDecimal(rest: bytes)
    ensures var data: bytes := [0x80, 0x00, 0x00, 0x0c, 0x22];
            DecodeColumnValue(data + rest, 0xf6, 0x0a02) == Ok(Decoded(false, DecimalString("12.34"), Some(data), 5))
  {
    hide Digits, DecodeColumnValue;
    TenTwoOnWire(0, 0, 0, 0x0c, 0x22, rest);
    TwoDigits(1, 2);
    TwoDigits(3, 4);
    assert Zeros(0) == "" && "12" + "." + ("" + "34") == "12.34";
  }

  // ---- what is refused ----

  /** A NULL type takes no bytes. */
  lemma NullOnWire(data: bytes, meta: uint16)
    ensures DecodeColumnValue(data, 0x06, meta) == Ok(Decoded(true, Nil, None, 0))
  {
  }

  /** A value that is cut short is an error, for each type. */
  lemma ShortValues(data: bytes, typ: byte, meta: uint16)
    requires || (|data| < 1 && typ in {0x01, 0x0d, 0xf9})
             || (|data| < 2 && typ == 0x02)
             || (|data| < 3 && typ in {0x09, 0x0a, 0x0b, 0x0e, 0xfa})
             || (|data| < 4 && typ in {0x03, 0x04, 0x07, 0xfb})
             || (|data| < 8 && typ in {0x05, 0x08, 0x0c})
             || (|data| < meta % 256 && typ == 0xf8)
             || (|data| < meta % 256 <= 2 && typ == 0xf7)
             || (|data| < 4 + (meta + 1) % 0x1_0000 / 2 && typ == 0x11)
             || (|data| < 5 + (meta + 1) % 0x1_0000 / 2 && typ == 0x12)
             || (|data| < 3 + (meta + 1) % 0x1_0000 / 2 && typ == 0x13)
             || (|data| < 1 && typ in {0x0f, 0xfd, 0xfe} && meta < 256)
             || (|data| < 2 && typ in {0x0f, 0xfd} && meta >= 256)
    ensures DecodeColumnValue(data, typ, meta) == Err(UnexpectedEOF)
  {
  }

  /** A string that announces more than there is is an error too. */
  lemma ShortStrings(data: bytes, typ: byte, meta: uint16)
    requires data != [] && |data| <= data[0] as int
    requires typ == 0xf9 || (typ in {0x0f, 0xfd, 0xfe} && meta < 256)
    ensures DecodeColumnValue(data, typ, meta) == Err(UnexpectedEOF)
  {
    LittleEndianBytes(data[0], 0, 0, 0, []);
    assert data[..1] == [data[0]];
  }

  /** BIT and NEWDECIMAL report short data, and NEWDECIMAL a scale above its precision, as invalid. */
  lemma InvalidValues(data: bytes, meta: uint16)
    ensures |data| < BitBytes(meta) ==> DecodeColumnValue(data, 0x10, meta) == Err(Invalid)
    ensures meta / 256 < meta % 256 ==> DecodeColumnValue(data, 0xf6, meta) == Err(Invalid)
  {
    assert (meta / 256 * 8 + meta % 256 + 7) / 8 == BitBytes(meta);
  }

  /** Every type that the tables above leave out is refused. */
  lemma OtherTypesRefused(data: bytes, typ: byte, meta: uint16)
    requires typ == 0x00 || 0x14 <= typ < 0xf5
    ensures DecodeColumnValue(data, typ, meta) == Err(Invalid)
  {
  }
}
