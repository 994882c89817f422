/** DECIMAL columns: complemented base-10^9 groups (mysql/decode/events/types/E_ROWS_EVENT.go). */
module MysqlDecimal {
  import opened Bytes
  import opened Numerals
  import opened Text

  /** Bytes that hold 0 to 9 leftover digits. */
  const COMPRESSED: seq<nat> := [0, 1, 1, 2, 2, 3, 3, 4, 4, 4]

  /** Where the digits of a DECIMAL(precision, scale) lie: a short group, full 4-byte groups, then the
      same mirrored after the point. */
  datatype Layout = Layout(intPart: nat, intFull: nat, fracFull: nat, fracPart: nat) {
    function Size(): nat
      requires intPart <= 9 && fracPart <= 9
    {
      intFull * 4 + COMPRESSED[intPart] + fracFull * 4 + COMPRESSED[fracPart]
    }
  }

  function LayoutOf(precision: nat, scale: nat): (l: Layout)
    requires scale <= precision
    ensures l.intPart < 9 && l.fracPart < 9
    ensures l.intPart + 9 * l.intFull == precision - scale && l.fracPart + 9 * l.fracFull == scale
    ensures precision >= 1 ==> l.Size() >= 1
  {
    var integral := precision - scale;
    Layout(integral - integral / 9 * 9, integral / 9, scale / 9, scale - scale / 9 * 9)
  }

  function DecimalBinarySize(meta: nat): (size: Option<nat>)
  {
    if meta / 256 < meta % 256 then None else Some(LayoutOf(meta / 256, meta % 256).Size())
  }

  // ---- big-endian groups ----

  function BigEndian(b: bytes): nat {
    if b == [] then 0 else 256 * BigEndian(b[..|b| - 1]) + b[|b| - 1]
  }

  function EncodeBigEndian(n: nat, width: nat): (b: bytes)
    ensures |b| == width
  {
    if width == 0 then [] else EncodeBigEndian(n / 256, width - 1) + [n % 256]
  }

  lemma {:induction false} BigEndianRoundTrip(n: nat, width: nat)
    requires n < Pow(256, width)
    ensures BigEndian(EncodeBigEndian(n, width)) == n
  {
    if width == 0 {
    } else {
      BigEndianRoundTrip(n / 256, width - 1);
      var b := EncodeBigEndian(n, width);
      assert b[..|b| - 1] == EncodeBigEndian(n / 256, width - 1);
    }
  }

  lemma {:induction false} TopBitFree(n: nat, width: nat)
    requires width >= 1 && n < 128 * Pow(256, width - 1)
    ensures EncodeBigEndian(n, width)[0] < 128
  {
    if width > 1 {
      assert Pow(256, width - 1) == 256 * Pow(256, width - 2);
      TopBitFree(n / 256, width - 1);
    }
  }

  /** 10^k fits COMPRESSED[k] bytes with the top bit to spare; this is what the complement needs. */
  lemma GroupFits(k: nat)
    requires 1 <= k <= 9
    ensures Pow(10, k) <= 128 * Pow(256, COMPRESSED[k] - 1) < Pow(256, COMPRESSED[k])
  {
    assert Pow(256, 0) == 1 && Pow(256, 1) == 256 && Pow(256, 2) == 0x1_0000;
    assert Pow(256, 3) == 256 * Pow(256, 2) && Pow(256, 4) == 256 * Pow(256, 3);
    assert Pow(10, 2) == 100;
    assert Pow(10, 4) == 10 * (10 * Pow(10, 2));
    assert Pow(10, 6) == 10 * (10 * Pow(10, 4));
    assert Pow(10, 8) == 10 * (10 * Pow(10, 6));
    assert Pow(10, 3) == 10 * Pow(10, 2) && Pow(10, 5) == 10 * Pow(10, 4) && Pow(10, 7) == 10 * Pow(10, 6);
    assert Pow(10, 9) == 10 * Pow(10, 8);
  }

  /** And no width is larger than that takes: one byte less would not do. */
  lemma WidthsLeast(k: nat)
    requires 1 <= k <= 9
    ensures COMPRESSED[0] == 0
    ensures COMPRESSED[k] == 1 || Pow(10, k) > 128 * Pow(256, COMPRESSED[k] - 2)
  {
    assert Pow(256, 0) == 1 && Pow(256, 1) == 256 && Pow(256, 2) == 0x1_0000;
    assert Pow(10, 3) == 1000;
    assert Pow(10, 5) == 100 * Pow(10, 3) && Pow(10, 6) == 10 * Pow(10, 5);
    assert Pow(10, 8) == 100 * Pow(10, 6) && Pow(10, 9) == 10 * Pow(10, 8);
  }

  function Flip(b: byte): byte { if b < 128 then b + 128 else b - 128 }

  /** Every byte XOR the mask, which is 0 or 0xff. */
  function Unmask(b: bytes, negative: bool): (r: bytes)
    ensures |r| == |b|
  {
    if negative then seq(|b|, i requires 0 <= i < |b| => 255 - b[i]) else b
  }

  /** The groups as plain magnitudes, once the flipped sign bit and the complement are undone. */
  function Plain(data: bytes): (r: bytes)
    requires data != []
    ensures |r| == |data|
  {
    Unmask([Flip(data[0])] + data[1..], data[0] < 128)
  }

  // ---- decoding to text ----

  /** The full integral groups; only a group with something written before it is padded to 9 digits,
      and padding a 10-digit group asks for a negative repeat count. */
  function IntegralText(b: bytes, groups: nat, acc: string): (r: Result<string>)
    requires 4 * groups <= |b|
    ensures r.Err? ==> r.error == Panic
    decreases groups
  {
    if groups == 0 then Ok(acc)
    else
      var s := Digits(BigEndian(b[..4]));
      if acc == "" then IntegralText(b[4..], groups - 1, s)
      else if |s| > 9 then Err(Panic)
      else IntegralText(b[4..], groups - 1, acc + Zeros(9 - |s|) + s)
  }

  function FractionText(b: bytes, groups: nat, acc: string): (r: Result<string>)
    requires 4 * groups <= |b|
    ensures r.Err? ==> r.error == Panic
    decreases groups
  {
    if groups == 0 then Ok(acc)
    else
      var s := Digits(BigEndian(b[..4]));
      if |s| > 9 then Err(Panic) else FractionText(b[4..], groups - 1, acc + Zeros(9 - |s|) + s)
  }

  /** The last short group of the fraction. */
  function TailText(b: bytes, digits: nat, acc: string): (r: Result<string>)
    requires digits < 9 && COMPRESSED[digits] <= |b|
    ensures r.Err? ==> r.error == Panic
  {
    if COMPRESSED[digits] == 0 then Ok(acc)
    else
      var s := Digits(BigEndian(b[..COMPRESSED[digits]]));
      if |s| > digits then Err(Panic) else Ok(acc + Zeros(digits - |s|) + s)
  }

  /** Everything before the point; nothing at all when every digit written would be a leading zero. */
  function IntegralDigits(b: bytes, l: Layout): (r: Result<string>)
    requires l.intPart < 9 && l.fracPart < 9 && |b| == l.Size()
    ensures r.Err? ==> r.error == Panic
  {
    var lead := COMPRESSED[l.intPart];
    var n := BigEndian(b[..lead]);
    IntegralText(b[lead..], l.intFull, if n != 0 then Digits(n) else "")
  }

  /** Everything after the point. */
  function FractionDigits(b: bytes, l: Layout): (r: Result<string>)
    requires l.intPart < 9 && l.fracPart < 9 && |b| == l.Size()
    ensures r.Err? ==> r.error == Panic
  {
    var rest := b[COMPRESSED[l.intPart]..][4 * l.intFull..];
    var full :- FractionText(rest, l.fracFull, "");
    TailText(rest[4 * l.fracFull..], l.fracPart, full)
  }

  function Shown(integral: string): string { if integral == "" then "0" else integral }

  function WithSign(negative: bool, s: string): string { if negative then "-" + s else s }

  function DecimalText(data: bytes, precision: nat, scale: nat): (r: Result<string>)
    requires scale <= precision && |data| == LayoutOf(precision, scale).Size()
    ensures r.Err? ==> r.error == Panic
  {
    if data == [] then Err(Panic)
    else
      var l := LayoutOf(precision, scale);
      var integral :- IntegralDigits(Plain(data), l);
      var whole := Shown(integral);
      if scale == 0 then Ok(WithSign(data[0] < 128, whole))
      else
        var digits :- FractionDigits(Plain(data), l);
        Ok(WithSign(data[0] < 128, whole + "." + digits))
  }

  method ReadDecimalGroup(buf: bytes, pos: nat, size: nat, negative: bool) returns (next: nat, n: nat)
    requires pos + size <= |buf|
    ensures next == pos + size && n == BigEndian(Unmask(buf, negative)[pos..pos + size])
  {
    var plain := Unmask(buf, negative);
    n := 0;
    for i := 0 to size
      invariant n == BigEndian(plain[pos..pos + i])
    {
      assert plain[pos..pos + i + 1][..i] == plain[pos..pos + i];
      n := 256 * n + (if negative then 255 - buf[pos + i] else buf[pos + i]);
    }
    next := pos + size;
  }

  /** The loop over the full integral groups, from `start`. */
  method WriteIntegral(buf: bytes, start: nat, groups: nat, negative: bool, lead: string)
    returns (r: Result<string>)
    requires start + 4 * groups <= |buf|
    ensures r == IntegralText(Unmask(buf, negative)[start..], groups, lead)
  {
    var out, pos := lead, start;
    ghost var b := Unmask(buf, negative);
    for i := 0 to groups
      invariant pos == start + 4 * i
      invariant IntegralText(b[pos..], groups - i, out) == IntegralText(b[start..], groups, lead)
    {
      var next, g := ReadDecimalGroup(buf, pos, 4, negative);
      Cursor(b, pos, 4);
      var s := Digits(g);
      if out == "" {
        out := s;
      } else {
        if |s| > 9 { return Err(Panic); }
        out := out + Zeros(9 - |s|) + s;
      }
      pos := next;
    }
    return Ok(out);
  }

  /** The loop over the full groups after the point, from `start`. */
  method WriteFraction(buf: bytes, start: nat, groups: nat, negative: bool) returns (r: Result<string>)
    requires start + 4 * groups <= |buf|
    ensures r == FractionText(Unmask(buf, negative)[start..], groups, "")
  {
    var out, pos := "", start;
    ghost var b := Unmask(buf, negative);
    for i := 0 to groups
      invariant pos == start + 4 * i
      invariant FractionText(b[pos..], groups - i, out) == FractionText(b[start..], groups, "")
    {
      var next, g := ReadDecimalGroup(buf, pos, 4, negative);
      Cursor(b, pos, 4);
      var s := Digits(g);
      if |s| > 9 { return Err(Panic); }
      out := out + Zeros(9 - |s|) + s;
      pos := next;
    }
    return Ok(out);
  }

  /** The leftover digits at the end of the fraction, from `start`. */
  method WriteTail(buf: bytes, start: nat, digits: nat, negative: bool, acc: string) returns (r: Result<string>)
    requires digits < 9 && start + COMPRESSED[digits] <= |buf|
    ensures r == TailText(Unmask(buf, negative)[start..], digits, acc)
  {
    var size := COMPRESSED[digits];
    if size == 0 { return Ok(acc); }
    var _, n := ReadDecimalGroup(buf, start, size, negative);
    ghost var b := Unmask(buf, negative);
    Cursor(b, start, size);
    var s := Digits(n);
    if |s| > digits { return Err(Panic); }
    return Ok(acc + Zeros(digits - |s|) + s);
  }

  method WriteIntegralDigits(buf: bytes, l: Layout, negative: bool) returns (r: Result<string>)
    requires l.intPart < 9 && l.fracPart < 9 && |buf| == l.Size()
    ensures r == IntegralDigits(Unmask(buf, negative), l)
  {
    hide Unmask, IntegralText;
    var pos, n := ReadDecimalGroup(buf, 0, COMPRESSED[l.intPart], negative);
    assert Unmask(buf, negative)[0..pos] == Unmask(buf, negative)[..pos];
    r := WriteIntegral(buf, pos, l.intFull, negative, if n != 0 then Digits(n) else "");
  }

  method WriteFractionDigits(buf: bytes, l: Layout, negative: bool) returns (r: Result<string>)
    requires l.intPart < 9 && l.fracPart < 9 && |buf| == l.Size()
    ensures r == FractionDigits(Unmask(buf, negative), l)
  {
    hide Unmask, FractionText, TailText;
    var pos := COMPRESSED[l.intPart] + 4 * l.intFull;
    Cursor(Unmask(buf, negative), COMPRESSED[l.intPart], 4 * l.intFull);
    r := WriteFraction(buf, pos, l.fracFull, negative);
    if r.Err? { return; }
    Cursor(Unmask(buf, negative), pos, 4 * l.fracFull);
    r := WriteTail(buf, pos + 4 * l.fracFull, l.fracPart, negative, r.value);
  }

  method DecodeDecimalString(data: bytes, precision: nat, scale: nat) returns (r: Result<string>)
    requires scale <= precision && |data| == LayoutOf(precision, scale).Size()
    ensures r == DecimalText(data, precision, scale)
  {
    if data == [] { return Err(Panic); }
    var l := LayoutOf(precision, scale);
    var negative := data[0] < 128;
    var buf := [Flip(data[0])] + data[1..];
    var integral := WriteIntegralDigits(buf, l, negative);
    if integral.Err? { return integral; }
    var out := if negative then "-" else "";
    out := out + Shown(integral.value);
    ghost var whole := Shown(integral.value);
    assert out == WithSign(negative, whole);
    if scale == 0 { return Ok(out); }
    var digits := WriteFractionDigits(buf, l, negative);
    if digits.Err? { return digits; }
    assert out + "." + digits.value == WithSign(negative, whole + "." + digits.value);
    return Ok(out + "." + digits.value);
  }

  // ---- what a server writes ----

  /** `v`, below 10^(9 * groups), as 4-byte groups, most significant first. */
  function FullGroups(v: nat, groups: nat): (b: bytes)
    ensures |b| == 4 * groups
    decreases groups
  {
    if groups == 0 then []
    else
      EncodeBigEndian(High(v, 9 * (groups - 1)), 4) + FullGroups(Low(v, 9 * (groups - 1)), groups - 1)
  }

  /** The numbers that the four stretches of a magnitude hold. */
  datatype Parts = Parts(lead: nat, high: nat, low: nat, tail: nat)

  function PartsOf(m: nat, l: Layout, scale: nat): Parts {
    var integral, fraction := High(m, scale), Low(m, scale);
    Parts(High(integral, 9 * l.intFull), Low(integral, 9 * l.intFull),
          High(fraction, l.fracPart), Low(fraction, l.fracPart))
  }

  function EncodeParts(p: Parts, l: Layout): (b: bytes)
    requires l.intPart < 9 && l.fracPart < 9
    ensures |b| == l.Size()
  {
    EncodeBigEndian(p.lead, COMPRESSED[l.intPart])
    + (FullGroups(p.high, l.intFull)
       + (FullGroups(p.low, l.fracFull)
          + EncodeBigEndian(p.tail, COMPRESSED[l.fracPart])))
  }

  function Abs(v: int): nat { if v < 0 then -v else v }

  /** The wire form of the unscaled value `v`, that is of v / 10^scale. */
  function EncodeDecimal(v: int, precision: nat, scale: nat): (data: bytes)
    requires scale <= precision && 1 <= precision
    ensures |data| == LayoutOf(precision, scale).Size()
  {
    var l := LayoutOf(precision, scale);
    var c := Unmask(EncodeParts(PartsOf(Abs(v), l, scale), l), v < 0);
    [Flip(c[0])] + c[1..]
  }

  // ---- the number a decimal text denotes ----

  datatype Fixed = Fixed(unscaled: int, scale: nat)

  /** Digits and optionally a point and digits. Leading zeros count for nothing; the digits after the
      point give the scale. */
  function ReadUnsigned(body: string): Option<Fixed> {
    var point := IndexChar(body, '.');
    var fraction := if point < |body| then body[point + 1..] else "";
    var digits := body[..point] + fraction;
    if point == 0 || !AllDigits(digits) then None else Some(Fixed(DigitsValue(digits), |fraction|))
  }

  /** The same with an optional minus sign before it. */
  function ReadDecimal(text: string): Option<Fixed> {
    if text != "" && text[0] == '-' then
      var u := ReadUnsigned(text[1..]);
      if u.Some? then Some(Fixed(-u.value.unscaled, u.value.scale)) else None
    else ReadUnsigned(text)
  }

  // ---- decoding inverts encoding ----

  /** A padded group is exactly `width` digits that stand for `n`. */
  lemma PaddedGroup(n: nat, width: nat)
    requires width >= 1 && n < Pow(10, width)
    ensures |Digits(n)| <= width
    ensures var t := Zeros(width - |Digits(n)|) + Digits(n);
            AllDigits(t) && DigitsValue(t) == n && |t| == width
  {
    DigitsLength(n, width);
    ZerosValue(width - |Digits(n)|);
    ShiftZero(|Digits(n)|);
    DigitsValueOfDigits(n);
    DigitsValueConcat(Zeros(width - |Digits(n)|), Digits(n));
  }

  /** Appending the padded group to digits already written shifts them by `width` places. */
  lemma AppendGroup(acc: string, n: nat, width: nat)
    requires width >= 1 && n < Pow(10, width) && AllDigits(acc)
    ensures |Digits(n)| <= width
    ensures var t := acc + Zeros(width - |Digits(n)|) + Digits(n);
            AllDigits(t) && DigitsValue(t) == Shift(DigitsValue(acc), width) + n && |t| == |acc| + width
  {
    PaddedGroup(n, width);
    var z, s := Zeros(width - |Digits(n)|), Digits(n);
    DigitsValueConcat(acc, z + s);
    Assoc(acc, z, s);
  }

  /** The first group read back from FullGroups is the top nine digits; the rest follow. */
  lemma FirstGroup(v: nat, groups: nat, rest: bytes)
    requires groups > 0 && v < Pow(10, 9 * groups)
    ensures var b, k := FullGroups(v, groups) + rest, 9 * (groups - 1);
            BigEndian(b[..4]) == High(v, k) < Pow(10, 9) && b[4..] == FullGroups(Low(v, k), groups - 1) + rest
  {
    var k := 9 * (groups - 1);
    SplitBounds(v, 9, k);
    GroupFits(9);
    BigEndianRoundTrip(High(v, k), 4);
    var head, tail := EncodeBigEndian(High(v, k), 4), FullGroups(Low(v, k), groups - 1) + rest;
    Assoc(head, FullGroups(Low(v, k), groups - 1), rest);
    Concat(head, tail);
  }

  /** Nine more digits, then the remaining groups: the weights of both add up to the whole. */
  lemma ShiftedSum(a: nat, v: nat, groups: nat)
    requires groups > 0
    ensures var k := 9 * (groups - 1);
            Shift(Shift(a, 9) + High(v, k), k) + Low(v, k) == Shift(a, 9 * groups) + v
  {
    var k := 9 * (groups - 1);
    ShiftSum(Shift(a, 9), High(v, k), k);
    ShiftShift(a, 9, k);
    SplitSum(v, k);
  }

  /** One more group with value `n` after the digits `acc`, as IntegralText writes it. */
  ghost function IntegralStep(n: nat, acc: string): (next: string)
    requires n < Pow(10, 9) && AllDigits(acc)
    ensures acc != "" ==> |Digits(n)| <= 9
    ensures next == if acc == "" then Digits(n) else acc + Zeros(9 - |Digits(n)|) + Digits(n)
    ensures next != "" && AllDigits(next) && DigitsValue(next) == Shift(DigitsValue(acc), 9) + n
  {
    DigitsValueOfDigits(n);
    AppendGroup(acc, n, 9);
    ShiftZero(9);
    if acc == "" then Digits(n) else acc + Zeros(9 - |Digits(n)|) + Digits(n)
  }

  lemma {:induction false} IntegralTextOfGroups(v: nat, groups: nat, rest: bytes, acc: string)
    requires v < Pow(10, 9 * groups) && AllDigits(acc)
    ensures var r := IntegralText(FullGroups(v, groups) + rest, groups, acc);
            && r.Ok? && AllDigits(r.value) && (r.value == "" <==> groups == 0 && acc == "")
            && DigitsValue(r.value) == Shift(DigitsValue(acc), 9 * groups) + v
    decreases groups
  {
    hide AllDigits, BigEndian, EncodeBigEndian, DigitsValue, Digits, FullGroups;
    if groups == 0 {
    } else {
      FirstGroup(v, groups, rest);
      var k := 9 * (groups - 1);
      SplitBounds(v, 9, k);
      IntegralTextOfGroups(Low(v, k), groups - 1, rest, IntegralStep(High(v, k), acc));
      ShiftedSum(DigitsValue(acc), v, groups);
    }
  }

  lemma {:induction false} FractionTextOfGroups(v: nat, groups: nat, rest: bytes, acc: string)
    requires v < Pow(10, 9 * groups) && AllDigits(acc)
    ensures var r := FractionText(FullGroups(v, groups) + rest, groups, acc);
            && r.Ok? && AllDigits(r.value) && |r.value| == |acc| + 9 * groups
            && DigitsValue(r.value) == Shift(DigitsValue(acc), 9 * groups) + v
    decreases groups
  {
    hide AllDigits, BigEndian, EncodeBigEndian, DigitsValue, Digits;
    if groups == 0 {
    } else {
      FirstGroup(v, groups, rest);
      var k := 9 * (groups - 1);
      SplitBounds(v, 9, k);
      var n := High(v, k);
      AppendGroup(acc, n, 9);
      FractionTextOfGroups(Low(v, k), groups - 1, rest, acc + Zeros(9 - |Digits(n)|) + Digits(n));
      ShiftedSum(DigitsValue(acc), v, groups);
    }
  }

  /** Each stretch holds no more digits than it has room for. */
  ghost predicate Fits(p: Parts, l: Layout) {
    && p.lead < Pow(10, l.intPart) && p.high < Pow(10, 9 * l.intFull)
    && p.low < Pow(10, 9 * l.fracFull) && p.tail < Pow(10, l.fracPart)
  }

  lemma PartsFit(m: nat, precision: nat, scale: nat)
    requires scale <= precision && m < Pow(10, precision)
    ensures var l := LayoutOf(precision, scale);
            Fits(PartsOf(m, l, scale), l)
  {
    hide Pow, High, Low, LayoutOf;
    var l := LayoutOf(precision, scale);
    SplitBounds(m, precision - scale, scale);
    SplitBounds(High(m, scale), l.intPart, 9 * l.intFull);
    SplitBounds(Low(m, scale), 9 * l.fracFull, l.fracPart);
  }

  lemma IntegralDigitsOfParts(p: Parts, l: Layout)
    requires l.intPart < 9 && l.fracPart < 9 && Fits(p, l)
    ensures var r := IntegralDigits(EncodeParts(p, l), l);
            r.Ok? && AllDigits(r.value) && DigitsValue(r.value) == Shift(p.lead, 9 * l.intFull) + p.high
  {
    hide FullGroups, EncodeBigEndian, Shift, Pow, IntegralText, BigEndian;
    var c := COMPRESSED[l.intPart];
    var rest := FullGroups(p.low, l.fracFull) + EncodeBigEndian(p.tail, COMPRESSED[l.fracPart]);
    Concat(EncodeBigEndian(p.lead, c), FullGroups(p.high, l.intFull) + rest);
    LeadFits(p.lead, l.intPart);
    BigEndianRoundTrip(p.lead, c);
    DigitsValueOfDigits(p.lead);
    var lead := if p.lead != 0 then Digits(p.lead) else "";
    IntegralTextOfGroups(p.high, l.intFull, rest, lead);
  }

  lemma LeadFits(n: nat, digits: nat)
    requires digits < 9 && n < Pow(10, digits)
    ensures n < Pow(256, COMPRESSED[digits])
    ensures digits > 0 ==> n < 128 * Pow(256, COMPRESSED[digits] - 1)
  {
    if digits > 0 { GroupFits(digits); }
  }

  lemma FractionDigitsOfParts(p: Parts, l: Layout)
    requires l.intPart < 9 && l.fracPart < 9 && Fits(p, l)
    ensures var r := FractionDigits(EncodeParts(p, l), l);
            && r.Ok? && AllDigits(r.value) && |r.value| == l.fracPart + 9 * l.fracFull
            && DigitsValue(r.value) == Shift(p.low, l.fracPart) + p.tail
  {
    hide FullGroups, EncodeBigEndian, Shift, Pow, FractionText, TailText;
    var tail := EncodeBigEndian(p.tail, COMPRESSED[l.fracPart]);
    var rest := FullGroups(p.low, l.fracFull) + tail;
    Concat(EncodeBigEndian(p.lead, COMPRESSED[l.intPart]), FullGroups(p.high, l.intFull) + rest);
    Concat(FullGroups(p.high, l.intFull), rest);
    Concat(FullGroups(p.low, l.fracFull), tail);
    FractionTextOfGroups(p.low, l.fracFull, tail, "");
    ShiftZero(9 * l.fracFull);
    var full := FractionText(rest, l.fracFull, "").value;
    TailTextOf(p.tail, l.fracPart, full);
  }

  lemma TailTextOf(n: nat, digits: nat, acc: string)
    requires digits < 9 && n < Pow(10, digits) && AllDigits(acc)
    ensures var r := TailText(EncodeBigEndian(n, COMPRESSED[digits]), digits, acc);
            && r.Ok? && AllDigits(r.value) && |r.value| == |acc| + digits
            && DigitsValue(r.value) == Shift(DigitsValue(acc), digits) + n
  {
    hide BigEndian, EncodeBigEndian, Zeros, Digits, DigitsValue;
    var b := EncodeBigEndian(n, COMPRESSED[digits]);
    if digits > 0 {
      LeadFits(n, digits);
      BigEndianRoundTrip(n, COMPRESSED[digits]);
      assert b[..COMPRESSED[digits]] == b;
      AppendGroup(acc, n, digits);
    }
  }

  lemma FullGroupsTopBit(v: nat, groups: nat)
    requires groups > 0 && v < Pow(10, 9 * groups)
    ensures FullGroups(v, groups)[0] < 128
  {
    SplitBounds(v, 9, 9 * (groups - 1));
    GroupFits(9);
    TopBitFree(High(v, 9 * (groups - 1)), 4);
  }

  /** Whichever stretch comes first, the top bit of an encoded magnitude is clear, so it can hold the sign. */
  lemma MagnitudeTopBit(p: Parts, l: Layout)
    requires l.intPart < 9 && l.fracPart < 9 && Fits(p, l) && l.Size() >= 1
    ensures EncodeParts(p, l)[0] < 128
  {
    if l.intPart > 0 {
      LeadFits(p.lead, l.intPart);
      TopBitFree(p.lead, COMPRESSED[l.intPart]);
    } else if l.intFull > 0 {
      FullGroupsTopBit(p.high, l.intFull);
    } else if l.fracFull > 0 {
      FullGroupsTopBit(p.low, l.fracFull);
    } else {
      LeadFits(p.tail, l.fracPart);
      TopBitFree(p.tail, COMPRESSED[l.fracPart]);
    }
  }

  /** The decoder recovers the magnitude and the sign from what the encoder did to the bytes. */
  lemma PlainOfEncoded(v: int, precision: nat, scale: nat)
    requires scale <= precision && 1 <= precision && Abs(v) < Pow(10, precision)
    ensures var data, l := EncodeDecimal(v, precision, scale), LayoutOf(precision, scale);
            && (data[0] < 128 <==> v < 0)
            && Plain(data) == EncodeParts(PartsOf(Abs(v), l, scale), l)
  {
    hide Pow, EncodeParts, PartsOf, LayoutOf;
    var l := LayoutOf(precision, scale);
    PartsFit(Abs(v), precision, scale);
    var m := EncodeParts(PartsOf(Abs(v), l, scale), l);
    MagnitudeTopBit(PartsOf(Abs(v), l, scale), l);
    var c := Unmask(m, v < 0);
    var data := EncodeDecimal(v, precision, scale);
    assert [Flip(data[0])] + data[1..] == c;
    assert Unmask(c, v < 0) == m;
  }

  lemma ReadWhole(integral: string)
    requires AllDigits(integral) && integral != ""
    ensures ReadUnsigned(integral) == Some(Fixed(DigitsValue(integral), 0))
  {
    assert integral[..|integral|] + "" == integral;
  }

  lemma ReadFraction(integral: string, fraction: string)
    requires AllDigits(integral) && AllDigits(fraction) && integral != "" && AllDigits(integral + fraction)
    ensures ReadUnsigned(integral + "." + fraction) == Some(Fixed(DigitsValue(integral + fraction), |fraction|))
  {
    IndexCharAt(integral + "." + fraction, '.', |integral|);
    Assoc(integral, ".", fraction);
    Concat(integral, "." + fraction);
    Concat(integral + ".", fraction);
  }

  lemma ReadSigned(negative: bool, body: string)
    requires ReadUnsigned(body).Some? && body[0] != '-'
    ensures var u := ReadUnsigned(body).value;
            ReadDecimal(WithSign(negative, body)) == Some(Fixed(if negative then -u.unscaled else u.unscaled, u.scale))
  {
    var text := WithSign(negative, body);
    if negative { assert text[1..] == body; }
  }

  lemma ShownIntegral(v: int, precision: nat, scale: nat)
    requires scale <= precision && 1 <= precision && Abs(v) < Pow(10, precision)
    ensures var r := IntegralDigits(Plain(EncodeDecimal(v, precision, scale)), LayoutOf(precision, scale));
            && r.Ok? && AllDigits(Shown(r.value))
            && DigitsValue(Shown(r.value)) == High(Abs(v), scale)
  {
    var l := LayoutOf(precision, scale);
    PlainOfEncoded(v, precision, scale);
    PartsFit(Abs(v), precision, scale);
    IntegralDigitsOfParts(PartsOf(Abs(v), l, scale), l);
    SplitSum(High(Abs(v), scale), 9 * l.intFull);
    assert "0"[..0] == "";
  }

  lemma ShownFraction(v: int, precision: nat, scale: nat)
    requires scale <= precision && 1 <= precision && Abs(v) < Pow(10, precision)
    ensures var r := FractionDigits(Plain(EncodeDecimal(v, precision, scale)), LayoutOf(precision, scale));
            && r.Ok? && AllDigits(r.value) && |r.value| == scale && DigitsValue(r.value) == Low(Abs(v), scale)
  {
    var l := LayoutOf(precision, scale);
    PlainOfEncoded(v, precision, scale);
    PartsFit(Abs(v), precision, scale);
    FractionDigitsOfParts(PartsOf(Abs(v), l, scale), l);
    SplitSum(Low(Abs(v), scale), l.fracPart);
  }

  /** The number denoted by a sign, digits whose value is `high`, and `scale` more worth `low`. */
  lemma ReadParts(v: int, whole: string, fraction: string)
    requires AllDigits(whole) && whole != "" && AllDigits(fraction)
    requires DigitsValue(whole) == High(Abs(v), |fraction|) && DigitsValue(fraction) == Low(Abs(v), |fraction|)
    ensures var body := if fraction == "" then whole else whole + "." + fraction;
            ReadDecimal(WithSign(v < 0, body)) == Some(Fixed(v, |fraction|))
  {
    hide DigitsValue, Shift, Low, ReadDecimal;
    assert IsDigit(whole[0]);
    SplitSum(Abs(v), |fraction|);
    if fraction == "" {
      ReadWhole(whole);
      ReadSigned(v < 0, whole);
    } else {
      DigitsValueConcat(whole, fraction);
      ReadFraction(whole, fraction);
      ReadSigned(v < 0, whole + "." + fraction);
    }
  }

  lemma DecimalTextOf(data: bytes, precision: nat, scale: nat)
    requires scale <= precision && |data| == LayoutOf(precision, scale).Size() && data != []
    requires IntegralDigits(Plain(data), LayoutOf(precision, scale)).Ok?
    requires FractionDigits(Plain(data), LayoutOf(precision, scale)).Ok?
    ensures var whole := Shown(IntegralDigits(Plain(data), LayoutOf(precision, scale)).value);
            var fraction := FractionDigits(Plain(data), LayoutOf(precision, scale)).value;
            DecimalText(data, precision, scale)
            == Ok(WithSign(data[0] < 128, if scale == 0 then whole else whole + "." + fraction))
  {
  }

  /** DECIMAL decoding is correct: for every precision, scale and value that fits, the wire form is
      decodeDecimalString's size and its text denotes exactly v / 10^scale. */
  lemma DecimalRoundTrip(v: int, precision: nat, scale: nat)
    requires scale <= precision && 1 <= precision && Abs(v) < Pow(10, precision)
    ensures var r := DecimalText(EncodeDecimal(v, precision, scale), precision, scale);
            r.Ok? && ReadDecimal(r.value) == Some(Fixed(v, scale))
  {
    ShownIntegral(v, precision, scale);
    ShownFraction(v, precision, scale);
    PlainOfEncoded(v, precision, scale);
    var data, l := EncodeDecimal(v, precision, scale), LayoutOf(precision, scale);
    DecimalTextOf(data, precision, scale);
    ReadParts(v, Shown(IntegralDigits(Plain(data), l).value), FractionDigits(Plain(data), l).value);
  }

  // ---- the same in bytes ----

  /** Zero and above, the top bit is set over the plain magnitude; below zero every byte is the complement of that. */
  lemma SignInBytes(v: int, precision: nat, scale: nat)
    requires scale <= precision && 1 <= precision && Abs(v) < Pow(10, precision)
    ensures var data, l := EncodeDecimal(v, precision, scale), LayoutOf(precision, scale);
            var m := EncodeParts(PartsOf(Abs(v), l, scale), l);
            && m[0] < 128 && |data| == |m|
            && (v >= 0 ==> data[0] == m[0] as int + 128 && data[1..] == m[1..])
            && (v < 0 ==> data[0] == 127 - m[0] as int && forall i :: 1 <= i < |m| ==> data[i] == 255 - m[i] as int)
  {
    hide Pow, EncodeParts, PartsOf, LayoutOf;
    var l := LayoutOf(precision, scale);
    PartsFit(Abs(v), precision, scale);
    MagnitudeTopBit(PartsOf(Abs(v), l, scale), l);
  }

  /** Complementing every byte of a positive decimal changes its sign and nothing else. */
  lemma ComplementNegates(data: bytes, precision: nat, scale: nat)
    requires scale <= precision && |data| == LayoutOf(precision, scale).Size() && data != [] && data[0] >= 128
    ensures var r := DecimalText(data, precision, scale);
            DecimalText(seq(|data|, i requires 0 <= i < |data| => 255 - data[i]), precision, scale)
            == if r.Ok? then Ok("-" + r.value) else r
  {
    hide LayoutOf, IntegralDigits, FractionDigits;
    var flipped: bytes := seq(|data|, i requires 0 <= i < |data| => 255 - data[i]);
    assert Plain(flipped) == Plain(data);
    var integral := IntegralDigits(Plain(data), LayoutOf(precision, scale));
    var digits := FractionDigits(Plain(data), LayoutOf(precision, scale));
    if integral.Ok? && digits.Ok? {
      Assoc("-", Shown(integral.value), "." + digits.value);
      Assoc("-" + Shown(integral.value), ".", digits.value);
      Assoc(Shown(integral.value), ".", digits.value);
    }
  }

  lemma BigEndianBytes(a: byte, b: byte, c: byte, d: byte)
    ensures BigEndian([]) == 0 && BigEndian([a]) == a && BigEndian([a, b]) == 0x100 * a as int + b
    ensures BigEndian([a, b, c]) == 0x1_0000 * a as int + 0x100 * b as int + c
    ensures BigEndian([a, b, c, d]) == 0x100_0000 * a as int + 0x1_0000 * b as int + 0x100 * c as int + d
  {
    assert [a][..0] == [] && [a, b][..1] == [a] && [a, b, c][..2] == [a, b] && [a, b, c, d][..3] == [a, b, c];
  }

  lemma TwoDigits(tens: nat, ones: nat)
    requires 1 <= tens < 10 && ones < 10
    ensures Digits(10 * tens + ones) == ['0' + tens as char, '0' + ones as char]
  {
    assert Digits(tens) == ['0' + tens as char];
  }

  lemma TenTwoIntegral(a: byte, b: byte, c: byte, d: byte, e: byte)
    ensures var n := 0x100_0000 * a as int + 0x1_0000 * b as int + 0x100 * c as int + d;
            IntegralDigits([a, b, c, d, e], Layout(8, 0, 0, 2)) == Ok(if n != 0 then Digits(n) else "")
  {
    hide BigEndian, Digits;
    BigEndianBytes(a, b, c, d);
    assert [a, b, c, d, e][..4] == [a, b, c, d];
  }

  lemma TenTwoFraction(a: byte, b: byte, c: byte, d: byte, e: byte)
    requires |Digits(e)| <= 2
    ensures FractionDigits([a, b, c, d, e], Layout(8, 0, 0, 2)) == Ok(Zeros(2 - |Digits(e)|) + Digits(e))
  {
    hide BigEndian, Digits, Zeros;
    BigEndianBytes(e, 0, 0, 0);
    assert [a, b, c, d, e][4..][4 * 0..] == [e] && [e][..1] == [e] && [e][0..] == [e];
    assert FractionText([e], 0, "") == Ok("");
    assert "" + Zeros(2 - |Digits(e)|) == Zeros(2 - |Digits(e)|);
  }

  lemma TenTwoLayout()
    ensures LayoutOf(10, 2) == Layout(8, 0, 0, 2) && LayoutOf(10, 2).Size() == 5
  {
  }

  lemma TenTwoText(data: bytes, a: byte, b: byte, c: byte, d: byte, e: byte)
    requires a < 128 && e < 100 && data == [128 + a, b, c, d, e] && |data| == LayoutOf(10, 2).Size()
    ensures |Digits(e)| <= 2
    ensures var n := 0x100_0000 * a as int + 0x1_0000 * b as int + 0x100 * c as int + d;
            DecimalText(data, 10, 2)
            == Ok((if n != 0 then Digits(n) else "0") + "." + (Zeros(2 - |Digits(e)|) + Digits(e)))
  {
    hide Digits, IntegralDigits, FractionDigits, Zeros, LayoutOf;
    assert Pow(10, 2) == 100;
    DigitsLength(e, 2);
    TenTwoLayout();
    assert Plain(data) == [a, b, c, d, e];
    TenTwoIntegral(a, b, c, d, e);
    TenTwoFraction(a, b, c, d, e);
  }
}
