/** Bytes, error outcomes and the little-endian and length-encoded integers that every
    MySQL event is built from (mysql/common/util.go). */
module Bytes {

  type byte = x: int | 0 <= x < 256
  type bytes = seq<byte>

  const TWO_63 := 0x8000_0000_0000_0000
  const TWO_64 := 0x1_0000_0000_0000_0000

  datatype Option<+T> = None | Some(value: T)

  /** Why a decoder stopped. `EOF` is the end a decoder loop swallows silently; `Panic` is the Go
      runtime stopping on an index, slice or repeat count out of range. */
  datatype Error = EOF | UnexpectedEOF | Invalid | Panic

  datatype Result<+T> = Ok(value: T) | Err(error: Error) {
    predicate IsFailure() { Err? }

    function PropagateFailure<U>(): Result<U>
      requires Err?
    {
      Err(error)
    }

    function Extract(): T
      requires Ok?
    {
      value
    }
  }

  function Pow(base: nat, exponent: nat): (p: nat)
    ensures base > 0 ==> p > 0
  {
    if exponent == 0 then 1 else base * Pow(base, exponent - 1)
  }

  /** A cursor at `p` sees what a reader of the remaining sequence sees. */
  lemma Cursor<T>(s: seq<T>, p: nat, n: nat)
    requires p + n <= |s|
    ensures s[p..][..n] == s[p..p + n] && s[p..][n..] == s[p + n..]
  {
  }

  lemma Concat<T>(a: seq<T>, b: seq<T>)
    ensures (a + b)[..|a|] == a && (a + b)[|a|..] == b
  {
  }

  lemma Assoc<T>(a: seq<T>, b: seq<T>, c: seq<T>)
    ensures (a + b) + c == a + (b + c)
  {
  }

  // ---- fixed-length little-endian integers ----

  /** The number a little-endian byte string stands for. */
  function LittleEndian(b: bytes): (n: nat)
  {
    if b == [] then 0 else b[0] + 256 * LittleEndian(b[1..])
  }

  /** The `width` low bytes of `n`, least significant first. */
  function EncodeLittleEndian(n: nat, width: nat): (b: bytes)
    ensures |b| == width
  {
    if width == 0 then [] else [n % 256] + EncodeLittleEndian(n / 256, width - 1)
  }

  lemma {:induction false} LittleEndianBound(b: bytes)
    ensures LittleEndian(b) < Pow(256, |b|)
  {
    if b == [] {
    } else {
      LittleEndianBound(b[1..]);
    }
  }

  lemma {:induction false} LittleEndianRoundTrip(n: nat, width: nat)
    requires n < Pow(256, width)
    ensures LittleEndian(EncodeLittleEndian(n, width)) == n
  {
    if width == 0 {
    } else {
      assert n / 256 < Pow(256, width - 1);
      LittleEndianRoundTrip(n / 256, width - 1);
      assert EncodeLittleEndian(n, width)[1..] == EncodeLittleEndian(n / 256, width - 1);
    }
  }

  lemma {:induction false} LittleEndianAppend(b: bytes, x: byte)
    ensures LittleEndian(b + [x]) == LittleEndian(b) + Pow(256, |b|) * x
  {
    if b == [] {
      assert b + [x] == [x];
      assert LittleEndian([x]) == x + 256 * LittleEndian([]);
    } else {
      assert (b + [x])[1..] == b[1..] + [x];
      LittleEndianAppend(b[1..], x);
      var p := Pow(256, |b| - 1);
      assert 256 * (LittleEndian(b[1..]) + p * x) == 256 * LittleEndian(b[1..]) + (256 * p) * x;
    }
  }

  lemma FirstByte(first: byte, rest: bytes)
    ensures LittleEndian([first] + rest) == first + 256 * LittleEndian(rest)
  {
    assert ([first] + rest)[1..] == rest;
  }

  /** Byte `i` counts 256^i, written out for short strings and step by step beyond them. */
  lemma LittleEndianBytes(a: byte, b: byte, c: byte, d: byte, high: bytes)
    ensures LittleEndian([a]) == a && LittleEndian([a, b]) == a + 0x100 * b as int
    ensures LittleEndian([a, b, c]) == a + 0x100 * b as int + 0x1_0000 * c as int
    ensures LittleEndian([a, b, c, d] + high)
            == a + 0x100 * b as int + 0x1_0000 * c as int + 0x100_0000 * d as int + 0x1_0000_0000 * LittleEndian(high)
  {
    hide LittleEndian;
    assert LittleEndian([]) == 0 by { EmptyIsZero(); }
    assert [a] == [a] + [] && [b] == [b] + [] && [c] == [c] + [];
    FirstByte(a, []);
    FirstByte(b, []);
    FirstByte(c, []);
    assert [a, b] == [a] + [b] && [b, c] == [b] + [c] && [a, b, c] == [a] + [b, c];
    FirstByte(a, [b]);
    FirstByte(b, [c]);
    FirstByte(a, [b, c]);
    assert [a, b, c, d] + high == [a] + ([b] + ([c] + ([d] + high)));
    FirstByte(d, high);
    FirstByte(c, [d] + high);
    FirstByte(b, [c] + ([d] + high));
    FirstByte(a, [b] + ([c] + ([d] + high)));
  }

  lemma EmptyIsZero()
    ensures LittleEndian([]) == 0
  {
  }

  /** The reader's loop: OR each byte in at its own shift. The bytes do not overlap, so OR is a sum; those past
      the eighth are shifted out of the 64 bits. */
  method FixedLengthInt(buf: bytes) returns (num: nat)
    ensures num == LittleEndian(if |buf| <= 8 then buf else buf[..8])
    ensures num < TWO_64
  {
    num := 0;
    var weight: nat := 1;
    ghost var kept := if |buf| <= 8 then buf else buf[..8];
    for i := 0 to |buf|
      invariant num == LittleEndian(if i <= |kept| then kept[..i] else kept)
      invariant weight == Weight(i)
    {
      if i < |kept| {
        LittleEndianAppend(kept[..i], buf[i]);
        assert kept[..i + 1] == kept[..i] + [buf[i]];
      } else {
        assert kept[..|kept|] == kept;
      }
      num := num + weight * buf[i];
      WeightStep(i);
      weight := weight * 256 % TWO_64;
    }
    assert kept[..|kept|] == kept;
    LittleEndianBound(kept);
    Powers256();
  }

  /** What byte `i` counts in 64 bits. */
  function Weight(i: nat): nat { if i < 8 then Pow(256, i) else 0 }

  lemma WeightStep(i: nat)
    ensures Weight(i + 1) == Weight(i) * 256 % TWO_64
  {
    Powers256();
  }

  // ---- length-encoded integers ----

  datatype LengthInt = LengthInt(num: nat, isNull: bool, size: nat)

  /** The bytes after the marker that hold the value; a first byte of 0xff is read as 255 itself. */
  function TailWidth(first: byte): nat {
    if first == 0xfc then 2 else if first == 0xfd then 3 else if first == 0xfe then 8 else 0
  }

  function LengthEncodedInt(b: bytes): (r: Result<LengthInt>)
    ensures r.Ok? ==> 1 <= r.value.size <= |b| && r.value.num < TWO_64
    ensures r.Err? ==> r.error == Panic
  {
    if b == [] then Err(Panic)
    else if |b| < 1 + TailWidth(b[0]) then Err(Panic)
    else if b[0] == 0xfb then Ok(LengthInt(0, true, 1))
    else if TailWidth(b[0]) > 0 then
      LittleEndianBound(b[1..1 + TailWidth(b[0])]); Powers256();
      Ok(LengthInt(LittleEndian(b[1..1 + TailWidth(b[0])]), false, 1 + TailWidth(b[0])))
    else Ok(LengthInt(b[0], false, 1))
  }

  /** The shortest length-encoded form. */
  function EncodeLengthInt(n: nat): (b: bytes)
    requires n < TWO_64
    ensures |b| >= 1
  {
    if n <= 250 then [n]
    else if n < 0x1_0000 then [0xfc] + EncodeLittleEndian(n, 2)
    else if n < 0x100_0000 then [0xfd] + EncodeLittleEndian(n, 3)
    else [0xfe] + EncodeLittleEndian(n, 8)
  }

  lemma Powers256()
    ensures Pow(256, 1) == 0x100 && Pow(256, 2) == 0x1_0000 && Pow(256, 3) == 0x100_0000
    ensures Pow(256, 4) == 0x1_0000_0000 && Pow(256, 6) == 0x1_0000_0000_0000
    ensures Pow(256, 8) == TWO_64
  {
    assert Pow(256, 2) == 256 * Pow(256, 1);
    assert Pow(256, 4) == 256 * (256 * Pow(256, 2));
    assert Pow(256, 6) == 256 * (256 * Pow(256, 4));
    assert Pow(256, 8) == 256 * (256 * Pow(256, 6));
  }

  lemma LengthIntRoundTrip(n: nat, suffix: bytes)
    requires n < TWO_64
    ensures LengthEncodedInt(EncodeLengthInt(n) + suffix) == Ok(LengthInt(n, false, |EncodeLengthInt(n)|))
  {
    var b := EncodeLengthInt(n) + suffix;
    if n > 250 {
      var w := TailWidth(b[0]);
      Powers256();
      LittleEndianRoundTrip(n, w);
      assert b[1..1 + w] == EncodeLittleEndian(n, w);
    }
  }

  /** 0xfb stands for NULL, 0xff for itself; 0xfc, 0xfd and 0xfe want 2, 3 and 8 bytes more, and in an empty
      buffer there is nothing to look at. */
  lemma LengthIntMarkers(rest: bytes)
    ensures LengthEncodedInt([0xfb] + rest) == Ok(LengthInt(0, true, 1))
    ensures LengthEncodedInt([0xff] + rest) == Ok(LengthInt(0xff, false, 1))
    ensures |rest| < 2 ==> LengthEncodedInt([0xfc] + rest) == Err(Panic)
    ensures |rest| < 3 ==> LengthEncodedInt([0xfd] + rest) == Err(Panic)
    ensures |rest| < 8 ==> LengthEncodedInt([0xfe] + rest) == Err(Panic)
    ensures LengthEncodedInt([]) == Err(Panic)
  {
  }

  // ---- Go integer conversions ----

  /** uint64 to int. */
  function GoInt(n: nat): int
    requires n < TWO_64
  {
    if n < TWO_63 then n else n - TWO_64
  }

  /** Addition on int, wrapping at 64 bits; `k` is a small non-negative constant. */
  function WrapAdd(n: int, k: nat): int
    requires -TWO_63 <= n < TWO_63 && k < TWO_63
  {
    if n + k < TWO_63 then n + k else n + k - TWO_64
  }

  /** Division that truncates toward zero, as Go divides. */
  function TruncDiv(n: int, d: int): int
    requires d > 0
  {
    if n >= 0 then n / d else -((-n) / d)
  }

  /** Bytes of a bitmap over `n` columns. */
  function BitmapByteSize(n: int): int
    requires -TWO_63 <= n < TWO_63
  {
    TruncDiv(WrapAdd(n, 7), 8)
  }

  // ---- bitmaps ----

  /** `n & (1 << i) != 0`. */
  predicate TestBit(n: nat, i: nat) {
    if i == 0 then n % 2 == 1 else TestBit(n / 2, i - 1)
  }

  predicate BitmapBit(bitmap: bytes, i: int) {
    0 <= i && i / 8 < |bitmap| && TestBit(bitmap[i / 8], i % 8)
  }

  /** The number whose bits, lowest first, are given. */
  function FromBits(bits: seq<bool>): (n: nat)
    ensures n < Pow(2, |bits|)
  {
    if bits == [] then 0 else (if bits[0] then 1 else 0) + 2 * FromBits(bits[1..])
  }

  lemma {:induction false} BitOfNumber(bits: seq<bool>, i: nat)
    requires i < |bits|
    ensures TestBit(FromBits(bits), i) == bits[i]
  {
    if i == 0 {
    } else {
      BitOfNumber(bits[1..], i - 1);
      assert FromBits(bits) / 2 == FromBits(bits[1..]);
    }
  }

  lemma PowerOf2Byte(k: nat)
    requires k <= 8
    ensures Pow(2, k) <= 256
  {
    assert Pow(2, 4) == 2 * (2 * Pow(2, 2));
    assert Pow(2, 8) == 2 * (2 * (2 * (2 * Pow(2, 4))));
    assert Pow(2, 6) == 2 * (2 * Pow(2, 4));
    assert Pow(2, 7) == 2 * Pow(2, 6);
  }

  /** Packs bits into bytes, lowest first; missing high bits of the last byte are zero. */
  function PackBits(bits: seq<bool>): (b: bytes)
    ensures |b| == (|bits| + 7) / 8
  {
    if |bits| == 0 then []
    else if |bits| <= 8 then PowerOf2Byte(|bits|); [FromBits(bits)]
    else PowerOf2Byte(8); [FromBits(bits[..8])] + PackBits(bits[8..])
  }

  lemma {:induction false} PackedBit(bits: seq<bool>, suffix: bytes, i: nat)
    requires i < |bits|
    ensures BitmapBit(PackBits(bits) + suffix, i) == bits[i]
  {
    if |bits| <= 8 {
      BitOfNumber(bits, i);
    } else if i < 8 {
      BitOfNumber(bits[..8], i);
    } else {
      PackedBit(bits[8..], suffix, i - 8);
      var b, tail := PackBits(bits) + suffix, PackBits(bits[8..]) + suffix;
      assert b[1..] == tail;
      assert i / 8 == (i - 8) / 8 + 1 && i % 8 == (i - 8) % 8;
    }
  }
}
