/** Decimal text of integers, as strconv writes and reads it. Text is a sequence of characters,
    one for each byte. */
module Numerals {
  import opened Bytes

  predicate IsDigit(c: char) { '0' <= c <= '9' }

  predicate AllDigits(s: string) { forall i :: 0 <= i < |s| ==> IsDigit(s[i]) }

  function DigitValue(c: char): nat
    requires IsDigit(c)
  {
    c as int - '0' as int
  }

  function DigitChar(d: nat): (c: char)
    requires d < 10
    ensures IsDigit(c) && DigitValue(c) == d
  {
    '0' + d as char
  }

  /** The number a digit string stands for; leading zeros do not matter. */
  function DigitsValue(s: string): nat
    requires AllDigits(s)
  {
    if s == "" then 0 else 10 * DigitsValue(s[..|s| - 1]) + DigitValue(s[|s| - 1])
  }

  /** Canonical digits of a natural number: strconv.FormatUint. */
  function Digits(n: nat): (s: string)
    ensures s != "" && AllDigits(s)
  {
    if n < 10 then [DigitChar(n)] else Digits(n / 10) + [DigitChar(n % 10)]
  }

  lemma {:induction false} DigitsValueOfDigits(n: nat)
    ensures DigitsValue(Digits(n)) == n
  {
    var s := Digits(n);
    if n >= 10 {
      DigitsValueOfDigits(n / 10);
      assert s[..|s| - 1] == Digits(n / 10);
    } else {
      assert s[..0] == "";
    }
  }

  /** No more digits than the power of ten needs. */
  lemma {:induction false} DigitsLength(n: nat, k: nat)
    requires 1 <= k && n < Pow(10, k)
    ensures |Digits(n)| <= k
  {
    if n >= 10 {
      assert Pow(10, k) == 10 * Pow(10, k - 1);
      DigitsLength(n / 10, k - 1);
    }
  }

  /** `a` times 10^k. */
  function Shift(a: nat, k: nat): nat { if k == 0 then a else 10 * Shift(a, k - 1) }

  /** `n` without its last k decimal digits. */
  function High(n: nat, k: nat): nat { if k == 0 then n else High(n / 10, k - 1) }

  /** The last k decimal digits of `n`. */
  function Low(n: nat, k: nat): nat { if k == 0 then 0 else 10 * Low(n / 10, k - 1) + n % 10 }

  lemma {:induction false} SplitSum(n: nat, k: nat)
    ensures Shift(High(n, k), k) + Low(n, k) == n
  {
    if k == 0 {
    } else {
      SplitSum(n / 10, k - 1);
    }
  }

  lemma {:induction false} SplitBounds(n: nat, a: nat, k: nat)
    requires n < Pow(10, a + k)
    ensures High(n, k) < Pow(10, a)
    ensures Low(n, k) < Pow(10, k)
  {
    if k == 0 {
    } else {
      assert Pow(10, a + k) == 10 * Pow(10, a + (k - 1)) && Pow(10, k) == 10 * Pow(10, k - 1);
      SplitBounds(n / 10, a, k - 1);
    }
  }

  lemma {:induction false} ShiftShift(a: nat, j: nat, k: nat)
    ensures Shift(Shift(a, j), k) == Shift(a, j + k)
  {
    if k == 0 {
    } else {
      ShiftShift(a, j, k - 1);
    }
  }

  lemma {:induction false} ShiftSum(a: nat, b: nat, k: nat)
    ensures Shift(a + b, k) == Shift(a, k) + Shift(b, k)
  {
    if k == 0 {
    } else {
      ShiftSum(a, b, k - 1);
    }
  }

  lemma {:induction false} ShiftZero(k: nat)
    ensures Shift(0, k) == 0
  {
    if k == 0 {
    } else {
      ShiftZero(k - 1);
    }
  }

  lemma {:induction false} DigitsValueConcat(a: string, b: string)
    requires AllDigits(a) && AllDigits(b)
    ensures AllDigits(a + b) && DigitsValue(a + b) == Shift(DigitsValue(a), |b|) + DigitsValue(b)
  {
    if b == "" {
      assert a + b == a;
    } else {
      var b' := b[..|b| - 1];
      DigitsValueConcat(a, b');
      assert (a + b)[..|a + b| - 1] == a + b';
    }
  }

  function Zeros(n: nat): (s: string)
    ensures |s| == n && AllDigits(s)
  {
    seq(n, _ => '0')
  }

  lemma {:induction false} ZerosValue(n: nat)
    ensures DigitsValue(Zeros(n)) == 0
  {
    if n == 0 {
    } else {
      ZerosValue(n - 1);
      assert Zeros(n)[..n - 1] == Zeros(n - 1);
    }
  }

  /** strconv.Itoa. */
  function Itoa(n: int): (s: string)
    ensures s != ""
  {
    if n < 0 then "-" + Digits(-n) else Digits(n)
  }

  /** strconv.ParseInt in base 10 with 64 bits, and Atoi on a 64-bit platform: an optional sign,
      at least one digit and nothing else, in range. */
  function ParseInt(s: string): (r: Option<int>)
    ensures r.Some? ==> -TWO_63 <= r.value < TWO_63
  {
    if s == "" then None
    else if s[0] == '-' then ParseSigned(s[1..], -1)
    else if s[0] == '+' then ParseSigned(s[1..], 1)
    else ParseSigned(s, 1)
  }

  function ParseSigned(digits: string, sign: int): (r: Option<int>)
    requires sign == 1 || sign == -1
    ensures r.Some? ==> -TWO_63 <= r.value < TWO_63
  {
    if digits == "" || !AllDigits(digits) then None
    else
      var n := sign * DigitsValue(digits);
      if -TWO_63 <= n < TWO_63 then Some(n) else None
  }

  /** Every 64-bit integer survives being written and read back. */
  lemma ParseIntOfItoa(n: int)
    requires -TWO_63 <= n < TWO_63
    ensures ParseInt(Itoa(n)) == Some(n)
  {
    if n < 0 {
      DigitsValueOfDigits(-n);
      assert Itoa(n)[1..] == Digits(-n);
    } else {
      DigitsValueOfDigits(n);
      assert IsDigit(Itoa(n)[0]);
    }
  }

  /** What ParseInt makes of any text: digits with at most one sign before them are read as their number, in range,
      and nothing else is. */
  lemma ParseIntCases(sign: string, digits: string)
    requires sign == "" || sign == "+" || sign == "-"
    requires digits != "" ==> digits[0] != '+' && digits[0] != '-'
    ensures var good := digits != "" && AllDigits(digits);
            var n := if good then (if sign == "-" then -1 else 1) * DigitsValue(digits) else 0;
            ParseInt(sign + digits)
            == if good && -0x8000_0000_0000_0000 <= n <= 0x7fff_ffff_ffff_ffff then Some(n) else None
  {
    var s := sign + digits;
    if sign == "" { assert s == digits; } else { assert s[0] == sign[0] && s[1..] == digits; }
  }
}
