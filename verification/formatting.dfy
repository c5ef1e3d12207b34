/** Python's `%d`, `%02X` and `%04X` conversions of non-negative integers,
    with the digit parser that inverts them. */
module Formatting {

  /** The upper-case digit for `d`, as `%X` and `%d` write it. */
  function DigitChar(d: nat): (c: char)
    requires d < 16
  {
    if d < 10 then ('0' as int + d) as char else ('A' as int + d - 10) as char
  }

  /** The value of a digit character; 0 for anything that is not one. */
  function DigitValue(c: char): nat
  {
    if '0' <= c <= '9' then c as int - '0' as int
    else if 'A' <= c <= 'F' then c as int - 'A' as int + 10
    else 0
  }

  /** A digit of base `base` as the formatter writes it. */
  predicate IsDigit(c: char, base: nat)
  {
    (('0' <= c <= '9') || ('A' <= c <= 'F')) && DigitValue(c) < base
  }

  lemma DigitRoundTrip(d: nat, base: nat)
    requires d < base <= 16
    ensures DigitValue(DigitChar(d)) == d
    ensures IsDigit(DigitChar(d), base)
  {}

  /** The value of a digit string read most significant digit first. */
  function Value(s: string, base: nat): nat
  {
    if |s| == 0 then 0 else Value(s[..|s| - 1], base) * base + DigitValue(s[|s| - 1])
  }

  /** The digits of `n` in `base` without leading zeros ("0" for zero). */
  function Digits(n: nat, base: nat): (s: string)
    requires 2 <= base <= 16
    ensures 1 <= |s|
    ensures forall i :: 0 <= i < |s| ==> IsDigit(s[i], base)
    decreases n
  {
    if n < base then
      DigitRoundTrip(n, base);
      [DigitChar(n)]
    else
      DivShrinks(n, base);
      DigitRoundTrip(n % base, base);
      Digits(n / base, base) + [DigitChar(n % base)]
  }

  lemma DivShrinks(n: nat, base: nat)
    requires 2 <= base <= n
    ensures n / base < n && n % base < base
  {
    assert n == base * (n / base) + n % base;
  }

  /** Reading back the digits of `n` gives `n`. */
  lemma {:induction false} DigitsRoundTrip(n: nat, base: nat)
    requires 2 <= base <= 16
    ensures Value(Digits(n, base), base) == n
    decreases n
  {
    var q, r := n / base, n % base;
    DigitRoundTrip(r, base);
    if n >= base {
      DivMod(n, base);
      var high := Digits(q, base);
      var s := high + [DigitChar(r)];
      assert Digits(n, base) == s;
      assert s[..|s| - 1] == high;
      DigitsRoundTrip(q, base);
      assert Value(s, base) == q * base + r;
      DivMod(n, base);
    }
  }

  lemma DivMod(n: nat, base: nat)
    requires 2 <= base
    ensures n == (n / base) * base + n % base
    ensures 1 <= n ==> n / base < n
  {
    if base <= n {
      DivShrinks(n, base);
    }
  }

  /** `k` copies of `c`. */
  function Repeat(c: char, k: nat): (s: string)
    ensures |s| == k
    ensures forall i :: 0 <= i < k ==> s[i] == c
  {
    seq(k, _ => c)
  }

  /** `%0<width>X`: upper-case hexadecimal, zero-padded on the left to at
      least `width` characters. */
  function Hex(n: nat, width: nat): (s: string)
  {
    var d := Digits(n, 16);
    if |d| < width then Repeat('0', width - |d|) + d else d
  }

  /** `%d` of a non-negative integer. */
  function Dec(n: nat): (s: string)
  {
    Digits(n, 10)
  }

  lemma {:induction false} LeadingZeros(k: nat, s: string, base: nat)
    ensures Value(Repeat('0', k) + s, base) == Value(s, base)
    decreases |s|
  {
    if |s| == 0 {
      assert Repeat('0', k) + s == Repeat('0', k);
      ZerosValue(k, base);
    } else {
      var s' := s[..|s| - 1];
      assert (Repeat('0', k) + s)[..|Repeat('0', k) + s| - 1] == Repeat('0', k) + s';
      LeadingZeros(k, s', base);
    }
  }

  lemma {:induction false} ZerosValue(k: nat, base: nat)
    ensures Value(Repeat('0', k), base) == 0
  {
    if k > 0 {
      assert Repeat('0', k)[..k - 1] == Repeat('0', k - 1);
      ZerosValue(k - 1, base);
    }
  }

  /** Reading back a `%0<width>X` rendering gives the number; the
      rendering is at least `width` digits long and holds only digits. */
  lemma HexRoundTrip(n: nat, width: nat)
    ensures Value(Hex(n, width), 16) == n
    ensures |Hex(n, width)| >= width
    ensures forall i :: 0 <= i < |Hex(n, width)| ==> IsDigit(Hex(n, width)[i], 16)
  {
    var d := Digits(n, 16);
    DigitsRoundTrip(n, 16);
    if |d| < width {
      LeadingZeros(width - |d|, d, 16);
      var s := Repeat('0', width - |d|) + d;
      forall i | 0 <= i < |s|
        ensures IsDigit(s[i], 16)
      {
        if i >= width - |d| {
          assert s[i] == d[i - (width - |d|)];
        }
      }
    }
  }

  /** Reading back a `%d` rendering gives the number. */
  lemma DecRoundTrip(n: nat)
    ensures Value(Dec(n), 10) == n
    ensures forall i :: 0 <= i < |Dec(n)| ==> IsDigit(Dec(n)[i], 10)
  {
    DigitsRoundTrip(n, 10);
  }

  function Pow16(k: nat): nat
  {
    if k == 0 then 1 else 16 * Pow16(k - 1)
  }

  /** A number below 16^k has at most k hexadecimal digits. */
  lemma {:induction false} HexDigitsBound(n: nat, k: nat)
    requires 1 <= k && n < Pow16(k)
    ensures |Digits(n, 16)| <= k
  {
    if n >= 16 {
      assert k >= 2;
      DivMod(n, 16);
      assert n / 16 < Pow16(k - 1);
      HexDigitsBound(n / 16, k - 1);
    }
  }

  /** Numbers below 256 render in exactly two hexadecimal digits, numbers
      below 65536 in exactly four. */
  lemma HexWidth(n: nat, width: nat)
    requires width == 2 || width == 4
    requires n < Pow16(width)
    ensures |Hex(n, width)| == width
  {
    HexDigitsBound(n, width);
  }
}
