/**
  Lower-case hexadecimal text as C's `printf("%0Nx", v)` and Ruby's
  `format('%02x', v)` produce it: the digits of `v`, most significant first,
  padded with leading zeros to at least `N` characters and never truncated.
  `Value` reads such text back, so every formatted group can be parsed again.
 */
module Hex {

  /** 16^n */
  function Pow16(n: nat): (p: nat)
    ensures p >= 1
  {
    if n == 0 then 1 else 16 * Pow16(n - 1)
  }

  predicate IsHexDigit(ch: char) {
    '0' <= ch <= '9' || 'a' <= ch <= 'f'
  }

  predicate AllHexDigits(s: string) {
    forall i :: 0 <= i < |s| ==> IsHexDigit(s[i])
  }

  /** The lower-case digit for a value below 16. */
  function DigitChar(d: nat): (ch: char)
    requires d < 16
    ensures IsHexDigit(ch)
  {
    if d < 10 then ('0' as int + d) as char else ('a' as int + d - 10) as char
  }

  /** The value of one digit; the inverse of DigitChar. */
  function DigitValue(ch: char): (d: nat)
    requires IsHexDigit(ch)
    ensures d < 16 && DigitChar(d) == ch
  {
    if ch <= '9' then (ch as int - '0' as int) else (ch as int - 'a' as int + 10)
  }

  /** The low `n` hexadecimal digits of `v`, most significant first. */
  function Digits(v: nat, n: nat): (s: string)
    ensures |s| == n && AllHexDigits(s)
  {
    if n == 0 then "" else Digits(v / 16, n - 1) + [DigitChar(v % 16)]
  }

  /** The number that a string of hexadecimal digits denotes. */
  function Value(s: string): (v: nat)
    requires AllHexDigits(s)
    ensures v < Pow16(|s|)
  {
    if s == "" then 0 else 16 * Value(s[..|s| - 1]) + DigitValue(s[|s| - 1])
  }

  /** The fewest digits that write `v` (at least one, as `%x` prints 0 as "0"). */
  function Width(v: nat): (n: nat)
    ensures 1 <= n && v < Pow16(n)
    ensures n > 1 ==> Pow16(n - 1) <= v
  {
    if v < 16 then 1 else 1 + Width(v / 16)
  }

  lemma Pow16Values()
    ensures Pow16(2) == 0x100 && Pow16(4) == 0x1_0000 && Pow16(8) == 0x1_0000_0000
  {
  }

  /** Values from 0x10000 up to 0xfffff take five digits. */
  lemma WidthFive(v: nat)
    requires 0x1_0000 <= v < 0x10_0000
    ensures Pow16(4) <= v && Width(v) == 5
  {
    assert Pow16(4) == 0x1_0000 && Pow16(5) == 0x10_0000;
    WidthIsLeast(v, 4);
    WidthIsLeast(v, 5);
  }

  function Max(x: nat, y: nat): nat {
    if x < y then y else x
  }

  /**
    `%0wx` applied to `v`: exactly `w` characters when `v` fits in `w >= 1`
    digits, otherwise all of `v`'s digits (printf widens, it does not cut), and
    the text always reads back as `v`.
   */
  function Printf(v: nat, w: nat): (s: string)
    ensures AllHexDigits(s)
    ensures 1 <= w && v < Pow16(w) ==> |s| == w
    ensures Pow16(w) <= v ==> |s| == Width(v) > w
    ensures Value(s) == v
  {
    var n := Max(w, Width(v));
    WidthIsLeast(v, w);
    ValueOfDigits(v, n);
    PowMonotone(Width(v), n);
    ModUnique(v, Pow16(n), 0, v);
    Digits(v, n)
  }

  lemma PowMonotone(m: nat, n: nat)
    requires m <= n
    ensures Pow16(m) <= Pow16(n)
    decreases n
  {
    if m < n {
      PowMonotone(m, n - 1);
    }
  }

  /** `v` fits in `w` digits exactly when its own width is at most `w`. */
  lemma WidthIsLeast(v: nat, w: nat)
    ensures v < Pow16(w) ==> Width(v) <= Max(w, 1)
    ensures Pow16(w) <= v ==> Width(v) > w
  {
    var n := Width(v);
    if v < Pow16(w) && n > Max(w, 1) {
      PowMonotone(w, n - 1);
    }
    if Pow16(w) <= v && n <= w {
      PowMonotone(n, w);
    }
  }

  lemma MulAtLeast(d: nat, n: nat)
    requires n >= 1
    ensures d * n >= d
  {
    if n > 1 {
      MulAtLeast(d, n - 1);
      assert d * n == d * (n - 1) + d;
    }
  }

  /** Division with remainder is unique. */
  lemma ModUnique(v: nat, d: nat, k: nat, x: nat)
    requires d >= 1 && x < d && v == d * k + x
    ensures v % d == x
  {
    var q, r := v / d, v % d;
    assert v == d * q + r;
    if q < k {
      assert d * k == d * q + d * (k - q);
      MulAtLeast(d, k - q);
    } else if q > k {
      assert d * q == d * k + d * (q - k);
      MulAtLeast(d, q - k);
    }
  }

  lemma DivModStep(v: nat, p: nat)
    requires p >= 1
    ensures 16 * ((v / 16) % p) + v % 16 == v % (16 * p)
  {
    var q, r := v / 16, v % 16;
    var k, m := q / p, q % p;
    assert v == 16 * q + r;
    assert q == p * k + m;
    assert 16 * q == (16 * p) * k + 16 * m;
    ModUnique(v, 16 * p, k, 16 * m + r);
  }

  /** Reading back the `n` digits written for `v` yields `v` modulo 16^n. */
  lemma {:induction false} ValueOfDigits(v: nat, n: nat)
    ensures Value(Digits(v, n)) == v % Pow16(n)
  {
    if n > 0 {
      var s := Digits(v, n);
      assert s[..|s| - 1] == Digits(v / 16, n - 1);
      ValueOfDigits(v / 16, n - 1);
      DivModStep(v, Pow16(n - 1));
    }
  }
}
