/** `Number.prototype.toString(base)` on non-negative integers, used for the decimal
    render token and for the hexadecimal words of a digest. */
module Radix {

  /** The digit character for `d`: `0`-`9`, then lower-case `a`-`f`. */
  function Digit(d: nat): (c: char)
    requires d < 16
    ensures DigitValue(c) == d
  {
    if d < 10 then ('0' as int + d) as char else ('a' as int + d - 10) as char
  }

  /** The value of a digit character; 16 for a character that is no digit. */
  function DigitValue(c: char): nat
  {
    if '0' <= c <= '9' then c as int - '0' as int
    else if 'a' <= c <= 'f' then c as int - 'a' as int + 10
    else 16
  }

  /** `c` is a digit of `base` as `toString` writes it. */
  predicate IsDigit(c: char, base: nat)
    requires base <= 16
  {
    DigitValue(c) < base && Digit(DigitValue(c)) == c
  }

  /** `n.toString(base)`: most significant digit first, no leading zero, "0" for zero. */
  function ToRadix(n: nat, base: nat): (s: string)
    requires 2 <= base <= 16
    ensures |s| >= 1
    ensures forall i :: 0 <= i < |s| ==> IsDigit(s[i], base)
    ensures s[0] == '0' <==> n == 0
    ensures n == 0 ==> s == "0"
    decreases n
  {
    if n < base then [Digit(n)]
    else
      DivShrinks(n, base);
      DivModBounds(n, base);
      ToRadix(n / base, base) + [Digit(n % base)]
  }

  /** The number a digit string denotes. */
  function FromRadix(s: string, base: nat): nat
    requires base <= 16
    requires forall i :: 0 <= i < |s| ==> IsDigit(s[i], base)
  {
    if s == [] then 0
    else
      var high := FromRadix(s[..|s| - 1], base);
      MulNonNegative(high, base);
      high * base + DigitValue(s[|s| - 1])
  }

  /** Reading back the digits `toString` wrote gives the number. */
  lemma {:induction false} FromToRadix(n: nat, base: nat)
    requires 2 <= base <= 16
    ensures FromRadix(ToRadix(n, base), base) == n
    decreases n
  {
    var s := ToRadix(n, base);
    DivMod(n, base);
    if n >= base {
      DivShrinks(n, base);
      FromToRadix(n / base, base);
      assert s[..|s| - 1] == ToRadix(n / base, base);
      assert DigitValue(s[|s| - 1]) == n % base;
      assert FromRadix(s, base) == (n / base) * base + n % base;
    }
  }

  /** Different numbers have different texts. */
  lemma ToRadixInjective(m: nat, n: nat, base: nat)
    requires 2 <= base <= 16
    requires ToRadix(m, base) == ToRadix(n, base)
    ensures m == n
  {
    FromToRadix(m, base);
    FromToRadix(n, base);
  }

  /** The decimal text of `n`, as `n.toString()` writes it. */
  function Decimal(n: nat): (s: string)
    ensures forall i :: 0 <= i < |s| ==> '0' <= s[i] <= '9'
  {
    ToRadix(n, 10)
  }

  function Pow(base: nat, k: nat): (p: nat)
    requires base >= 1
    ensures p >= 1
  {
    if k == 0 then 1 else base * Pow(base, k - 1)
  }

  /** `k` zero digits. */
  function Zeros(k: nat): (s: string)
    ensures |s| == k && forall i :: 0 <= i < k ==> s[i] == '0'
  {
    seq(k, _ => '0')
  }

  /** The lowest `width` digits of `n` in `base`, most significant first, zero-padded. */
  function FixedWidth(n: nat, base: nat, width: nat): (s: string)
    requires 2 <= base <= 16
    ensures |s| == width
  {
    DivModBounds(n, base);
    if width == 0 then [] else FixedWidth(n / base, base, width - 1) + [Digit(n % base)]
  }

  lemma {:induction false} FixedWidthZero(base: nat, width: nat)
    requires 2 <= base <= 16
    ensures FixedWidth(0, base, width) == Zeros(width)
  {
    if width > 0 {
      FixedWidthZero(base, width - 1);
      assert Zeros(width - 1) + ['0'] == Zeros(width);
    }
  }

  /** The bounds of quotient and remainder, without the product that links them. */
  lemma DivModBounds(n: nat, base: nat)
    requires 2 <= base
    ensures 0 <= n / base && 0 <= n % base < base
  {
    DivMod(n, base);
  }

  lemma DivMod(n: nat, base: nat)
    requires 2 <= base
    ensures n == (n / base) * base + n % base
    ensures 0 <= n % base < base
    ensures n < base ==> n / base == 0 && n % base == n
  {
  }

  lemma MulNonNegative(x: nat, y: nat)
    ensures x * y >= 0
  {
  }

  lemma DivShrinks(n: nat, base: nat)
    requires 2 <= base <= n
    ensures 1 <= n / base < n
  {
  }

  /** A number below `base * p` has a quotient below `p`. */
  lemma DivBound(c: nat, base: nat, p: nat)
    requires base >= 1 && c < base * p
    ensures c / base < p
  {
    var q := c / base;
    assert c == q * base + c % base;
  }

  /** A number below `base^width` written with `toString` and left-padded with zeros to
      `width` digits is its fixed-width form. */
  lemma {:induction false} PaddedRadix(n: nat, base: nat, width: nat)
    requires 2 <= base <= 16 && width >= 1
    requires n < Pow(base, width)
    ensures |ToRadix(n, base)| <= width
    ensures Zeros(width - |ToRadix(n, base)|) + ToRadix(n, base) == FixedWidth(n, base, width)
    decreases n
  {
    DivMod(n, base);
    var f := FixedWidth(n, base, width);
    assert f == FixedWidth(n / base, base, width - 1) + [Digit(n % base)];
    if n < base {
      FixedWidthZero(base, width - 1);
      assert ToRadix(n, base) == [Digit(n % base)];
    } else {
      var p := Pow(base, width - 1);
      assert Pow(base, width) == base * p;
      if width == 1 {
        assert false;
      }
      DivShrinks(n, base);
      DivBound(n, base, p);
      PaddedRadix(n / base, base, width - 1);
      var t := ToRadix(n / base, base);
      assert ToRadix(n, base) == t + [Digit(n % base)];
      assert Zeros(width - |ToRadix(n, base)|) == Zeros(width - 1 - |t|);
    }
  }

  /** The last digit of a fixed-width form is the remainder, the others the quotient's. */
  lemma FixedWidthStep(n: nat, base: nat, width: nat)
    requires 2 <= base <= 16 && width >= 1
    ensures FixedWidth(n, base, width) == FixedWidth(n / base, base, width - 1) + [Digit(n % base)]
  {
  }
}
