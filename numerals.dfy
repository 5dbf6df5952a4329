/** Positional numerals: Python's `str(n)` (base 10) and `f"{n:X}"` (base 16,
    upper-case digits), `str.zfill`, and the parser that reads them back. */
module Numerals {
  import opened Text

  const ZERO: CodePoint := 48   // '0'

  predicate ValidBase(base: nat)
  {
    2 <= base <= 16
  }

  function Pow(base: nat, k: nat): nat
  {
    if k == 0 then 1 else base * Pow(base, k - 1)
  }

  /** The character of digit `d`: '0'..'9', then 'A'..'F'. */
  function DigitChar(d: nat): CodePoint
    requires d < 16
  {
    if d < 10 then 48 + d else 55 + d
  }

  /** The value of a digit character, or -1 when `c` is not a digit of `base`. */
  function DigitValue(c: CodePoint, base: nat): (v: int)
    requires ValidBase(base)
    ensures -1 <= v < base as int
  {
    var v := if 48 <= c <= 57 then c - 48 else if 65 <= c <= 70 then c - 55 else -1;
    if v < base as int then v else -1
  }

  predicate IsDigit(c: CodePoint, base: nat)
    requires ValidBase(base)
  {
    DigitValue(c, base) >= 0
  }

  predicate AllDigits(s: Str, base: nat)
    requires ValidBase(base)
  {
    forall i :: 0 <= i < |s| ==> IsDigit(s[i], base)
  }

  /** The shortest numeral of `n` in `base` ("0" for zero). */
  function ToNumeral(n: nat, base: nat): (r: Str)
    requires ValidBase(base)
    ensures |r| >= 1 && AllDigits(r, base)
    ensures n > 0 ==> DigitValue(r[0], base) > 0
    decreases n
  {
    if n < base then [DigitChar(n)]
    else
      DivMod(n, base);
      ToNumeral(n / base, base) + [DigitChar(n % base)]
  }

  /** Euclidean division of `n` by `base`, spelled out for the solver. */
  lemma DivMod(n: nat, base: nat)
    requires ValidBase(base) && n >= base
    ensures n == base * (n / base) + n % base
    ensures 0 <= n % base < base && 1 <= n / base < n
  {
  }

  /** The value of a numeral; `ParseNumeral(s) == int(s, base)` for a string of digits. */
  function ParseNumeral(s: Str, base: nat): nat
    requires ValidBase(base) && AllDigits(s, base)
  {
    if s == [] then 0
    else ParseNumeral(s[..|s| - 1], base) * base + DigitValue(s[|s| - 1], base)
  }

  /** `n` zero characters. */
  function Zeros(n: nat): (r: Str)
    ensures |r| == n && forall i :: 0 <= i < n ==> r[i] == ZERO
  {
    seq(n, _ => ZERO)
  }

  /** `str.zfill(width)` on an unsigned numeral: pad on the left with '0' up to
      `width` characters. Python's `zfill` would keep a leading sign ahead of the
      zeros; `f"{c:X}"` of a code point never has one, so signs are not modelled. */
  function ZFill(s: Str, width: nat): (r: Str)
    ensures |r| == if |s| < width then width else |s|
    ensures r[|r| - |s|..] == s
    ensures forall i :: 0 <= i < |r| - |s| ==> r[i] == ZERO
  {
    if |s| < width then Zeros(width - |s|) + s else s
  }

  /** Reading back what `ToNumeral` writes gives the number. */
  lemma {:induction false} ParseToNumeral(n: nat, base: nat)
    requires ValidBase(base)
    ensures ParseNumeral(ToNumeral(n, base), base) == n
    decreases n
  {
    var r := ToNumeral(n, base);
    if n < base {
      DigitRoundTrip(n, base);
    } else {
      DivMod(n, base);
      var q, m := n / base, n % base;
      ParseToNumeral(q, base);
      DigitRoundTrip(m, base);
      assert r == ToNumeral(q, base) + [DigitChar(m)];
      assert r[..|r| - 1] == ToNumeral(q, base);
      assert ParseNumeral(r, base) == ParseNumeral(ToNumeral(q, base), base) * base + m;
    }
  }

  lemma DigitRoundTrip(d: nat, base: nat)
    requires ValidBase(base) && d < base
    ensures DigitValue(DigitChar(d), base) == d
  {
  }

  /** Leading zeros do not change the value of a numeral. */
  lemma {:induction false} ParseLeadingZeros(z: nat, s: Str, base: nat)
    requires ValidBase(base) && AllDigits(s, base)
    ensures AllDigits(Zeros(z) + s, base)
    ensures ParseNumeral(Zeros(z) + s, base) == ParseNumeral(s, base)
    decreases |s|
  {
    var t := Zeros(z) + s;
    if s == [] {
      assert t == Zeros(z);
      AllZerosParse(z, base);
    } else {
      ParseLeadingZeros(z, s[..|s| - 1], base);
      assert t[..|t| - 1] == Zeros(z) + s[..|s| - 1];
    }
  }

  lemma {:induction false} AllZerosParse(z: nat, base: nat)
    requires ValidBase(base)
    ensures AllDigits(Zeros(z), base)
    ensures ParseNumeral(Zeros(z), base) == 0
  {
    if z > 0 {
      AllZerosParse(z - 1, base);
      assert Zeros(z)[..z - 1] == Zeros(z - 1);
    }
  }

  /** The shortest numeral of `n` has at most `k` digits exactly when `n < base^k`. */
  lemma {:induction false} NumeralLength(n: nat, base: nat, k: nat)
    requires ValidBase(base) && k >= 1
    ensures |ToNumeral(n, base)| <= k <==> n < Pow(base, k)
    decreases n
  {
    PowAtLeastBase(base, k);
    if n >= base {
      DivMod(n, base);
      var q, m := n / base, n % base;
      assert |ToNumeral(n, base)| == |ToNumeral(q, base)| + 1;
      if k == 1 {
        assert Pow(base, 1) == base;
      } else {
        NumeralLength(q, base, k - 1);
        var p := Pow(base, k - 1);
        assert Pow(base, k) == base * p;
        QuotientBound(n, base, q, m, p);
      }
    }
  }

  /** `n / base < p` exactly when `n < base * p`. */
  lemma QuotientBound(n: nat, base: nat, q: nat, m: nat, p: nat)
    requires n == base * q + m && m < base
    ensures q < p <==> n < base * p
  {
    if q < p {
      MulMonotone(base, q + 1, p);
      assert base * (q + 1) == base * q + base;
    } else {
      MulMonotone(base, p, q);
    }
  }

  lemma MulMonotone(c: nat, a: nat, b: nat)
    requires a <= b
    ensures c * a <= c * b
  {
  }

  lemma {:induction false} PowAtLeastBase(base: nat, k: nat)
    requires ValidBase(base) && k >= 1
    ensures Pow(base, k) >= base
  {
    if k > 1 {
      PowAtLeastBase(base, k - 1);
      assert Pow(base, k) == base * Pow(base, k - 1);
    }
  }
}
