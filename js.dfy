/**
 * The few pieces of JavaScript semantics the model relies on: comparisons involving
 * `undefined`, `Math.round` of a quotient, `String(n)` of an integer, ASCII `toLowerCase`
 * and the truncating remainder operator `%`.
 */
module Js {
  import opened Base

  /** `a >= b` on two possibly-undefined numbers: any comparison with `undefined` is false. */
  predicate Ge(a: Option<int>, b: Option<int>) {
    a.Some? && b.Some? && a.value >= b.value
  }

  /** `a < b` on two possibly-undefined numbers. */
  predicate Lt(a: Option<int>, b: Option<int>) {
    a.Some? && b.Some? && a.value < b.value
  }

  /** `>=` and `<` never both hold, and between two numbers exactly one holds. */
  lemma GeLtExclusive(a: Option<int>, b: Option<int>)
    ensures !(Ge(a, b) && Lt(a, b))
    ensures a.Some? && b.Some? ==> Ge(a, b) || Lt(a, b)
    ensures a.None? || b.None? ==> !Ge(a, b) && !Lt(a, b)
  {
  }

  /**
   * `Math.round(num / den)` for a positive integer `den`: the nearest integer, halves
   * rounding up, which is floor((2 num + den) / (2 den)).
   */
  function Round(num: int, den: int): (r: int)
    requires den > 0
    ensures 2 * den * r - den <= 2 * num < 2 * den * r + den
  {
    var q := (2 * num + den) / (2 * den);
    DivBounds(2 * num + den, 2 * den);
    q
  }

  /** Euclidean division brackets the dividend. */
  lemma DivBounds(a: int, d: int)
    requires d > 0
    ensures d * (a / d) <= a < d * (a / d) + d
  {
  }

  /**
   * JavaScript `a % b`: what is left of `a` after removing a whole multiple of `b` that
   * truncates toward zero, so the remainder takes the sign of the dividend.
   */
  function Rem(a: int, b: int): (r: int)
    requires b > 0
    ensures a >= 0 ==> 0 <= r < b
    ensures a < 0 ==> -b < r <= 0
  {
    if a >= 0 then a % b else -((-a) % b)
  }

  /** The quotient that goes with `Rem`: `a / b` truncated toward zero. */
  lemma RemQuotient(a: int, b: int) returns (q: int)
    requires b > 0
    ensures a == b * q + Rem(a, b)
    ensures a >= 0 ==> q >= 0
    ensures a < 0 ==> q <= 0
  {
    if a >= 0 {
      q := a / b;
    } else {
      q := -((-a) / b);
    }
  }

  /** ASCII `toLowerCase` of one character. */
  function LowerChar(c: char): char {
    if 'A' <= c <= 'Z' then (c as int + 32) as char else c
  }

  /** Whether a character is an ASCII capital letter. */
  predicate IsUpper(c: char) {
    'A' <= c <= 'Z'
  }

  /**
   * ASCII `toLowerCase` of a string: no capital letter remains, every other character is
   * kept in place, and each capital becomes the letter 32 code points above it.
   */
  function Lower(s: string): (r: string)
    ensures |r| == |s|
    ensures forall i :: 0 <= i < |r| ==> !IsUpper(r[i])
    ensures forall i :: 0 <= i < |s| && !IsUpper(s[i]) ==> r[i] == s[i]
    ensures forall i :: 0 <= i < |s| && IsUpper(s[i]) ==> r[i] as int == s[i] as int + 32
  {
    seq(|s|, i requires 0 <= i < |s| => LowerChar(s[i]))
  }

  /** Lower-casing twice is lower-casing once. */
  lemma LowerIdempotent(s: string)
    ensures Lower(Lower(s)) == Lower(s)
  {
    var once := Lower(s);
    forall i | 0 <= i < |once|
      ensures Lower(once)[i] == once[i]
    {
      assert !IsUpper(once[i]);
    }
  }

  /** The decimal digit character for `d`. */
  function DigitChar(d: nat): char
    requires d < 10
  {
    "0123456789"[d]
  }

  /** The decimal digits of a natural number, most significant first. */
  function Digits(n: nat): string
    decreases n
  {
    if n < 10 then [DigitChar(n)] else Digits(n / 10) + [DigitChar(n % 10)]
  }

  /** `String(n)` for an integer `n`. */
  function NumberToString(n: int): string {
    if n < 0 then "-" + Digits(-n) else Digits(n)
  }

  /** A numeral character: a decimal digit or the minus sign. */
  predicate IsNumeral(c: char) {
    c == '-' || '0' <= c <= '9'
  }

  /** `Digits` never yields an empty string and begins with a digit. */
  lemma {:induction false} DigitsLead(n: nat)
    ensures |Digits(n)| > 0 && '0' <= Digits(n)[0] <= '9'
    decreases n
  {
    if n >= 10 {
      DigitsLead(n / 10);
    }
  }

  /** `String(n)` of an integer is non-empty and starts with a numeral character. */
  lemma NumberStringLead(n: int)
    ensures |NumberToString(n)| > 0 && IsNumeral(NumberToString(n)[0])
    ensures IsNumeral(Lower(NumberToString(n))[0])
  {
    if n < 0 {
      DigitsLead(-n);
    } else {
      DigitsLead(n);
    }
  }

  /** A string whose first character is not a numeral, even once lowered, is never `String(n)`. */
  lemma NotANumberString(s: string, n: int)
    requires |s| > 0 && !IsNumeral(LowerChar(s[0]))
    ensures Lower(s) != Lower(NumberToString(n))
  {
    NumberStringLead(n);
  }
}
