/**
 * Digit strings in base 10 and base 16, as JavaScript renders integers:
 * `String(n)` and template literals use base 10, `bigint.toString(16)` uses
 * lower-case base 16 with a leading `-` for negative values.
 */
module Numerals {
  import opened Wrappers

  predicate ValidBase(base: nat) {
    base == 10 || base == 16
  }

  /** The character for digit `d`: `0`-`9`, then `a`-`f`. */
  function DigitChar(d: nat): (c: char)
    requires d < 16
    ensures DigitValue(c) == d
  {
    if d < 10 then ('0' as int + d) as char else ('a' as int + d - 10) as char
  }

  /** The value of a digit character, or 16 for a character that is no digit. */
  function DigitValue(c: char): (d: nat)
    ensures d <= 16
  {
    if '0' <= c <= '9' then c as int - '0' as int
    else if 'a' <= c <= 'f' then c as int - 'a' as int + 10
    else 16
  }

  predicate IsDigits(s: string, base: nat) {
    forall i :: 0 <= i < |s| ==> DigitValue(s[i]) < base
  }

  /** The shortest digit string of `n` in `base` (`"0"` for zero). */
  function NatToString(n: nat, base: nat): (s: string)
    requires ValidBase(base)
    ensures |s| >= 1 && IsDigits(s, base)
    ensures |s| > 1 ==> s[0] != '0'
    decreases n
  {
    if n < base then [DigitChar(n)]
    else NatToString(n / base, base) + [DigitChar(n % base)]
  }

  /** The number a digit string denotes (most significant digit first). */
  function DigitsValue(s: string, base: nat): nat
    requires ValidBase(base) && IsDigits(s, base)
  {
    if s == [] then 0
    else DigitsValue(s[..|s| - 1], base) * base + DigitValue(s[|s| - 1])
  }

  /** `bigint.toString(base)`: a `-` for negative values, then the magnitude. */
  function IntToString(i: int, base: nat): (s: string)
    requires ValidBase(base)
    ensures |s| >= 1
    ensures (s[0] == '-') <==> i < 0
  {
    if i < 0 then "-" + NatToString(-i, base) else NatToString(i, base)
  }

  /**
   * Reads an optionally signed digit string; anything else is unparsable.
   * This is the strict reading of a number, without JavaScript's
   * `parseInt` leniency for leading blanks or trailing garbage.
   */
  function ParseInt(s: string, base: nat): Option<int>
    requires ValidBase(base)
  {
    if |s| >= 1 && IsDigits(s, base) then Some(DigitsValue(s, base))
    else if |s| >= 2 && s[0] == '-' && IsDigits(s[1..], base) then Some(-(DigitsValue(s[1..], base) as int))
    else None
  }

  lemma {:induction false} DigitsValueOfNatToString(n: nat, base: nat)
    requires ValidBase(base)
    ensures DigitsValue(NatToString(n, base), base) == n
    decreases n
  {
    if n >= base {
      var q, d := n / base, n % base;
      DigitsValueOfNatToString(q, base);
      DigitsValueSnoc(NatToString(q, base), DigitChar(d), base);
      DivMod(n, base);
    }
  }

  /** One more digit at the end multiplies the value by the base and adds the digit. */
  lemma DigitsValueSnoc(p: string, c: char, base: nat)
    requires ValidBase(base) && IsDigits(p, base) && DigitValue(c) < base
    ensures IsDigits(p + [c], base)
    ensures DigitsValue(p + [c], base) == DigitsValue(p, base) * base + DigitValue(c)
  {
    var s := p + [c];
    assert s[..|s| - 1] == p;
  }

  lemma DivMod(n: nat, base: nat)
    requires ValidBase(base)
    ensures (n / base) * base + n % base == n
  {
    if base == 10 {
      assert (n / 10) * 10 + n % 10 == n;
    } else {
      assert (n / 16) * 16 + n % 16 == n;
    }
  }

  /** Rendering an integer and reading it back gives the same integer. */
  lemma ParseIntToString(i: int, base: nat)
    requires ValidBase(base)
    ensures ParseInt(IntToString(i, base), base) == Some(i)
  {
    var s := IntToString(i, base);
    if i < 0 {
      var m := NatToString(-i, base);
      assert s == "-" + m;
      assert s[1..] == m;
      assert DigitValue(s[0]) == 16;
      assert !IsDigits(s, base);
      DigitsValueOfNatToString(-i, base);
      assert DigitsValue(s[1..], base) == -i;
    } else {
      assert s == NatToString(i, base);
      DigitsValueOfNatToString(i, base);
    }
  }
}
