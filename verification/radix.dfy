/** Rendering of non-negative integers in a radix between 2 and 36, as
    JavaScript's `Number.prototype.toString(radix)` does for integers:
    lower-case digits, no leading zeros, "0" for zero. */
module Radix {

  /** The digit character for a value below 36. */
  function Digit(d: nat): (c: char)
    requires d < 36
  {
    if d < 10 then ('0' as int + d) as char else ('a' as int + d - 10) as char
  }

  /** The value of a digit character; letters count from 10. */
  function DigitValue(c: char): nat
  {
    if '0' <= c <= '9' then c as nat - '0' as nat
    else if 'a' <= c <= 'z' then c as nat - 'a' as nat + 10
    else 0
  }

  /** `c` is one of the first `base` characters of 0-9a-z. */
  predicate IsDigitOf(c: char, base: nat)
  {
    (('0' <= c <= '9') || ('a' <= c <= 'z')) && DigitValue(c) < base
  }

  function Pow(b: nat, k: nat): nat
  {
    if k == 0 then 1 else b * Pow(b, k - 1)
  }

  lemma DigitValueOf(d: nat)
    requires d < 36
    ensures DigitValue(Digit(d)) == d && IsDigitOf(Digit(d), d + 1)
  {
  }

  /** `n.toString(base)` for a non-negative integer `n`. */
  function ToRadix(n: nat, base: nat): (r: string)
    requires 2 <= base <= 36
    ensures |r| >= 1
    ensures forall i :: 0 <= i < |r| ==> IsDigitOf(r[i], base)
    ensures |r| > 1 ==> r[0] != '0'
    decreases n
  {
    if n < base then [Digit(n)]
    else
      DivFacts(n, base);
      ToRadix(n / base, base) + [Digit(n % base)]
  }

  /** Reads a digit string back (most significant digit first). */
  function FromRadix(s: string, base: nat): nat
    decreases |s|
  {
    if s == [] then 0
    else FromRadix(s[..|s| - 1], base) * base + DigitValue(s[|s| - 1])
  }

  /** Rendering then reading gives the number back: the text denotes `n`. */
  lemma {:induction false} FromToRadix(n: nat, base: nat)
    requires 2 <= base <= 36
    ensures FromRadix(ToRadix(n, base), base) == n
    decreases n
  {
    var r := ToRadix(n, base);
    if n < base {
      DigitValueOf(n);
      assert r[..0] == [];
    } else {
      DivFacts(n, base);
      FromToRadix(n / base, base);
      DigitValueOf(n % base);
      assert r[..|r| - 1] == ToRadix(n / base, base);
    }
  }

  lemma MulCancel(x: nat, p: nat, b: nat)
    requires 0 < b && x * b < p * b
    ensures x < p
  {
  }

  lemma DivBelow(n: nat, b: nat, p: nat)
    requires 0 < b && n < b * p
    ensures n / b < p
  {
    assert (n / b) * b <= n;
    MulCancel(n / b, p, b);
  }

  lemma DivFacts(n: nat, b: nat)
    requires 2 <= b <= n
    ensures 1 <= n / b < n && n % b < b && n == (n / b) * b + n % b
  {
  }

  /** A number below `base^k` is rendered with at most `k` digits. */
  lemma {:induction false} ToRadixLength(n: nat, base: nat, k: nat)
    requires 2 <= base <= 36 && 1 <= k
    requires n < Pow(base, k)
    ensures |ToRadix(n, base)| <= k
    decreases k
  {
    if n >= base {
      assert Pow(base, 1) == base;
      var p := Pow(base, k - 1);
      assert n < base * p;
      DivBelow(n, base, p);
      ToRadixLength(n / base, base, k - 1);
    }
  }
}
