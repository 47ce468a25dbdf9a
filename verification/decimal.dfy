/**
 * Decimal text of integers, as a JavaScript template literal prints an
 * integral number, and the identifiers built from a counter
 * (`row-${rowIdx++}`, `table-${tableIdx++}`).
 */
module Decimal {

  /** The character of a single decimal digit. */
  function DigitChar(d: nat): (c: char)
    requires d < 10
    ensures '0' <= c <= '9'
    ensures c as int - '0' as int == d
  {
    (48 + d) as char
  }

  /** The decimal digits of `n`, most significant first, without leading zeros. */
  function Digits(n: nat): (s: string)
    ensures |s| >= 1
    ensures forall i :: 0 <= i < |s| ==> '0' <= s[i] <= '9'
    ensures |s| == 1 <==> n < 10
  {
    if n < 10 then [DigitChar(n)] else Digits(n / 10) + [DigitChar(n % 10)]
  }

  /** Two numbers with the same decimal text are equal. */
  lemma {:induction false} DigitsInjective(a: nat, b: nat)
    requires Digits(a) == Digits(b)
    ensures a == b
  {
    if a >= 10 && b >= 10 {
      var da, db := Digits(a), Digits(b);
      assert da[..|da| - 1] == Digits(a / 10);
      assert db[..|db| - 1] == Digits(b / 10);
      DigitsInjective(a / 10, b / 10);
      assert DigitChar(a % 10) == da[|da| - 1] == db[|db| - 1] == DigitChar(b % 10);
    } else {
      assert DigitChar(a) == Digits(a)[0] == Digits(b)[0] == DigitChar(b);
    }
  }

  /** `${i}` for an integral number: a minus sign before the digits of a negative one. */
  function IntText(i: int): (s: string)
    ensures |s| >= 1
    ensures s[0] == '-' <==> i < 0
  {
    if i < 0 then "-" + Digits(-i) else Digits(i)
  }

  lemma IntTextInjective(a: int, b: int)
    requires IntText(a) == IntText(b)
    ensures a == b
  {
    if a < 0 {
      assert IntText(a)[1..] == Digits(-a) && IntText(b)[1..] == Digits(-b);
      DigitsInjective(-a, -b);
    } else {
      DigitsInjective(a, b);
    }
  }

  /** `num.toFixed(2)` for an integral number: its digits and two zero decimals. */
  function Fixed2(i: int): string
  {
    IntText(i) + ".00"
  }

  /** Different whole numbers print differently with two decimals. */
  lemma Fixed2Injective(a: int, b: int)
    requires Fixed2(a) == Fixed2(b)
    ensures a == b
  {
    assert Fixed2(a)[..|Fixed2(a)| - 3] == IntText(a);
    assert Fixed2(b)[..|Fixed2(b)| - 3] == IntText(b);
    IntTextInjective(a, b);
  }

  /** An identifier made of a fixed prefix and a counter value: `${prefix}${n}`. */
  function Name(prefix: string, n: nat): (s: string)
    ensures |s| > |prefix| && s[..|prefix|] == prefix
  {
    prefix + Digits(n)
  }

  /** Everything after the prefix of a generated identifier is a decimal digit. */
  lemma NameDigits(prefix: string, n: nat)
    ensures forall i :: |prefix| <= i < |Name(prefix, n)| ==> '0' <= Name(prefix, n)[i] <= '9'
  { }

  /** Different counter values give different identifiers under one prefix. */
  lemma NameInjective(prefix: string, a: nat, b: nat)
    requires Name(prefix, a) == Name(prefix, b)
    ensures a == b
  {
    assert Name(prefix, a)[|prefix|..] == Digits(a);
    assert Name(prefix, b)[|prefix|..] == Digits(b);
    DigitsInjective(a, b);
  }

  /**
   * The identifiers a counter hands out, one per call starting at `start`,
   * are pairwise distinct.
   */
  lemma IssuedDistinct(prefix: string, start: nat, issued: seq<string>)
    requires forall k :: 0 <= k < |issued| ==> issued[k] == Name(prefix, start + k)
    ensures forall i, j :: 0 <= i < j < |issued| ==> issued[i] != issued[j]
  {
    forall i, j | 0 <= i < j < |issued|
      ensures issued[i] != issued[j]
    {
      if issued[i] == issued[j] {
        NameInjective(prefix, start + i, start + j);
      }
    }
  }
}
