/** Rendering of a natural number as JavaScript's template literals render a
    non-negative integer `number` (`${wordCount}`): decimal digits, no sign,
    no leading zero. */
module Decimal {

  predicate IsDigit(c: char) {
    '0' <= c <= '9'
  }

  function DigitChar(d: nat): (c: char)
    requires d < 10
    ensures IsDigit(c) && c as int - '0' as int == d
  {
    ('0' as int + d) as char
  }

  /** Decimal text of `n`. */
  function Render(n: nat): (r: string)
    ensures |r| > 0
    ensures forall i :: 0 <= i < |r| ==> IsDigit(r[i])
    ensures |r| > 1 ==> r[0] != '0'
  {
    if n < 10 then [DigitChar(n)] else Render(n / 10) + [DigitChar(n % 10)]
  }

  /** The value of a string of decimal digits. */
  function Parse(s: string): nat
    requires forall i :: 0 <= i < |s| ==> IsDigit(s[i])
  {
    if |s| == 0 then 0
    else
      assert IsDigit(s[|s| - 1]);
      10 * Parse(s[..|s| - 1]) + (s[|s| - 1] as int - '0' as int)
  }

  /** Reading the rendered text back gives the number. */
  lemma {:induction false} ParseRender(n: nat)
    ensures Parse(Render(n)) == n
    decreases n
  {
    var r := Render(n);
    if n >= 10 {
      ParseRender(n / 10);
      assert r[..|r| - 1] == Render(n / 10);
    } else {
      assert r[..0] == [];
    }
  }

  /** Decimal text as `${n}` writes it: at least one digit, and no leading
      zero unless the number is zero. */
  predicate Canonical(s: string) {
    && |s| > 0
    && (forall i :: 0 <= i < |s| ==> IsDigit(s[i]))
    && (|s| > 1 ==> s[0] != '0')
  }

  /** Digits that start with a non-zero digit have a positive value. */
  lemma {:induction false} ParsePositive(s: string)
    requires |s| > 0 && forall i :: 0 <= i < |s| ==> IsDigit(s[i])
    requires s[0] != '0'
    ensures Parse(s) > 0
    decreases |s|
  {
    if |s| > 1 {
      ParsePositive(s[..|s| - 1]);
    }
  }

  /** A canonical digit string is the rendering of its value, so `Render`
      gives the only canonical text of each number. */
  lemma {:induction false} RenderUnique(s: string)
    requires Canonical(s)
    ensures Render(Parse(s)) == s
    decreases |s|
  {
    var n := Parse(s);
    if |s| > 1 {
      var pre := s[..|s| - 1];
      var d := s[|s| - 1] as int - '0' as int;
      assert pre[0] == s[0];
      ParsePositive(pre);
      RenderUnique(pre);
      assert n == 10 * Parse(pre) + d && 0 <= d < 10;
      assert n / 10 == Parse(pre) && n % 10 == d;
      assert s == pre + [s[|s| - 1]];
    } else {
      assert s == [s[0]];
    }
  }

  /** Distinct numbers render differently. */
  lemma RenderInjective(m: nat, n: nat)
    requires Render(m) == Render(n)
    ensures m == n
  {
    ParseRender(m);
    ParseRender(n);
  }
}
