/**
 * The pieces of Java's String, Long and Integer behaviour that the walk
 * parser depends on: prefix and substring search, decimal parsing that
 * fails with a NumberFormatException, Long.toString, and 64-bit
 * two's-complement arithmetic on `long`.
 */
module JavaText {

  datatype Option<+T> = None | Some(value: T)

  const LongMin: int := -0x8000_0000_0000_0000
  const LongMax: int := 0x7FFF_FFFF_FFFF_FFFF
  const IntMin: int := -0x8000_0000
  const IntMax: int := 0x7FFF_FFFF
  const TwoTo64: int := 0x1_0000_0000_0000_0000

  /** A value of Java's primitive `long`. */
  type JavaLong = x: int | LongMin <= x <= LongMax

  // ---------------------------------------------------------------------
  // Strings

  /** String.startsWith */
  predicate StartsWith(s: string, prefix: string) {
    |prefix| <= |s| && s[..|prefix|] == prefix
  }

  lemma StartsWithTransitive(s: string, p: string, q: string)
    requires StartsWith(s, p) && StartsWith(p, q)
    ensures StartsWith(s, q)
  {
    assert s[..|q|] == s[..|p|][..|q|];
  }

  lemma StartsWithAppend(a: string, s: string, p: string)
    requires StartsWith(s, p)
    ensures StartsWith(a + s, a + p)
  {
    assert (a + s)[..|a + p|] == a + s[..|p|];
  }

  /** `t` occurs in `s` starting at position j. */
  predicate OccursAt(s: string, t: string, j: int) {
    0 <= j && j + |t| <= |s| && s[j..j + |t|] == t
  }

  /** String.indexOf(t, from): the first position at or after `from` where `t` occurs, or -1. */
  function IndexOfFrom(s: string, t: string, from: nat): (r: int)
    requires from <= |s|
    decreases |s| - from
    ensures r == -1 || (from <= r && OccursAt(s, t, r))
    ensures forall j :: from <= j && (r == -1 || j < r) ==> !OccursAt(s, t, j)
  {
    if from + |t| > |s| then -1
    else if OccursAt(s, t, from) then from
    else IndexOfFrom(s, t, from + 1)
  }

  /** String.indexOf(t) */
  function IndexOf(s: string, t: string): int {
    IndexOfFrom(s, t, 0)
  }

  /** String.contains */
  predicate Contains(s: string, t: string) {
    IndexOf(s, t) >= 0
  }

  /** If a line begins with a prefix that holds no blank, a blank-led pattern is found only after it. */
  lemma IndexOfAfterPrefix(s: string, prefix: string, t: string)
    requires StartsWith(s, prefix)
    requires |t| > 0 && t[0] == ' '
    requires forall i :: 0 <= i < |prefix| ==> prefix[i] != ' '
    ensures IndexOf(s, t) == -1 || IndexOf(s, t) >= |prefix|
  {
    forall j | 0 <= j < |prefix|
      ensures !OccursAt(s, t, j)
    {
      assert s[j] == s[..|prefix|][j];
      MismatchNotOccurs(s, t, j, 0);
    }
  }

  /** A position where `s` differs from `t` rules out an occurrence of `t` there. */
  lemma MismatchNotOccurs(s: string, t: string, j: int, k: nat)
    requires 0 <= j && k < |t| && j + k < |s| && s[j + k] != t[k]
    ensures !OccursAt(s, t, j)
  {
    if j + |t| <= |s| {
      assert s[j..j + |t|][k] == s[j + k];
    }
  }

  /** After a blank-free head, a blank-led `t` that starts the rest is found right at the rest. */
  lemma IndexOfAfterHead(head: string, rest: string, t: string)
    requires forall i :: 0 <= i < |head| ==> head[i] != ' '
    requires |t| > 0 && t[0] == ' ' && StartsWith(rest, t)
    ensures IndexOf(head + rest, t) == |head|
  {
    var s := head + rest;
    assert s[|head|..|head| + |t|] == rest[..|t|];
    forall j | 0 <= j < |head|
      ensures !OccursAt(s, t, j)
    {
      assert s[j] == head[j];
      MismatchNotOccurs(s, t, j, 0);
    }
    IndexOfIs(s, t, |head|);
  }

  /** A line with an occurrence of `t` at `p` and none before has `p` as its index. */
  lemma IndexOfIs(s: string, t: string, p: nat)
    requires OccursAt(s, t, p)
    requires forall j :: 0 <= j < p ==> !OccursAt(s, t, j)
    ensures IndexOf(s, t) == p
  {
  }

  // ---------------------------------------------------------------------
  // Decimal text

  predicate IsDigit(c: char) {
    '0' <= c <= '9'
  }

  /** Every character is a decimal digit (stated from the end, as DigitsValue reads it). */
  predicate AllDigits(s: string) {
    s == [] || (AllDigits(s[..|s| - 1]) && IsDigit(s[|s| - 1]))
  }

  lemma {:induction false} AllDigitsAt(s: string, i: nat)
    requires AllDigits(s) && i < |s|
    ensures IsDigit(s[i])
  {
    if i < |s| - 1 {
      AllDigitsAt(s[..|s| - 1], i);
    }
  }

  function DigitValue(c: char): nat
    requires IsDigit(c)
  {
    (c as int) - ('0' as int)
  }

  function DigitChar(d: nat): (c: char)
    requires d < 10
    ensures IsDigit(c) && DigitValue(c) == d
  {
    (('0' as int) + d) as char
  }

  /** The value of a string of decimal digits, most significant first. */
  function DigitsValue(s: string): nat
    requires AllDigits(s)
  {
    if s == [] then 0 else 10 * DigitsValue(s[..|s| - 1]) + DigitValue(s[|s| - 1])
  }

  /**
   * Integer.parseInt / Long.parseLong in radix 10 for a type with range lo..hi:
   * an optional '+' or '-', then at least one digit, and the value in range.
   * None stands for the NumberFormatException.
   */
  function ParseDecimal(s: string, lo: int, hi: int): (r: Option<int>)
    ensures r.Some? ==> lo <= r.value <= hi
    ensures r.Some? ==> |s| > 0 && (IsDigit(s[0]) || s[0] == '-' || s[0] == '+')
    ensures s == [] || (|s| == 1 && !IsDigit(s[0])) ==> r.None?
    // What is accepted: digits only, or a sign followed by at least one digit, with that value.
    ensures |s| > 0 && IsDigit(s[0]) ==>
              r == (if AllDigits(s) && lo <= DigitsValue(s) <= hi then Some(DigitsValue(s) as int) else None)
    ensures |s| > 0 && s[0] == '-' ==>
              r == (if |s| > 1 && AllDigits(s[1..]) && lo <= -(DigitsValue(s[1..]) as int) <= hi then Some(-(DigitsValue(s[1..]) as int)) else None)
    ensures |s| > 0 && s[0] == '+' ==>
              r == (if |s| > 1 && AllDigits(s[1..]) && lo <= DigitsValue(s[1..]) <= hi then Some(DigitsValue(s[1..]) as int) else None)
  {
    var signed := |s| > 0 && (s[0] == '-' || s[0] == '+');
    var digits := if signed then s[1..] else s;
    if |digits| == 0 || !AllDigits(digits) then None
    else
      AllDigitsAt(digits, 0);
      var v := if s[0] == '-' then -(DigitsValue(digits) as int) else DigitsValue(digits);
      if lo <= v <= hi then Some(v) else None
  }

  /** Long.parseLong(s) */
  function ParseLong(s: string): (r: Option<JavaLong>)
    ensures r.Some? <==> ParseDecimal(s, LongMin, LongMax).Some?
  {
    match ParseDecimal(s, LongMin, LongMax)
    case None => None
    case Some(v) => Some(v)
  }

  /** Integer.parseInt(s) */
  function ParseInt(s: string): (r: Option<int>)
    ensures r.Some? ==> IntMin <= r.value <= IntMax
  {
    ParseDecimal(s, IntMin, IntMax)
  }

  /** Whatever Integer.parseInt accepts, Long.parseLong accepts with the same value. */
  lemma ParseIntThenParseLong(s: string)
    requires ParseInt(s).Some?
    ensures ParseLong(s) == Some(ParseInt(s).value)
  {
    assert ParseDecimal(s, LongMin, LongMax) == ParseInt(s);
  }

  /** The decimal digits of a natural number, without leading zeros. */
  function NatText(n: nat): (s: string)
    ensures |s| >= 1 && AllDigits(s) && DigitsValue(s) == n
    ensures s[0] == '0' ==> n == 0
  {
    if n < 10 then [DigitChar(n)]
    else
      var init := NatText(n / 10);
      var s := init + [DigitChar(n % 10)];
      assert s[..|s| - 1] == init;
      s
  }

  /** Long.toString(n), which is what string concatenation with a long produces. */
  function DecimalText(n: int): (s: string)
    ensures |s| >= 1
    ensures n >= 0 ==> AllDigits(s) && DigitsValue(s) == n
    ensures n < 0 ==> s[0] == '-' && AllDigits(s[1..]) && DigitsValue(s[1..]) == -n
  {
    if n < 0 then "-" + NatText(-n) else NatText(n)
  }

  /** Long.parseLong reads back what Long.toString writes. */
  lemma ParseLongDecimalText(n: JavaLong)
    ensures ParseLong(DecimalText(n)) == Some(n)
  {
    var s := DecimalText(n);
    if n < 0 {
      assert s[0] == '-' && |s| >= 2;
    } else {
      AllDigitsAt(s, 0);
    }
  }

  /** The decimal text of n >= 10 starts with the decimal text of n / 10. */
  lemma DecimalTextExtends(n: nat)
    requires n >= 10
    ensures StartsWith(DecimalText(n), DecimalText(n / 10))
  {
    var init := NatText(n / 10);
    assert DecimalText(n) == init + [DigitChar(n % 10)];
    assert DecimalText(n)[..|init|] == init;
  }

  // ---------------------------------------------------------------------
  // long arithmetic

  /** The result of a Java `long` operation whose exact value is x (two's-complement wrap). */
  function Wrap64(x: int): (r: JavaLong)
    ensures LongMin <= x <= LongMax ==> r == x
  {
    if LongMin <= x <= LongMax then x else (x - LongMin) % TwoTo64 + LongMin
  }

  /** Wrap64 is two's-complement wrap-around: it is congruent to x modulo 2^64 ... */
  lemma Wrap64Congruent(x: int)
    ensures (Wrap64(x) - x) % TwoTo64 == 0
  {
  }

  /** ... and it is the only long that is. */
  lemma Wrap64Unique(x: int, y: JavaLong)
    requires (y - x) % TwoTo64 == 0
    ensures y == Wrap64(x)
  {
    Wrap64Congruent(x);
    var w := Wrap64(x);
    assert (y - w) % TwoTo64 == 0;
    assert -TwoTo64 < y - w < TwoTo64;
  }

  /** Java's `/` on long with a positive divisor: the quotient truncated toward zero. */
  function TruncDiv(a: int, b: int): (q: int)
    requires b > 0
    ensures a >= 0 ==> q * b <= a < q * b + b
    ensures a < 0 ==> q * b - b < a <= q * b
  {
    if a >= 0 then a / b else -((-a) / b)
  }
}
