/**
 Decimal text for natural numbers: Python's `str(n)`, `s.isdigit()` and
 `int(s)` on strings of the ASCII digits '0'..'9'.
 */
module Decimal {

  predicate IsDigit(c: char)
  {
    '0' <= c <= '9'
  }

  predicate AllDigits(s: string)
  {
    forall i :: 0 <= i < |s| ==> IsDigit(s[i])
  }

  /** `s.isdigit()` on ASCII text: at least one character, and all of them digits. */
  predicate IsDigits(s: string)
  {
    s != [] && AllDigits(s)
  }

  /** Canonical decimal text: no leading zero unless the number is zero itself. */
  predicate IsCanonical(s: string)
  {
    IsDigits(s) && (s[0] == '0' ==> |s| == 1)
  }

  function DigitValue(c: char): nat
    requires IsDigit(c)
  {
    (c as int) - ('0' as int)
  }

  function DigitChar(d: nat): (c: char)
    requires d < 10
    ensures IsDigit(c) && DigitValue(c) == d
  {
    ('0' as int + d) as char
  }

  function Pow10(k: nat): (p: nat)
    ensures p >= 1
  {
    if k == 0 then 1 else 10 * Pow10(k - 1)
  }

  /** `int(s)` for a string of digits: the most significant digit comes first. */
  function Value(s: string): (n: nat)
    requires AllDigits(s)
    ensures n < Pow10(|s|)
  {
    if s == [] then 0
    else 10 * Value(s[..|s| - 1]) + DigitValue(s[|s| - 1])
  }

  /** `str(n)` for a natural number. */
  function Show(n: nat): (s: string)
    ensures IsCanonical(s)
    ensures |s| == 1 <==> n < 10
  {
    if n < 10 then [DigitChar(n)]
    else
      var s := Show(n / 10) + [DigitChar(n % 10)];
      assert s[0] == Show(n / 10)[0];
      s
  }

  /** int(str(n)) == n. */
  lemma {:induction false} ValueOfShow(n: nat)
    ensures Value(Show(n)) == n
  {
    if n >= 10 {
      var s := Show(n);
      assert s[..|s| - 1] == Show(n / 10);
      ValueOfShow(n / 10);
    }
  }

  /** str(int(s)) == s for canonical decimal text. */
  lemma {:induction false} ShowOfValue(s: string)
    requires IsCanonical(s)
    ensures Show(Value(s)) == s
    decreases |s|
  {
    if |s| > 1 {
      var p := s[..|s| - 1];
      assert p[0] == s[0];
      ValuePositive(p);
      ShowOfValue(p);
      var n := Value(s);
      assert n / 10 == Value(p) && n % 10 == DigitValue(s[|s| - 1]);
      assert s == p + [s[|s| - 1]];
    } else {
      assert s == [DigitChar(DigitValue(s[0]))];
    }
  }

  predicate AllZeros(z: string)
  {
    forall i :: 0 <= i < |z| ==> z[i] == '0'
  }

  /** k zero digits. */
  function Zeros(k: nat): (z: string)
    ensures |z| == k && AllZeros(z)
  {
    seq(k, _ => '0')
  }

  /** s is the text d with zeros in front of it. */
  predicate ZeroPadded(s: string, d: string)
  {
    |d| <= |s| && s == Zeros(|s| - |d|) + d
  }

  /** Zero digits are worth nothing. */
  lemma {:induction false} ValueOfZeros(z: string)
    requires AllZeros(z)
    ensures AllDigits(z) && Value(z) == 0
    decreases |z|
  {
    if z != [] {
      ValueOfZeros(z[..|z| - 1]);
    }
  }

  /** Leading zeros do not change the value: `int("007") == int("7")`. */
  lemma {:induction false} ValueOfZerosPrefix(z: string, s: string)
    requires AllZeros(z) && AllDigits(s)
    ensures AllDigits(z + s) && Value(z + s) == Value(s)
    decreases |s|
  {
    var t := z + s;
    assert forall i :: 0 <= i < |t| ==> t[i] == if i < |z| then z[i] else s[i - |z|];
    if s == [] {
      assert t == z;
      ValueOfZeros(z);
    } else {
      var p := s[..|s| - 1];
      assert t[..|t| - 1] == z + p;
      assert t[|t| - 1] == s[|s| - 1];
      ValueOfZerosPrefix(z, p);
    }
  }

  /**
   Digit text with its leading zeros dropped, keeping one digit: the text is
   that many zeros followed by the canonical rest.
   */
  function DropZeros(s: string): (c: string)
    requires IsDigits(s)
    ensures IsCanonical(c) && ZeroPadded(s, c)
  {
    if |s| > 1 && s[0] == '0' then
      var c := DropZeros(s[1..]);
      assert s == [s[0]] + s[1..];
      assert Zeros(|s| - |c|) == [s[0]] + Zeros(|s[1..]| - |c|);
      c
    else
      assert Zeros(0) == [];
      s
  }

  /**
   Any digit text, leading zeros and all, is `str(int(s))` with zeros in
   front: `str(int("007")) == "7"`.
   */
  lemma ShowOfValueWithZeros(s: string)
    requires IsDigits(s)
    ensures ZeroPadded(s, Show(Value(s)))
  {
    var c := DropZeros(s);
    ValueOfZerosPrefix(Zeros(|s| - |c|), c);
    ShowOfValue(c);
  }

  /** A digit string with a non-zero first digit has a positive value. */
  lemma {:induction false} ValuePositive(s: string)
    requires IsDigits(s) && s[0] != '0'
    ensures Value(s) >= 1
    decreases |s|
  {
    if |s| > 1 {
      var p := s[..|s| - 1];
      assert p[0] == s[0];
      ValuePositive(p);
    }
  }

  /** The longest prefix of s made of digits. */
  function LeadingDigits(s: string): (r: string)
    ensures |r| <= |s| && r == s[..|r|]
    ensures AllDigits(r)
    ensures r == s || !IsDigit(s[|r|])
  {
    if s == [] || !IsDigit(s[0]) then []
    else
      var r := LeadingDigits(s[1..]);
      assert [s[0]] + r == s[..|r| + 1];
      [s[0]] + r
  }

  /** The leading number of `str(n) + rest` is n when rest does not start with a digit. */
  lemma LeadingNumber(n: nat, rest: string)
    requires rest == [] || !IsDigit(rest[0])
    ensures LeadingDigits(Show(n) + rest) == Show(n)
    ensures Value(LeadingDigits(Show(n) + rest)) == n
  {
    LeadingDigitsOf(Show(n), rest);
    ValueOfShow(n);
  }

  lemma {:induction false} LeadingDigitsOf(d: string, rest: string)
    requires AllDigits(d)
    requires rest == [] || !IsDigit(rest[0])
    ensures LeadingDigits(d + rest) == d
  {
    if d == [] {
      assert d + rest == rest;
    } else {
      assert (d + rest)[1..] == d[1..] + rest;
      LeadingDigitsOf(d[1..], rest);
    }
  }
}
