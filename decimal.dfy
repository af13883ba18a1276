/**
 * Decimal numerals: the "%0*d" conversion of snprintf for a positive rank,
 * and atoi for the digit-count argument.
 */
module Decimal {
  import opened Bytes

  const ZERO: byte := 48   // '0'

  predicate AllDigits(s: seq<byte>) {
    forall i :: 0 <= i < |s| ==> IsDigit(s[i])
  }

  function Pow10(k: nat): (r: nat)
    ensures r >= 1
  {
    if k == 0 then 1 else 10 * Pow10(k - 1)
  }

  /** The shortest decimal numeral of n ("0" for zero), as "%d" writes it. */
  function Digits(n: nat): seq<byte>
    decreases n
  {
    if n < 10 then [ZERO + n] else Digits(n / 10) + [ZERO + n % 10]
  }

  /** The number a string of decimal digits denotes. */
  function Value(s: seq<byte>): nat
    requires AllDigits(s)
  {
    if s == [] then 0 else 10 * Value(s[..|s| - 1]) + (s[|s| - 1] - ZERO)
  }

  function Zeros(k: int): (r: seq<byte>)
    ensures |r| == if k < 0 then 0 else k
    ensures forall i :: 0 <= i < |r| ==> r[i] == ZERO
    decreases k
  {
    if k <= 0 then [] else Zeros(k - 1) + [ZERO]
  }

  /** "%0*d" with the given width: Digits(n) with '0' bytes added in front up to the width. */
  function Pad(n: nat, width: int): seq<byte> {
    Zeros(width - |Digits(n)|) + Digits(n)
  }

  /** The longest prefix of s made of decimal digits. */
  function LeadingDigits(s: seq<byte>): (r: seq<byte>)
    ensures AllDigits(r) && |r| <= |s| && r == s[..|r|]
    ensures |r| < |s| ==> !IsDigit(s[|r|])
  {
    if s == [] || !IsDigit(s[0]) then [] else [s[0]] + LeadingDigits(s[1..])
  }

  predicate IsSpace(c: byte) {
    c == 32 || 9 <= c <= 13   // ' ', '\t', '\n', '\v', '\f', '\r'
  }

  function SkipSpaces(s: seq<byte>): (r: seq<byte>)
    ensures |r| <= |s| && r == s[|s| - |r|..]
    ensures |r| > 0 ==> !IsSpace(r[0])
    ensures forall i :: 0 <= i < |s| - |r| ==> IsSpace(s[i])
  {
    if s != [] && IsSpace(s[0]) then SkipSpaces(s[1..]) else s
  }

  /**
   * atoi: leading white space, an optional sign, then as many decimal digits
   * as follow; no digits gives 0. Overflow of int is not modelled.
   */
  function Atoi(s: seq<byte>): int {
    var t := SkipSpaces(s);
    var signed := |t| > 0 && (t[0] == '-' as int || t[0] == '+' as int);
    var magnitude: int := Value(LeadingDigits(if signed then t[1..] else t));
    if signed && t[0] == '-' as int then -magnitude else magnitude
  }

  /** Digits(n) is a nonempty digit string with no superfluous leading zero. */
  lemma {:induction false} DigitsShape(n: nat)
    ensures |Digits(n)| >= 1 && AllDigits(Digits(n))
    ensures n > 0 ==> Digits(n)[0] != ZERO
    decreases n
  {
    if n >= 10 {
      DigitsShape(n / 10);
    }
  }

  /** Reading Digits(n) back gives n. */
  lemma {:induction false} ValueOfDigits(n: nat)
    ensures AllDigits(Digits(n)) && Value(Digits(n)) == n
    decreases n
  {
    DigitsShape(n);
    if n >= 10 {
      ValueOfDigits(n / 10);
      assert Digits(n)[..|Digits(n)| - 1] == Digits(n / 10);
    }
  }

  /** Leading zeros do not change the value of a numeral. */
  lemma {:induction false} ValueIgnoresZeros(k: int, s: seq<byte>)
    requires AllDigits(s)
    ensures AllDigits(Zeros(k) + s) && Value(Zeros(k) + s) == Value(s)
    decreases |s|, k
  {
    var t := Zeros(k) + s;
    if s == [] {
      assert t == Zeros(k);
      if k > 0 {
        assert t[..|t| - 1] == Zeros(k - 1) + [];
        ValueIgnoresZeros(k - 1, []);
      }
    } else {
      assert t[..|t| - 1] == Zeros(k) + s[..|s| - 1];
      ValueIgnoresZeros(k, s[..|s| - 1]);
    }
  }

  /** Digits(n) has at most k digits exactly when n is below 10^k. */
  lemma {:induction false} DigitsLength(n: nat, k: nat)
    ensures |Digits(n)| <= k <==> (k >= 1 && n < Pow10(k))
    decreases n
  {
    if n >= 10 && k >= 1 {
      DigitsLength(n / 10, k - 1);
    } else if n >= 10 {
      DigitsShape(n);
    }
  }

  /**
   * The zero-padded rank: exactly max(width, |Digits(n)|) digits that read
   * back as n, so padding only adds width and never drops a digit.
   */
  lemma PadRoundTrip(n: nat, width: int)
    ensures |Pad(n, width)| == if width > |Digits(n)| then width else |Digits(n)|
    ensures AllDigits(Pad(n, width)) && Value(Pad(n, width)) == n
    ensures Pad(n, width)[|Pad(n, width)| - |Digits(n)|..] == Digits(n)
  {
    ValueOfDigits(n);
    ValueIgnoresZeros(width - |Digits(n)|, Digits(n));
  }

  /** With n below 10^width the numeral fills the width exactly; otherwise it is wider. */
  lemma PadWidth(n: nat, width: nat)
    requires width >= 1
    ensures n < Pow10(width) ==> |Pad(n, width)| == width
    ensures n >= Pow10(width) ==> |Pad(n, width)| > width
  {
    PadRoundTrip(n, width);
    DigitsLength(n, width);
  }

  /** A digit string followed by a non-digit is recovered by LeadingDigits. */
  lemma {:induction false} LeadingDigitsOfNumeral(s: seq<byte>, rest: seq<byte>)
    requires AllDigits(s)
    requires rest == [] || !IsDigit(rest[0])
    ensures LeadingDigits(s + rest) == s
    decreases |s|
  {
    if s != [] {
      assert (s + rest)[1..] == s[1..] + rest;
      LeadingDigitsOfNumeral(s[1..], rest);
    }
  }

  /** atoi reads a zero-padded numeral back as its number. */
  lemma AtoiOfPad(n: nat, width: int)
    ensures Atoi(Pad(n, width)) == n
  {
    PadRoundTrip(n, width);
    DigitsShape(n);
    AtoiOfNumeral(Pad(n, width));
  }

  /** atoi of a nonempty digit string is its value. */
  lemma AtoiOfNumeral(p: seq<byte>)
    requires |p| > 0 && AllDigits(p)
    ensures Atoi(p) == Value(p)
  {
    assert !IsSpace(p[0]) && p[0] != '-' as int && p[0] != '+' as int;
    assert SkipSpaces(p) == p;
    LeadingDigitsOfNumeral(p, []);
    assert p + [] == p;
  }
}
