/**
 * Bytes and C strings.
 *
 * A C string is modelled as the sequence of its bytes before the terminating
 * NUL. Names handed out by the directory and command-line arguments never hold
 * a NUL, so every string the program sees satisfies IsCString; the lemmas
 * that depend on it say so.
 */
module Bytes {

  /** An unsigned char. */
  type byte = x: int | 0 <= x < 256

  const NUL: byte := 0
  const DOT: byte := 46   // '.'

  predicate IsCString(s: seq<byte>) {
    NUL !in s
  }

  // ASCII classification and case mapping, as in the C locale.

  predicate IsUpper(c: byte) { 'A' as int <= c <= 'Z' as int }
  predicate IsLower(c: byte) { 'a' as int <= c <= 'z' as int }
  predicate IsDigit(c: byte) { '0' as int <= c <= '9' as int }

  /** toupper in the C locale: only 'a'..'z' change. */
  function ToUpper(c: byte): byte {
    if IsLower(c) then c - 32 else c
  }

  /** tolower in the C locale: only 'A'..'Z' change. */
  function ToLower(c: byte): byte {
    if IsUpper(c) then c + 32 else c
  }

  function UpperAll(s: seq<byte>): (r: seq<byte>)
    ensures |r| == |s|
    ensures forall i :: 0 <= i < |s| ==> r[i] == ToUpper(s[i])
  {
    if s == [] then [] else [ToUpper(s[0])] + UpperAll(s[1..])
  }

  function LowerAll(s: seq<byte>): (r: seq<byte>)
    ensures |r| == |s|
    ensures forall i :: 0 <= i < |s| ==> r[i] == ToLower(s[i])
  {
    if s == [] then [] else [ToLower(s[0])] + LowerAll(s[1..])
  }

  /**
   * strcmp: bytes are compared as unsigned chars up to the first difference or
   * the end of both strings; the end of a string reads as its NUL terminator.
   * The result is the difference of the first differing bytes; only its sign
   * is promised by C and only its sign is used below.
   */
  function Strcmp(a: seq<byte>, b: seq<byte>): int
    decreases |a|
  {
    var x := if |a| > 0 then a[0] else NUL;
    var y := if |b| > 0 then b[0] else NUL;
    if x != y then x - y
    else if x == NUL then 0
    else Strcmp(a[1..], b[1..])
  }

  /** strcasecmp in the C locale: strcmp on the bytes after tolower. */
  function StrCaseCmp(a: seq<byte>, b: seq<byte>): int
    decreases |a|
  {
    var x := if |a| > 0 then ToLower(a[0]) else NUL;
    var y := if |b| > 0 then ToLower(b[0]) else NUL;
    if x != y then x - y
    else if x == NUL then 0
    else StrCaseCmp(a[1..], b[1..])
  }

  /** On C strings, strcmp reports equality exactly when the strings are equal. */
  lemma {:induction false} StrcmpZeroIff(a: seq<byte>, b: seq<byte>)
    requires IsCString(a) && IsCString(b)
    ensures Strcmp(a, b) == 0 <==> a == b
    decreases |a|
  {
    if |a| > 0 && |b| > 0 && a[0] == b[0] {
      assert IsCString(a[1..]) && IsCString(b[1..]) by {
        assert forall i :: 0 <= i < |a| - 1 ==> a[1..][i] == a[i + 1];
        assert forall i :: 0 <= i < |b| - 1 ==> b[1..][i] == b[i + 1];
      }
      StrcmpZeroIff(a[1..], b[1..]);
      assert a == [a[0]] + a[1..] && b == [b[0]] + b[1..];
    } else if |a| > 0 && |b| > 0 {
      assert a != b;
    }
  }

  /**
   * strcmp is byte-lexicographic order: on C strings, a comes first exactly
   * when, after a common prefix of length k, a ends or its next byte is smaller.
   */
  lemma {:induction false} StrcmpLex(a: seq<byte>, b: seq<byte>)
    requires IsCString(a) && IsCString(b)
    ensures Strcmp(a, b) < 0 <==>
      exists k :: 0 <= k <= |a| && k < |b| && a[..k] == b[..k] && (k == |a| || a[k] < b[k])
    decreases |a|
  {
    if |a| == 0 || |b| == 0 {
      if |b| > 0 {
        assert a[..0] == b[..0];
      }
    } else if a[0] != b[0] {
      if a[0] < b[0] {
        assert a[..0] == b[..0];
      }
      forall k | 0 < k <= |a| && k < |b|
        ensures a[..k] != b[..k]
      {
        assert a[..k][0] == a[0] && b[..k][0] == b[0];
      }
    } else {
      var a', b' := a[1..], b[1..];
      assert IsCString(a') && IsCString(b') by {
        assert forall i :: 0 <= i < |a'| ==> a'[i] == a[i + 1];
        assert forall i :: 0 <= i < |b'| ==> b'[i] == b[i + 1];
      }
      StrcmpLex(a', b');
      if Strcmp(a, b) < 0 {
        var k :| 0 <= k <= |a'| && k < |b'| && a'[..k] == b'[..k] && (k == |a'| || a'[k] < b'[k]);
        assert a[..k + 1] == [a[0]] + a'[..k] && b[..k + 1] == [b[0]] + b'[..k];
      }
      forall k | 0 <= k <= |a| && k < |b| && a[..k] == b[..k] && (k == |a| || a[k] < b[k])
        ensures Strcmp(a, b) < 0
      {
        assert k > 0;
        assert a'[..k - 1] == a[..k][1..] && b'[..k - 1] == b[..k][1..];
      }
    }
  }

  /** Swapping the operands negates the result. */
  lemma {:induction false} StrcmpAntisymmetric(a: seq<byte>, b: seq<byte>)
    ensures Strcmp(b, a) == -Strcmp(a, b)
    decreases |a|
  {
    if |a| > 0 && |b| > 0 && a[0] == b[0] && a[0] != NUL {
      StrcmpAntisymmetric(a[1..], b[1..]);
    }
  }

  /** "Not greater" under strcmp is transitive. */
  lemma {:induction false} StrcmpTransitive(a: seq<byte>, b: seq<byte>, c: seq<byte>)
    requires Strcmp(a, b) <= 0 && Strcmp(b, c) <= 0
    ensures Strcmp(a, c) <= 0
    decreases |a|
  {
    var x := if |a| > 0 then a[0] else NUL;
    var y := if |b| > 0 then b[0] else NUL;
    var z := if |c| > 0 then c[0] else NUL;
    if x == y && y == z && x != NUL {
      StrcmpTransitive(a[1..], b[1..], c[1..]);
    }
  }

  /** Every string is equal to itself under strcmp. */
  lemma {:induction false} StrcmpReflexive(a: seq<byte>)
    ensures Strcmp(a, a) == 0
    decreases |a|
  {
    if |a| > 0 && a[0] != NUL {
      StrcmpReflexive(a[1..]);
    }
  }

  /** strcasecmp is strcmp applied to the lower-cased strings. */
  lemma {:induction false} StrCaseCmpIsStrcmpOfLower(a: seq<byte>, b: seq<byte>)
    ensures StrCaseCmp(a, b) == Strcmp(LowerAll(a), LowerAll(b))
    decreases |a|
  {
    if |a| > 0 && |b| > 0 {
      assert LowerAll(a)[1..] == LowerAll(a[1..]);
      assert LowerAll(b)[1..] == LowerAll(b[1..]);
      StrCaseCmpIsStrcmpOfLower(a[1..], b[1..]);
    }
  }

  lemma LowerAllKeepsCString(s: seq<byte>)
    requires IsCString(s)
    ensures IsCString(LowerAll(s))
  {
  }

  /** On C strings, strcasecmp reports equality exactly when the strings agree after lower-casing. */
  lemma StrCaseCmpZeroIff(a: seq<byte>, b: seq<byte>)
    requires IsCString(a) && IsCString(b)
    ensures StrCaseCmp(a, b) == 0 <==> LowerAll(a) == LowerAll(b)
  {
    StrCaseCmpIsStrcmpOfLower(a, b);
    LowerAllKeepsCString(a);
    LowerAllKeepsCString(b);
    StrcmpZeroIff(LowerAll(a), LowerAll(b));
  }

  /** Two bytes that are equal ignoring case (tolower) are also equal after toupper. */
  lemma UpperOfSameLower(c: byte, d: byte)
    requires ToLower(c) == ToLower(d)
    ensures ToUpper(c) == ToUpper(d)
  {
  }
}
