/**
 Bytes, C strings and the option type shared by the models.
 */
module Bytes {

  datatype Option<+T> = None | Some(value: T)

  type Byte = b: int | 0 <= b < 256

  /** A C string: the bytes in front of the terminator, none of which is NUL. */
  predicate NulFree(s: seq<Byte>) {
    forall i :: 0 <= i < |s| ==> s[i] != 0
  }

  type CStr = s: seq<Byte> | NulFree(s) witness []

  /** ASCII letters in lower case, as strcasecmp compares them. */
  function Lower(c: Byte): Byte {
    if 65 <= c <= 90 then c + 32 else c
  }

  predicate SameIgnoringCase(a: seq<Byte>, b: seq<Byte>) {
    |a| == |b| && forall i :: 0 <= i < |a| ==> Lower(a[i]) == Lower(b[i])
  }

  /** The same byte, or the two cases of one ASCII letter. */
  predicate OneLetter(a: Byte, b: Byte) {
    || a == b
    || (65 <= a <= 90 && b == a + 32)
    || (65 <= b <= 90 && a == b + 32)
  }

  lemma SameLetterIff(a: Byte, b: Byte)
    ensures Lower(a) == Lower(b) <==> OneLetter(a, b)
  {
  }

  /** Two texts are the same for strcasecmp exactly when they differ only in the case of ASCII letters. */
  lemma SameIgnoringCaseIff(a: seq<Byte>, b: seq<Byte>)
    ensures SameIgnoringCase(a, b) <==> |a| == |b| && forall i :: 0 <= i < |a| ==> OneLetter(a[i], b[i])
  {
    hide Lower, OneLetter;
    forall x: Byte, y: Byte ensures Lower(x) == Lower(y) <==> OneLetter(x, y) {
      SameLetterIff(x, y);
    }
  }

  lemma SnocInjective<T>(a: seq<T>, x: T, b: seq<T>, y: T)
    requires a + [x] == b + [y]
    ensures a == b && x == y
  {
    assert (a + [x])[..|a|] == a && (a + [x])[|a|] == x;
    assert (b + [y])[..|b|] == b && (b + [y])[|b|] == y;
    assert |a + [x]| == |b + [y]|;
  }

  lemma InnerSlice<T>(s: seq<T>, k: nat)
    requires k + 2 <= |s|
    ensures s[..k + 2][1..k + 1] == s[1..k + 1]
  {
  }

  lemma ConsMiddle<T>(a: T, t: seq<T>, rest: seq<T>)
    ensures ([a] + t + rest)[0] == a
    ensures ([a] + t + rest)[1..1 + |t|] == t
    ensures ([a] + t + rest)[1 + |t|..] == rest
  {
  }

  lemma SmallMod(h: nat, m: nat)
    requires h < m
    ensures h % m == h
  {
  }

  lemma Reassociate<T>(o: seq<T>, p: seq<T>, k: seq<T>, c: seq<T>, v: seq<T>, m: seq<T>, e: seq<T>)
    ensures o + (p + (k + c + v + m)) + e == (o + p + k + c + v) + m + e
  {
  }
}
