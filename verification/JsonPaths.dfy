/**
 Dotted keys and the lists of segments they stand for.
 */
module JsonPaths {
  import opened Bytes
  import opened JsonText
  import opened JsonSyntax
  import opened JsonFlatten
  import opened JsonTree

  /** A segment as the tokenizer cuts it. */
  ghost predicate IsSegment(s: seq<Byte>) {
    s != [] && DOT !in s
  }

  ghost predicate AreSegments(p: seq<CStr>) {
    forall i :: 0 <= i < |p| ==> IsSegment(p[i])
  }

  /** Segments that do not merge when joined: no later one looks like an array index. */
  ghost predicate GoodPath(p: seq<CStr>) {
    AreSegments(p) && forall i :: 0 < i < |p| ==> p[i][0] != OPEN_BRACKET
  }

  /** The path the parser builds for nested keys `p`. */
  ghost function Join(p: seq<CStr>): CStr {
    if p == [] then [] else PathAppend(Join(p[..|p| - 1]), p[|p| - 1])
  }

  /** Non-empty segments between the dots, none but the first starting with a bracket. */
  predicate KeyShape(k: seq<Byte>) {
    k != [] && forall i :: 0 <= i < |k| && k[i] == DOT ==> 0 < i < |k| - 1 && k[i + 1] != DOT && k[i + 1] != OPEN_BRACKET
  }

  function Dots(k: seq<Byte>): nat {
    if k == [] then 0 else Dots(k[..|k| - 1]) + if k[|k| - 1] == DOT then 1 else 0
  }

  lemma {:induction false} DotsConcat(a: seq<Byte>, b: seq<Byte>)
    ensures Dots(a + b) == Dots(a) + Dots(b)
  {
    if b == [] {
      assert a + b == a;
    } else {
      assert (a + b)[..|a + b| - 1] == a + b[..|b| - 1];
      DotsConcat(a, b[..|b| - 1]);
    }
  }

  lemma {:induction false} NoDots(s: seq<Byte>)
    requires DOT !in s
    ensures Dots(s) == 0
  {
    if s != [] {
      NoDots(s[..|s| - 1]);
    }
  }

  // ----- Tokens -----

  lemma {:induction false} SegLenIs(s: seq<Byte>)
    ensures DOT !in s[..SegLen(s)]
    ensures SegLen(s) < |s| ==> s[SegLen(s)] == DOT
  {
    if s != [] && s[0] != DOT {
      SegLenIs(s[1..]);
      assert s[..SegLen(s)] == [s[0]] + s[1..][..SegLen(s[1..])];
    }
  }

  lemma {:induction false} SegLenOver(a: seq<Byte>, rest: seq<Byte>)
    requires DOT !in a && (rest == [] || rest[0] == DOT)
    ensures SegLen(a + rest) == |a|
  {
    if a == [] {
      assert a + rest == rest;
    } else {
      assert (a + rest)[1..] == a[1..] + rest;
      SegLenOver(a[1..], rest);
    }
  }

  lemma {:induction false} TokensAreSegments(k: CStr)
    ensures AreSegments(Tokens(k))
    decreases |k|
  {
    if k != [] {
      if k[0] == DOT {
        TokensAreSegments(k[1..]);
      } else {
        SegLenIs(k);
        TokensAreSegments(k[SegLen(k)..]);
      }
    }
  }

  /** One segment and then a dot, or nothing. */
  lemma TokensOfSegment(a: CStr, rest: CStr)
    requires IsSegment(a) && (rest == [] || rest[0] == DOT)
    ensures NulFree(a + rest) && Tokens(a + rest) == [a] + Tokens(rest)
  {
    NulFreeConcat(a, rest);
    SegLenOver(a, rest);
    var s: CStr := a + rest;
    assert s[..|a|] == a && s[|a|..] == rest;
  }

  lemma TokensAfterDot(s: CStr)
    requires s != [] && s[0] == DOT
    ensures Tokens(s) == Tokens(s[1..])
  {
  }

  lemma TokensOfNothing()
    ensures Tokens([]) == []
  {
  }

  lemma {:induction false} TokensConcat(a: CStr, b: CStr)
    ensures NulFree(a + [DOT] + b) && Tokens(a + [DOT] + b) == Tokens(a) + Tokens(b)
    decreases |a|
  {
    hide Tokens, SegLen;
    NulFreeConcat(a, [DOT]);
    NulFreeConcat(a + [DOT], b);
    var s: CStr := a + [DOT] + b;
    if a == [] {
      TokensOfNothing();
      assert s[1..] == b;
      TokensAfterDot(s);
    } else if a[0] == DOT {
      assert s[1..] == a[1..] + [DOT] + b;
      TokensAfterDot(s);
      TokensAfterDot(a);
      TokensConcat(a[1..], b);
    } else {
      var n := FirstSegment(a);
      var rest: CStr := s[n..];
      assert rest == a[n..] + [DOT] + b;
      assert s == a[..n] + rest && a == a[..n] + a[n..];
      TokensOfSegment(a[..n], rest);
      TokensOfSegment(a[..n], a[n..]);
      TokensConcat(a[n..], b);
    }
  }

  lemma FirstSegment(a: CStr) returns (n: nat)
    requires a != [] && a[0] != DOT
    ensures 0 < n <= |a| && IsSegment(a[..n]) && (a[n..] == [] || a[n..][0] == DOT)
  {
    n := SegLen(a);
    SegLenIs(a);
  }

  lemma {:induction false} TokensCount(k: CStr)
    ensures |Tokens(k)| <= Dots(k) + 1
    ensures k != [] && k[0] == DOT ==> |Tokens(k)| <= Dots(k)
    decreases |k|
  {
    if k != [] {
      if k[0] == DOT {
        TokensCount(k[1..]);
        DotsConcat([DOT], k[1..]);
        assert k == [DOT] + k[1..] && Dots([DOT]) == Dots([DOT][..0]) + 1;
      } else {
        var n := SegLen(k);
        SegLenIs(k);
        TokensCount(k[n..]);
        DotsConcat(k[..n], k[n..]);
        assert k == k[..n] + k[n..];
      }
    }
  }

  // ----- Joining -----

  /** For good paths, joining puts a dot between segments. */
  lemma JoinGood(p: seq<CStr>)
    requires GoodPath(p) && |p| > 1
    ensures Join(p) == Join(p[..|p| - 1]) + [DOT] + p[|p| - 1]
    ensures GoodPath(p[..|p| - 1])
  {
    JoinShape(p[..|p| - 1]);
  }

  lemma JoinOne(p: seq<CStr>)
    requires |p| == 1
    ensures Join(p) == p[0]
  {
    assert p[..0] == [] && [] + p[0] == p[0];
  }

  /** Cutting a joined good path gives it back, so joining is injective on good paths. */
  lemma {:induction false} TokensOfJoin(p: seq<CStr>)
    requires GoodPath(p)
    ensures Tokens(Join(p)) == p
  {
    if |p| == 1 {
      JoinOne(p);
      TokensOfSegment(p[0], []);
      assert p[0] + [] == p[0];
    } else if |p| > 1 {
      var n := |p| - 1;
      JoinGood(p);
      TokensOfJoin(p[..n]);
      TokensConcat(Join(p[..n]), p[n]);
      TokensOfSegment(p[n], []);
      assert p[n] + [] == p[n] && p == p[..n] + [p[n]];
    }
  }

  /** Whatever segments it joins, a path has the shape of a good key with no more segments. */
  lemma {:induction false} JoinShape(p: seq<CStr>)
    requires AreSegments(p)
    ensures p != [] ==> KeyShape(Join(p)) && Dots(Join(p)) < |p|
  {
    if p != [] {
      var n := |p| - 1;
      var a, s := Join(p[..n]), p[n];
      NoDots(s);
      if n == 0 {
        JoinOne(p);
        assert KeyShape(s);
      } else {
        JoinShape(p[..n]);
        ShapeAppend(a, s);
        if s[0] == OPEN_BRACKET {
          DotsConcat(a, s);
        } else {
          DotsConcat(a + [DOT], s);
          DotsConcat(a, [DOT]);
          assert Dots([DOT]) == Dots([DOT][..0]) + 1;
        }
      }
    }
  }

  lemma ShapeAppend(a: CStr, s: CStr)
    requires KeyShape(a) && IsSegment(s)
    ensures KeyShape(PathAppend(a, s))
  {
    var k := PathAppend(a, s);
    var gap := if s[0] == OPEN_BRACKET then 0 else 1;
    assert k == a + (if gap == 0 then [] else [DOT]) + s;
    assert forall j :: 0 <= j < |s| ==> k[|a| + gap + j] == s[j] && s[j] != DOT;
    assert forall j :: 0 <= j < |a| ==> k[j] == a[j];
    forall i | 0 <= i < |k| && k[i] == DOT ensures 0 < i < |k| - 1 && k[i + 1] != DOT && k[i + 1] != OPEN_BRACKET {
      if i == |a| {
        assert k[|a| + gap + 0] == s[0];
      }
    }
  }

  /** A well-shaped key is the join of its segments, and they are good. */
  lemma {:induction false} JoinOfTokens(k: CStr)
    requires KeyShape(k)
    ensures GoodPath(Tokens(k)) && Tokens(k) != [] && Join(Tokens(k)) == k
    decreases |k|
  {
    var n := LastStart(k);
    var s: CStr := k[n..];
    if n == 0 {
      TokensOfSegment(s, []);
      assert s + [] == s == k;
      assert Tokens(k) == [k] && [k][..0] == [];
    } else {
      var a: CStr := k[..n - 1];
      assert k == a + [DOT] + s;
      assert KeyShape(a) by { ShapePrefix(k, n - 1); }
      JoinOfTokens(a);
      TokensConcat(a, s);
      TokensOfSegment(s, []);
      assert s + [] == s;
      assert s[0] == k[n];
      assert Tokens(k) == Tokens(a) + [s];
      assert Tokens(k)[..|Tokens(k)| - 1] == Tokens(a);
    }
  }

  lemma ShapePrefix(k: seq<Byte>, n: nat)
    requires KeyShape(k) && n < |k| && k[n] == DOT
    ensures KeyShape(k[..n])
  {
    var a := k[..n];
    forall i | 0 <= i < |a| && a[i] == DOT ensures 0 < i < |a| - 1 && a[i + 1] != DOT && a[i + 1] != OPEN_BRACKET {
      assert k[i] == DOT;
      assert k[i + 1] != DOT;
      assert a[i + 1] == k[i + 1];
    }
  }

  /** Where the last segment of a well-shaped key starts. */
  lemma LastStart(k: CStr) returns (n: nat)
    requires KeyShape(k)
    ensures n < |k| && DOT !in k[n..] && (n > 0 ==> k[n - 1] == DOT && n > 1)
  {
    n := |k|;
    while n > 0 && k[n - 1] != DOT
      invariant n <= |k| && DOT !in k[n..]
    {
      assert k[n - 1..] == [k[n - 1]] + k[n..];
      n := n - 1;
    }
  }

  /** A proper prefix of a good path joins to the key in front of a dot. */
  lemma {:induction false} JoinPrefix(p: seq<CStr>, n: nat)
    requires GoodPath(p) && 0 < n < |p|
    ensures Join(p[..n]) + [DOT] <= Join(p)
    decreases |p|
  {
    JoinGood(p);
    var q := p[..|p| - 1];
    if n < |p| - 1 {
      assert q[..n] == p[..n];
      JoinPrefix(q, n);
    }
  }

  /** Among well-shaped keys, one followed by a dot leads another exactly when its segments do. */
  lemma KeyPrefixIff(k1: CStr, k2: CStr)
    requires KeyShape(k1) && KeyShape(k2)
    ensures k1 + [DOT] <= k2 <==> Tokens(k1) < Tokens(k2)
  {
    hide Tokens, Join, GoodPath;
    if Tokens(k1) < Tokens(k2) {
      JoinOfTokens(k1);
      JoinOfTokens(k2);
      assert Tokens(k2)[..|Tokens(k1)|] == Tokens(k1);
      JoinPrefix(Tokens(k2), |Tokens(k1)|);
    }
    if k1 + [DOT] <= k2 {
      TokensOfLonger(k1, k2);
    }
  }

  lemma TokensOfLonger(k1: CStr, k2: CStr)
    requires KeyShape(k2) && k1 + [DOT] <= k2
    ensures Tokens(k1) < Tokens(k2)
  {
    var r: CStr := k2[|k1| + 1..];
    assert k2 == k1 + [DOT] + r && k2[|k1|] == DOT;
    TokensConcat(k1, r);
    assert r[0] == k2[|k1| + 1];
    assert Tokens(r) != [];
  }
}
