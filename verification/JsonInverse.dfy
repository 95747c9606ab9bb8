/**
 When reading a printed dictionary gives the dictionary back.
 */
module JsonInverse {
  import opened Bytes
  import opened JsonNumber
  import opened JsonSyntax
  import opened JsonFlatten
  import opened JsonTree
  import opened JsonPaths
  import opened JsonNodes
  import opened JsonRoundTrip

  // ----- The nodes in the order the parser meets them -----

  ghost function Walk(c: Node, p: seq<CStr>): seq<(seq<CStr>, Node)>
    decreases c, 0
  {
    [(p, c)] + WalkKids(c.kids, p)
  }

  ghost function WalkKids(kids: seq<Node>, p: seq<CStr>): seq<(seq<CStr>, Node)>
    decreases kids
  {
    if kids == [] then [] else Walk(kids[0], p + [kids[0].key]) + WalkKids(kids[1..], p)
  }

  ghost function AsVisit(w: (seq<CStr>, Node), tod: Strtod): Visit {
    Visit(Join(w.0), if IsLeaf(w.1) then Some(TextValue(w.1.value.value, tod)) else None)
  }

  ghost function AsVisits(ws: seq<(seq<CStr>, Node)>, tod: Strtod): (vs: seq<Visit>)
    ensures |vs| == |ws| && forall i :: 0 <= i < |vs| ==> vs[i] == AsVisit(ws[i], tod)
  {
    seq(|ws|, i requires 0 <= i < |ws| => AsVisit(ws[i], tod))
  }

  lemma {:induction false} VisitsAreWalk(c: Node, p: seq<CStr>, tod: Strtod)
    requires IsLeaf(c) || p != []
    ensures Visits(Join(p), AstValue(c, tod)) == AsVisits(Walk(c, p), tod)
    decreases c, 1
  {
    hide Join;
    if !IsLeaf(c) {
      VisitsOfKidsAreWalk(c.kids, p, tod);
    }
  }

  lemma {:induction false} VisitsOfKidsAreWalk(kids: seq<Node>, p: seq<CStr>, tod: Strtod)
    ensures VisitsOfMembers(Join(p), AstKids(kids, tod)) == AsVisits(WalkKids(kids, p), tod)
    decreases kids
  {
    if kids != [] {
      hide Join, PathAppend, AsVisit, VisitsOfMembers, Visits, AstValue, Walk;
      var key := kids[0].key;
      var p' := p + [key];
      JoinLast(p, key);
      VisitsAreWalk(kids[0], p', tod);
      VisitsOfKidsAreWalk(kids[1..], p, tod);
      MembersHead(Join(p), key, AstValue(kids[0], tod), AstKids(kids[1..], tod));
      AsVisitsConcat(Walk(kids[0], p'), WalkKids(kids[1..], p), tod);
    }
  }

  lemma JoinLast(p: seq<CStr>, key: CStr)
    ensures Join(p + [key]) == PathAppend(Join(p), key)
  {
    assert (p + [key])[..|p|] == p;
  }

  lemma AsVisitsConcat(a: seq<(seq<CStr>, Node)>, b: seq<(seq<CStr>, Node)>, tod: Strtod)
    ensures AsVisits(a + b, tod) == AsVisits(a, tod) + AsVisits(b, tod)
  {
  }

  lemma MembersHead(path: CStr, key: CStr, v: Json, ms: seq<(CStr, Json)>)
    ensures VisitsOfMembers(path, [(key, v)] + ms) == Visits(PathAppend(path, key), v) + VisitsOfMembers(path, ms)
  {
    assert ([(key, v)] + ms)[1..] == ms;
  }

  /** The node below a list of siblings, by keys. */
  ghost function GetIn(kids: seq<Node>, q: seq<CStr>): Option<Node>
    requires q != []
  {
    match FindChild(kids, q[0]) case None => None case Some(i) => Get(kids[i], q[1..])
  }

  lemma GetInRest(kids: seq<Node>, q: seq<CStr>)
    requires kids != [] && q != [] && DistinctKeys(kids)
    ensures GetIn(kids[1..], q).Some? ==> GetIn(kids, q) == GetIn(kids[1..], q) && q[0] != kids[0].key
    ensures q[0] == kids[0].key ==> GetIn(kids, q) == Get(kids[0], q[1..])
    ensures q[0] != kids[0].key ==> GetIn(kids, q) == GetIn(kids[1..], q)
  {
  }

  ghost predicate Under(kids: seq<Node>, p: seq<CStr>, w: (seq<CStr>, Node)) {
    |p| < |w.0| && p <= w.0 && GetIn(kids, w.0[|p|..]) == Some(w.1)
  }

  lemma {:induction false} WalkSound(kids: seq<Node>, p: seq<CStr>, dtoa: Dtoa)
    requires TidyKids(kids, dtoa)
    ensures forall w :: w in WalkKids(kids, p) ==> Under(kids, p, w)
    decreases kids
  {
    if kids != [] {
      var c := kids[0];
      var p' := p + [c.key];
      TidyRest(kids, dtoa);
      WalkSound(c.kids, p', dtoa);
      WalkSound(kids[1..], p, dtoa);
      assert WalkKids(kids, p) == [(p', c)] + WalkKids(c.kids, p') + WalkKids(kids[1..], p);
      forall w | w in WalkKids(kids, p) ensures Under(kids, p, w) {
        if w in WalkKids(kids[1..], p) {
          GetInRest(kids, w.0[|p|..]);
        } else if w == (p', c) {
          assert w.0[|p|..] == [c.key];
        } else {
          assert w in WalkKids(c.kids, p');
          assert w.0[|p|..] == [c.key] + w.0[|p'|..];
        }
      }
    }
  }

  lemma {:induction false} WalkComplete(kids: seq<Node>, p: seq<CStr>, q: seq<CStr>, c: Node)
    requires q != [] && GetIn(kids, q) == Some(c)
    ensures (p + q, c) in WalkKids(kids, p)
    decreases kids
  {
    var k := kids[0];
    if q[0] == k.key {
      assert p + q == (p + [k.key]) + q[1..];
      if q[1..] == [] {
        assert (p + [k.key]) + [] == p + [k.key];
      } else {
        WalkComplete(k.kids, p + [k.key], q[1..], c);
      }
      assert (p + q, c) in Walk(k, p + [k.key]);
    } else {
      WalkComplete(kids[1..], p, q, c);
    }
  }

  ghost predicate DistinctPaths(ws: seq<(seq<CStr>, Node)>) {
    forall i, j :: 0 <= i < j < |ws| ==> ws[i].0 != ws[j].0
  }

  lemma {:induction false} WalkDistinct(kids: seq<Node>, p: seq<CStr>, dtoa: Dtoa)
    requires TidyKids(kids, dtoa)
    ensures DistinctPaths(WalkKids(kids, p))
    decreases kids
  {
    if kids != [] {
      var c := kids[0];
      var p' := p + [c.key];
      TidyRest(kids, dtoa);
      WalkDistinct(c.kids, p', dtoa);
      WalkDistinct(kids[1..], p, dtoa);
      WalkSound(c.kids, p', dtoa);
      WalkSound(kids[1..], p, dtoa);
      var a, b := WalkKids(c.kids, p'), WalkKids(kids[1..], p);
      forall i | 0 <= i < |a| ensures a[i].0 != p' && p' <= a[i].0 {
        assert Under(c.kids, p', a[i]);
      }
      forall i | 0 <= i < |b| ensures !(p' <= b[i].0) {
        assert Under(kids[1..], p, b[i]);
        GetInRest(kids, b[i].0[|p|..]);
        assert b[i].0[|p|..][0] == b[i].0[|p|];
      }
    }
  }

  // ----- Depth -----

  lemma {:induction false} HeightAttained(kids: seq<Node>) returns (q: seq<CStr>)
    requires kids != []
    ensures q != [] && |q| == HeightOf(kids)
    ensures GetInAny(kids, q)
    decreases kids
  {
    var c := kids[0];
    var below: seq<CStr> := [];
    if c.kids != [] {
      below := HeightAttained(c.kids);
    }
    q := [c.key] + below;
    assert q[1..] == below;
    assert kids[1..] == [] ==> HeightOf(kids[1..]) == 0;
    if |q| < HeightOf(kids[1..]) {
      q := HeightAttained(kids[1..]);
      var i :| 0 <= i < |kids[1..]| && kids[1..][i].key == q[0] && (q[1..] == [] || GetInAny(kids[1..][i].kids, q[1..]));
      assert kids[i + 1] == kids[1..][i];
    }
  }

  /** Some sibling has the first key, and the rest leads to a node below it; no matter which sibling it is. */
  ghost predicate GetInAny(kids: seq<Node>, q: seq<CStr>)
    decreases |q|
  {
    q != [] && exists i :: 0 <= i < |kids| && kids[i].key == q[0] && (q[1..] == [] || GetInAny(kids[i].kids, q[1..]))
  }

  lemma {:induction false} GetInAnyIs(kids: seq<Node>, q: seq<CStr>, dtoa: Dtoa)
    requires TidyKids(kids, dtoa) && GetInAny(kids, q)
    ensures GetIn(kids, q).Some?
    decreases |q|
  {
    var i :| 0 <= i < |kids| && kids[i].key == q[0] && (q[1..] == [] || GetInAny(kids[i].kids, q[1..]));
    FindDistinct(kids, i);
    if q[1..] != [] {
      GetInAnyIs(kids[i].kids, q[1..], dtoa);
    }
  }

  lemma FindDistinct(kids: seq<Node>, i: nat)
    requires DistinctKeys(kids) && i < |kids|
    ensures FindChild(kids, kids[i].key) == Some(i)
  {
  }

  lemma {:induction false} HeightBounds(kids: seq<Node>, q: seq<CStr>)
    requires q != [] && GetIn(kids, q).Some?
    ensures |q| <= HeightOf(kids)
    decreases kids
  {
    if q[0] == kids[0].key {
      if q[1..] != [] {
        HeightBounds(kids[0].kids, q[1..]);
      }
    } else {
      HeightBounds(kids[1..], q);
    }
  }

  lemma {:induction false} GetSegments(n: Node, p: seq<CStr>, dtoa: Dtoa)
    requires Tidy(n, dtoa) && Get(n, p).Some?
    ensures AreSegments(p) && Tidy(Get(n, p).value, dtoa)
    decreases |p|
  {
    if p != [] {
      var i := FindChild(n.kids, p[0]).value;
      GetSegments(n.kids[i], p[1..], dtoa);
      assert p == [p[0]] + p[1..];
    }
  }
}
