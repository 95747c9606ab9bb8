/**
 What is where in the printer's tree.
 */
module JsonNodes {
  import opened Bytes
  import opened DictTable
  import opened JsonNumber
  import opened JsonTree
  import opened JsonPaths

  /** The node found by following child keys. */
  ghost function Get(n: Node, p: seq<CStr>): Option<Node>
    decreases |p|
  {
    if p == [] then Some(n)
    else match FindChild(n.kids, p[0])
      case None => None
      case Some(i) => Get(n.kids[i], p[1..])
  }

  ghost function TextAt(n: Node, p: seq<CStr>): Option<CStr> {
    match Get(n, p) case None => None case Some(c) => c.value
  }

  lemma {:induction false} GetConcat(n: Node, p: seq<CStr>, q: seq<CStr>)
    ensures Get(n, p + q) == match Get(n, p) case None => None case Some(c) => Get(c, q)
    decreases |p|
  {
    if p == [] {
      assert p + q == q;
    } else {
      assert (p + q)[0] == p[0] && (p + q)[1..] == p[1..] + q;
      var i := FindChild(n.kids, p[0]);
      if i.Some? {
        GetConcat(n.kids[i.value], p[1..], q);
      }
    }
  }

  lemma FindAfterUpdate(kids: seq<Node>, i: nat, c: Node, k: CStr)
    requires FindChild(kids, c.key) == Some(i)
    ensures i < |kids| && FindChild(kids[i := c], k) == FindChild(kids, k)
  {
    if i > 0 {
      assert kids[i := c][1..] == kids[1..][i - 1 := c];
      FindAfterUpdate(kids[1..], i - 1, c, k);
    }
  }

  lemma FindAfterCons(kids: seq<Node>, c: Node, k: CStr)
    ensures FindChild([c] + kids, k) == if c.key == k then Some(0) else match FindChild(kids, k) case None => None case Some(i) => Some(i + 1)
  {
    assert ([c] + kids)[1..] == kids;
  }

  lemma InsertKeepsKey(n: Node, t: seq<CStr>, x: CStr)
    ensures Insert(n, t, x).key == n.key
  {
  }

  /** Inserting creates exactly the nodes on its way and sets the text at its end. */
  lemma {:induction false} GetAfterInsert(n: Node, t: seq<CStr>, x: CStr, q: seq<CStr>)
    ensures Get(Insert(n, t, x), q).Some? <==> Get(n, q).Some? || q <= t
    ensures TextAt(Insert(n, t, x), q) == if q == t then Some(x) else TextAt(n, q)
    decreases |t|, |q|
  {
    hide FindChild;
    if q == [] {
      if t == [] {
      } else {
        InsertKeepsText(n, t, x);
      }
    } else if t != [] {
      var n' := Insert(n, t, x);
      var blank := Node(t[0], None, []);
      var at := FindChild(n.kids, t[0]);
      var c0 := if at.Some? then n.kids[at.value] else blank;
      var c := Insert(c0, t[1..], x);
      InsertKeepsKey(c0, t[1..], x);
      if at.Some? {
        FindAfterUpdate(n.kids, at.value, c, q[0]);
      } else {
        FindAfterCons(n.kids, c, q[0]);
      }
      if q[0] == t[0] {
        GetAfterInsert(c0, t[1..], x, q[1..]);
        GetOfBlank(blank, q[1..]);
        assert q <= t <==> q[1..] <= t[1..];
        assert q == t <==> q[1..] == t[1..];
      } else if at.Some? && FindChild(n.kids, q[0]).Some? {
        FindKeys(n.kids, t[0], q[0]);
      }
    }
  }

  lemma InsertKeepsText(n: Node, t: seq<CStr>, x: CStr)
    requires t != []
    ensures Insert(n, t, x).value == n.value
  {
  }

  lemma FindKeys(kids: seq<Node>, a: CStr, b: CStr)
    requires FindChild(kids, a).Some? && FindChild(kids, b).Some? && a != b
    ensures FindChild(kids, a) != FindChild(kids, b)
  {
  }

  lemma GetOfBlank(n: Node, q: seq<CStr>)
    requires n.kids == [] && n.value == None
    ensures Get(n, q).Some? <==> q == []
    ensures TextAt(n, q) == None
  {
  }

  // ----- The tree of a list of entries -----

  lemma {:induction false} GetOfBuild(es: seq<(Key, Value)>, dtoa: Dtoa, q: seq<CStr>)
    ensures Get(Build(es, dtoa), q).Some? <==> q == [] || exists i :: 0 <= i < |es| && q <= Tokens(es[i].0)
    decreases |es|
  {
    if es == [] {
      GetOfBlank(ROOT, q);
    } else {
      var n := |es| - 1;
      GetOfBuild(es[..n], dtoa, q);
      GetAfterInsert(Build(es[..n], dtoa), Tokens(es[n].0), TextOf(es[n].1, dtoa), q);
      if i :| 0 <= i < |es| && q <= Tokens(es[i].0) {
        assert i == n || es[..n][i] == es[i];
      }
      if q != [] && exists i :: 0 <= i < n && q <= Tokens(es[..n][i].0) {
        var i :| 0 <= i < n && q <= Tokens(es[..n][i].0);
        assert es[..n][i] == es[i];
      }
    }
  }

  /** A text in the tree was put there by an entry with those segments, and every entry's node has a text. */
  lemma {:induction false} TextOfBuild(es: seq<(Key, Value)>, dtoa: Dtoa, q: seq<CStr>)
    ensures TextAt(Build(es, dtoa), q).Some?
            ==> exists i :: 0 <= i < |es| && Tokens(es[i].0) == q && TextAt(Build(es, dtoa), q) == Some(TextOf(es[i].1, dtoa))
    ensures (exists i :: 0 <= i < |es| && Tokens(es[i].0) == q) ==> TextAt(Build(es, dtoa), q).Some?
    decreases |es|
  {
    if es == [] {
      GetOfBlank(ROOT, q);
    } else {
      var n := |es| - 1;
      TextOfBuild(es[..n], dtoa, q);
      GetAfterInsert(Build(es[..n], dtoa), Tokens(es[n].0), TextOf(es[n].1, dtoa), q);
      if q == Tokens(es[n].0) {
      } else {
        if TextAt(Build(es[..n], dtoa), q).Some? {
          var i :| 0 <= i < n && Tokens(es[..n][i].0) == q && TextAt(Build(es[..n], dtoa), q) == Some(TextOf(es[..n][i].1, dtoa));
          assert es[i] == es[..n][i];
        }
        if i :| 0 <= i < |es| && Tokens(es[i].0) == q {
          assert es[i] == es[..n][i];
        }
      }
    }
  }

  // ----- The order of members -----

  ghost function Keys(kids: seq<Node>): seq<CStr> {
    seq(|kids|, i requires 0 <= i < |kids| => kids[i].key)
  }

  /** The keys of the node at `q`, in the order of its members. */
  ghost function KeysAt(n: Node, q: seq<CStr>): seq<CStr> {
    match Get(n, q) case None => [] case Some(c) => Keys(c.kids)
  }

  /** Where the entries first go to `q` or below it. */
  ghost function FirstUnder(es: seq<(Key, Value)>, q: seq<CStr>): (i: nat)
    ensures i <= |es| && (i < |es| ==> q <= Tokens(es[i].0)) && forall k :: 0 <= k < i ==> !(q <= Tokens(es[k].0))
  {
    if es == [] || q <= Tokens(es[0].0) then 0 else 1 + FirstUnder(es[1..], q)
  }

  lemma KeysOfInsert(n: Node, t: seq<CStr>, x: CStr)
    ensures Keys(Insert(n, t, x).kids) == if t != [] && t[0] !in Keys(n.kids) then [t[0]] + Keys(n.kids) else Keys(n.kids)
  {
    if t != [] {
      match FindChild(n.kids, t[0]) {
        case Some(i) =>
          InsertKeepsKey(n.kids[i], t[1..], x);
          assert Keys(n.kids)[i] == t[0];
        case None =>
          InsertKeepsKey(Node(t[0], None, []), t[1..], x);
      }
    }
  }

  /** An insertion puts a key it adds in front of the others of its node. */
  lemma {:induction false} KeysAfterInsert(n: Node, t: seq<CStr>, x: CStr, q: seq<CStr>)
    ensures KeysAt(Insert(n, t, x), q)
            == if |q| < |t| && q <= t && t[|q|] !in KeysAt(n, q) then [t[|q|]] + KeysAt(n, q) else KeysAt(n, q)
    decreases |t|, |q|
  {
    hide FindChild, Keys;
    if q == [] {
      KeysOfInsert(n, t, x);
    } else if t != [] {
      var n' := Insert(n, t, x);
      var blank := Node(t[0], None, []);
      var at := FindChild(n.kids, t[0]);
      var c0 := if at.Some? then n.kids[at.value] else blank;
      var c := Insert(c0, t[1..], x);
      InsertKeepsKey(c0, t[1..], x);
      if at.Some? {
        FindAfterUpdate(n.kids, at.value, c, q[0]);
      } else {
        FindAfterCons(n.kids, c, q[0]);
      }
      if q[0] == t[0] {
        KeysAfterInsert(c0, t[1..], x, q[1..]);
        KeysOfBlank(blank, q[1..]);
        assert q <= t <==> q[1..] <= t[1..];
      } else if at.Some? && FindChild(n.kids, q[0]).Some? {
        FindKeys(n.kids, t[0], q[0]);
      }
    }
  }

  lemma KeysOfBlank(n: Node, q: seq<CStr>)
    requires n.kids == [] && n.value == None
    ensures KeysAt(n, q) == []
  {
  }

  lemma KeyAtIff(n: Node, q: seq<CStr>, k: CStr)
    ensures Get(n, q + [k]).Some? <==> k in KeysAt(n, q)
  {
    GetConcat(n, q, [k]);
    if Get(n, q).Some? {
      var c := Get(n, q).value;
      assert Get(c, [k]).Some? <==> FindChild(c.kids, k).Some?;
      if k in Keys(c.kids) {
        var i :| 0 <= i < |c.kids| && Keys(c.kids)[i] == k;
        assert c.kids[i].key == k;
      }
      if FindChild(c.kids, k).Some? {
        assert Keys(c.kids)[FindChild(c.kids, k).value] == k;
      }
    }
  }

  lemma {:induction false} FirstUnderMore(es: seq<(Key, Value)>, n: nat, q: seq<CStr>)
    requires n < |es|
    ensures FirstUnder(es[..n], q) < n ==> FirstUnder(es, q) == FirstUnder(es[..n], q)
    ensures FirstUnder(es[..n], q) == n && q <= Tokens(es[n].0) ==> FirstUnder(es, q) == n
  {
    var i := FirstUnder(es[..n], q);
    assert forall k :: 0 <= k < n ==> es[..n][k] == es[k];
    if FirstUnder(es, q) < n {
      assert es[..n][FirstUnder(es, q)] == es[FirstUnder(es, q)];
    }
  }

  /** Keys under `q` that came later stand earlier. */
  ghost predicate NewestLeads(es: seq<(Key, Value)>, ks: seq<CStr>, q: seq<CStr>) {
    && (forall a :: 0 <= a < |ks| ==> FirstUnder(es, q + [ks[a]]) < |es|)
    && (forall a, b :: 0 <= a < b < |ks| ==> FirstUnder(es, q + [ks[a]]) > FirstUnder(es, q + [ks[b]]))
  }

  lemma NewestStillLeads(es: seq<(Key, Value)>, n: nat, ks: seq<CStr>, q: seq<CStr>)
    requires n < |es| && NewestLeads(es[..n], ks, q)
    ensures NewestLeads(es, ks, q) && forall a :: 0 <= a < |ks| ==> FirstUnder(es, q + [ks[a]]) < n
  {
    hide FirstUnder;
    forall a | 0 <= a < |ks| ensures FirstUnder(es, q + [ks[a]]) == FirstUnder(es[..n], q + [ks[a]]) < n {
      assert FirstUnder(es[..n], q + [ks[a]]) < |es[..n]|;
      FirstUnderMore(es, n, q + [ks[a]]);
    }
  }

  /** The members of every object come newest first, by the first entry that goes there. */
  lemma {:induction false} NewestFirst(es: seq<(Key, Value)>, dtoa: Dtoa, q: seq<CStr>)
    ensures NewestLeads(es, KeysAt(Build(es, dtoa), q), q)
    decreases |es|
  {
    hide Get, Insert, Tokens, FirstUnder, TextOf, KeysAt, NewestLeads;
    if es == [] {
      KeysOfBlank(ROOT, q);
      NothingLeads(q);
    } else {
      var n := |es| - 1;
      NewestFirst(es[..n], dtoa, q);
      KeysAfterInsert(Build(es[..n], dtoa), Tokens(es[n].0), TextOf(es[n].1, dtoa), q);
      NewestStillLeads(es, n, KeysAt(Build(es[..n], dtoa), q), q);
      NewestAdded(es, dtoa, q);
    }
  }

  /** A key that the last entry adds. */
  lemma NewestAdded(es: seq<(Key, Value)>, dtoa: Dtoa, q: seq<CStr>)
    requires es != []
    requires var older := KeysAt(Build(es[..|es| - 1], dtoa), q);
             NewestLeads(es, older, q) && forall a :: 0 <= a < |older| ==> FirstUnder(es, q + [older[a]]) < |es| - 1
    ensures var older, t := KeysAt(Build(es[..|es| - 1], dtoa), q), Tokens(es[|es| - 1].0);
            |q| < |t| && q <= t && t[|q|] !in older ==> NewestLeads(es, [t[|q|]] + older, q)
  {
    hide Get, Build, Tokens, FirstUnder, KeysAt, NewestLeads;
    var n := |es| - 1;
    var older, t := KeysAt(Build(es[..n], dtoa), q), Tokens(es[n].0);
    if |q| < |t| && q <= t && t[|q|] !in older {
      KeyAtIff(Build(es[..n], dtoa), q, t[|q|]);
      GetOfBuild(es[..n], dtoa, q + [t[|q|]]);
      NewKeyLeads(es, n, t[|q|], older, q);
    }
  }

  lemma NothingLeads(q: seq<CStr>)
    ensures NewestLeads([], [], q)
  {
  }

  lemma NewKeyLeads(es: seq<(Key, Value)>, n: nat, k: CStr, older: seq<CStr>, q: seq<CStr>)
    requires n == |es| - 1 && NewestLeads(es, older, q) && forall a :: 0 <= a < |older| ==> FirstUnder(es, q + [older[a]]) < n
    requires q + [k] <= Tokens(es[n].0) && forall i :: 0 <= i < n ==> !(q + [k] <= Tokens(es[..n][i].0))
    ensures NewestLeads(es, [k] + older, q)
  {
    hide Tokens;
    var ks := [k] + older;
    var f := FirstUnder(es, q + [k]);
    assert forall i :: 0 <= i < n ==> es[..n][i] == es[i];
    assert f == n;
    assert ks[0] == k && forall a :: 1 <= a < |ks| ==> ks[a] == older[a - 1];
  }

  // ----- Tidy trees -----

  /** The widths of C's integer types, and no floating point. */
  ghost predicate Storable(v: Value) {
    match v
    case Int(i) => INT_MIN <= i <= INT_MAX
    case UInt(i) => 0 <= i <= 0xFFFF_FFFF
    case Long(i) => LLONG_MIN <= i <= LLONG_MAX
    case ULong(i) => 0 <= i <= ULLONG_MAX
    case LLong(i) => LLONG_MIN <= i <= LLONG_MAX
    case ULLong(i) => 0 <= i <= ULLONG_MAX
    case Float(_) => false
    case Double(_) => false
    case _ => true
  }

  /** A text that some storable value prints as. */
  ghost predicate IsText(x: CStr, dtoa: Dtoa) {
    exists v :: Storable(v) && TextOf(v, dtoa) == x
  }

  ghost predicate DistinctKeys(kids: seq<Node>) {
    forall i, j :: 0 <= i < j < |kids| ==> kids[i].key != kids[j].key
  }

  /** Siblings have different keys, keys are segments, and every text is that of a storable value. */
  ghost predicate Tidy(n: Node, dtoa: Dtoa)
    decreases n
  {
    && DistinctKeys(n.kids)
    && (n.value.Some? ==> IsText(n.value.value, dtoa))
    && forall i :: 0 <= i < |n.kids| ==> IsSegment(n.kids[i].key) && Tidy(n.kids[i], dtoa)
  }

  lemma {:induction false} TidyAfterInsert(n: Node, t: seq<CStr>, x: CStr, dtoa: Dtoa)
    requires Tidy(n, dtoa) && AreSegments(t) && IsText(x, dtoa)
    ensures Tidy(Insert(n, t, x), dtoa)
    decreases |t|
  {
    if t != [] {
      var at := FindChild(n.kids, t[0]);
      var c0 := if at.Some? then n.kids[at.value] else Node(t[0], None, []);
      TidyAfterInsert(c0, t[1..], x, dtoa);
      InsertKeepsKey(c0, t[1..], x);
    }
  }

  lemma {:induction false} TidyBuild(es: seq<(Key, Value)>, dtoa: Dtoa)
    requires forall i :: 0 <= i < |es| ==> Storable(es[i].1)
    ensures Tidy(Build(es, dtoa), dtoa)
    decreases |es|
  {
    if es != [] {
      var n := |es| - 1;
      TidyBuild(es[..n], dtoa);
      TokensAreSegments(es[n].0);
      assert IsText(TextOf(es[n].1, dtoa), dtoa);
      TidyAfterInsert(Build(es[..n], dtoa), Tokens(es[n].0), TextOf(es[n].1, dtoa), dtoa);
    }
  }
}
