/**
 The round trip: printing a dictionary and reading the text gives the
 dictionary back exactly when its keys are well-shaped, not too deep, and none
 is a segment-prefix of another.
 */
module JsonTheorem {
  import opened Bytes
  import opened DictTable
  import opened Dict
  import opened JsonText
  import opened JsonNumber
  import opened JsonSyntax
  import opened JsonFlatten
  import opened JsonParse
  import opened JsonTree
  import opened JsonPaths
  import opened JsonNodes
  import opened JsonRoundTrip
  import opened JsonInverse

  /** What a caller can check before printing: 1 to 64 non-empty segments, no later one like an index, no key leading another. */
  ghost predicate Printable(m: map<Key, Value>) {
    && (forall k :: k in m ==> KeyShape(k) && Dots(k) < JSON_MAX_DEPTH)
    && (forall k1, k2 :: k1 in m && k2 in m ==> !(k1 + [DOT] <= k2))
  }

  ghost predicate AllStorable(m: map<Key, Value>) {
    forall k :: k in m ==> Storable(m[k])
  }

  ghost function NormalMap(m: map<Key, Value>): map<Key, Value>
    requires AllStorable(m)
  {
    map k | k in m :: Normal(m[k])
  }

  /** Reading the text printed for the entries in this order. */
  ghost function ReadBack(es: seq<(Key, Value)>, dtoa: Dtoa, tod: Strtod): Option<map<Key, Value>> {
    FlatText(Dump(Build(es, dtoa)), tod)
  }

  /** The visits of the root object. */
  ghost function RootVisits(root: Node, tod: Strtod): seq<Visit> {
    [Visit([], None)] + AsVisits(WalkKids(root.kids, []), tod)
  }

  lemma ReadBackIs(es: seq<(Key, Value)>, dtoa: Dtoa, tod: Strtod)
    requires forall i :: 0 <= i < |es| ==> Storable(es[i].1)
    ensures var root := Build(es, dtoa);
      Tidy(root, dtoa)
      && ReadBack(es, dtoa, tod)
         == if Height(root) <= JSON_MAX_DEPTH then Run(map[], RootVisits(root, tod)) else None
  {
    hide ParseValue, Dump, Build, Run, AsVisits, WalkKids, AstKids, Height;
    var root := Build(es, dtoa);
    TidyBuild(es, dtoa);
    ParseOfDump(root, dtoa, [], 0, tod);
    assert Dump(root) + [] == Dump(root);
    VisitsOfKidsAreWalk(root.kids, [], tod);
    assert Join([]) == [];
  }

  // ----- The result, leaf by leaf -----

  lemma {:induction false} LeavesAre(vs: seq<Visit>, x: (CStr, Value))
    ensures x in Leaves(vs) <==> Visit(x.0, Some(x.1)) in vs
  {
    if vs != [] {
      LeavesAre(vs[1..], x);
      assert vs == [vs[0]] + vs[1..];
    }
  }

  /** Every leaf of the tree is an entry of the result. */
  lemma LeafIsRead(es: seq<(Key, Value)>, dtoa: Dtoa, tod: Strtod, m: map<Key, Value>, p: seq<CStr>)
    requires forall i :: 0 <= i < |es| ==> Storable(es[i].1)
    requires ReadBack(es, dtoa, tod) == Some(m)
    requires p != [] && Get(Build(es, dtoa), p).Some? && IsLeaf(Get(Build(es, dtoa), p).value)
    ensures Join(p) in m && m[Join(p)] == TextValue(Get(Build(es, dtoa), p).value.value.value, tod)
  {
    hide Build, Join, Run, TextValue, WalkKids, Tidy, Height;
    var root := Build(es, dtoa);
    var c := Get(root, p).value;
    ReadBackIs(es, dtoa, tod);
    WalkComplete(root.kids, [], p, c);
    assert [] + p == p;
    var vs := RootVisits(root, tod);
    RunMeaning(map[], vs);
    var ws := WalkKids(root.kids, []);
    var i :| 0 <= i < |ws| && ws[i] == (p, c);
    assert vs[i + 1] == AsVisit(ws[i], tod);
    LeavesAre(vs, (Join(p), TextValue(c.value.value, tod)));
  }

  /** Every entry of the result is a leaf of the tree. */
  lemma ReadIsLeaf(es: seq<(Key, Value)>, dtoa: Dtoa, tod: Strtod, m: map<Key, Value>, k: Key) returns (p: seq<CStr>)
    requires forall i :: 0 <= i < |es| ==> Storable(es[i].1)
    requires ReadBack(es, dtoa, tod) == Some(m) && k in m
    ensures p != [] && Join(p) == k && AreSegments(p) && |p| <= JSON_MAX_DEPTH
    ensures Get(Build(es, dtoa), p).Some? && IsLeaf(Get(Build(es, dtoa), p).value)
  {
    hide Build, Join, Run, TextValue, Get, WalkKids, Tidy, Height, AreSegments;
    var root := Build(es, dtoa);
    ReadBackIs(es, dtoa, tod);
    var vs := RootVisits(root, tod);
    var ws := WalkKids(root.kids, []);
    RunMeaning(map[], vs);
    var leaves := Leaves(vs);
    var j :| 0 <= j < |leaves| && leaves[j].0 == k;
    LeavesAre(vs, leaves[j]);
    var i :| 0 <= i < |vs| && vs[i] == Visit(k, Some(leaves[j].1));
    assert vs[i] == AsVisit(ws[i - 1], tod);
    p := ws[i - 1].0;
    WalkedNode(root, dtoa, ws[i - 1]);
  }

  lemma WalkedNode(root: Node, dtoa: Dtoa, w: (seq<CStr>, Node))
    requires Tidy(root, dtoa) && w in WalkKids(root.kids, [])
    ensures w.0 != [] && Get(root, w.0) == Some(w.1)
    ensures AreSegments(w.0) && |w.0| <= Height(root)
  {
    WalkSound(root.kids, [], dtoa);
    assert Under(root.kids, [], w);
    assert w.0[0..] == w.0;
    HeightBounds(root.kids, w.0);
    GetSegments(root, w.0, dtoa);
  }

  // ----- Sufficiency -----

  lemma EntryAt(es: seq<(Key, Value)>, m: map<Key, Value>, k: Key) returns (i: nat)
    requires Lists(es, m) && k in m
    ensures i < |es| && es[i].0 == k && es[i].1 == m[k]
  {
    var j :| 0 <= j < |es| && es[j].0 == k;
    i := j;
  }

  /** For a printable dictionary, each key's segments lead to a leaf with the text of its value. */
  lemma KeyIsLeaf(es: seq<(Key, Value)>, m: map<Key, Value>, dtoa: Dtoa, k: Key)
    requires Lists(es, m) && Printable(m) && k in m
    ensures Tokens(k) != [] && Join(Tokens(k)) == k
    ensures var c := Get(Build(es, dtoa), Tokens(k));
      c.Some? && IsLeaf(c.value) && c.value.value == Some(TextOf(m[k], dtoa))
  {
    hide Build, Tokens, Join, TextOf;
    var root := Build(es, dtoa);
    var p := Tokens(k);
    var i := EntryAt(es, m, k);
    JoinOfTokens(k);
    TextOfBuild(es, dtoa, p);
    var j :| 0 <= j < |es| && Tokens(es[j].0) == p && TextAt(root, p) == Some(TextOf(es[j].1, dtoa));
    JoinOfTokens(es[j].0);
    assert es[j].0 == k;
    KeyHasNoKids(es, m, dtoa, k, Get(root, p).value);
  }

  lemma KeyHasNoKids(es: seq<(Key, Value)>, m: map<Key, Value>, dtoa: Dtoa, k: Key, c: Node)
    requires Lists(es, m) && Printable(m) && k in m
    requires Get(Build(es, dtoa), Tokens(k)) == Some(c)
    ensures c.kids == []
  {
    hide Build, Tokens, Join;
    if c.kids != [] {
      var p := Tokens(k);
      var x := c.kids[0].key;
      GetConcat(Build(es, dtoa), p, [x]);
      assert Get(c, [x]) == Some(c.kids[0]);
      GetOfBuild(es, dtoa, p + [x]);
      var j :| 0 <= j < |es| && p + [x] <= Tokens(es[j].0);
      assert p <= p + [x];
      KeyPrefixIff(k, es[j].0);
    }
  }

  /** Every node of a printable dictionary's tree is on the way to a key, so its path is good and short. */
  lemma NodePath(es: seq<(Key, Value)>, m: map<Key, Value>, dtoa: Dtoa, p: seq<CStr>)
    requires Lists(es, m) && Printable(m)
    requires p != [] && Get(Build(es, dtoa), p).Some?
    ensures GoodPath(p) && |p| <= JSON_MAX_DEPTH
  {
    hide Build, Tokens, Join;
    GetOfBuild(es, dtoa, p);
    var i :| 0 <= i < |es| && p <= Tokens(es[i].0);
    JoinOfTokens(es[i].0);
    TokensCount(es[i].0);
    assert forall j :: 0 <= j < |p| ==> p[j] == Tokens(es[i].0)[j];
  }

  lemma PrintableReads(es: seq<(Key, Value)>, m: map<Key, Value>, dtoa: Dtoa, tod: Strtod)
    requires Lists(es, m) && Printable(m) && AllStorable(m)
    ensures ReadBack(es, dtoa, tod).Some?
  {
    hide Build, Join, Run, TextValue, Printable, Lists, Height;
    assert forall i :: 0 <= i < |es| ==> Storable(es[i].1) by { ListsStorable(es, m); }
    ReadBackIs(es, dtoa, tod);
    var root := Build(es, dtoa);
    PrintableHeight(es, m, dtoa);
    var vs := RootVisits(root, tod);
    PrintableNoClash(es, m, dtoa, tod);
    RunMeaning(map[], vs);
  }

  lemma ListsStorable(es: seq<(Key, Value)>, m: map<Key, Value>)
    requires Lists(es, m) && AllStorable(m)
    ensures forall i :: 0 <= i < |es| ==> Storable(es[i].1)
  {
    forall i | 0 <= i < |es| ensures Storable(es[i].1) {
      assert m[es[i].0] == es[i].1;
    }
  }

  lemma PrintableHeight(es: seq<(Key, Value)>, m: map<Key, Value>, dtoa: Dtoa)
    requires Lists(es, m) && Printable(m) && Tidy(Build(es, dtoa), dtoa)
    ensures Height(Build(es, dtoa)) <= JSON_MAX_DEPTH
  {
    hide Build, Printable, Lists;
    var root := Build(es, dtoa);
    if root.kids != [] {
      var q := HeightAttained(root.kids);
      GetInAnyIs(root.kids, q, dtoa);
      NodePath(es, m, dtoa, q);
    }
  }

  lemma PrintableNoClash(es: seq<(Key, Value)>, m: map<Key, Value>, dtoa: Dtoa, tod: Strtod)
    requires Lists(es, m) && Printable(m) && Tidy(Build(es, dtoa), dtoa)
    ensures NoClash(map[], RootVisits(Build(es, dtoa), tod))
  {
    hide Build, Join, TextValue, Printable, Lists, GoodPath;
    var root := Build(es, dtoa);
    var ws := WalkKids(root.kids, []);
    var vs := RootVisits(root, tod);
    WalkDistinct(root.kids, [], dtoa);
    WalkSound(root.kids, [], dtoa);
    forall i, j | 0 <= i < j < |vs| && vs[i].val.Some? ensures vs[j].path != vs[i].path {
      assert vs[i] == AsVisit(ws[i - 1], tod) && vs[j] == AsVisit(ws[j - 1], tod);
      PathOfWalk(es, m, dtoa, ws[i - 1]);
      PathOfWalk(es, m, dtoa, ws[j - 1]);
      TokensOfJoin(ws[i - 1].0);
      TokensOfJoin(ws[j - 1].0);
    }
  }

  lemma PathOfWalk(es: seq<(Key, Value)>, m: map<Key, Value>, dtoa: Dtoa, w: (seq<CStr>, Node))
    requires Lists(es, m) && Printable(m)
    requires Under(Build(es, dtoa).kids, [], w)
    ensures GoodPath(w.0)
  {
    hide Build, GoodPath, Printable, Lists;
    assert w.0[0..] == w.0;
    NodePath(es, m, dtoa, w.0);
  }

  // ----- The theorem -----

  lemma PrintableReadsBack(es: seq<(Key, Value)>, m: map<Key, Value>, dtoa: Dtoa, tod: Strtod)
    requires Lists(es, m) && Printable(m) && AllStorable(m)
    ensures ReadBack(es, dtoa, tod) == Some(NormalMap(m))
  {
    hide Build, Join, Tokens, ReadBack, Normal, TextValue, Printable;
    PrintableReads(es, m, dtoa, tod);
    ListsStorable(es, m);
    var r := ReadBack(es, dtoa, tod).value;
    forall k | k in m ensures k in r && r[k] == Normal(m[k]) {
      KeyIsLeaf(es, m, dtoa, k);
      LeafIsRead(es, dtoa, tod, r, Tokens(k));
      TextValueIs(m[k], dtoa, tod);
    }
    forall k | k in r ensures k in m {
      var p := ReadIsLeaf(es, dtoa, tod, r, k);
      TextOfBuild(es, dtoa, p);
      var j :| 0 <= j < |es| && Tokens(es[j].0) == p && TextAt(Build(es, dtoa), p) == Some(TextOf(es[j].1, dtoa));
      PrintableKey(m, es[j].0);
      JoinOfTokens(es[j].0);
    }
    assert r.Keys == m.Keys;
    assert r == NormalMap(m);
  }

  lemma PrintableKey(m: map<Key, Value>, k: Key)
    requires Printable(m) && k in m
    ensures KeyShape(k)
  {
  }

  /** Whatever the values become, getting the keys back takes a printable dictionary. */
  lemma ReadsBackIsPrintable(es: seq<(Key, Value)>, m: map<Key, Value>, dtoa: Dtoa, tod: Strtod, r: map<Key, Value>)
    requires Lists(es, m) && AllStorable(m)
    requires ReadBack(es, dtoa, tod) == Some(r) && r.Keys == m.Keys
    ensures Printable(m)
  {
    hide Build, Join, Tokens, ReadBack, KeyShape, Normal;
    ListsStorable(es, m);
    assert forall k :: k in m ==> k in r.Keys;
    forall k | k in m ensures KeyShape(k) && Dots(k) < JSON_MAX_DEPTH {
      var p := ReadIsLeaf(es, dtoa, tod, r, k);
      JoinShape(p);
    }
    forall k1, k2 | k1 in m && k2 in m ensures !(k1 + [DOT] <= k2) {
      if k1 + [DOT] <= k2 {
        var p := ReadIsLeaf(es, dtoa, tod, r, k1);
        PrefixHasKids(es, m, dtoa, p, k1, k2);
      }
    }
  }

  lemma PrefixHasKids(es: seq<(Key, Value)>, m: map<Key, Value>, dtoa: Dtoa, p: seq<CStr>, k1: Key, k2: Key)
    requires Lists(es, m) && forall k :: k in m ==> KeyShape(k)
    requires k1 in m && k2 in m && k1 + [DOT] <= k2
    requires Join(p) == k1 && TextAt(Build(es, dtoa), p).Some?
    ensures Get(Build(es, dtoa), p).value.kids != []
  {
    hide Build, Join, Tokens, KeyShape;
    var root := Build(es, dtoa);
    TextOfBuild(es, dtoa, p);
    var j :| 0 <= j < |es| && Tokens(es[j].0) == p && TextAt(root, p) == Some(TextOf(es[j].1, dtoa));
    JoinOfTokens(es[j].0);
    KeyPrefixIff(k1, k2);
    var i := EntryAt(es, m, k2);
    GetOfBuild(es, dtoa, Tokens(k2));
    var rest := Tokens(k2)[|p|..];
    assert Tokens(k2) == p + rest;
    GetConcat(root, p, rest);
  }

  /**
   For every dictionary of values without floating point, in whatever order its
   table lists them: the text reads back as the dictionary, each value in its
   normal form, if and only if the dictionary is printable.
   */
  lemma RoundTripIff(es: seq<(Key, Value)>, m: map<Key, Value>, dtoa: Dtoa, tod: Strtod)
    requires Lists(es, m) && AllStorable(m)
    ensures ReadBack(es, dtoa, tod) == Some(NormalMap(m)) <==> Printable(m)
  {
    if Printable(m) {
      PrintableReadsBack(es, m, dtoa, tod);
    }
    if ReadBack(es, dtoa, tod) == Some(NormalMap(m)) {
      ReadsBackIsPrintable(es, m, dtoa, tod, NormalMap(m));
    }
  }

  /** A value of the type the reader gives its text: an integer in the narrowest type, no null string, no character, no pointer. */
  predicate Plain(v: Value) {
    match v
    case NullV => true
    case Bool(_) => true
    case Str(s) => s.Some?
    case Int(_) => true
    case Long(i) => !(INT_MIN <= i <= INT_MAX)
    case ULong(i) => i > LLONG_MAX
    case _ => false
  }

  lemma NormalIffPlain(v: Value)
    requires Storable(v)
    ensures Normal(v) == v <==> Plain(v)
  {
  }

  lemma NormalMapIffPlain(m: map<Key, Value>)
    requires AllStorable(m)
    ensures NormalMap(m) == m <==> forall k :: k in m ==> Plain(m[k])
  {
    hide Normal, Plain, Storable;
    forall k | k in m ensures Normal(m[k]) == m[k] <==> Plain(m[k]) {
      NormalIffPlain(m[k]);
    }
    if NormalMap(m) == m {
      forall k | k in m ensures Plain(m[k]) {
        assert NormalMap(m)[k] == Normal(m[k]);
      }
    }
  }

  /** The text reads back as the very dictionary if and only if the keys are printable and every value has the type its text is read as. */
  lemma IdentityIff(es: seq<(Key, Value)>, m: map<Key, Value>, dtoa: Dtoa, tod: Strtod)
    requires Lists(es, m) && AllStorable(m)
    ensures ReadBack(es, dtoa, tod) == Some(m) <==> Printable(m) && forall k :: k in m ==> Plain(m[k])
  {
    hide ReadBack, Printable, NormalMap, Plain;
    NormalMapIffPlain(m);
    RoundTripIff(es, m, dtoa, tod);
    if ReadBack(es, dtoa, tod) == Some(m) {
      ReadsBackIsPrintable(es, m, dtoa, tod, m);
    }
  }

  /** With only strings, booleans, nulls and ints, the normal form is the dictionary itself. */
  lemma NormalMapIsIdentity(m: map<Key, Value>)
    requires AllStorable(m)
    requires forall k :: k in m ==> m[k].NullV? || m[k].Bool? || m[k].Int? || (m[k].Str? && m[k].s.Some?)
    ensures NormalMap(m) == m
  {
    forall k | k in m ensures Normal(m[k]) == m[k] {
      NormalIsIdentity(m[k]);
    }
  }

  // ----- The two entry points together -----

  lemma {:induction false} DumpNulFree(n: Node)
    ensures NulFree(Dump(n))
    decreases n, 0
  {
    DumpKidsNulFree(n.kids);
    NulFreeConcat([OPEN_BRACE] + DumpKids(n.kids), [CLOSE_BRACE]);
    NulFreeConcat([OPEN_BRACE], DumpKids(n.kids));
  }

  lemma {:induction false} DumpKidsNulFree(kids: seq<Node>)
    ensures NulFree(DumpKids(kids))
    decreases kids
  {
    if kids != [] {
      var c := kids[0];
      EscapeBodyNulFree(c.key);
      NulFreeConcat([QUOTE] + EscapeBody(c.key), [QUOTE]);
      NulFreeConcat([QUOTE], EscapeBody(c.key));
      hide Escaped, DumpKids;
      if !IsLeaf(c) {
        DumpNulFree(c);
      }
      DumpKidsNulFree(kids[1..]);
      DumpKidsParts(kids);
      NulFreeConcat(Escaped(c.key), [COLON]);
      NulFreeConcat(Escaped(c.key) + [COLON], DumpValue(c));
      NulFreeConcat([COMMA], DumpKids(kids[1..]));
      NulFreeConcat(Escaped(c.key) + [COLON] + DumpValue(c), DumpMore(kids[1..]));
    }
  }

  /** Print a dictionary and read the text into a new one. */
  method PrintAndRead(d: Dict, dtoa: Dtoa, tod: Strtod) returns (back: Dict?)
    requires d.Valid() && AllStorable(d.Map())
    ensures back != null && back.Map() == NormalMap(d.Map()) <==> Printable(d.Map())
    ensures back != null && back.Map() == d.Map() <==> Printable(d.Map()) && forall k :: k in d.Map() ==> Plain(d.Map()[k])
  {
    hide Plain, Build, Dump, FlatText, Printable, NormalMap, Lists;
    var out, es := Dict2Json(d, dtoa);
    DumpNulFree(Build(es, dtoa));
    var text: CStr := out.value;
    back := Json2Dict(Some(text), d.H, tod);
    RoundTripIff(es, d.Map(), dtoa, tod);
    IdentityIff(es, d.Map(), dtoa, tod);
  }
}
