/**
 Flattening: every leaf of a JSON tree becomes one dictionary entry under a
 dotted path, and a path that is taken already rejects the text.
 */
module JsonFlatten {
  import opened Bytes
  import opened DictTable
  import opened JsonText
  import opened JsonNumber
  import opened JsonSyntax

  const DOT: Byte := 46

  /** The path of a child: an array index sticks to its parent, a key follows a dot. */
  function PathAppend(base: CStr, suffix: CStr): CStr {
    if suffix != [] && suffix[0] == OPEN_BRACKET then NulFreeConcat(base, suffix); base + suffix
    else if base != [] then NulFreeConcat(base, [DOT]); NulFreeConcat(base + [DOT], suffix); base + [DOT] + suffix
    else suffix
  }

  function IndexText(i: nat): CStr {
    NatTextIs(i);
    [OPEN_BRACKET] + NatText(i) + [CLOSE_BRACKET]
  }

  /** The parser coming to a path: with a value at a leaf, without one at an object or array. */
  datatype Visit = Visit(path: CStr, val: Option<Value>)

  ghost function Visits(path: CStr, j: Json): seq<Visit>
    decreases j
  {
    match j
    case Leaf(v) => [Visit(path, Some(v))]
    case Obj(ms) => [Visit(path, None)] + VisitsOfMembers(path, ms)
    case Arr(es) => [Visit(path, None)] + VisitsOfElems(path, es, 0)
  }

  ghost function VisitsOfMembers(path: CStr, ms: seq<(CStr, Json)>): seq<Visit>
    decreases ms
  {
    if ms == [] then []
    else
      assert (ms decreases to ms[0]);
      var (key, v) := ms[0];
      Visits(PathAppend(path, key), v) + VisitsOfMembers(path, ms[1..])
  }

  ghost function VisitsOfElems(path: CStr, es: seq<Json>, i: nat): seq<Visit>
    decreases es
  {
    if es == [] then [] else Visits(PathAppend(path, IndexText(i)), es[0]) + VisitsOfElems(path, es[1..], i + 1)
  }

  /** Enter the leaves in order; coming to a path that already has an entry rejects. */
  ghost function Run(m: map<Key, Value>, vs: seq<Visit>): Option<map<Key, Value>>
    decreases |vs|
  {
    if vs == [] then Some(m)
    else if vs[0].path in m then None
    else Run(if vs[0].val.Some? then m[vs[0].path := vs[0].val.value] else m, vs[1..])
  }

  lemma {:induction false} RunConcat(m: map<Key, Value>, a: seq<Visit>, b: seq<Visit>)
    ensures Run(m, a + b) == match Run(m, a) case None => None case Some(m1) => Run(m1, b)
    decreases |a|
  {
    if a == [] {
      assert a + b == b;
    } else {
      assert (a + b)[1..] == a[1..] + b;
      if a[0].path !in m {
        RunConcat(if a[0].val.Some? then m[a[0].path := a[0].val.value] else m, a[1..], b);
      }
    }
  }

  /** No visit comes to a path of `m` or of an earlier leaf. */
  ghost predicate NoClash(m: map<Key, Value>, vs: seq<Visit>) {
    && (forall i :: 0 <= i < |vs| ==> vs[i].path !in m)
    && (forall i, j :: 0 <= i < j < |vs| && vs[i].val.Some? ==> vs[j].path != vs[i].path)
  }

  /** The leaves, as entries. */
  ghost function Leaves(vs: seq<Visit>): seq<(CStr, Value)> {
    if vs == [] then []
    else (if vs[0].val.Some? then [(vs[0].path, vs[0].val.value)] else []) + Leaves(vs[1..])
  }

  /** `m1` is `m0` and exactly one entry for each leaf, nothing overwritten. */
  ghost predicate Entered(m0: map<Key, Value>, m1: map<Key, Value>, leaves: seq<(CStr, Value)>) {
    && (forall k :: k in m0 ==> k in m1 && m1[k] == m0[k])
    && (forall i :: 0 <= i < |leaves| ==> leaves[i].0 !in m0 && leaves[i].0 in m1 && m1[leaves[i].0] == leaves[i].1)
    && (forall k :: k in m1 && k !in m0 ==> exists i :: 0 <= i < |leaves| && leaves[i].0 == k)
    && (forall i, j :: 0 <= i < j < |leaves| ==> leaves[i].0 != leaves[j].0)
    && |m1| == |m0| + |leaves|
  }

  /** Flattening succeeds exactly when no path clashes, and then enters one entry per leaf. */
  lemma {:induction false} RunMeaning(m: map<Key, Value>, vs: seq<Visit>)
    ensures Run(m, vs).Some? <==> NoClash(m, vs)
    ensures Run(m, vs).Some? ==> Entered(m, Run(m, vs).value, Leaves(vs))
    decreases |vs|
  {
    if vs == [] {
      assert Entered(m, m, []);
    } else if vs[0].path in m {
      assert !NoClash(m, vs);
    } else {
      hide NoClash, Entered;
      var v := vs[0];
      RunMeaning(if v.val.Some? then m[v.path := v.val.value] else m, vs[1..]);
      NoClashStep(m, vs);
      if v.val.None? {
        assert Leaves(vs) == Leaves(vs[1..]);
      } else if Run(m, vs).Some? {
        EnteredStep(m, v.path, v.val.value, Run(m, vs).value, Leaves(vs[1..]));
      }
    }
  }

  lemma NoClashStep(m: map<Key, Value>, vs: seq<Visit>)
    requires vs != [] && vs[0].path !in m
    ensures NoClash(m, vs) <==> NoClash(if vs[0].val.Some? then m[vs[0].path := vs[0].val.value] else m, vs[1..])
  {
    var m' := if vs[0].val.Some? then m[vs[0].path := vs[0].val.value] else m;
    if NoClash(m, vs) {
      forall i | 0 <= i < |vs[1..]| ensures vs[1..][i].path !in m' {
        assert vs[1..][i] == vs[i + 1];
      }
    }
    if NoClash(m', vs[1..]) {
      forall i | 0 <= i < |vs| ensures vs[i].path !in m {
        assert i > 0 ==> vs[i] == vs[1..][i - 1];
      }
      forall i, j | 0 <= i < j < |vs| && vs[i].val.Some? ensures vs[j].path != vs[i].path {
        assert vs[j] == vs[1..][j - 1];
        assert i > 0 ==> vs[i] == vs[1..][i - 1];
      }
    }
  }

  lemma OneMoreEntry(m: map<Key, Value>, k: CStr, v: Value)
    requires k !in m
    ensures |m[k := v]| == |m| + 1
  {
    assert m[k := v].Keys == m.Keys + {k};
  }

  lemma EnteredStep(m: map<Key, Value>, k: CStr, v: Value, m1: map<Key, Value>, leaves: seq<(CStr, Value)>)
    requires k !in m && Entered(m[k := v], m1, leaves)
    ensures Entered(m, m1, [(k, v)] + leaves)
  {
    var all := [(k, v)] + leaves;
    OneMoreEntry(m, k, v);
    forall i | 0 <= i < |all| ensures all[i].0 !in m && all[i].0 in m1 && m1[all[i].0] == all[i].1 {
      assert i > 0 ==> all[i] == leaves[i - 1];
    }
    forall x | x in m1 && x !in m ensures exists i :: 0 <= i < |all| && all[i].0 == x {
      if x == k {
        assert all[0].0 == x;
      } else {
        var i :| 0 <= i < |leaves| && leaves[i].0 == x;
        assert all[i + 1].0 == x;
      }
    }
  }

  // ----- Reading straight into a dictionary: grammar first, flattening after -----

  ghost function FlatValue(s: seq<Byte>, path: CStr, m: map<Key, Value>, depth: nat, tod: Strtod)
    : Option<(seq<Byte>, map<Key, Value>)>
  {
    match ParseValue(s, depth, tod)
    case None => None
    case Some((j, r)) => Rest(r, Run(m, Visits(path, j)))
  }

  ghost function Rest(r: seq<Byte>, m: Option<map<Key, Value>>): Option<(seq<Byte>, map<Key, Value>)> {
    match m case None => None case Some(m1) => Some((r, m1))
  }

  ghost function FlatMembers(s: seq<Byte>, seen: set<CStr>, path: CStr, m: map<Key, Value>, depth: nat, tod: Strtod)
    : Option<(seq<Byte>, map<Key, Value>)>
  {
    match ParseMembers(s, seen, depth, tod)
    case None => None
    case Some((ms, r)) => Rest(r, Run(m, VisitsOfMembers(path, ms)))
  }

  ghost function FlatElems(s: seq<Byte>, i: nat, path: CStr, m: map<Key, Value>, depth: nat, tod: Strtod)
    : Option<(seq<Byte>, map<Key, Value>)>
  {
    match ParseElems(s, depth, tod)
    case None => None
    case Some((es, r)) => Rest(r, Run(m, VisitsOfElems(path, es, i)))
  }

  /** What comes behind a member's value: the end of the object, or the members that follow. */
  ghost function FlatMembersMore(r2: seq<Byte>, seen: set<CStr>, path: CStr, m: map<Key, Value>, depth: nat, tod: Strtod)
    : Option<(seq<Byte>, map<Key, Value>)>
  {
    var r3 := SkipWs(r2);
    if Starts(r3, CLOSE_BRACE) then Some((r3[1..], m))
    else if !Starts(r3, COMMA) || Starts(SkipWs(r3[1..]), CLOSE_BRACE) then None
    else FlatMembers(SkipWs(r3[1..]), seen, path, m, depth, tod)
  }

  ghost function FlatElemsMore(r2: seq<Byte>, i: nat, path: CStr, m: map<Key, Value>, depth: nat, tod: Strtod)
    : Option<(seq<Byte>, map<Key, Value>)>
  {
    var r3 := SkipWs(r2);
    if Starts(r3, CLOSE_BRACKET) then Some((r3[1..], m))
    else if !Starts(r3, COMMA) || Starts(SkipWs(r3[1..]), CLOSE_BRACKET) then None
    else FlatElems(SkipWs(r3[1..]), i, path, m, depth, tod)
  }

  /** Reading members one at a time, entering leaves on the way, is the same as reading all and flattening then. */
  lemma FlatMembersStep(s: seq<Byte>, seen: set<CStr>, path: CStr, m: map<Key, Value>, depth: nat, tod: Strtod)
    ensures FlatMembers(s, seen, path, m, depth, tod)
            == match ParseStr(s)
               case None => None
               case Some((key, r0)) =>
                 var r1 := SkipWs(r0);
                 if key in seen || !Starts(r1, COLON) then None
                 else match FlatValue(r1[1..], PathAppend(path, key), m, depth + 1, tod)
                   case None => None
                   case Some((r2, m1)) => FlatMembersMore(r2, seen + {key}, path, m1, depth, tod)
  {
    hide Run, Visits, SkipWs, PathAppend;
    match ParseStr(s) {
      case None =>
      case Some((key, r0)) =>
        var r1 := SkipWs(r0);
        if key !in seen && Starts(r1, COLON) {
          match ParseValue(r1[1..], depth + 1, tod) {
            case None =>
            case Some((v, r2)) =>
              var r4 := if SkipWs(r2) == [] then [] else SkipWs(SkipWs(r2)[1..]);
              var more := ParseMembers(r4, seen + {key}, depth, tod);
              var ms := if more.Some? then more.value.0 else [];
              MembersVisits(path, m, key, v, ms);
              MembersVisits(path, m, key, v, []);
              RunNothing(Run(m, Visits(PathAppend(path, key), v)));
          }
        }
    }
  }

  lemma MembersVisits(path: CStr, m: map<Key, Value>, key: CStr, v: Json, ms: seq<(CStr, Json)>)
    ensures Run(m, VisitsOfMembers(path, [(key, v)] + ms))
            == match Run(m, Visits(PathAppend(path, key), v)) case None => None case Some(m1) => Run(m1, VisitsOfMembers(path, ms))
    ensures [(key, v)] + [] == [(key, v)]
  {
    assert ([(key, v)] + ms)[1..] == ms;
    RunConcat(m, Visits(PathAppend(path, key), v), VisitsOfMembers(path, ms));
  }

  lemma RunNothing(m: Option<map<Key, Value>>)
    ensures m.Some? ==> Run(m.value, []) == m
  {
  }

  lemma FlatElemsStep(s: seq<Byte>, i: nat, path: CStr, m: map<Key, Value>, depth: nat, tod: Strtod)
    ensures FlatElems(s, i, path, m, depth, tod)
            == match FlatValue(s, PathAppend(path, IndexText(i)), m, depth + 1, tod)
               case None => None
               case Some((r2, m1)) => FlatElemsMore(r2, i + 1, path, m1, depth, tod)
  {
    hide Run, Visits, SkipWs, PathAppend, IndexText;
    match ParseValue(s, depth + 1, tod) {
      case None =>
      case Some((v, r2)) =>
        var r4 := if SkipWs(r2) == [] then [] else SkipWs(SkipWs(r2)[1..]);
        var more := ParseElems(r4, depth, tod);
        var es := if more.Some? then more.value.0 else [];
        ElemsVisits(path, m, i, v, es);
        ElemsVisits(path, m, i, v, []);
        RunNothing(Run(m, Visits(PathAppend(path, IndexText(i)), v)));
    }
  }

  lemma ElemsVisits(path: CStr, m: map<Key, Value>, i: nat, v: Json, es: seq<Json>)
    ensures Run(m, VisitsOfElems(path, [v] + es, i))
            == match Run(m, Visits(PathAppend(path, IndexText(i)), v)) case None => None case Some(m1) => Run(m1, VisitsOfElems(path, es, i + 1))
    ensures [v] + [] == [v]
  {
    assert ([v] + es)[1..] == es;
    RunConcat(m, Visits(PathAppend(path, IndexText(i)), v), VisitsOfElems(path, es, i + 1));
  }

  /** The dictionary a whole text stands for. */
  ghost function FlatText(s: seq<Byte>, tod: Strtod): Option<map<Key, Value>> {
    match ParseText(s, tod) case None => None case Some(j) => Run(map[], Visits([], j))
  }

  /** A text yields a dictionary exactly when it is grammatical and no path clashes; then each leaf has its own entry and there are no others. */
  lemma FlatTextMeaning(s: seq<Byte>, tod: Strtod)
    ensures FlatText(s, tod).Some? <==> ParseText(s, tod).Some? && NoClash(map[], Visits([], ParseText(s, tod).value))
    ensures FlatText(s, tod).Some? ==>
              var m, leaves := FlatText(s, tod).value, Leaves(Visits([], ParseText(s, tod).value));
              && |m| == |leaves|
              && (forall i, j :: 0 <= i < j < |leaves| ==> leaves[i].0 != leaves[j].0)
              && (forall i :: 0 <= i < |leaves| ==> leaves[i].0 in m && m[leaves[i].0] == leaves[i].1)
              && (forall k :: k in m ==> exists i :: 0 <= i < |leaves| && leaves[i].0 == k)
  {
    if ParseText(s, tod).Some? {
      RunMeaning(map[], Visits([], ParseText(s, tod).value));
    }
  }
}
