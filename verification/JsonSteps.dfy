/**
 What the keys of a flattened text mean: each spells the steps that lead from the
 root to one leaf.
 */
module JsonSteps {
  import opened Bytes
  import opened DictTable
  import opened JsonText
  import opened JsonNumber
  import opened JsonSyntax
  import opened JsonFlatten

  /** One step down a tree: into a member of an object or an element of an array. */
  datatype Step = Member(key: CStr) | Element(index: nat)

  ghost predicate LeadsTo(j: Json, steps: seq<Step>, v: Value)
    decreases |steps|
  {
    if steps == [] then j == Leaf(v)
    else match steps[0]
      case Member(key) => j.Obj? && exists i :: 0 <= i < |j.members| && j.members[i].0 == key && LeadsTo(j.members[i].1, steps[1..], v)
      case Element(i) => j.Arr? && i < |j.elems| && LeadsTo(j.elems[i], steps[1..], v)
  }

  /** A decimal numeral without superfluous zeros. */
  ghost predicate Numeral(t: seq<Byte>, n: nat) {
    && t != [] && AllDigits(t) && DigitsValue(t) == n
    && (t[0] == 48 ==> n == 0 && |t| == 1)
  }

  /** How one step lengthens a key: [n] for an element; .name for a member, without the dot at the root, and just the name when it opens with a bracket. */
  ghost predicate Lengthens(base: CStr, step: Step, key: CStr) {
    match step
    case Element(i) => exists t: seq<Byte> :: Numeral(t, i) && key == base + [91] + t + [93]
    case Member(name) =>
      if base == [] || (name != [] && name[0] == 91) then key == base + name
      else key == base + [46] + name
  }

  ghost predicate Spells(base: CStr, steps: seq<Step>, key: CStr)
    decreases |steps|
  {
    if steps == [] then key == base
    else exists next: CStr :: Lengthens(base, steps[0], next) && Spells(next, steps[1..], key)
  }

  /** The entries are exactly the leaves, each under the key that its steps spell. */
  ghost predicate Spelled(j: Json, m: map<Key, Value>) {
    && (forall k: Key :: k in m ==> exists steps :: LeadsTo(j, steps, m[k]) && Spells([], steps, k))
    && (forall steps: seq<Step>, k: Key, v: Value :: LeadsTo(j, steps, v) && Spells([], steps, k) ==> k in m && m[k] == v)
    && (forall steps: seq<Step>, v: Value :: LeadsTo(j, steps, v) ==> exists k: Key :: Spells([], steps, k))
  }

  // ----- One step is spelled one way -----

  lemma {:induction false} NumeralIsNatText(t: seq<Byte>, n: nat)
    requires Numeral(t, n)
    ensures t == NatText(n)
    decreases |t|
  {
    var u := t[..|t| - 1];
    if u != [] {
      DigitsGrow(u);
      NumeralIsNatText(u, DigitsValue(u));
      assert t == u + [t[|t| - 1]];
      LastDigit(DigitsValue(u), t[|t| - 1]);
    } else {
      assert t == [t[0]] && DigitsValue(u) == 0;
      assert IsDigit(t[0]) && n == t[0] - 48;
    }
  }

  lemma LastDigit(a: nat, c: Byte)
    requires IsDigit(c)
    ensures (10 * a + (c - 48)) / 10 == a && (10 * a + (c - 48)) % 10 == c - 48
  {
  }

  lemma {:induction false} DigitsGrow(t: seq<Byte>)
    requires t != [] && AllDigits(t)
    ensures DigitsValue(t) >= 0 && (t[0] != 48 ==> DigitsValue(t) > 0)
  {
    if |t| > 1 {
      DigitsGrow(t[..|t| - 1]);
    } else {
      assert DigitsValue(t[..0]) == 0;
    }
  }

  lemma LengthenedByElement(base: CStr, i: nat, key: CStr)
    ensures Lengthens(base, Element(i), key) <==> key == PathAppend(base, IndexText(i))
  {
    hide DigitsValue, NatText;
    NatTextIs(i);
    assert IndexText(i)[0] == 91;
    assert base + ([91] + NatText(i) + [93]) == base + [91] + NatText(i) + [93];
    if Lengthens(base, Element(i), key) {
      var t: seq<Byte> :| Numeral(t, i) && key == base + [91] + t + [93];
      NumeralIsNatText(t, i);
    }
    if key == PathAppend(base, IndexText(i)) {
      NumeralOfNatText(i);
    }
  }

  lemma NumeralOfNatText(n: nat)
    ensures Numeral(NatText(n), n)
  {
    NatTextIs(n);
  }

  lemma LengthenedByMember(base: CStr, name: CStr, key: CStr)
    ensures Lengthens(base, Member(name), key) <==> key == PathAppend(base, name)
  {
  }

  lemma {:induction false} EveryPathIsSpelled(base: CStr, steps: seq<Step>)
    ensures exists key: CStr :: Spells(base, steps, key)
    decreases |steps|
  {
    hide Lengthens, PathAppend, IndexText;
    if steps == [] {
      assert Spells(base, steps, base);
    } else {
      var next := match steps[0] case Member(name) => PathAppend(base, name) case Element(i) => PathAppend(base, IndexText(i));
      match steps[0] {
        case Member(name) => LengthenedByMember(base, name, next);
        case Element(i) => LengthenedByElement(base, i, next);
      }
      EveryPathIsSpelled(next, steps[1..]);
      var key: CStr :| Spells(next, steps[1..], key);
      assert Spells(base, steps, key);
    }
  }

  // ----- Visits are steps -----

  /** A leaf that some steps lead to is visited under the key they spell. */
  lemma {:induction false} StepsAreVisited(path: CStr, j: Json, steps: seq<Step>, key: CStr, v: Value)
    requires LeadsTo(j, steps, v) && Spells(path, steps, key)
    ensures Visit(key, Some(v)) in Visits(path, j)
    decreases |steps|
  {
    hide Lengthens, PathAppend, IndexText;
    if steps != [] {
      var next: CStr :| Lengthens(path, steps[0], next) && Spells(next, steps[1..], key);
      match steps[0] {
        case Member(name) =>
          var i :| 0 <= i < |j.members| && j.members[i].0 == name && LeadsTo(j.members[i].1, steps[1..], v);
          LengthenedByMember(path, name, next);
          StepsAreVisited(next, j.members[i].1, steps[1..], key, v);
          MemberVisited(path, j.members, i, Visit(key, Some(v)));
        case Element(i) =>
          LengthenedByElement(path, i, next);
          StepsAreVisited(next, j.elems[i], steps[1..], key, v);
          ElementVisited(path, j.elems, 0, i, Visit(key, Some(v)));
      }
    }
  }

  lemma {:induction false} MemberVisited(path: CStr, ms: seq<(CStr, Json)>, i: nat, x: Visit)
    requires i < |ms| && x in Visits(PathAppend(path, ms[i].0), ms[i].1)
    ensures x in VisitsOfMembers(path, ms)
  {
    hide Visits, PathAppend;
    if i > 0 {
      MemberVisited(path, ms[1..], i - 1, x);
    }
  }

  lemma {:induction false} ElementVisited(path: CStr, es: seq<Json>, from: nat, i: nat, x: Visit)
    requires i < |es| && x in Visits(PathAppend(path, IndexText(from + i)), es[i])
    ensures x in VisitsOfElems(path, es, from)
  {
    hide Visits, PathAppend, IndexText;
    if i > 0 {
      ElementVisited(path, es[1..], from + 1, i - 1, x);
    }
  }

  /** Every leaf that is visited has steps that lead to it and spell its key. */
  lemma {:induction false} VisitsAreSteps(path: CStr, j: Json, x: Visit) returns (steps: seq<Step>)
    requires x in Visits(path, j) && x.val.Some?
    ensures LeadsTo(j, steps, x.val.value) && Spells(path, steps, x.path)
    decreases j
  {
    hide Lengthens, PathAppend, IndexText;
    match j {
      case Leaf(v) =>
        steps := [];
      case Obj(ms) =>
        var i := MemberOfVisit(path, ms, x);
        assert (ms decreases to ms[i]);
        var next := PathAppend(path, ms[i].0);
        var more := VisitsAreSteps(next, ms[i].1, x);
        steps := [Member(ms[i].0)] + more;
        assert steps[1..] == more;
        LengthenedByMember(path, ms[i].0, next);
      case Arr(es) =>
        var i := ElementOfVisit(path, es, 0, x);
        var next := PathAppend(path, IndexText(i));
        var more := VisitsAreSteps(next, es[i], x);
        steps := [Element(i)] + more;
        assert steps[1..] == more;
        LengthenedByElement(path, i, next);
    }
  }

  lemma {:induction false} MemberOfVisit(path: CStr, ms: seq<(CStr, Json)>, x: Visit) returns (i: nat)
    requires x in VisitsOfMembers(path, ms)
    ensures i < |ms| && x in Visits(PathAppend(path, ms[i].0), ms[i].1)
  {
    hide Visits, PathAppend;
    if x in Visits(PathAppend(path, ms[0].0), ms[0].1) {
      i := 0;
    } else {
      var k := MemberOfVisit(path, ms[1..], x);
      i := k + 1;
    }
  }

  lemma {:induction false} ElementOfVisit(path: CStr, es: seq<Json>, from: nat, x: Visit) returns (i: nat)
    requires x in VisitsOfElems(path, es, from)
    ensures i < |es| && x in Visits(PathAppend(path, IndexText(from + i)), es[i])
  {
    hide Visits, PathAppend, IndexText;
    if x in Visits(PathAppend(path, IndexText(from)), es[0]) {
      i := 0;
    } else {
      var k := ElementOfVisit(path, es[1..], from + 1, x);
      i := k + 1;
    }
  }

  // ----- Whole texts -----

  lemma {:induction false} LeafOfVisit(vs: seq<Visit>, x: Visit) returns (i: nat)
    requires x in vs && x.val.Some?
    ensures i < |Leaves(vs)| && Leaves(vs)[i] == (x.path, x.val.value)
  {
    if vs[0] == x {
      i := 0;
    } else {
      var k := LeafOfVisit(vs[1..], x);
      i := if vs[0].val.Some? then k + 1 else k;
    }
  }

  lemma {:induction false} VisitOfLeaf(vs: seq<Visit>, i: nat)
    requires i < |Leaves(vs)|
    ensures Visit(Leaves(vs)[i].0, Some(Leaves(vs)[i].1)) in vs
  {
    if vs != [] {
      if vs[0].val.None? {
        VisitOfLeaf(vs[1..], i);
      } else if i > 0 {
        VisitOfLeaf(vs[1..], i - 1);
      }
    }
  }

  /** The dictionary of an accepted text has an entry for each leaf, under the key that the steps to it spell, and nothing else. */
  lemma KeysAreSteps(s: seq<Byte>, tod: Strtod)
    requires FlatText(s, tod).Some?
    ensures ParseText(s, tod).Some? && Spelled(ParseText(s, tod).value, FlatText(s, tod).value)
  {
    hide FlatText, ParseText, Visits, NoClash, Leaves, LeadsTo, Spells;
    FlatTextMeaning(s, tod);
    var j, m := ParseText(s, tod).value, FlatText(s, tod).value;
    var vs := Visits([], j);
    forall k: Key | k in m ensures exists steps :: LeadsTo(j, steps, m[k]) && Spells([], steps, k) {
      var i :| 0 <= i < |Leaves(vs)| && Leaves(vs)[i].0 == k;
      VisitOfLeaf(vs, i);
      var steps := VisitsAreSteps([], j, Visit(k, Some(m[k])));
    }
    forall steps: seq<Step>, k: Key, v: Value | LeadsTo(j, steps, v) && Spells([], steps, k) ensures k in m && m[k] == v {
      StepsAreVisited([], j, steps, k, v);
      var i := LeafOfVisit(vs, Visit(k, Some(v)));
    }
    forall steps: seq<Step>, v: Value | LeadsTo(j, steps, v) ensures exists k: Key :: Spells([], steps, k) {
      EveryPathIsSpelled([], steps);
    }
  }
}
