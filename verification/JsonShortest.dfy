/**
 The printer wastes nothing: of all texts that read as the tree it prints, its own
 is the shortest, and the members of an object come newest first.
 */
module JsonShortest {
  import opened Bytes
  import opened DictTable
  import opened JsonText
  import opened JsonStrings
  import opened JsonNumber
  import opened JsonSyntax
  import opened JsonSteps
  import opened JsonTree
  import opened JsonNodes
  import opened JsonRoundTrip
  import opened JsonGrammar

  // ----- Values -----

  /** An integer token is the decimal numeral of its value, or minus zero. */
  lemma IntegerTokenIs(t: seq<Byte>)
    requires NumberText(t) && 46 !in t && 69 !in t && 101 !in t
    ensures |t| >= |DecText(DecimalValue(t))|
  {
    hide DigitsValue, NatText, IsExp;
    var i: nat, j: nat, k: nat :| NumberParts(t, i, j, k);
    NoFraction(t, j, k);
    var d := t[i..];
    assert t[i..j] == d;
    IntIsNumeral(d);
    NumeralIsNatText(d, DigitsValue(d));
    assert i == 1 ==> t[1..] == d;
    assert i == 0 ==> t == d;
    IntStarts(d);
  }

  lemma NoFraction(t: seq<Byte>, j: nat, k: nat)
    requires j <= k <= |t| && IsFrac(t[j..k]) && IsExp(t[k..])
    requires 46 !in t && 69 !in t && 101 !in t
    ensures j == |t|
  {
  }

  lemma IntIsNumeral(d: seq<Byte>)
    requires IsInt(d)
    ensures DigitsValue(d) >= 0 && Numeral(d, DigitsValue(d))
  {
    assert AllDigits(d);
    DigitsGrow(d);
    if d[0] == 48 {
      assert d == [48] && d[..0] == [];
    }
  }

  /** No token is shorter than what an integer, a boolean or null is printed as. */
  lemma TokenShortest(t: seq<Byte>, v: Value, tod: Strtod)
    requires TokenMeans(t, v, tod)
    ensures v == NullV ==> |t| == |TEXT_NULL|
    ensures v.Bool? ==> |t| == |if v.b then TEXT_TRUE else TEXT_FALSE|
    ensures v.Int? ==> |t| >= |DecText(v.i)|
    ensures v.Long? ==> |t| >= |DecText(v.l)|
    ensures v.ULong? ==> |t| >= |DecText(v.ul)|
    ensures !v.Str?
  {
    hide DecText, DecimalValue, NumberText;
    if v.Int? || v.Long? || v.ULong? {
      IntegerTokenIs(t);
    }
  }

  /** No way of writing a value is shorter than what it is printed as. */
  lemma ValueShortest(w: Written, v: Value, dtoa: Dtoa, depth: nat, tod: Strtod, rest: seq<Byte>)
    requires Storable(v) && Denotes(w, Leaf(Normal(v)), depth, tod)
    ensures |Text(w, rest)| >= |TextOf(v, dtoa)| + |rest|
  {
    hide DecText, Decode, EscapeBody, TokenMeans, SpellsString;
    match w {
      case Quoted(before, body) =>
        var s := Normal(v).s.value;
        DecodeIff(body, s);
        EscapeIsShortest(body, s);
      case Token(before, t) =>
        TokenShortest(t, Normal(v), tod);
    }
  }

  // ----- Trees -----

  lemma {:induction false} DumpShortest(n: Node, w: Written, dtoa: Dtoa, depth: nat, tod: Strtod, rest: seq<Byte>)
    requires TidyKids(n.kids, dtoa) && Denotes(w, Ast(n, tod), depth, tod)
    ensures |Text(w, rest)| >= |Dump(n)| + |rest|
    decreases n, 0
  {
    hide EntriesText, DumpKids, AstKids;
    AstKidsCount(n.kids, tod);
    match w {
      case EmptyObject(before, inside) => DumpNoKids();
      case Object(before, es) => EntriesShortest(n.kids, es, {}, dtoa, depth, tod, rest);
    }
  }

  lemma {:induction false} AstKidsCount(kids: seq<Node>, tod: Strtod)
    ensures |AstKids(kids, tod)| == |kids|
  {
    if kids != [] {
      AstKidsCount(kids[1..], tod);
    }
  }

  lemma {:induction false} NodeShortest(c: Node, w: Written, dtoa: Dtoa, depth: nat, tod: Strtod, rest: seq<Byte>)
    requires Tidy(c, dtoa) && Denotes(w, AstValue(c, tod), depth, tod)
    ensures |Text(w, rest)| >= |DumpValue(c)| + |rest|
    decreases c, 1
  {
    if IsLeaf(c) {
      var v :| Storable(v) && TextOf(v, dtoa) == c.value.value;
      TextValueIs(v, dtoa, tod);
      ValueShortest(w, v, dtoa, depth, tod, rest);
    } else {
      DumpShortest(c, w, dtoa, depth, tod, rest);
    }
  }

  lemma {:induction false} EntriesShortest(kids: seq<Node>, es: seq<Entry>, seen: set<CStr>, dtoa: Dtoa, depth: nat, tod: Strtod, rest: seq<Byte>)
    requires TidyKids(kids, dtoa) && EntriesDenote(es, AstKids(kids, tod), seen, depth, tod)
    ensures |EntriesText(es, rest)| >= |DumpKids(kids)| + 1 + |rest|
    decreases kids
  {
    hide DumpKids, Text, DumpValue, Denotes, SpellsString, AstValue, Tidy, EscapeBody, Decode;
    AstKidsCount(kids, tod);
    var c, e := kids[0], es[0];
    TidyRest(kids, dtoa);
    DumpKidsParts(kids);
    DecodeIff(e.name, c.key);
    EscapeIsShortest(e.name, c.key);
    var more := if |es| == 1 then [125] + rest else [44] + EntriesText(es[1..], rest);
    NodeShortest(c, e.value, dtoa, depth + 1, tod, e.post + more);
    assert AstKids(kids, tod)[1..] == AstKids(kids[1..], tod);
    if |es| > 1 {
      EntriesShortest(kids[1..], es[1..], seen + {c.key}, dtoa, depth, tod, rest);
    }
  }

  lemma TidyAsKids(n: Node, dtoa: Dtoa)
    requires Tidy(n, dtoa)
    ensures TidyKids(n.kids, dtoa)
  {
  }

  // ----- Dictionaries -----

  /** Of all texts that read as the tree that a dictionary without floating point prints, the printed text is the shortest. */
  lemma PrintIsShortest(es: seq<(Key, Value)>, m: map<Key, Value>, dtoa: Dtoa, tod: Strtod, s: seq<Byte>)
    requires Lists(es, m) && forall k :: k in m ==> Storable(m[k])
    requires ParseText(Dump(Build(es, dtoa)), tod).Some? && ParseText(s, tod) == ParseText(Dump(Build(es, dtoa)), tod)
    ensures |s| >= |Dump(Build(es, dtoa))|
  {
    hide Build, Dump, ParseValue, Denotes, Text, SkipWs, Ast, Storable;
    var n := Build(es, dtoa);
    forall i | 0 <= i < |es| ensures Storable(es[i].1) {
      assert m[es[i].0] == es[i].1;
    }
    TidyBuild(es, dtoa);
    TidyAsKids(n, dtoa);
    ParseOfDump(n, dtoa, [], 0, tod);
    assert Dump(n) + [] == Dump(n);
    var j := ParseText(s, tod).value;
    ReadIff(s, j, tod);
    var w, after :| Denotes(w, j, 0, tod) && AllWs(after) && s == Text(w, after);
    DumpShortest(n, w, dtoa, 0, tod, after);
  }
}
