/**
 Reading a printed dictionary: the grammar recovers the printer's tree, and
 flattening that tree gives the dictionary back under an exact condition.
 */
module JsonRoundTrip {
  import opened Bytes
  import opened DictTable
  import opened JsonText
  import opened JsonNumber
  import opened JsonSyntax
  import opened JsonTree
  import opened JsonPaths
  import opened JsonNodes

  // ----- One value -----

  /** What a printed value reads as: characters and null strings become strings, integers take their narrowest type. */
  ghost function Normal(v: Value): Value
    requires Storable(v)
  {
    match v
    case NullV => NullV
    case Str(s) => Str(Some(if s.None? then [] else s.value))
    case Char(c) => Str(Some(if c == 0 then [] else [c]))
    case Bool(b) => v
    case Int(i) => IntegerValue(i).value
    case UInt(i) => IntegerValue(i).value
    case Long(i) => IntegerValue(i).value
    case ULong(i) => IntegerValue(i).value
    case LLong(i) => IntegerValue(i).value
    case ULLong(i) => IntegerValue(i).value
    case Ptr(_) => NullV
  }

  /** Strings, booleans, nulls and ints come back as they were. */
  lemma NormalIsIdentity(v: Value)
    requires Storable(v) && (v.NullV? || v.Bool? || v.Int? || (v.Str? && v.s.Some?))
    ensures Normal(v) == v
  {
  }

  ghost predicate EndsValue(rest: seq<Byte>) {
    rest == [] || EndsPrimitive(rest[0])
  }

  lemma ParseOfToken(tok: seq<Byte>, rest: seq<Byte>, depth: nat, tod: Strtod)
    requires PrintsToken(tok) && EndsValue(rest) && depth <= JSON_MAX_DEPTH
    ensures ParseValue(tok + rest, depth, tod)
            == match Primitive(tok, tod) case None => None case Some(v) => Some((Leaf(v), rest))
  {
    hide Primitive;
    var s := tok + rest;
    assert s[0] == tok[0];
    PrimLenOfToken(tok, rest);
    assert s[..|tok|] == tok && s[|tok|..] == rest;
  }

  lemma ParseOfString(x: CStr, rest: seq<Byte>, depth: nat, tod: Strtod)
    requires depth <= JSON_MAX_DEPTH
    ensures ParseValue(Escaped(x) + rest, depth, tod) == Some((Leaf(Str(Some(x))), rest))
  {
    hide ParseStr, EscapeBody;
    var s := Escaped(x) + rest;
    assert s[0] == QUOTE;
    ParseStrOfEscaped(x, rest);
  }

  /** A printed value, followed by whatever may follow a value, reads as its normal form. */
  lemma ParseOfPrinted(v: Value, dtoa: Dtoa, rest: seq<Byte>, depth: nat, tod: Strtod)
    requires Storable(v) && EndsValue(rest) && depth <= JSON_MAX_DEPTH
    ensures ParseValue(TextOf(v, dtoa) + rest, depth, tod) == Some((Leaf(Normal(v)), rest))
  {
    hide ParseValue, IsNumber, Escaped, DecText;
    match v {
      case Str(s) => ParseOfString(if s.None? then [] else s.value, rest, depth, tod);
      case Char(c) => ParseOfString(if c == 0 then [] else [c], rest, depth, tod);
      case NullV => ParseOfToken(TEXT_NULL, rest, depth, tod);
      case Ptr(_) => ParseOfToken(TEXT_NULL, rest, depth, tod);
      case Bool(b) => ParseOfToken(if b then TEXT_TRUE else TEXT_FALSE, rest, depth, tod);
      case Int(i) => ParseOfInteger(i, rest, depth, tod);
      case UInt(i) => ParseOfInteger(i, rest, depth, tod);
      case Long(i) => ParseOfInteger(i, rest, depth, tod);
      case ULong(i) => ParseOfInteger(i, rest, depth, tod);
      case LLong(i) => ParseOfInteger(i, rest, depth, tod);
      case ULLong(i) => ParseOfInteger(i, rest, depth, tod);
    }
  }

  lemma ParseOfInteger(i: int, rest: seq<Byte>, depth: nat, tod: Strtod)
    requires EndsValue(rest) && depth <= JSON_MAX_DEPTH && IntegerValue(i).Some?
    ensures ParseValue(DecText(i) + rest, depth, tod) == Some((Leaf(IntegerValue(i).value), rest))
  {
    hide DecText, ParseValue;
    PrimitiveOfDecText(i, tod);
    ParseOfToken(DecText(i), rest, depth, tod);
  }

  // ----- The dumped tree -----

  /** What a text reads as on its own. */
  ghost function TextValue(x: CStr, tod: Strtod): Value {
    match ParseValue(x, 0, tod)
    case Some((Leaf(v), _)) => v
    case _ => NullV
  }

  lemma TextValueIs(v: Value, dtoa: Dtoa, tod: Strtod)
    requires Storable(v)
    ensures TextValue(TextOf(v, dtoa), tod) == Normal(v)
  {
    hide ParseValue, TextOf;
    assert TextOf(v, dtoa) + [] == TextOf(v, dtoa);
    ParseOfPrinted(v, dtoa, [], 0, tod);
  }

  ghost function Ast(n: Node, tod: Strtod): Json
    decreases n, 0
  {
    Obj(AstKids(n.kids, tod))
  }

  ghost function AstValue(c: Node, tod: Strtod): Json
    decreases c, 1
  {
    if IsLeaf(c) then Leaf(TextValue(c.value.value, tod)) else Ast(c, tod)
  }

  ghost function AstKids(kids: seq<Node>, tod: Strtod): seq<(CStr, Json)>
    decreases kids
  {
    if kids == [] then [] else [(kids[0].key, AstValue(kids[0], tod))] + AstKids(kids[1..], tod)
  }

  /** How deep the tree goes below a node. */
  ghost function Height(n: Node): nat
    decreases n, 0
  {
    HeightOf(n.kids)
  }

  ghost function HeightOf(kids: seq<Node>): nat
    decreases kids
  {
    if kids == [] then 0
    else
      var a, b := 1 + Height(kids[0]), HeightOf(kids[1..]);
      if a > b then a else b
  }

  ghost predicate TidyKids(kids: seq<Node>, dtoa: Dtoa) {
    DistinctKeys(kids) && forall i :: 0 <= i < |kids| ==> IsSegment(kids[i].key) && Tidy(kids[i], dtoa)
  }

  lemma TidyRest(kids: seq<Node>, dtoa: Dtoa)
    requires TidyKids(kids, dtoa) && kids != []
    ensures TidyKids(kids[1..], dtoa) && Tidy(kids[0], dtoa)
    ensures forall i :: 0 <= i < |kids| - 1 ==> kids[1..][i].key != kids[0].key
  {
  }

  lemma SkipNothing(s: seq<Byte>)
    requires s != [] && !IsWs(s[0])
    ensures SkipWs(s) == s
  {
  }

  /** A dumped node reads as its tree, or as nothing when it nests too deeply. */
  lemma {:induction false} ParseOfDump(n: Node, dtoa: Dtoa, tail: seq<Byte>, depth: nat, tod: Strtod)
    requires TidyKids(n.kids, dtoa)
    ensures ParseValue(Dump(n) + tail, depth, tod)
            == if depth + Height(n) <= JSON_MAX_DEPTH then Some((Ast(n, tod), tail)) else None
    decreases n, 0
  {
    hide ParseMembers, DumpKids, ParseStr;
    var s := Dump(n) + tail;
    var t := DumpKids(n.kids) + ([CLOSE_BRACE] + tail);
    assert s[0] == OPEN_BRACE && s[1..] == t;
    SkipNothing(s);
    if n.kids == [] {
      DumpNoKids();
      assert t == [CLOSE_BRACE] + tail;
      SkipNothing(t);
      assert t[1..] == tail;
    } else {
      DumpStarts(n.kids);
      SkipNothing(t);
      ParseOfDumpedKids(n.kids, dtoa, {}, tail, depth, tod);
      assert HeightOf(n.kids) > 0;
    }
  }

  lemma DumpNoKids()
    ensures DumpKids([]) == []
  {
  }

  lemma DumpStarts(kids: seq<Node>)
    requires kids != []
    ensures DumpKids(kids) != [] && DumpKids(kids)[0] == QUOTE
  {
    assert Escaped(kids[0].key)[0] == QUOTE;
  }

  lemma {:induction false} ParseOfDumpedValue(c: Node, dtoa: Dtoa, tail: seq<Byte>, depth: nat, tod: Strtod)
    requires Tidy(c, dtoa) && EndsValue(tail)
    ensures ParseValue(DumpValue(c) + tail, depth, tod)
            == if depth + Height(c) <= JSON_MAX_DEPTH then Some((AstValue(c, tod), tail)) else None
    decreases c, 1
  {
    if IsLeaf(c) {
      hide ParseMembers, ParseElems, ParseStr, Primitive;
      if depth <= JSON_MAX_DEPTH {
        var v :| Storable(v) && TextOf(v, dtoa) == c.value.value;
        ParseOfPrinted(v, dtoa, tail, depth, tod);
        TextValueIs(v, dtoa, tod);
      }
    } else {
      ParseOfDump(c, dtoa, tail, depth, tod);
    }
  }

  lemma DumpKidsParts(kids: seq<Node>)
    requires kids != []
    ensures DumpKids(kids) == Escaped(kids[0].key) + [COLON] + DumpValue(kids[0]) + DumpMore(kids[1..])
    ensures DumpMore(kids[1..]) == if kids[1..] == [] then [] else [COMMA] + DumpKids(kids[1..])
  {
    DumpMoreIs(kids[1..]);
  }

  /** The text of a member and of all that follows it in its object. */
  lemma DumpKidsSplit(kids: seq<Node>, tail: seq<Byte>) returns (more: seq<Byte>)
    requires kids != []
    ensures more == DumpMore(kids[1..]) + ([CLOSE_BRACE] + tail)
    ensures DumpKids(kids) + ([CLOSE_BRACE] + tail) == Escaped(kids[0].key) + ([COLON] + (DumpValue(kids[0]) + more))
    ensures EndsValue(more) && more != []
    ensures |kids| == 1 ==> more == [CLOSE_BRACE] + tail
    ensures |kids| > 1 ==> more == [COMMA] + (DumpKids(kids[1..]) + ([CLOSE_BRACE] + tail))
  {
    hide Escaped, DumpValue, EndsPrimitive, DumpKids, DumpMore, EndsValue;
    var e := [CLOSE_BRACE] + tail;
    var a, b, c := Escaped(kids[0].key), DumpValue(kids[0]), DumpMore(kids[1..]);
    more := c + e;
    DumpKidsParts(kids);
    MemberSplit(a, b, c, e);
    CommaOrBrace(c, tail);
    if |kids| > 1 {
      ConsMore(DumpKids(kids[1..]), e);
    } else {
      assert [] + e == e;
    }
  }

  lemma ConsMore(t: seq<Byte>, e: seq<Byte>)
    ensures ([COMMA] + t) + e == [COMMA] + (t + e)
  {
  }

  lemma DumpMoreIs(kids: seq<Node>)
    ensures DumpMore(kids) == if kids == [] then [] else [COMMA] + DumpKids(kids)
  {
  }

  lemma MemberSplit(a: seq<Byte>, b: seq<Byte>, c: seq<Byte>, e: seq<Byte>)
    ensures (a + [COLON] + b + c) + e == a + ([COLON] + (b + (c + e)))
  {
  }

  lemma CommaOrBrace(c: seq<Byte>, tail: seq<Byte>)
    requires c == [] || c[0] == COMMA
    ensures EndsValue(c + ([CLOSE_BRACE] + tail)) && c + ([CLOSE_BRACE] + tail) != []
  {
  }

  lemma {:induction false} ParseOfDumpedKids(kids: seq<Node>, dtoa: Dtoa, seen: set<CStr>, tail: seq<Byte>, depth: nat, tod: Strtod)
    requires kids != [] && TidyKids(kids, dtoa)
    requires forall i :: 0 <= i < |kids| ==> kids[i].key !in seen
    ensures ParseMembers(DumpKids(kids) + ([CLOSE_BRACE] + tail), seen, depth, tod)
            == if depth + HeightOf(kids) <= JSON_MAX_DEPTH then Some((AstKids(kids, tod), tail)) else None
    decreases kids
  {
    hide ParseStr, ParseValue, DumpKids, Escaped, DumpValue, Tidy, Height;
    var more := DumpKidsSplit(kids, tail);
    var key := kids[0].key;
    TidyRest(kids, dtoa);
    var v := DumpValue(kids[0]) + more;
    ParseStrOfEscaped(key, [COLON] + v);
    SkipNothing([COLON] + v);
    assert ([COLON] + v)[1..] == v;
    ParseOfDumpedValue(kids[0], dtoa, more, depth + 1, tod);
    SkipNothing(more);
    assert kids[1..] == [] ==> AstKids(kids, tod) == [(key, AstValue(kids[0], tod))];
    assert more[1..] == if |kids| == 1 then tail else DumpKids(kids[1..]) + ([CLOSE_BRACE] + tail);
    if |kids| > 1 {
      DumpStarts(kids[1..]);
      SkipNothing(more[1..]);
      ParseOfDumpedKids(kids[1..], dtoa, seen + {key}, tail, depth, tod);
    }
  }
}
