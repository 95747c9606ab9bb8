/**
 The reference reading of a JSON text: a grammar that yields a tree, and no
 dictionary in sight.
 */
module JsonSyntax {
  import opened Bytes
  import opened DictTable
  import opened JsonText
  import opened JsonNumber

  const JSON_MAX_DEPTH := 64

  const OPEN_BRACE: Byte := 123
  const CLOSE_BRACE: Byte := 125
  const OPEN_BRACKET: Byte := 91
  const CLOSE_BRACKET: Byte := 93

  datatype Json = Obj(members: seq<(CStr, Json)>) | Arr(elems: seq<Json>) | Leaf(v: Value)

  ghost predicate Starts(s: seq<Byte>, c: Byte) {
    s != [] && s[0] == c
  }

  ghost function ParseValue(s0: seq<Byte>, depth: nat, tod: Strtod): (r: Option<(Json, seq<Byte>)>)
    ensures r.Some? ==> |r.value.1| < |s0|
    decreases |s0|, 1
  {
    var s := SkipWs(s0);
    if s == [] || depth > JSON_MAX_DEPTH then None
    else if s[0] == QUOTE then
      match ParseStr(s) case None => None case Some((v, r)) => Some((Leaf(Str(Some(v))), r))
    else if s[0] == OPEN_BRACE then
      var t := SkipWs(s[1..]);
      if Starts(t, CLOSE_BRACE) then Some((Obj([]), t[1..]))
      else match ParseMembers(t, {}, depth, tod) case None => None case Some((ms, r)) => Some((Obj(ms), r))
    else if s[0] == OPEN_BRACKET then
      var t := SkipWs(s[1..]);
      if Starts(t, CLOSE_BRACKET) then Some((Arr([]), t[1..]))
      else match ParseElems(t, depth, tod) case None => None case Some((es, r)) => Some((Arr(es), r))
    else
      var n := PrimLen(s);
      if n == 0 then None
      else match Primitive(s[..n], tod) case None => None case Some(v) => Some((Leaf(v), s[n..]))
  }

  /** One or more members and the closing brace; `seen` are the keys the object already has. */
  ghost function ParseMembers(s: seq<Byte>, seen: set<CStr>, depth: nat, tod: Strtod)
    : (r: Option<(seq<(CStr, Json)>, seq<Byte>)>)
    ensures r.Some? ==> |r.value.1| < |s|
    decreases |s|, 0
  {
    match ParseStr(s)
    case None => None
    case Some((key, r0)) =>
      var r1 := SkipWs(r0);
      if key in seen || !Starts(r1, COLON) then None
      else match ParseValue(r1[1..], depth + 1, tod)
        case None => None
        case Some((v, r2)) =>
          var r3 := SkipWs(r2);
          if Starts(r3, CLOSE_BRACE) then Some(([(key, v)], r3[1..]))
          else if !Starts(r3, COMMA) then None
          else
            var r4 := SkipWs(r3[1..]);
            if Starts(r4, CLOSE_BRACE) then None
            else match ParseMembers(r4, seen + {key}, depth, tod)
              case None => None
              case Some((ms, r5)) => Some(([(key, v)] + ms, r5))
  }

  /** One or more elements and the closing bracket. */
  ghost function ParseElems(s: seq<Byte>, depth: nat, tod: Strtod): (r: Option<(seq<Json>, seq<Byte>)>)
    ensures r.Some? ==> |r.value.1| < |s|
    decreases |s|, 2
  {
    match ParseValue(s, depth + 1, tod)
    case None => None
    case Some((v, r2)) =>
      var r3 := SkipWs(r2);
      if Starts(r3, CLOSE_BRACKET) then Some(([v], r3[1..]))
      else if !Starts(r3, COMMA) then None
      else
        var r4 := SkipWs(r3[1..]);
        if Starts(r4, CLOSE_BRACKET) then None
        else match ParseElems(r4, depth, tod)
          case None => None
          case Some((es, r5)) => Some(([v] + es, r5))
  }

  /** A whole text: one value and nothing but white space after it. */
  ghost function ParseText(s: seq<Byte>, tod: Strtod): Option<Json> {
    match ParseValue(s, 0, tod)
    case None => None
    case Some((j, r)) => if SkipWs(r) == [] then Some(j) else None
  }
}
