/**
 The one-pass parser: recursive descent that stores each leaf into the
 dictionary as it comes to it, proved against the grammar followed by flattening.
 */
module JsonParse {
  import opened Bytes
  import opened DictTable
  import opened Dict
  import opened JsonText
  import opened JsonNumber
  import opened JsonSyntax
  import opened JsonFlatten
  import opened JsonGrammar
  import opened JsonSteps

  /** A dictionary without tombstones: stores and lookups always come back. */
  ghost predicate Clean(d: Dict)
    reads d, d.table
  {
    d.Valid() && Count(d.table[..], IsDummy) == 0
  }

  /** The lookup that guards every path. */
  method Taken(d: Dict, path: CStr) returns (taken: bool)
    requires Clean(d)
    ensures taken <==> path in d.Map()
  {
    d.RoomLooks(path);
    var v := d.Get(path);
    taken := v.Some?;
  }

  method Enter(d: Dict, path: CStr, v: Value)
    requires Clean(d)
    modifies d, d.table
    ensures Clean(d) && d.Map() == old(d.Map())[path := v]
    ensures d.table == old(d.table) || fresh(d.table)
  {
    d.RoomLooks(path);
    d.Store(path, v);
  }

  method JsonParseValue(s0: seq<Byte>, path: CStr, d: Dict, depth: nat, tod: Strtod) returns (ok: bool, rest: seq<Byte>)
    requires Clean(d)
    modifies d, d.table
    ensures Clean(d) && (d.table == old(d.table) || fresh(d.table))
    ensures ok <==> FlatValue(s0, path, old(d.Map()), depth, tod).Some?
    ensures ok ==> |rest| < |s0| && FlatValue(s0, path, old(d.Map()), depth, tod) == Some((rest, d.Map()))
    decreases |s0|, 1
  {
    hide Clean, Run, Visits, ParseMembers, ParseElems, ParseStr, Primitive, SkipWs, PrimLen;
    rest := [];
    var s := JsonSkipWs(s0);
    if s == [] || depth > JSON_MAX_DEPTH {
      return false, rest;
    }
    var taken := Taken(d, path);
    FlatValueCases(s0, path, d.Map(), depth, tod);
    if taken {
      return false, rest;
    }
    if s[0] == QUOTE {
      var str := JsonParseStr(s);
      if str.None? {
        return false, rest;
      }
      Enter(d, path, Str(Some(str.value.0)));
      return true, str.value.1;
    }
    if s[0] == OPEN_BRACE {
      ok, rest := JsonParseObj(s, path, d, depth, tod);
      return;
    }
    if s[0] == OPEN_BRACKET {
      ok, rest := JsonParseArray(s, path, d, depth, tod);
      return;
    }
    var n := JsonParsePrimitive(s);
    if n == 0 {
      return false, rest;
    }
    var v := JsonPrimitive(s[..n], tod);
    if v.None? {
      return false, rest;
    }
    Enter(d, path, v.value);
    return true, s[n..];
  }

  /** Reading an object whose brace leads `s`, at a path that is free. */
  ghost function FlatObj(s: seq<Byte>, path: CStr, m: map<Key, Value>, depth: nat, tod: Strtod)
    : Option<(seq<Byte>, map<Key, Value>)>
    requires s != []
  {
    var t := SkipWs(s[1..]);
    if Starts(t, CLOSE_BRACE) then Some((t[1..], m)) else FlatMembers(t, {}, path, m, depth, tod)
  }

  ghost function FlatArr(s: seq<Byte>, path: CStr, m: map<Key, Value>, depth: nat, tod: Strtod)
    : Option<(seq<Byte>, map<Key, Value>)>
    requires s != []
  {
    var t := SkipWs(s[1..]);
    if Starts(t, CLOSE_BRACKET) then Some((t[1..], m)) else FlatElems(t, 0, path, m, depth, tod)
  }

  /** The value parser's branches, on the reference side. */
  lemma FlatValueCases(s0: seq<Byte>, path: CStr, m: map<Key, Value>, depth: nat, tod: Strtod)
    requires SkipWs(s0) != [] && depth <= JSON_MAX_DEPTH
    ensures var s := SkipWs(s0);
      FlatValue(s0, path, m, depth, tod)
      == if path in m then None
         else if s[0] == QUOTE then
           match ParseStr(s) case None => None case Some((v, r)) => Some((r, m[path := Str(Some(v))]))
         else if s[0] == OPEN_BRACE then FlatObj(s, path, m, depth, tod)
         else if s[0] == OPEN_BRACKET then FlatArr(s, path, m, depth, tod)
         else if PrimLen(s) == 0 then None
         else match Primitive(s[..PrimLen(s)], tod) case None => None case Some(v) => Some((s[PrimLen(s)..], m[path := v]))
  {
    hide SkipWs, ParseMembers, ParseElems, ParseStr, Primitive, PrimLen;
    match ParseValue(s0, depth, tod) {
      case None =>
      case Some((j, r)) => RunOfVisits(m, path, j);
    }
  }

  /** Running a tree's visits starts by coming to its own path. */
  lemma RunOfVisits(m: map<Key, Value>, path: CStr, j: Json)
    ensures Run(m, Visits(path, j))
            == if path in m then None
               else match j
                 case Leaf(v) => Some(m[path := v])
                 case Obj(ms) => Run(m, VisitsOfMembers(path, ms))
                 case Arr(es) => Run(m, VisitsOfElems(path, es, 0))
  {
    match j {
      case Leaf(v) =>
        assert Visits(path, j)[1..] == [];
      case Obj(ms) =>
        assert Visits(path, j)[1..] == VisitsOfMembers(path, ms);
      case Arr(es) =>
        assert Visits(path, j)[1..] == VisitsOfElems(path, es, 0);
    }
  }

  method JsonParseObj(s0: seq<Byte>, path: CStr, d: Dict, depth: nat, tod: Strtod) returns (ok: bool, rest: seq<Byte>)
    requires Clean(d)
    requires Starts(s0, OPEN_BRACE)
    modifies d, d.table
    ensures Clean(d) && (d.table == old(d.table) || fresh(d.table))
    ensures ok <==> FlatObj(s0, path, old(d.Map()), depth, tod).Some?
    ensures ok ==> |rest| < |s0| && FlatObj(s0, path, old(d.Map()), depth, tod) == Some((rest, d.Map()))
    decreases |s0|, 0
  {
    hide SkipWs, FlatMembers, IsTable, Count;
    rest := [];
    var s := JsonSkipWs(s0[1..]);
    if s != [] && s[0] == CLOSE_BRACE {
      return true, s[1..];
    }
    var keys := new Dict(d.H);
    NoTombstones(keys.table[..]);
    assert keys.Map().Keys == {};
    hide Clean;
    while true
      invariant |s| < |s0|
      invariant Clean(d) && (d.table == old(d.table) || fresh(d.table))
      invariant Clean(keys) && fresh(keys) && fresh(keys.table) && keys.table != d.table
      invariant FlatObj(s0, path, old(d.Map()), depth, tod) == FlatMembers(s, keys.Map().Keys, path, d.Map(), depth, tod)
      decreases |s|
    {
      var good;
      good, s := JsonParseMember(s, path, d, keys, depth, tod);
      if !good {
        return false, rest;
      }
      s := JsonSkipWs(s);
      if s != [] && s[0] == CLOSE_BRACE {
        return true, s[1..];
      }
      if s == [] || s[0] != COMMA {
        return false, rest;
      }
      s := JsonSkipWs(s[1..]);
      if s != [] && s[0] == CLOSE_BRACE {
        return false, rest;
      }
    }
  }

  /** One turn of the object loop, up to the end of the member's value. */
  method JsonParseMember(s: seq<Byte>, path: CStr, d: Dict, keys: Dict, depth: nat, tod: Strtod) returns (ok: bool, rest: seq<Byte>)
    requires Clean(d) && Clean(keys) && d != keys && d.table != keys.table
    modifies d, d.table, keys, keys.table
    ensures Clean(d) && (d.table == old(d.table) || fresh(d.table))
    ensures Clean(keys) && (keys.table == old(keys.table) || fresh(keys.table)) && d.table != keys.table
    ensures ok ==> |rest| < |s|
    ensures FlatMembers(s, old(keys.Map().Keys), path, old(d.Map()), depth, tod)
            == if ok then FlatMembersMore(rest, keys.Map().Keys, path, d.Map(), depth, tod) else None
    decreases |s|, 0
  {
    hide SkipWs, FlatMembers, FlatMembersMore, FlatValue, Clean;
    rest := [];
    FlatMembersStep(s, keys.Map().Keys, path, d.Map(), depth, tod);
    var str := JsonParseStr(s);
    if str.None? {
      return false, rest;
    }
    var key := str.value.0;
    var dup := AddKey(keys, key);
    if dup {
      return false, rest;
    }
    var t := JsonSkipWs(str.value.1);
    if t == [] || t[0] != COLON {
      return false, rest;
    }
    ok, rest := JsonParseValue(t[1..], PathAppend(path, key), d, depth + 1, tod);
  }

  /** Remember a member name; true when the object has it already. */
  method AddKey(keys: Dict, key: CStr) returns (dup: bool)
    requires Clean(keys)
    modifies keys, keys.table
    ensures Clean(keys) && (keys.table == old(keys.table) || fresh(keys.table))
    ensures dup <==> key in old(keys.Map())
    ensures keys.Map().Keys == old(keys.Map().Keys) + {key}
  {
    hide Clean;
    dup := Taken(keys, key);
    if !dup {
      Enter(keys, key, Bool(true));
    }
  }

  method JsonParseArray(s0: seq<Byte>, path: CStr, d: Dict, depth: nat, tod: Strtod) returns (ok: bool, rest: seq<Byte>)
    requires Clean(d)
    requires Starts(s0, OPEN_BRACKET)
    modifies d, d.table
    ensures Clean(d) && (d.table == old(d.table) || fresh(d.table))
    ensures ok <==> FlatArr(s0, path, old(d.Map()), depth, tod).Some?
    ensures ok ==> |rest| < |s0| && FlatArr(s0, path, old(d.Map()), depth, tod) == Some((rest, d.Map()))
    decreases |s0|, 0
  {
    hide SkipWs, FlatElems, FlatValue, Clean;
    rest := [];
    var s := JsonSkipWs(s0[1..]);
    if s != [] && s[0] == CLOSE_BRACKET {
      return true, s[1..];
    }
    var idx := 0;
    while true
      invariant |s| < |s0|
      invariant Clean(d) && (d.table == old(d.table) || fresh(d.table))
      invariant FlatArr(s0, path, old(d.Map()), depth, tod) == FlatElems(s, idx, path, d.Map(), depth, tod)
      decreases |s|
    {
      FlatElemsStep(s, idx, path, d.Map(), depth, tod);
      var good;
      good, s := JsonParseValue(s, PathAppend(path, IndexText(idx)), d, depth + 1, tod);
      idx := idx + 1;
      if !good {
        return false, rest;
      }
      s := JsonSkipWs(s);
      if s != [] && s[0] == CLOSE_BRACKET {
        return true, s[1..];
      }
      if s == [] || s[0] != COMMA {
        return false, rest;
      }
      s := JsonSkipWs(s[1..]);
      if s != [] && s[0] == CLOSE_BRACKET {
        return false, rest;
      }
    }
  }

  /** A NULL or empty text yields no dictionary; otherwise exactly one value must fill the text. */
  method Json2Dict(json: Option<CStr>, h: HashFn, tod: Strtod) returns (d: Dict?)
    ensures d == null <==> json.None? || FlatText(json.value, tod).None?
    ensures d != null ==> fresh(d) && d.Valid() && d.H == h && d.Map() == FlatText(json.value, tod).value
    ensures d != null ==> Count(d.table[..], IsDummy) == 0
    ensures d != null ==> exists j :: IsText(json.value, j, tod) && Spelled(j, d.Map())
  {
    hide Visits, Run, SkipWs, Spelled, IsText;
    if json.None? || json.value == [] {
      EmptyText(tod);
      return null;
    }
    var fresh_ := new Dict(h);
    NoTombstones(fresh_.table[..]);
    var ok, rest := JsonParseValue(json.value, [], fresh_, 0, tod);
    if !ok {
      return null;
    }
    var tail := JsonSkipWs(rest);
    if tail != [] {
      return null;
    }
    KeysAreSteps(json.value, tod);
    ReadIff(json.value, ParseText(json.value, tod).value, tod);
    return fresh_;
  }

  lemma EmptyText(tod: Strtod)
    ensures FlatText([], tod).None?
  {
  }
}
