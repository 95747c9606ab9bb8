/**
 JSON texts as a grammar (RFC 8259, sections 2 to 7), with the limits the reader
 adds: no member name twice, values nested at most 64 deep below the root, integers
 of at most 64 bits.  The reader accepts exactly the texts of the grammar.
 */
module JsonGrammar {
  import opened Bytes
  import opened DictTable
  import Utf8
  import opened JsonText
  import opened JsonStrings
  import opened JsonNumber
  import opened JsonSyntax

  /** A value with its layout: the white space in front of it and inside it. */
  datatype Written =
    | Quoted(before: seq<Byte>, body: seq<Byte>)
    | Token(before: seq<Byte>, token: seq<Byte>)
    | EmptyObject(before: seq<Byte>, inside: seq<Byte>)
    | Object(before: seq<Byte>, entries: seq<Entry>)
    | EmptyArray(before: seq<Byte>, inside: seq<Byte>)
    | Array(before: seq<Byte>, items: seq<Item>)

  datatype Entry = Entry(pre: seq<Byte>, name: seq<Byte>, mid: seq<Byte>, value: Written, post: seq<Byte>)

  datatype Item = Item(value: Written, post: seq<Byte>)

  // ----- Texts -----

  /** The value as it is written, and then `rest`. */
  ghost function Text(w: Written, rest: seq<Byte>): seq<Byte>
    decreases w
  {
    match w
    case Quoted(before, body) => before + ([34] + (body + ([34] + rest)))
    case Token(before, token) => before + (token + rest)
    case EmptyObject(before, inside) => before + ([123] + (inside + ([125] + rest)))
    case Object(before, entries) => before + ([123] + EntriesText(entries, rest))
    case EmptyArray(before, inside) => before + ([91] + (inside + ([93] + rest)))
    case Array(before, items) => before + ([91] + ItemsText(items, rest))
  }

  /** Members apart by commas, the closing brace, and then `rest`. */
  ghost function EntriesText(es: seq<Entry>, rest: seq<Byte>): seq<Byte>
    decreases es
  {
    if es == [] then [125] + rest
    else
      assert (es decreases to es[0]) && (es[0] decreases to es[0].value);
      var e := es[0];
      var more := if |es| == 1 then [125] + rest else [44] + EntriesText(es[1..], rest);
      e.pre + ([34] + (e.name + ([34] + (e.mid + ([58] + Text(e.value, e.post + more))))))
  }

  ghost function ItemsText(es: seq<Item>, rest: seq<Byte>): seq<Byte>
    decreases es
  {
    if es == [] then [93] + rest
    else
      assert (es decreases to es[0]) && (es[0] decreases to es[0].value);
      var more := if |es| == 1 then [93] + rest else [44] + ItemsText(es[1..], rest);
      Text(es[0].value, es[0].post + more)
  }

  // ----- What they mean -----

  ghost predicate AllWs(s: seq<Byte>) {
    forall i :: 0 <= i < |s| ==> s[i] in {32, 9, 10, 13}
  }

  ghost predicate IsDigits(s: seq<Byte>) {
    s != [] && forall i :: 0 <= i < |s| ==> 48 <= s[i] <= 57
  }

  ghost predicate IsInt(s: seq<Byte>) {
    IsDigits(s) && (s[0] == 48 ==> |s| == 1)
  }

  ghost predicate IsFrac(s: seq<Byte>) {
    s == [] || (s[0] == 46 && IsDigits(s[1..]))
  }

  ghost predicate IsExp(s: seq<Byte>) {
    s == [] || (s[0] in {69, 101} && (IsDigits(s[1..]) || (|s| > 1 && s[1] in {43, 45} && IsDigits(s[2..]))))
  }

  /** An optional minus, an integer part, and an optional fraction and exponent (RFC 8259, section 6). */
  ghost predicate NumberText(s: seq<Byte>) {
    exists i: nat, j: nat, k: nat :: NumberParts(s, i, j, k)
  }

  ghost predicate NumberParts(s: seq<Byte>, i: nat, j: nat, k: nat) {
    i <= 1 && i <= j <= k <= |s| && (i == 1 ==> s[0] == 45) && IsInt(s[i..j]) && IsFrac(s[j..k]) && IsExp(s[k..])
  }

  const NULL_TEXT: seq<Byte> := ['n' as int, 'u' as int, 'l' as int, 'l' as int]
  const TRUE_TEXT: seq<Byte> := ['t' as int, 'r' as int, 'u' as int, 'e' as int]
  const FALSE_TEXT: seq<Byte> := ['f' as int, 'a' as int, 'l' as int, 's' as int, 'e' as int]

  /** A literal, an integer in the narrowest of three types, or what the C library makes of another number. */
  ghost predicate TokenMeans(t: seq<Byte>, v: Value, tod: Strtod) {
    || (t == NULL_TEXT && v == NullV)
    || (t == TRUE_TEXT && v == Bool(true))
    || (t == FALSE_TEXT && v == Bool(false))
    || (NumberText(t) && 46 !in t && 69 !in t && 101 !in t
        && var n := DecimalValue(t);
           || (-0x8000_0000 <= n < 0x8000_0000 && v == Int(n))
           || (!(-0x8000_0000 <= n < 0x8000_0000) && -0x8000_0000_0000_0000 <= n < 0x8000_0000_0000_0000 && v == Long(n))
           || (0x8000_0000_0000_0000 <= n < 0x1_0000_0000_0000_0000 && v == ULong(n)))
    || (NumberText(t) && (46 in t || 69 in t || 101 in t) && tod(t).Some? && v == Double(tod(t).value))
  }

  ghost predicate Denotes(w: Written, j: Json, depth: nat, tod: Strtod)
    decreases w
  {
    && depth <= 64 && AllWs(w.before)
    && match w
       case Quoted(_, body) => j.Leaf? && j.v.Str? && j.v.s.Some? && SpellsString(body, j.v.s.value)
       case Token(_, token) => j.Leaf? && TokenMeans(token, j.v, tod)
       case EmptyObject(_, inside) => AllWs(inside) && j == Obj([])
       case Object(_, entries) => j.Obj? && EntriesDenote(entries, j.members, {}, depth, tod)
       case EmptyArray(_, inside) => AllWs(inside) && j == Arr([])
       case Array(_, items) => j.Arr? && ItemsDenote(items, j.elems, depth, tod)
  }

  /** One or more members, in order, with names that are not in `seen` and differ. */
  ghost predicate EntriesDenote(es: seq<Entry>, ms: seq<(CStr, Json)>, seen: set<CStr>, depth: nat, tod: Strtod)
    decreases es
  {
    && es != [] && |es| == |ms|
    && AllWs(es[0].pre) && AllWs(es[0].mid) && AllWs(es[0].post)
    && SpellsString(es[0].name, ms[0].0) && ms[0].0 !in seen
    && (assert (es decreases to es[0]) && (es[0] decreases to es[0].value); Denotes(es[0].value, ms[0].1, depth + 1, tod))
    && (|es| > 1 ==> EntriesDenote(es[1..], ms[1..], seen + {ms[0].0}, depth, tod))
  }

  ghost predicate ItemsDenote(es: seq<Item>, js: seq<Json>, depth: nat, tod: Strtod)
    decreases es
  {
    && es != [] && |es| == |js|
    && AllWs(es[0].post)
    && (assert (es decreases to es[0]) && (es[0] decreases to es[0].value); Denotes(es[0].value, js[0], depth + 1, tod))
    && (|es| > 1 ==> ItemsDenote(es[1..], js[1..], depth, tod))
  }

  /** A value and white space, and nothing else. */
  ghost predicate IsText(s: seq<Byte>, j: Json, tod: Strtod) {
    exists w, after :: Denotes(w, j, 0, tod) && AllWs(after) && s == Text(w, after)
  }

  // ----- White space and digits -----

  lemma {:induction false} SkipOver(w: seq<Byte>, s: seq<Byte>)
    requires AllWs(w)
    ensures SkipWs(w + s) == SkipWs(s)
  {
    if w == [] {
      assert w + s == s;
    } else {
      assert (w + s)[1..] == w[1..] + s;
      SkipOver(w[1..], s);
    }
  }

  lemma {:induction false} Skipped(s: seq<Byte>) returns (w: seq<Byte>)
    ensures AllWs(w) && s == w + SkipWs(s)
  {
    if s != [] && IsWs(s[0]) {
      var v := Skipped(s[1..]);
      w := [s[0]] + v;
    } else {
      w := [];
    }
  }

  lemma SkipStops(s: seq<Byte>)
    requires s != [] && !IsWs(s[0])
    ensures SkipWs(s) == s
  {
  }

  lemma SkipTwice(s: seq<Byte>)
    ensures SkipWs(SkipWs(s)) == SkipWs(s)
  {
  }

  lemma {:induction false} SkipRun(d: seq<Byte>, r: seq<Byte>)
    requires AllDigits(d) && (r == [] || !IsDigit(r[0]))
    ensures SkipDigits(d + r) == r
  {
    if d == [] {
      assert d + r == r;
    } else {
      assert (d + r)[1..] == d[1..] + r;
      SkipRun(d[1..], r);
    }
  }

  /** How many digits lead. */
  lemma {:induction false} DigitRun(s: seq<Byte>) returns (n: nat)
    ensures n <= |s| && SkipDigits(s) == s[n..] && AllDigits(s[..n])
    ensures s != [] && IsDigit(s[0]) ==> n > 0
  {
    if s != [] && IsDigit(s[0]) {
      var k := DigitRun(s[1..]);
      n := k + 1;
      assert s[..n] == [s[0]] + s[1..][..k];
    } else {
      n := 0;
    }
  }

  lemma DigitsRead(d: seq<Byte>, r: seq<Byte>)
    requires IsDigits(d) && (r == [] || !IsDigit(r[0]))
    ensures Digits1(d + r) == Some(r)
  {
    SkipRun(d, r);
  }

  lemma DigitsFound(s: seq<Byte>) returns (n: nat)
    requires Digits1(s).Some?
    ensures n <= |s| && Digits1(s) == Some(s[n..]) && IsDigits(s[..n])
  {
    n := DigitRun(s);
  }

  // ----- Numbers -----

  lemma IntRead(s: seq<Byte>, i: nat, j: nat)
    requires i <= 1 && i <= j <= |s| && (i == 1 ==> s[0] == 45) && IsInt(s[i..j])
    requires j == |s| || !IsDigit(s[j])
    ensures AfterInt(s) == Some(s[j..])
  {
    hide Digits1;
    var d := s[i..j];
    assert s[i] == d[0];
    assert s[i..] == d + s[j..];
    DigitsRead(d, s[j..]);
  }

  lemma IntFound(s: seq<Byte>) returns (i: nat, j: nat)
    requires AfterInt(s).Some?
    ensures i <= 1 && i <= j <= |s| && (i == 1 ==> s[0] == 45) && IsInt(s[i..j]) && AfterInt(s) == Some(s[j..])
  {
    i := if s != [] && s[0] == 45 then 1 else 0;
    var t := s[i..];
    if t != [] && t[0] == 48 {
      j := i + 1;
    } else {
      var n := DigitsFound(t);
      j := i + n;
      assert s[i..j] == t[..n] && t[n..] == s[j..];
      assert t[..n][0] == t[0];
    }
  }

  lemma FracRead(s: seq<Byte>, n: nat)
    requires n <= |s| && IsFrac(s[..n]) && (n == |s| || !IsDigit(s[n])) && (n == 0 ==> s == [] || s[0] != 46)
    ensures AfterFrac(s) == Some(s[n..])
  {
    hide Digits1;
    if n > 0 {
      assert s[1..] == s[..n][1..] + s[n..];
      DigitsRead(s[..n][1..], s[n..]);
    }
  }

  lemma FracFound(s: seq<Byte>) returns (n: nat)
    requires AfterFrac(s).Some?
    ensures n <= |s| && IsFrac(s[..n]) && AfterFrac(s) == Some(s[n..])
  {
    if s != [] && s[0] == 46 {
      var k := DigitsFound(s[1..]);
      n := k + 1;
      assert s[..n][1..] == s[1..][..k];
    } else {
      n := 0;
    }
  }

  lemma ExpIff(s: seq<Byte>)
    ensures AfterExp(s) == Some([]) <==> IsExp(s)
  {
    hide Digits1;
    if s != [] && s[0] in {69, 101} {
      var signed := |s| > 1 && s[1] in {43, 45};
      var t := if signed then s[2..] else s[1..];
      assert s[1..] != [] ==> s[1..][0] == s[1];
      assert signed ==> s[1..][1..] == s[2..];
      DigitsOnlyIff(t);
      if signed {
        SignIsNoDigit(s);
      }
    }
  }

  lemma SignIsNoDigit(s: seq<Byte>)
    requires |s| > 1 && s[1] in {43, 45}
    ensures !IsDigits(s[1..])
  {
  }

  lemma DigitsOnlyIff(t: seq<Byte>)
    ensures Digits1(t) == Some([]) <==> IsDigits(t)
  {
    if IsDigits(t) {
      assert t + [] == t;
      DigitsRead(t, []);
    }
    if Digits1(t) == Some([]) {
      var n := DigitsFound(t);
      assert t[..n] == t;
    }
  }

  lemma NumberFound(s: seq<Byte>)
    requires IsNumber(s)
    ensures NumberText(s)
  {
    hide AfterInt, AfterFrac, AfterExp, IsInt, IsFrac, IsExp;
    var i, j := IntFound(s);
    var n := FracFound(s[j..]);
    var k := j + n;
    assert s[j..][..n] == s[j..k] && s[j..][n..] == s[k..];
    ExpIff(s[k..]);
    assert NumberParts(s, i, j, k);
  }

  lemma NumberRead(s: seq<Byte>, i: nat, j: nat, k: nat)
    requires NumberParts(s, i, j, k)
    ensures IsNumber(s)
  {
    hide AfterInt, AfterFrac, AfterExp, IsInt, IsFrac, IsExp;
    PartsStart(s, j, k);
    IntRead(s, i, j);
    assert s[j..][..k - j] == s[j..k] && s[j..][k - j..] == s[k..];
    FracRead(s[j..], k - j);
    ExpIff(s[k..]);
  }

  /** The scan accepts exactly the numbers of the grammar. */
  lemma NumberIff(s: seq<Byte>)
    ensures IsNumber(s) <==> NumberText(s)
  {
    hide IsNumber, NumberParts;
    if IsNumber(s) {
      NumberFound(s);
    }
    if NumberText(s) {
      var i: nat, j: nat, k: nat :| NumberParts(s, i, j, k);
      NumberRead(s, i, j, k);
    }
  }

  lemma PartsStart(s: seq<Byte>, j: nat, k: nat)
    requires j <= k <= |s| && IsFrac(s[j..k]) && IsExp(s[k..])
    ensures j < |s| ==> !IsDigit(s[j])
    ensures k < |s| ==> !IsDigit(s[k])
    ensures j == k < |s| ==> s[j] != 46
  {
  }

  // ----- Tokens -----

  predicate NumberByte(c: Byte) {
    48 <= c <= 57 || c in {43, 45, 46, 69, 101}
  }

  lemma PartBytes(s: seq<Byte>)
    requires IsInt(s) || IsFrac(s) || IsExp(s)
    ensures forall i :: 0 <= i < |s| ==> NumberByte(s[i])
  {
    assert forall i :: 1 <= i < |s| ==> s[i] == s[1..][i - 1];
    assert forall i :: 2 <= i < |s| ==> s[i] == s[2..][i - 2];
  }

  lemma NumberBytes(s: seq<Byte>)
    requires NumberText(s)
    ensures s != [] && (s[0] == 45 || IsDigit(s[0]))
    ensures forall i :: 0 <= i < |s| ==> NumberByte(s[i])
  {
    hide IsInt, IsFrac, IsExp, NumberByte;
    var i: nat, j: nat, k: nat :| NumberParts(s, i, j, k);
    PartBytes(s[i..j]);
    PartBytes(s[j..k]);
    PartBytes(s[k..]);
    IntStarts(s[i..j]);
    forall x | 0 <= x < |s| ensures NumberByte(s[x]) {
      if x < i {
        MinusIsNumberByte();
      } else if x < j {
        assert s[x] == s[i..j][x - i];
      } else if x < k {
        assert s[x] == s[j..k][x - j];
      } else {
        assert s[x] == s[k..][x - k];
      }
    }
  }

  lemma MinusIsNumberByte()
    ensures NumberByte(45)
  {
  }

  lemma IntStarts(s: seq<Byte>)
    requires IsInt(s)
    ensures s != [] && IsDigit(s[0])
  {
  }

  /** Reading a token is what the grammar says it means. */
  lemma TokenIff(t: seq<Byte>, v: Value, tod: Strtod)
    ensures Primitive(t, tod) == Some(v) <==> TokenMeans(t, v, tod)
  {
    hide IsNumber, NumberText, DecimalValue;
    NumberIff(t);
    if NumberText(t) {
      NumberBytes(t);
    }
  }

  /** A token is taken whole, and is not mistaken for a string, object or array. */
  lemma TokenShape(t: seq<Byte>, v: Value, tod: Strtod)
    requires TokenMeans(t, v, tod)
    ensures PrintsToken(t)
  {
    hide NumberText, DecimalValue;
    if NumberText(t) {
      NumberBytes(t);
    }
  }

  lemma TokenStarts(t: seq<Byte>)
    requires PrintsToken(t)
    ensures t != [] && !IsWs(t[0]) && t[0] != QUOTE && t[0] != OPEN_BRACE && t[0] != OPEN_BRACKET
    ensures forall i :: 0 <= i < |t| ==> !EndsPrimitive(t[i])
  {
  }

  // ----- Strings -----

  lemma UnitBytes(t: seq<Byte>, v: nat)
    requires IsUnit(t, v)
    ensures |t| == 6 && t[0] == 92 && t[1] == 117
    ensures forall i :: 2 <= i < 6 ==> 48 <= t[i] && t[i] != 92
  {
    hide IsHex;
    assert t[2..][0] == t[2] && t[2..][1] == t[3] && t[2..][2] == t[4] && t[2..][3] == t[5];
    HexByte(t[2], v / 4096);
    HexByte(t[3], v / 256 % 16);
    HexByte(t[4], v / 16 % 16);
    HexByte(t[5], v % 16);
  }

  lemma HexByte(c: Byte, v: nat)
    requires IsHex(c, v)
    ensures 48 <= c && c != 92
  {
    HexIff(c, v);
  }

  lemma ScanUnit(t: seq<Byte>, v: nat, rest: seq<Byte>)
    requires IsUnit(t, v)
    ensures ScanQuote(t + rest) == Later(6, ScanQuote(rest))
  {
    hide ScanQuote, IsUnit;
    UnitBytes(t, v);
    var r3 := [t[5]] + rest;
    var r2 := [t[4]] + r3;
    var r1 := [t[3]] + r2;
    var r0 := [t[2]] + r1;
    ScanEscape(117, r0);
    ScanPlain(t[2], r1);
    ScanPlain(t[3], r2);
    ScanPlain(t[4], r3);
    ScanPlain(t[5], rest);
    assert t + rest == [BACKSLASH, 117] + r0;
  }

  lemma ScanCode(t: seq<Byte>, code: nat, rest: seq<Byte>)
    requires Scalar(code) && SpellsCode(t, code)
    ensures ScanQuote(t + rest) == Later(|t|, ScanQuote(rest))
  {
    hide ScanQuote, IsHexFour;
    if code < 0x1_0000 {
      ScanUnit(t, code, rest);
    } else {
      assert t + rest == t[..6] + (t[6..] + rest);
      ScanUnit(t[..6], 0xD800 + (code - 0x1_0000) / 1024, t[6..] + rest);
      ScanUnit(t[6..], 0xDC00 + (code - 0x1_0000) % 1024, rest);
    }
  }

  lemma ScanPiece(t: seq<Byte>, b: seq<Byte>, rest: seq<Byte>)
    requires Piece(t, b)
    ensures ScanQuote(t + rest) == Later(|t|, ScanQuote(rest))
  {
    hide ScanQuote, SpellsCode;
    if PlainPiece(t, b) {
      ScanPlain(t[0], rest);
      assert t == [t[0]];
    } else if ShortPiece(t, b) {
      ScanEscape(t[1], rest);
      assert t == [BACKSLASH, t[1]];
    } else {
      var code :| Scalar(code) && SpellsCode(t, code) && b == Utf8.Encode(code);
      ScanCode(t, code, rest);
    }
  }

  /** The scan for the closing quote runs over a whole string. */
  lemma {:induction false} ScanString(t: seq<Byte>, b: seq<Byte>, rest: seq<Byte>)
    requires SpellsString(t, b)
    ensures ScanQuote(t + rest) == Later(|t|, ScanQuote(rest))
    decreases |t|
  {
    hide ScanQuote, Piece;
    if t == [] {
      assert t + rest == rest;
    } else {
      var n, m :| 0 < n <= |t| && 0 <= m <= |b| && Piece(t[..n], b[..m]) && SpellsString(t[n..], b[m..]);
      assert t + rest == t[..n] + (t[n..] + rest);
      ScanPiece(t[..n], b[..m], t[n..] + rest);
      ScanString(t[n..], b[m..], rest);
    }
  }

  lemma StringRead(body: seq<Byte>, v: CStr, rest: seq<Byte>)
    requires SpellsString(body, v)
    ensures ParseStr([34] + (body + ([34] + rest))) == Some((v, rest))
  {
    hide ScanQuote, Decode, SpellsString;
    var s := [34] + (body + ([34] + rest));
    assert s[1..] == body + ([QUOTE] + rest);
    ScanString(body, v, [QUOTE] + rest);
    ScanEnds([QUOTE] + rest);
    DecodeIff(body, v);
    assert s[1..1 + |body|] == body && s[2 + |body|..] == rest;
  }

  lemma StringFound(s: seq<Byte>) returns (body: seq<Byte>)
    requires ParseStr(s).Some?
    ensures s == [34] + (body + ([34] + ParseStr(s).value.1)) && SpellsString(body, ParseStr(s).value.0)
  {
    hide ScanQuote, Decode, SpellsString;
    var n := ScanQuote(s[1..]).value;
    body := s[1..1 + n];
    DecodeIff(body, Decode(body).value);
  }

  // ----- Every text of the grammar is read -----

  ghost predicate Delimited(s: seq<Byte>) {
    s == [] || EndsPrimitive(s[0])
  }

  lemma BehindWhite(w: seq<Byte>, c: Byte, rest: seq<Byte>)
    requires AllWs(w) && c in {44, 93, 125}
    ensures Delimited(w + ([c] + rest)) && SkipWs(w + ([c] + rest)) == [c] + rest
  {
    SkipOver(w, [c] + rest);
    SkipStops([c] + rest);
  }

  lemma Uncons(c: Byte, s: seq<Byte>)
    ensures ([c] + s)[0] == c && ([c] + s)[1..] == s
  {
  }

  lemma SkipToMark(w: seq<Byte>, c: Byte, s: seq<Byte>)
    requires AllWs(w) && c in {34, 44, 58, 91, 93, 123, 125}
    ensures SkipWs(w + ([c] + s)) == [c] + s
  {
    SkipOver(w, [c] + s);
    SkipStops([c] + s);
  }

  lemma ReadAfterSkip(s: seq<Byte>, depth: nat, tod: Strtod)
    ensures ParseValue(SkipWs(s), depth, tod) == ParseValue(s, depth, tod)
    ensures ParseValue(s, depth, tod).Some? ==> !Starts(SkipWs(s), CLOSE_BRACKET)
  {
    hide SkipWs, ParseStr, ParseMembers, ParseElems, Primitive;
    SkipTwice(s);
  }

  lemma QuotedRead(before: seq<Byte>, body: seq<Byte>, v: CStr, depth: nat, tod: Strtod, rest: seq<Byte>)
    requires depth <= 64 && AllWs(before) && SpellsString(body, v)
    ensures ParseValue(Text(Quoted(before, body), rest), depth, tod) == Some((Leaf(Str(Some(v))), rest))
  {
    hide SkipWs, ParseStr, SpellsString;
    SkipToMark(before, 34, body + ([34] + rest));
    StringRead(body, v, rest);
  }

  lemma TokenRead(before: seq<Byte>, t: seq<Byte>, v: Value, depth: nat, tod: Strtod, rest: seq<Byte>)
    requires depth <= 64 && AllWs(before) && TokenMeans(t, v, tod) && Delimited(rest)
    ensures ParseValue(Text(Token(before, t), rest), depth, tod) == Some((Leaf(v), rest))
  {
    hide SkipWs, ParseStr, ParseMembers, ParseElems, Primitive, PrimLen, TokenMeans, PrintsToken;
    var s := t + rest;
    TokenShape(t, v, tod);
    TokenStarts(t);
    TokenIff(t, v, tod);
    SkipOver(before, s);
    SkipStops(s);
    PrimLenOfToken(t, rest);
    assert s[..|t|] == t && s[|t|..] == rest;
  }

  lemma EmptyRead(before: seq<Byte>, inside: seq<Byte>, depth: nat, tod: Strtod, rest: seq<Byte>)
    requires depth <= 64 && AllWs(before) && AllWs(inside)
    ensures ParseValue(Text(EmptyObject(before, inside), rest), depth, tod) == Some((Obj([]), rest))
    ensures ParseValue(Text(EmptyArray(before, inside), rest), depth, tod) == Some((Arr([]), rest))
  {
    hide SkipWs, ParseStr, ParseMembers, ParseElems;
    SkipToMark(before, 123, inside + ([125] + rest));
    SkipToMark(before, 91, inside + ([93] + rest));
    SkipToMark(inside, 125, rest);
    SkipToMark(inside, 93, rest);
    Uncons(123, inside + ([125] + rest));
    Uncons(91, inside + ([93] + rest));
    Uncons(125, rest);
    Uncons(93, rest);
  }

  /** A written value is read as what it denotes, up to the end of its text. */
  lemma {:induction false} ValueRead(w: Written, j: Json, depth: nat, tod: Strtod, rest: seq<Byte>)
    requires Denotes(w, j, depth, tod) && Delimited(rest)
    ensures ParseValue(Text(w, rest), depth, tod) == Some((j, rest))
    decreases w
  {
    match w {
      case Quoted(before, body) => QuotedRead(before, body, j.v.s.value, depth, tod, rest);
      case Token(before, token) => TokenRead(before, token, j.v, depth, tod, rest);
      case EmptyObject(before, inside) => EmptyRead(before, inside, depth, tod, rest);
      case EmptyArray(before, inside) => EmptyRead(before, inside, depth, tod, rest);
      case Object(before, entries) =>
        EntriesRead(entries, j.members, {}, depth, tod, rest);
        ObjectRead(before, entries, j.members, depth, tod, rest);
      case Array(before, items) =>
        ItemsRead(items, j.elems, depth, tod, rest);
        ArrayRead(before, items, j.elems, depth, tod, rest);
    }
  }

  lemma ObjectRead(before: seq<Byte>, es: seq<Entry>, ms: seq<(CStr, Json)>, depth: nat, tod: Strtod, rest: seq<Byte>)
    requires depth <= 64 && AllWs(before)
    requires Starts(SkipWs(EntriesText(es, rest)), QUOTE) && ParseMembers(SkipWs(EntriesText(es, rest)), {}, depth, tod) == Some((ms, rest))
    ensures ParseValue(Text(Object(before, es), rest), depth, tod) == Some((Obj(ms), rest))
  {
    hide SkipWs, ParseMembers, ParseElems, ParseStr, EntriesText;
    SkipToMark(before, 123, EntriesText(es, rest));
    Uncons(123, EntriesText(es, rest));
  }

  lemma ArrayRead(before: seq<Byte>, es: seq<Item>, js: seq<Json>, depth: nat, tod: Strtod, rest: seq<Byte>)
    requires depth <= 64 && AllWs(before)
    requires !Starts(SkipWs(ItemsText(es, rest)), CLOSE_BRACKET) && ParseElems(SkipWs(ItemsText(es, rest)), depth, tod) == Some((js, rest))
    ensures ParseValue(Text(Array(before, es), rest), depth, tod) == Some((Arr(js), rest))
  {
    hide SkipWs, ParseMembers, ParseElems, ParseStr, ItemsText;
    SkipToMark(before, 91, ItemsText(es, rest));
    Uncons(91, ItemsText(es, rest));
  }

  lemma {:induction false} EntriesRead(es: seq<Entry>, ms: seq<(CStr, Json)>, seen: set<CStr>, depth: nat, tod: Strtod, rest: seq<Byte>)
    requires EntriesDenote(es, ms, seen, depth, tod)
    ensures Starts(SkipWs(EntriesText(es, rest)), QUOTE)
    ensures ParseMembers(SkipWs(EntriesText(es, rest)), seen, depth, tod) == Some((ms, rest))
    decreases es
  {
    hide SkipWs, ParseStr, ParseValue, SpellsString, Denotes, Text;
    assert (es decreases to es[0]) && (es[0] decreases to es[0].value);
    var e, key, v := es[0], ms[0].0, ms[0].1;
    var more := if |es| == 1 then [125] + rest else [44] + EntriesText(es[1..], rest);
    var value := Text(e.value, e.post + more);
    var x := e.name + ([34] + (e.mid + ([58] + value)));
    SkipToMark(e.pre, 34, x);
    StringRead(e.name, key, e.mid + ([58] + value));
    SkipToMark(e.mid, 58, value);
    Uncons(58, value);
    assert ms == [(key, v)] + ms[1..];
    if |es| == 1 {
      BehindWhite(e.post, 125, rest);
      ValueRead(e.value, v, depth + 1, tod, e.post + more);
      Uncons(125, rest);
      assert ms == [(key, v)];
    } else {
      BehindWhite(e.post, 44, EntriesText(es[1..], rest));
      ValueRead(e.value, v, depth + 1, tod, e.post + more);
      Uncons(44, EntriesText(es[1..], rest));
      EntriesRead(es[1..], ms[1..], seen + {key}, depth, tod, rest);
    }
  }

  lemma {:induction false} ItemsRead(es: seq<Item>, js: seq<Json>, depth: nat, tod: Strtod, rest: seq<Byte>)
    requires ItemsDenote(es, js, depth, tod)
    ensures !Starts(SkipWs(ItemsText(es, rest)), CLOSE_BRACKET)
    ensures ParseElems(SkipWs(ItemsText(es, rest)), depth, tod) == Some((js, rest))
    decreases es
  {
    hide SkipWs, ParseValue, Denotes, Text;
    assert (es decreases to es[0]) && (es[0] decreases to es[0].value);
    var e, v := es[0], js[0];
    var more := if |es| == 1 then [93] + rest else [44] + ItemsText(es[1..], rest);
    ReadAfterSkip(Text(e.value, e.post + more), depth + 1, tod);
    assert js == [v] + js[1..];
    if |es| == 1 {
      BehindWhite(e.post, 93, rest);
      ValueRead(e.value, v, depth + 1, tod, e.post + more);
      Uncons(93, rest);
      assert js == [v];
    } else {
      BehindWhite(e.post, 44, ItemsText(es[1..], rest));
      ValueRead(e.value, v, depth + 1, tod, e.post + more);
      Uncons(44, ItemsText(es[1..], rest));
      ItemsRead(es[1..], js[1..], depth, tod, rest);
    }
  }

  // ----- Everything that is read is a text of the grammar -----

  lemma Cons(s: seq<Byte>, c: Byte)
    requires Starts(s, c)
    ensures s == [c] + s[1..]
  {
  }

  lemma QuotedFound(before: seq<Byte>, s: seq<Byte>, depth: nat, tod: Strtod) returns (w: Written)
    requires depth <= 64 && AllWs(before) && ParseStr(s).Some?
    ensures Denotes(w, Leaf(Str(Some(ParseStr(s).value.0))), depth, tod) && before + s == Text(w, ParseStr(s).value.1)
  {
    hide ParseStr, SpellsString;
    var body := StringFound(s);
    w := Quoted(before, body);
  }

  lemma TokenFound(before: seq<Byte>, s: seq<Byte>, n: nat, v: Value, depth: nat, tod: Strtod)
    requires depth <= 64 && AllWs(before) && n <= |s| && Primitive(s[..n], tod) == Some(v)
    ensures Denotes(Token(before, s[..n]), Leaf(v), depth, tod) && before + s == Text(Token(before, s[..n]), s[n..])
  {
    hide Primitive, TokenMeans;
    TokenIff(s[..n], v, tod);
    assert s == s[..n] + s[n..];
  }

  /** What is read of a value is written in one way or another. */
  lemma {:induction false} ValueFound(s0: seq<Byte>, depth: nat, tod: Strtod) returns (w: Written)
    requires ParseValue(s0, depth, tod).Some?
    ensures Denotes(w, ParseValue(s0, depth, tod).value.0, depth, tod) && s0 == Text(w, ParseValue(s0, depth, tod).value.1)
    decreases |s0|, 1
  {
    hide SkipWs, ParseStr, ParseMembers, ParseElems, Primitive, PrimLen, Denotes, Text;
    var before := Skipped(s0);
    var s := SkipWs(s0);
    if s[0] == QUOTE {
      w := QuotedFound(before, s, depth, tod);
    } else if s[0] == OPEN_BRACE {
      w := ObjectFound(before, s, depth, tod);
    } else if s[0] == OPEN_BRACKET {
      w := ArrayFound(before, s, depth, tod);
    } else {
      var n := PrimLen(s);
      w := Token(before, s[..n]);
      TokenFound(before, s, n, Primitive(s[..n], tod).value, depth, tod);
    }
  }

  lemma {:induction false} ObjectFound(before: seq<Byte>, s: seq<Byte>, depth: nat, tod: Strtod) returns (w: Written)
    requires depth <= 64 && AllWs(before) && Starts(s, OPEN_BRACE)
    requires Starts(SkipWs(s[1..]), CLOSE_BRACE) || ParseMembers(SkipWs(s[1..]), {}, depth, tod).Some?
    ensures var t := SkipWs(s[1..]);
            if Starts(t, CLOSE_BRACE) then Denotes(w, Obj([]), depth, tod) && before + s == Text(w, t[1..])
            else
              var r := ParseMembers(t, {}, depth, tod).value;
              Denotes(w, Obj(r.0), depth, tod) && before + s == Text(w, r.1)
    decreases |s|, 0
  {
    hide SkipWs, ParseMembers, EntriesText, EntriesDenote;
    Cons(s, OPEN_BRACE);
    var t := SkipWs(s[1..]);
    if Starts(t, CLOSE_BRACE) {
      var inside := Skipped(s[1..]);
      Cons(t, CLOSE_BRACE);
      w := EmptyObject(before, inside);
    } else {
      var es := EntriesFound(s[1..], {}, depth, tod);
      w := Object(before, es);
    }
  }

  lemma {:induction false} ArrayFound(before: seq<Byte>, s: seq<Byte>, depth: nat, tod: Strtod) returns (w: Written)
    requires depth <= 64 && AllWs(before) && Starts(s, OPEN_BRACKET)
    requires Starts(SkipWs(s[1..]), CLOSE_BRACKET) || ParseElems(SkipWs(s[1..]), depth, tod).Some?
    ensures var t := SkipWs(s[1..]);
            if Starts(t, CLOSE_BRACKET) then Denotes(w, Arr([]), depth, tod) && before + s == Text(w, t[1..])
            else
              var r := ParseElems(t, depth, tod).value;
              Denotes(w, Arr(r.0), depth, tod) && before + s == Text(w, r.1)
    decreases |s|, 0
  {
    hide SkipWs, ParseElems, ItemsText, ItemsDenote;
    Cons(s, OPEN_BRACKET);
    var t := SkipWs(s[1..]);
    if Starts(t, CLOSE_BRACKET) {
      var inside := Skipped(s[1..]);
      Cons(t, CLOSE_BRACKET);
      w := EmptyArray(before, inside);
    } else {
      var es := ItemsFound(s[1..], depth, tod);
      w := Array(before, es);
    }
  }

  lemma {:induction false} EntriesFound(s: seq<Byte>, seen: set<CStr>, depth: nat, tod: Strtod) returns (es: seq<Entry>)
    requires ParseMembers(SkipWs(s), seen, depth, tod).Some?
    ensures var r := ParseMembers(SkipWs(s), seen, depth, tod).value;
            EntriesDenote(es, r.0, seen, depth, tod) && s == EntriesText(es, r.1)
    decreases |s|, 2
  {
    hide SkipWs, ParseStr, ParseValue, SpellsString, Denotes, Text;
    var pre := Skipped(s);
    var x := SkipWs(s);
    var key, r0 := ParseStr(x).value.0, ParseStr(x).value.1;
    var name := StringFound(x);
    var mid := Skipped(r0);
    var r1 := SkipWs(r0);
    Cons(r1, 58);
    var value := ValueFound(r1[1..], depth + 1, tod);
    var v, r2 := ParseValue(r1[1..], depth + 1, tod).value.0, ParseValue(r1[1..], depth + 1, tod).value.1;
    var post := Skipped(r2);
    var r3 := SkipWs(r2);
    var e := Entry(pre, name, mid, value, post);
    if Starts(r3, CLOSE_BRACE) {
      Cons(r3, CLOSE_BRACE);
      es := [e];
    } else {
      Cons(r3, COMMA);
      var more := EntriesFound(r3[1..], seen + {key}, depth, tod);
      es := [e] + more;
      var ms := ParseMembers(x, seen, depth, tod).value.0;
      assert es[1..] == more && ms[1..] == ParseMembers(SkipWs(r3[1..]), seen + {key}, depth, tod).value.0;
    }
  }

  lemma {:induction false} ItemsFound(s: seq<Byte>, depth: nat, tod: Strtod) returns (es: seq<Item>)
    requires ParseElems(SkipWs(s), depth, tod).Some?
    ensures var r := ParseElems(SkipWs(s), depth, tod).value;
            ItemsDenote(es, r.0, depth, tod) && s == ItemsText(es, r.1)
    decreases |s|, 2
  {
    hide SkipWs, ParseValue, Denotes, Text;
    ReadAfterSkip(s, depth + 1, tod);
    var value := ValueFound(s, depth + 1, tod);
    var v, r2 := ParseValue(s, depth + 1, tod).value.0, ParseValue(s, depth + 1, tod).value.1;
    var post := Skipped(r2);
    var r3 := SkipWs(r2);
    var e := Item(value, post);
    if Starts(r3, CLOSE_BRACKET) {
      Cons(r3, CLOSE_BRACKET);
      es := [e];
    } else {
      Cons(r3, COMMA);
      var more := ItemsFound(r3[1..], depth, tod);
      es := [e] + more;
      var js := ParseElems(SkipWs(s), depth, tod).value.0;
      assert es[1..] == more && js[1..] == ParseElems(SkipWs(r3[1..]), depth, tod).value.0;
    }
  }

  /** The reader accepts exactly the texts of the grammar, and reads each as what it denotes. */
  lemma ReadIff(s: seq<Byte>, j: Json, tod: Strtod)
    ensures ParseText(s, tod) == Some(j) <==> IsText(s, j, tod)
  {
    hide ParseValue, Denotes, Text, SkipWs;
    if ParseText(s, tod) == Some(j) {
      var w := ValueFound(s, 0, tod);
      var after := Skipped(ParseValue(s, 0, tod).value.1);
      assert after + [] == after;
    }
    if IsText(s, j, tod) {
      var w, after :| Denotes(w, j, 0, tod) && AllWs(after) && s == Text(w, after);
      WhiteDelimits(after);
      ValueRead(w, j, 0, tod, after);
    }
  }

  lemma WhiteDelimits(w: seq<Byte>)
    requires AllWs(w)
    ensures Delimited(w) && SkipWs(w) == []
  {
    assert w + [] == w;
    SkipOver(w, []);
  }
}
