/**
 JSON strings: escaping, unescaping and reading a quoted token.

 A pointer into a NUL-terminated buffer is modelled by the bytes that are left
 in front of the terminator; `*p == 0` is then "nothing is left".
 */
module JsonText {
  import opened Bytes
  import opened Utf8

  const QUOTE: Byte := 34
  const BACKSLASH: Byte := 92
  const COLON: Byte := 58
  const COMMA: Byte := 44

  lemma NulFreeConcat(a: seq<Byte>, b: seq<Byte>)
    ensures NulFree(a + b) <==> NulFree(a) && NulFree(b)
  {
    if NulFree(a + b) {
      assert forall i :: 0 <= i < |a| ==> a[i] == (a + b)[i];
      assert forall i :: 0 <= i < |b| ==> b[i] == (a + b)[|a| + i];
    }
  }

  // ----- Escaping -----

  function HexDigit(n: nat): Byte
    requires n < 16
  {
    if n < 10 then 48 + n else 87 + n
  }

  function EscapeByte(c: Byte): (s: seq<Byte>) {
    if c == QUOTE then [BACKSLASH, QUOTE]
    else if c == BACKSLASH then [BACKSLASH, BACKSLASH]
    else if c == 8 then [BACKSLASH, 98]
    else if c == 12 then [BACKSLASH, 102]
    else if c == 10 then [BACKSLASH, 110]
    else if c == 13 then [BACKSLASH, 114]
    else if c == 9 then [BACKSLASH, 116]
    else if c < 0x20 then [BACKSLASH, 117, 48, 48, HexDigit(c / 16), HexDigit(c % 16)]
    else [c]
  }

  function EscapeBody(s: seq<Byte>): seq<Byte> {
    if s == [] then [] else EscapeBody(s[..|s| - 1]) + EscapeByte(s[|s| - 1])
  }

  /** No byte takes more than six. */
  lemma {:induction false} EscapeFits(s: seq<Byte>)
    ensures |EscapeBody(s)| <= 6 * |s|
  {
    if s != [] {
      EscapeFits(s[..|s| - 1]);
    }
  }

  function Escaped(s: seq<Byte>): seq<Byte> {
    [QUOTE] + EscapeBody(s) + [QUOTE]
  }

  /** A NULL string is written as the empty one.  With its terminator the text fits the six bytes per character and three more that are allocated. */
  method JsonEscape(s: Option<CStr>) returns (out: seq<Byte>)
    ensures out == Escaped(if s.None? then [] else s.value)
    ensures |out| + 1 <= 6 * (if s.None? then 0 else |s.value|) + 3
  {
    hide EscapeByte;
    if s.None? {
      return [QUOTE, QUOTE];
    }
    var t := s.value;
    out := [QUOTE];
    for i := 0 to |t|
      invariant out == [QUOTE] + EscapeBody(t[..i])
    {
      assert t[..i + 1][..i] == t[..i];
      out := out + EscapeByte(t[i]);
    }
    assert t[..|t|] == t;
    EscapeFits(t);
    out := out + [QUOTE];
  }

  // ----- Unescaping -----

  function HexValue(c: Byte): (r: Option<nat>)
    ensures r.Some? ==> r.value < 16
  {
    if 48 <= c <= 57 then Some(c - 48)
    else if 97 <= c <= 102 then Some(c - 87)
    else if 65 <= c <= 70 then Some(c - 55)
    else None
  }

  /** The value of `n` leading hex digits, if they are all there. */
  ghost function HexN(p: seq<Byte>, n: nat): (r: Option<nat>) {
    if n == 0 then Some(0)
    else if |p| < n then None
    else match (HexN(p[..n - 1], n - 1), HexValue(p[n - 1]))
      case (Some(hi), Some(lo)) => Some(16 * hi + lo)
      case _ => None
  }

  ghost function Hex4(p: seq<Byte>): (r: Option<nat>)
  {
    HexN(p, 4)
  }

  method JsonHex4(p: seq<Byte>) returns (code: Option<nat>)
    ensures code == Hex4(p)
  {
    if |p| < 4 {
      return None;
    }
    var v: nat := 0;
    for i := 0 to 4
      invariant HexN(p[..i], i) == Some(v)
    {
      assert p[..i + 1][..i] == p[..i];
      var digit := HexValue(p[i]);
      if digit.None? {
        HexFails(p, i + 1, 4);
        return None;
      }
      v := 16 * v + digit.value;
    }
    HexOfPrefix(p, 4);
    return Some(v);
  }

  lemma {:induction false} HexOfPrefix(p: seq<Byte>, n: nat)
    requires n <= |p|
    ensures HexN(p[..n], n) == HexN(p, n)
  {
    if n > 0 {
      assert p[..n][..n - 1] == p[..n - 1];
    }
  }

  lemma {:induction false} HexFails(p: seq<Byte>, m: nat, n: nat)
    requires 0 < m <= n <= |p| && HexN(p[..m], m) == None
    ensures HexN(p, n) == None
    decreases n - m
  {
    HexOfPrefix(p, m);
    if m < n {
      assert p[..m + 1][..m] == p[..m];
      HexFails(p, m + 1, n);
    }
  }

  /** What one escape stands for and how many bytes after the backslash it takes. */
  datatype Unit = Bad | Unit(bytes: seq<Byte>, taken: nat)

  /** The library's own UTF-8 writer for the code points a JSON escape can name. */
  function WriteUtf8(code: nat): (s: seq<Byte>)
    requires code < 0x20_0000
  {
    if code < 0x80 then [code]
    else if code < 0x800 then [0xC0 + code / 64, 0x80 + code % 64]
    else if code < 0x1_0000 then [0xE0 + code / 4096, 0x80 + code / 64 % 64, 0x80 + code % 64]
    else [0xF0 + code / 262144, 0x80 + code / 4096 % 64, 0x80 + code / 64 % 64, 0x80 + code % 64]
  }

  ghost function UnicodeEscape(p: seq<Byte>): Unit
    requires p != [] && p[0] == 117
  {
    match Hex4(p[1..])
    case None => Bad
    case Some(code) =>
      if code == 0 || 0xDC00 <= code <= 0xDFFF then Bad
      else if 0xD800 <= code <= 0xDBFF then
        if |p| < 11 || p[5] != BACKSLASH || p[6] != 117 then Bad
        else match Hex4(p[7..])
          case None => Bad
          case Some(low) =>
            if !(0xDC00 <= low <= 0xDFFF) then Bad
            else Unit(WriteUtf8(0x1_0000 + (code - 0xD800) * 1024 + (low - 0xDC00)), 11)
      else if code < 0x1_0000 then Unit(WriteUtf8(code), 5)
      else Bad
  }

  /** The escape after a backslash; `p` starts behind it. */
  ghost function Escape(p: seq<Byte>): Unit
    requires p != []
  {
    var c := p[0];
    if c == QUOTE || c == BACKSLASH || c == 47 then Unit([c], 1)
    else if c == 98 then Unit([8], 1)
    else if c == 102 then Unit([12], 1)
    else if c == 110 then Unit([10], 1)
    else if c == 114 then Unit([13], 1)
    else if c == 116 then Unit([9], 1)
    else if c == 117 then UnicodeEscape(p)
    else Bad
  }

  /** The text between the quotes, decoded. */
  ghost function Decode(p: seq<Byte>): Option<seq<Byte>>
    decreases |p|
  {
    if p == [] then Some([])
    else if p[0] < 0x20 || p[0] == QUOTE then None
    else if p[0] != BACKSLASH then Prepend([p[0]], Decode(p[1..]))
    else if |p| == 1 then None
    else match Escape(p[1..])
      case Bad => None
      case Unit(bytes, n) => if 0 < n <= |p| - 1 then Prepend(bytes, Decode(p[1 + n..])) else None
  }

  ghost function Prepend(a: seq<Byte>, r: Option<seq<Byte>>): Option<seq<Byte>> {
    match r case None => None case Some(b) => Some(a + b)
  }

  /** An escape stands for no more bytes than it takes, backslash included. */
  lemma EscapeShrinks(p: seq<Byte>)
    requires p != [] && Escape(p).Unit?
    ensures |Escape(p).bytes| <= Escape(p).taken + 1
  {
    hide Hex4;
  }

  lemma {:induction false} DecodeFits(p: seq<Byte>)
    requires Decode(p).Some?
    ensures |Decode(p).value| <= |p|
    decreases |p|
  {
    hide Escape;
    if p != [] {
      if p[0] != BACKSLASH {
        DecodeFits(p[1..]);
      } else {
        EscapeShrinks(p[1..]);
        DecodeFits(p[1 + Escape(p[1..]).taken..]);
      }
    }
  }

  ghost function Unescaped(token: seq<Byte>): Option<seq<Byte>> {
    var n := |token|;
    if n < 2 || token[0] != QUOTE || token[n - 1] != QUOTE then None else Decode(token[1..n - 1])
  }

  lemma HexBound(p: seq<Byte>, n: nat)
    requires n <= 4 && HexN(p, n).Some?
    ensures n <= |p|
    ensures HexN(p, n).value < if n == 0 then 1 else if n == 1 then 16 else if n == 2 then 256 else if n == 3 then 4096 else 65536
  {
    if n > 0 {
      HexBound(p[..n - 1], n - 1);
    }
  }

  /** Decode the escape behind a backslash; the source does this inside the loop of the next method. */
  method JsonUnescapeOne(p: seq<Byte>) returns (u: Unit)
    requires p != []
    ensures u == Escape(p)
    ensures u.Unit? ==> 0 < u.taken <= |p|
  {
    var c := p[0];
    if c == QUOTE || c == BACKSLASH || c == 47 {
      return Unit([c], 1);
    }
    if c == 98 { return Unit([8], 1); }
    if c == 102 { return Unit([12], 1); }
    if c == 110 { return Unit([10], 1); }
    if c == 114 { return Unit([13], 1); }
    if c == 116 { return Unit([9], 1); }
    if c != 117 {
      return Bad;
    }
    hide HexN;
    var code := JsonHex4(p[1..]);
    if code.None? || code.value == 0 {
      return Bad;
    }
    HexBound(p[1..], 4);
    var v := code.value;
    if 0xD800 <= v <= 0xDBFF {
      if |p| < 11 || p[5] != BACKSLASH || p[6] != 117 {
        return Bad;
      }
      var low := JsonHex4(p[7..]);
      if low.None? || low.value < 0xDC00 || low.value > 0xDFFF {
        return Bad;
      }
      return Unit(WriteUtf8(0x1_0000 + (v - 0xD800) * 1024 + (low.value - 0xDC00)), 11);
    }
    if 0xDC00 <= v <= 0xDFFF {
      return Bad;
    }
    return Unit(WriteUtf8(v), 5);
  }

  /** With its terminator the decoded text fits the token's own length, which is allocated. */
  method JsonUnescape(token: seq<Byte>) returns (out: Option<seq<Byte>>)
    ensures out == Unescaped(token)
    ensures out.Some? ==> |out.value| + 1 <= |token|
  {
    var n := |token|;
    if n < 2 || token[0] != QUOTE || token[n - 1] != QUOTE {
      return None;
    }
    hide Escape;
    var p := token[1..n - 1];
    var q: seq<Byte> := [];
    PrependEmpty(Decode(p));
    while p != []
      invariant Unescaped(token) == Prepend(q, Decode(p))
      // Every write lands inside the buffer, in a token that fails later as well.
      invariant |q| + |p| + 2 <= |token|
      decreases |p|
    {
      var c := p[0];
      if c < 0x20 || c == QUOTE {
        return None;
      }
      if c != BACKSLASH {
        PrependTwice(q, [c], Decode(p[1..]));
        q := q + [c];
        p := p[1..];
        continue;
      }
      if |p| == 1 {
        return None;
      }
      var u := JsonUnescapeOne(p[1..]);
      if u.Bad? {
        return None;
      }
      EscapeShrinks(p[1..]);
      PrependTwice(q, u.bytes, Decode(p[1 + u.taken..]));
      q := q + u.bytes;
      p := p[1 + u.taken..];
    }
    PrependEmpty(Some(q));
    return Some(q);
  }

  lemma PrependEmpty(r: Option<seq<Byte>>)
    ensures Prepend([], r) == r
    ensures r.Some? ==> Prepend(r.value, Some([])) == r
  {
    if r.Some? {
      assert [] + r.value == r.value == r.value + [];
    }
  }

  lemma PrependTwice(a: seq<Byte>, b: seq<Byte>, r: Option<seq<Byte>>)
    ensures Prepend(a, Prepend(b, r)) == Prepend(a + b, r)
  {
    if r.Some? {
      assert a + (b + r.value) == (a + b) + r.value;
    }
  }

  // ----- Reading a quoted token -----

  /** How far the closing quote is; the scan knows escapes only well enough not to stop at an escaped quote. */
  ghost function ScanQuote(s: seq<Byte>): (n: Option<nat>)
    ensures n.Some? ==> n.value < |s| && s[n.value] == QUOTE
    decreases |s|
  {
    if s == [] then None
    else if s[0] == QUOTE then Some(0)
    else if s[0] < 0x20 then None
    else if s[0] == BACKSLASH then
      if |s| == 1 then None
      else match ScanQuote(s[2..]) case None => None case Some(n) => Some(n + 2)
    else match ScanQuote(s[1..]) case None => None case Some(n) => Some(n + 1)
  }

  /** The decoded string and what follows the closing quote. */
  ghost function ParseStr(s: seq<Byte>): (r: Option<(CStr, seq<Byte>)>)
    ensures r.Some? ==> |r.value.1| + 2 <= |s|
  {
    if s == [] || s[0] != QUOTE then None
    else match ScanQuote(s[1..])
      case None => None
      case Some(n) =>
        match Decode(s[1..1 + n])
        case None => None
        case Some(out) => DecodeNulFree(s[1..1 + n]); Some((out, s[2 + n..]))
  }

  method JsonParseStr(s: seq<Byte>) returns (r: Option<(CStr, seq<Byte>)>)
    ensures r == ParseStr(s)
  {
    hide Decode, ScanQuote;
    if s == [] || s[0] != QUOTE {
      return None;
    }
    var n := JsonScanQuote(s[1..]);
    if n.None? {
      return None;
    }
    var token := s[..n.value + 2];
    InnerSlice(s, n.value);
    var out := JsonUnescape(token);
    if out.None? {
      return None;
    }
    DecodeNulFree(s[1..1 + n.value]);
    var str: CStr := out.value;
    return Some((str, s[n.value + 2..]));
  }

  /** One turn of the scan. */
  lemma ScanAt(s: seq<Byte>, i: nat)
    requires i < |s| && s[i] != QUOTE
    ensures s[i] < 0x20 ==> ScanQuote(s[i..]) == None
    ensures s[i] == BACKSLASH && i + 1 == |s| ==> ScanQuote(s[i..]) == None
    ensures s[i] == BACKSLASH && i + 1 < |s| ==> ScanQuote(s[i..]) == Later(2, ScanQuote(s[i + 2..]))
    ensures s[i] != BACKSLASH && s[i] >= 0x20 ==> ScanQuote(s[i..]) == Later(1, ScanQuote(s[i + 1..]))
  {
    assert s[i..][1..] == s[i + 1..];
    if i + 1 < |s| {
      assert s[i..][2..] == s[i + 2..];
    }
  }

  lemma ScanEnds(s: seq<Byte>)
    ensures s == [] ==> ScanQuote(s) == None
    ensures s != [] && s[0] == QUOTE ==> ScanQuote(s) == Some(0)
  {
  }

  /** The scan for the closing quote. */
  method JsonScanQuote(s: seq<Byte>) returns (n: Option<nat>)
    ensures n == ScanQuote(s)
  {
    hide ScanQuote;
    var i := 0;
    while i < |s| && s[i] != QUOTE
      invariant i <= |s|
      invariant ScanQuote(s) == Later(i, ScanQuote(s[i..]))
    {
      ScanAt(s, i);
      if s[i] < 0x20 {
        return None;
      }
      if s[i] == BACKSLASH {
        if i + 1 == |s| {
          return None;
        }
        i := i + 1;
      }
      i := i + 1;
    }
    ScanEnds(s[i..]);
    if i == |s| {
      return None;
    }
    return Some(i);
  }

  ghost function Later(k: nat, n: Option<nat>): Option<nat> {
    match n case None => None case Some(m) => Some(m + k)
  }

  // ----- Reading undoes escaping -----

  lemma ScanOverOne(c: Byte, rest: seq<Byte>)
    requires c != 0
    ensures ScanQuote(EscapeByte(c) + rest) == Later(|EscapeByte(c)|, ScanQuote(rest))
  {
    hide ScanQuote;
    var e := EscapeByte(c);
    if |e| == 1 {
      ScanPlain(c, rest);
    } else if |e| == 2 {
      ScanEscape(e[1], rest);
    } else {
      ScanControl(HexDigit(c / 16), HexDigit(c % 16), rest);
    }
  }

  lemma ScanControl(h: Byte, l: Byte, rest: seq<Byte>)
    requires h >= 48 && l >= 48 && h < 123 && l < 123 && h != BACKSLASH && l != BACKSLASH
    ensures ScanQuote([BACKSLASH, 117, 48, 48, h, l] + rest) == Later(6, ScanQuote(rest))
  {
    hide ScanQuote;
    var r3 := [l] + rest;
    var r2 := [h] + r3;
    var r1 := [48] + r2;
    var r0 := [48] + r1;
    ScanEscape(117, r0);
    ScanPlain(48, r1);
    ScanPlain(48, r2);
    ScanPlain(h, r3);
    ScanPlain(l, rest);
    assert [BACKSLASH, 117, 48, 48, h, l] + rest == [BACKSLASH, 117] + r0;
  }

  lemma ScanEscape(c: Byte, rest: seq<Byte>)
    ensures ScanQuote([BACKSLASH, c] + rest) == Later(2, ScanQuote(rest))
  {
    assert ([BACKSLASH, c] + rest)[2..] == rest;
  }

  lemma ScanPlain(c: Byte, rest: seq<Byte>)
    requires c >= 0x20 && c != QUOTE && c != BACKSLASH
    ensures ScanQuote([c] + rest) == Later(1, ScanQuote(rest))
  {
    assert ([c] + rest)[1..] == rest;
  }

  lemma EscapeBodyEmpty(rest: seq<Byte>)
    ensures EscapeBody([]) == [] && EscapeBody([]) + rest == rest
  {
  }

  lemma EscapeBodyLast(s: seq<Byte>, rest: seq<Byte>)
    requires s != []
    ensures EscapeBody(s) + rest == EscapeBody(s[..|s| - 1]) + (EscapeByte(s[|s| - 1]) + rest)
    ensures |EscapeBody(s)| == |EscapeBody(s[..|s| - 1])| + |EscapeByte(s[|s| - 1])|
  {
  }

  lemma {:induction false} ScanOverBody(s: seq<Byte>, rest: seq<Byte>)
    requires NulFree(s)
    ensures ScanQuote(EscapeBody(s) + rest) == Later(|EscapeBody(s)|, ScanQuote(rest))
  {
    hide ScanQuote, EscapeByte, EscapeBody;
    if s == [] {
      EscapeBodyEmpty(rest);
    } else {
      var n := |s| - 1;
      var tail := EscapeByte(s[n]) + rest;
      EscapeBodyLast(s, rest);
      ScanOverBody(s[..n], tail);
      ScanOverOne(s[n], rest);
    }
  }

  lemma DecodeOne(c: Byte, rest: seq<Byte>)
    requires c != 0
    ensures Decode(EscapeByte(c) + rest) == Prepend([c], Decode(rest))
  {
    var s := EscapeByte(c) + rest;
    var n := |EscapeByte(c)|;
    assert s[n..] == rest;
    if n == 6 {
      var p := s[1..];
      var h, l := HexDigit(c / 16), HexDigit(c % 16);
      assert p[1..] == [48, 48, h, l] + rest;
      HexOfFour(48, 48, h, l, rest);
      assert HexValue(h) == Some(c / 16) && HexValue(l) == Some(c % 16);
      assert Hex4(p[1..]) == Some(c);
      assert Escape(p) == Unit([c], 5);
      assert s[1 + 5..] == rest;
    } else if n == 2 {
      assert s[1 + 1..] == rest;
    }
  }

  lemma HexOfFour(a: Byte, b: Byte, c: Byte, d: Byte, rest: seq<Byte>)
    requires HexValue(a).Some? && HexValue(b).Some? && HexValue(c).Some? && HexValue(d).Some?
    ensures Hex4([a, b, c, d] + rest)
            == Some(16 * (16 * (16 * HexValue(a).value + HexValue(b).value) + HexValue(c).value) + HexValue(d).value)
  {
    var p := [a, b, c, d] + rest;
    assert p[..3] == [a, b, c] && [a, b, c][..2] == [a, b] && [a, b][..1] == [a] && [a][..0] == [];
    assert HexN([a], 1) == Some(HexValue(a).value);
    assert HexN([a, b], 2) == Some(16 * HexValue(a).value + HexValue(b).value);
    assert HexN([a, b, c], 3).Some?;
  }

  lemma {:induction false} DecodeBody(s: seq<Byte>, rest: seq<Byte>)
    requires NulFree(s)
    ensures Decode(EscapeBody(s) + rest) == Prepend(s, Decode(rest))
  {
    hide Decode, EscapeByte, EscapeBody;
    if s == [] {
      EscapeBodyEmpty(rest);
      PrependEmpty(Decode(rest));
    } else {
      var n := |s| - 1;
      var tail := EscapeByte(s[n]) + rest;
      EscapeBodyLast(s, rest);
      DecodeBody(s[..n], tail);
      DecodeOne(s[n], rest);
      PrependTwice(s[..n], [s[n]], Decode(rest));
      assert s[..n] + [s[n]] == s;
    }
  }

  lemma DecodeNothing()
    ensures Decode([]) == Some([])
  {
  }

  /** Reading an escaped string gives back the string and leaves what follows it, for every C string. */
  lemma ParseStrOfEscaped(s: CStr, rest: seq<Byte>)
    ensures ParseStr(Escaped(s) + rest) == Some((s, rest))
    ensures Unescaped(Escaped(s)) == Some(s)
  {
    hide ScanQuote, Decode, EscapeBody;
    var body := EscapeBody(s);
    var all := Escaped(s) + rest;
    assert all[1..] == body + ([QUOTE] + rest);
    ScanOverBody(s, [QUOTE] + rest);
    ScanEnds([QUOTE] + rest);
    DecodeNothing();
    assert all[1..1 + |body|] == body == Escaped(s)[1..|Escaped(s)| - 1];
    assert body + [] == body;
    DecodeBody(s, []);
    PrependEmpty(Some(s));
    assert all[2 + |body|..] == rest;
  }

  // ----- What unescaping writes -----

  lemma DivTwice(code: nat)
    ensures code / 64 / 64 == code / 4096 && code / 4096 / 64 == code / 262144
  {
  }

  lemma HighParts(code: nat)
    ensures High(code, 1) == code / 64 && High(code, 2) == code / 4096 && High(code, 3) == code / 262144
  {
    DivTwice(code);
    assert High(code / 4096, 0) == code / 4096 && High(code / 262144, 0) == code / 262144;
    assert High(code, 2) == High(code / 64, 1) == High(code / 64 / 64, 0);
    assert High(code, 3) == High(code / 64, 2) == High(code / 64 / 64, 1) == High(code / 64 / 64 / 64, 0);
  }

  lemma TailOne(code: nat)
    ensures Tail(code, 1) == [0x80 + code % 64]
  {
    assert Tail(code / 64, 0) == [];
  }

  lemma TailTwo(code: nat)
    ensures Tail(code, 2) == [0x80 + code / 64 % 64, 0x80 + code % 64]
  {
    TailOne(code / 64);
  }

  lemma TailThree(code: nat)
    ensures Tail(code, 3) == [0x80 + code / 4096 % 64, 0x80 + code / 64 % 64, 0x80 + code % 64]
  {
    DivTwice(code);
    TailTwo(code / 64);
  }

  lemma WriteOne(code: nat)
    requires code < 0x80
    ensures WriteUtf8(code) == Form(code, 1)
  {
    assert High(code, 0) == code && Tail(code, 0) == [];
  }

  lemma WriteTwo(code: nat)
    requires 0x80 <= code < 0x800
    ensures WriteUtf8(code) == Form(code, 2)
  {
    hide High, Tail;
    HighParts(code);
    TailOne(code);
    SmallMod(code / 64, 32);
  }

  lemma WriteThree(code: nat)
    requires 0x800 <= code < 0x1_0000
    ensures WriteUtf8(code) == Form(code, 3)
  {
    hide High, Tail;
    HighParts(code);
    TailTwo(code);
    SmallMod(code / 4096, 16);
  }

  lemma WriteFour(code: nat)
    requires 0x1_0000 <= code < 0x20_0000
    ensures WriteUtf8(code) == Form(code, 4)
  {
    hide High, Tail;
    HighParts(code);
    TailThree(code);
    SmallMod(code / 262144, 8);
  }

  /** The JSON reader and the terminal driver write the same UTF-8. */
  lemma WriteUtf8IsEncode(code: nat)
    requires code < 0x20_0000
    ensures WriteUtf8(code) == Encode(code)
  {
    hide Form, WriteUtf8;
    if code < 0x80 {
      WriteOne(code);
    } else if code < 0x800 {
      WriteTwo(code);
    } else if code < 0x1_0000 {
      WriteThree(code);
    } else {
      WriteFour(code);
    }
  }

  /** Every accepted \u escape, alone or as a surrogate pair, decodes to the UTF-8 of a code point that is not a surrogate, never to NUL. */
  lemma UnicodeEscapeIsUtf8(p: seq<Byte>) returns (code: nat)
    requires p != [] && p[0] == 117 && UnicodeEscape(p).Unit?
    ensures UnicodeEscape(p).bytes == Encode(code) && 0 < code < 0x11_0000 && !(0xD800 <= code <= 0xDFFF)
    ensures NulFree(UnicodeEscape(p).bytes)
  {
    HexBound(p[1..], 4);
    code := Hex4(p[1..]).value;
    if 0xD800 <= code <= 0xDBFF {
      code := 0x1_0000 + (code - 0xD800) * 1024 + (Hex4(p[7..]).value - 0xDC00);
    }
    WriteUtf8IsEncode(code);
  }

  /** Unescaping yields a C string: no NUL is ever decoded. */
  lemma {:induction false} DecodeNulFree(p: seq<Byte>)
    requires Decode(p).Some?
    ensures NulFree(Decode(p).value)
    decreases |p|
  {
    if p != [] {
      if p[0] != BACKSLASH {
        DecodeNulFree(p[1..]);
        NulFreeConcat([p[0]], Decode(p[1..]).value);
      } else {
        var u := Escape(p[1..]);
        if p[1] == 117 {
          var _ := UnicodeEscapeIsUtf8(p[1..]);
        }
        DecodeNulFree(p[1 + u.taken..]);
        NulFreeConcat(u.bytes, Decode(p[1 + u.taken..]).value);
      }
    }
  }
}
