/**
 The strings of JSON as a grammar (RFC 8259, section 7): a string is a row of
 pieces, and a piece is a character as it stands, a short escape, or the UTF-16 code
 units of a code point in hexadecimal.  Decoding accepts exactly these, and
 escaping writes the shortest of them.
 */
module JsonStrings {
  import opened Bytes
  import opened Utf8
  import opened JsonText

  const LOWER_DIGITS := "0123456789abcdef"
  const UPPER_DIGITS := "0123456789ABCDEF"

  /** `c` is a hexadecimal digit of value `v`, in either case. */
  predicate IsHex(c: Byte, v: nat) {
    v < 16 && (LOWER_DIGITS[v] as int == c as int || UPPER_DIGITS[v] as int == c as int)
  }

  ghost predicate IsHexFour(t: seq<Byte>, v: nat) {
    && |t| == 4 && v < 65536
    && IsHex(t[0], v / 4096) && IsHex(t[1], v / 256 % 16) && IsHex(t[2], v / 16 % 16) && IsHex(t[3], v % 16)
  }

  /** A code point a text can hold: not NUL, not a surrogate. */
  predicate Scalar(code: nat) {
    0 < code < 0x11_0000 && !(0xD800 <= code < 0xE000)
  }

  /** A code unit as a backslash, a `u` and four hexadecimal digits. */
  ghost predicate IsUnit(t: seq<Byte>, v: nat) {
    |t| == 6 && t[0] == 92 && t[1] == 117 && IsHexFour(t[2..], v)
  }

  /** The UTF-16 code units of a code point, one or a surrogate pair (RFC 2781, section 2.1). */
  ghost predicate SpellsCode(t: seq<Byte>, code: nat)
    requires Scalar(code)
  {
    if code < 0x1_0000 then IsUnit(t, code)
    else |t| == 12 && IsUnit(t[..6], 0xD800 + (code - 0x1_0000) / 1024) && IsUnit(t[6..], 0xDC00 + (code - 0x1_0000) % 1024)
  }

  /** The character that a short escape stands for. */
  predicate IsShort(c: Byte, b: Byte) {
    || (c == b && c in {34, 92, 47})
    || (c == 98 && b == 8) || (c == 102 && b == 12) || (c == 110 && b == 10) || (c == 114 && b == 13) || (c == 116 && b == 9)
  }

  ghost predicate PlainPiece(t: seq<Byte>, b: seq<Byte>) {
    |t| == 1 && t[0] >= 0x20 && t[0] != 34 && t[0] != 92 && b == t
  }

  ghost predicate ShortPiece(t: seq<Byte>, b: seq<Byte>) {
    |t| == 2 && t[0] == 92 && |b| == 1 && IsShort(t[1], b[0])
  }

  ghost predicate UnicodePiece(t: seq<Byte>, b: seq<Byte>) {
    exists code :: Scalar(code) && SpellsCode(t, code) && b == Encode(code)
  }

  /** One piece of text and the bytes it stands for. */
  ghost predicate Piece(t: seq<Byte>, b: seq<Byte>) {
    PlainPiece(t, b) || ShortPiece(t, b) || UnicodePiece(t, b)
  }

  /** The text between the quotes is a row of pieces that stand for `b`. */
  ghost predicate SpellsString(t: seq<Byte>, b: seq<Byte>)
    decreases |t|
  {
    if t == [] then b == []
    else exists n, m :: 0 < n <= |t| && 0 <= m <= |b| && Piece(t[..n], b[..m]) && SpellsString(t[n..], b[m..])
  }

  // ----- Hexadecimal -----

  lemma HexIff(c: Byte, v: nat)
    ensures HexValue(c) == Some(v) <==> IsHex(c, v)
  {
  }

  lemma HexFourIff(p: seq<Byte>, v: nat)
    ensures Hex4(p) == Some(v) <==> |p| >= 4 && IsHexFour(p[..4], v)
  {
    hide HexValue, IsHex;
    if |p| >= 4 {
      var rest := p[4..];
      assert p == [p[0], p[1], p[2], p[3]] + rest;
      HexIff(p[0], v / 4096);
      HexIff(p[1], v / 256 % 16);
      HexIff(p[2], v / 16 % 16);
      HexIff(p[3], v % 16);
      if HexValue(p[0]).Some? && HexValue(p[1]).Some? && HexValue(p[2]).Some? && HexValue(p[3]).Some? {
        HexOfFour(p[0], p[1], p[2], p[3], rest);
        DigitsOfFour(HexValue(p[0]).value, HexValue(p[1]).value, HexValue(p[2]).value, HexValue(p[3]).value);
        if v < 65536 {
          FourOfDigits(v);
        }
      } else {
        HexMissing(p);
      }
    }
  }

  lemma DigitsOfFour(a: nat, b: nat, c: nat, d: nat)
    requires a < 16 && b < 16 && c < 16 && d < 16
    ensures var v := 16 * (16 * (16 * a + b) + c) + d;
            v < 65536 && v / 4096 == a && v / 256 % 16 == b && v / 16 % 16 == c && v % 16 == d
  {
  }

  lemma FourOfDigits(v: nat)
    requires v < 65536
    ensures v == 16 * (16 * (16 * (v / 4096) + v / 256 % 16) + v / 16 % 16) + v % 16
  {
    var a := v / 16;
    assert v == 16 * a + v % 16;
    var b := a / 16;
    assert a == 16 * b + a % 16 && b == v / 256;
    assert b == 16 * (b / 16) + b % 16 && b / 16 == v / 4096;
  }

  lemma HexMissing(p: seq<Byte>)
    requires |p| >= 4
    requires HexValue(p[0]).None? || HexValue(p[1]).None? || HexValue(p[2]).None? || HexValue(p[3]).None?
    ensures Hex4(p) == None
  {
    hide HexN, HexValue;
    HexDigitNeeded(p, 4);
    HexDigitNeeded(p[..3], 3);
    HexDigitNeeded(p[..3][..2], 2);
    HexDigitNeeded(p[..3][..2][..1], 1);
  }

  lemma HexDigitNeeded(p: seq<Byte>, n: nat)
    requires 0 < n <= |p|
    ensures HexN(p, n).Some? <==> HexN(p[..n - 1], n - 1).Some? && HexValue(p[n - 1]).Some?
  {
  }

  // ----- Decoding reads pieces -----

  lemma PairArithmetic(code: nat)
    requires 0x1_0000 <= code < 0x11_0000
    ensures var hi, lo := 0xD800 + (code - 0x1_0000) / 1024, 0xDC00 + (code - 0x1_0000) % 1024;
            && 0xD800 <= hi < 0xDC00 && 0xDC00 <= lo < 0xE000
            && code == 0x1_0000 + (hi - 0xD800) * 1024 + (lo - 0xDC00)
  {
  }

  lemma PairOfUnits(hi: nat, lo: nat)
    requires 0xD800 <= hi < 0xDC00 && 0xDC00 <= lo < 0xE000
    ensures var code := 0x1_0000 + (hi - 0xD800) * 1024 + (lo - 0xDC00);
            && 0x1_0000 <= code < 0x11_0000
            && hi == 0xD800 + (code - 0x1_0000) / 1024 && lo == 0xDC00 + (code - 0x1_0000) % 1024
  {
  }

  /** What the reader finds behind the backslash of a unit. */
  lemma UnitIsRead(t: seq<Byte>, v: nat, rest: seq<Byte>)
    requires IsUnit(t, v)
    ensures Hex4((t + rest)[2..]) == Some(v) && (t + rest)[6..] == rest
  {
    hide Hex4, IsHexFour;
    var p := (t + rest)[2..];
    assert p[..4] == t[2..];
    HexFourIff(p, v);
  }

  /** A unit or a pair in hexadecimal decodes to the UTF-8 of its code point. */
  lemma CodeDecodes(code: nat, t: seq<Byte>, rest: seq<Byte>)
    requires Scalar(code) && SpellsCode(t, code)
    ensures t != [] && t[0] == 92
    ensures |t| == if code < 0x1_0000 then 6 else 12
    ensures Escape((t + rest)[1..]) == Unit(WriteUtf8(code), |t| - 1)
  {
    hide Hex4, IsHexFour, WriteUtf8;
    var s := t + rest;
    assert s[1..][1..] == s[2..];
    if code < 0x1_0000 {
      UnitIsRead(t, code, rest);
    } else {
      PairArithmetic(code);
      var t1, t2 := t[..6], t[6..];
      assert s == t1 + (t2 + rest);
      UnitIsRead(t1, 0xD800 + (code - 0x1_0000) / 1024, t2 + rest);
      UnitIsRead(t2, 0xDC00 + (code - 0x1_0000) % 1024, rest);
      assert s[1..][7..] == (t2 + rest)[2..];
      assert s[6] == t2[0] && s[7] == t2[1];
    }
  }

  lemma UnitAt(p: seq<Byte>, v: nat)
    requires |p| >= 2 && p[0] == 92 && p[1] == 117 && Hex4(p[2..]) == Some(v)
    ensures |p| >= 6 && IsUnit(p[..6], v)
  {
    hide Hex4, IsHexFour;
    HexFourIff(p[2..], v);
    assert p[..6][2..] == p[2..][..4];
  }

  lemma HexFits(p: seq<Byte>)
    requires Hex4(p).Some?
    ensures Hex4(p).value < 65536
  {
    HexBound(p, 4);
  }

  /** An accepted escape of code units spells the code point it decodes to. */
  lemma CodeOfEscape(p: seq<Byte>) returns (code: nat)
    requires |p| >= 2 && p[0] == 92 && p[1] == 117 && Escape(p[1..]).Unit?
    ensures 1 + Escape(p[1..]).taken <= |p|
    ensures Scalar(code) && Escape(p[1..]).bytes == WriteUtf8(code) && SpellsCode(p[..1 + Escape(p[1..]).taken], code)
  {
    hide Hex4, IsHexFour, WriteUtf8, IsUnit;
    assert p[1..][1..] == p[2..];
    HexFits(p[2..]);
    code := Hex4(p[2..]).value;
    UnitAt(p, code);
    if 0xD800 <= code <= 0xDBFF {
      assert p[1..][7..] == p[6..][2..];
      var low := Hex4(p[6..][2..]).value;
      UnitAt(p[6..], low);
      PairOfUnits(code, low);
      assert p[..12][..6] == p[..6] && p[..12][6..] == p[6..][..6];
      code := 0x1_0000 + (code - 0xD800) * 1024 + (low - 0xDC00);
    }
  }

  lemma PlainDecodes(t: seq<Byte>, b: seq<Byte>, rest: seq<Byte>)
    requires PlainPiece(t, b)
    ensures Decode(t + rest) == Prepend(b, Decode(rest))
  {
    hide Escape;
    assert (t + rest)[1..] == rest && [t[0]] == b;
  }

  lemma ShortDecodes(t: seq<Byte>, b: seq<Byte>, rest: seq<Byte>)
    requires ShortPiece(t, b)
    ensures Decode(t + rest) == Prepend(b, Decode(rest))
  {
    hide UnicodeEscape;
    var s := t + rest;
    assert s[1..][0] == t[1] && [b[0]] == b;
    assert Escape(s[1..]) == Unit(b, 1);
    assert s[2..] == rest;
  }

  lemma UnicodeDecodes(t: seq<Byte>, b: seq<Byte>, rest: seq<Byte>)
    requires UnicodePiece(t, b)
    ensures t != [] && Decode(t + rest) == Prepend(b, Decode(rest))
  {
    hide Escape, WriteUtf8, Encode, SpellsCode;
    var code :| Scalar(code) && SpellsCode(t, code) && b == Encode(code);
    CodeDecodes(code, t, rest);
    WriteUtf8IsEncode(code);
    var s := t + rest;
    assert s[|t|..] == rest && s[0] == 92;
    DecodeEscape(s, b, |t| - 1);
  }

  lemma DecodeEscape(s: seq<Byte>, b: seq<Byte>, n: nat)
    requires |s| >= 2 && s[0] == 92 && Escape(s[1..]) == Unit(b, n) && 0 < n < |s|
    ensures Decode(s) == Prepend(b, Decode(s[1 + n..]))
  {
    hide Escape;
  }

  lemma PieceDecodes(t: seq<Byte>, b: seq<Byte>, rest: seq<Byte>)
    requires Piece(t, b)
    ensures t != [] && Decode(t + rest) == Prepend(b, Decode(rest))
  {
    hide PlainPiece, ShortPiece, UnicodePiece, Decode;
    if PlainPiece(t, b) {
      PlainDecodes(t, b, rest);
      PieceLengths(t, b);
    } else if ShortPiece(t, b) {
      ShortDecodes(t, b, rest);
      PieceLengths(t, b);
    } else {
      UnicodeDecodes(t, b, rest);
    }
  }

  lemma PieceLengths(t: seq<Byte>, b: seq<Byte>)
    ensures PlainPiece(t, b) ==> |t| == 1 && |b| == 1
    ensures ShortPiece(t, b) ==> |t| == 2 && |b| == 1
  {
  }

  /** The first piece of a text that decodes. */
  lemma FirstPiece(p: seq<Byte>) returns (n: nat, b: seq<Byte>)
    requires p != [] && Decode(p).Some?
    ensures 0 < n <= |p| && Piece(p[..n], b)
    ensures Decode(p) == Prepend(b, Decode(p[n..]))
  {
    hide UnicodeEscape, Encode, SpellsCode, WriteUtf8, UnicodePiece;
    if p[0] != BACKSLASH {
      n, b := 1, [p[0]];
      assert PlainPiece(p[..n], b);
    } else {
      var u := Escape(p[1..]);
      n, b := 1 + u.taken, u.bytes;
      if p[1] == 117 {
        var code := CodeOfEscape(p);
        WriteUtf8IsEncode(code);
        CodeIsPiece(p[..n], code);
      } else {
        assert p[..n][1] == p[1];
        assert ShortPiece(p[..n], b);
      }
    }
  }

  lemma CodeIsPiece(t: seq<Byte>, code: nat)
    requires Scalar(code) && SpellsCode(t, code)
    ensures UnicodePiece(t, Encode(code))
  {
    hide SpellsCode, Encode;
  }

  /** Decoding accepts exactly the rows of pieces, and yields what they stand for. */
  lemma {:induction false} DecodeIff(t: seq<Byte>, b: seq<Byte>)
    ensures Decode(t) == Some(b) <==> SpellsString(t, b)
    decreases |t|
  {
    hide Decode, Piece;
    if t == [] {
      DecodeNothing();
    } else {
      if Decode(t) == Some(b) {
        var n, first := FirstPiece(t);
        var m := |first|;
        var more := Decode(t[n..]).value;
        assert b[..m] == first && b[m..] == more;
        DecodeIff(t[n..], more);
      }
      if SpellsString(t, b) {
        var n, m :| 0 < n <= |t| && 0 <= m <= |b| && Piece(t[..n], b[..m]) && SpellsString(t[n..], b[m..]);
        DecodeIff(t[n..], b[m..]);
        PieceDecodes(t[..n], b[..m], t[n..]);
        assert t[..n] + t[n..] == t && b[..m] + b[m..] == b;
      }
    }
  }

  // ----- Escaping is shortest -----

  lemma {:induction false} EscapeBodyConcat(a: seq<Byte>, b: seq<Byte>)
    ensures EscapeBody(a + b) == EscapeBody(a) + EscapeBody(b)
    decreases |b|
  {
    hide EscapeByte;
    if b == [] {
      assert a + b == a;
    } else {
      var n := |b| - 1;
      assert (a + b)[..|a| + n] == a + b[..n];
      EscapeBodyConcat(a, b[..n]);
      assert EscapeBody(a) + EscapeBody(b[..n]) + EscapeByte(b[n]) == EscapeBody(a) + (EscapeBody(b[..n]) + EscapeByte(b[n]));
    }
  }

  lemma EscapeBodyOne(c: Byte)
    ensures EscapeBody([c]) == EscapeByte(c)
  {
    hide EscapeByte;
    assert [c][..0] == [];
  }

  lemma {:induction false} PlainBytes(b: seq<Byte>)
    requires forall i :: 0 <= i < |b| ==> b[i] >= 0x80
    ensures EscapeBody(b) == b
  {
    if b != [] {
      var n := |b| - 1;
      PlainBytes(b[..n]);
      assert EscapeByte(b[n]) == [b[n]];
      assert b[..n] + [b[n]] == b;
    }
  }

  lemma WrittenIsPlain(code: nat)
    requires Scalar(code)
    ensures var b := WriteUtf8(code);
            |b| <= 4 && (|b| == 1 || forall i :: 0 <= i < |b| ==> b[i] >= 0x80)
  {
  }

  lemma EscapeOfPiece(t: seq<Byte>, b: seq<Byte>)
    requires Piece(t, b)
    ensures |EscapeBody(b)| <= |t|
  {
    hide EscapeBody, UnicodePiece;
    if PlainPiece(t, b) || ShortPiece(t, b) {
      EscapeBodyOne(b[0]);
      assert b == [b[0]];
    } else {
      EscapeOfCode(t, b);
    }
  }

  lemma EscapeOfCode(t: seq<Byte>, b: seq<Byte>)
    requires UnicodePiece(t, b)
    ensures |EscapeBody(b)| <= |t|
  {
    hide Escape, WriteUtf8, Encode, SpellsCode, EscapeBody;
    var code :| Scalar(code) && SpellsCode(t, code) && b == Encode(code);
    CodeDecodes(code, t, []);
    WriteUtf8IsEncode(code);
    WrittenIsPlain(code);
    if |b| == 1 {
      EscapeBodyOne(b[0]);
      assert b == [b[0]];
    } else {
      PlainBytes(b);
    }
  }

  /** Of all texts that decode to a string, the one that escaping writes is the shortest. */
  lemma {:induction false} EscapeIsShortest(t: seq<Byte>, s: seq<Byte>)
    requires Decode(t) == Some(s)
    ensures |EscapeBody(s)| <= |t|
    decreases |t|
  {
    hide Decode, Piece, EscapeBody;
    if t == [] {
      DecodeNothing();
      EscapeBodyEmpty([]);
    } else {
      var n, first := FirstPiece(t);
      var more := Decode(t[n..]).value;
      EscapeOfPiece(t[..n], first);
      EscapeIsShortest(t[n..], more);
      EscapeBodyConcat(first, more);
    }
  }
}
