/**
 JSON primitives: white space, the number grammar and decimal integers.

 `long` and `long long` are taken to be 64 bits wide, `int` 32.
 */
module JsonNumber {
  import opened Bytes
  import opened DictTable

  const INT_MIN := -0x8000_0000
  const INT_MAX := 0x7FFF_FFFF
  const LLONG_MIN := -0x8000_0000_0000_0000
  const LLONG_MAX := 0x7FFF_FFFF_FFFF_FFFF
  const ULLONG_MAX := 0xFFFF_FFFF_FFFF_FFFF

  /** The C library's reading of a number that is not an integer; none when it is out of range. */
  type Strtod = seq<Byte> -> Option<real>

  predicate IsWs(c: Byte) {
    c == 32 || c == 9 || c == 13 || c == 10
  }

  predicate EndsPrimitive(c: Byte) {
    IsWs(c) || c == 44 || c == 93 || c == 125
  }

  predicate IsDigit(c: Byte) {
    48 <= c <= 57
  }

  /** What is left after leading white space. */
  ghost function SkipWs(s: seq<Byte>): (r: seq<Byte>)
    ensures |r| <= |s|
    ensures r != [] ==> !IsWs(r[0])
  {
    if s != [] && IsWs(s[0]) then SkipWs(s[1..]) else s
  }

  method JsonSkipWs(s: seq<Byte>) returns (r: seq<Byte>)
    ensures r == SkipWs(s)
  {
    r := s;
    while r != [] && IsWs(r[0])
      invariant SkipWs(r) == SkipWs(s)
      decreases |r|
    {
      r := r[1..];
    }
  }

  /** How many bytes belong to a primitive token. */
  ghost function PrimLen(s: seq<Byte>): (n: nat)
    ensures n <= |s|
  {
    if s == [] || EndsPrimitive(s[0]) then 0 else 1 + PrimLen(s[1..])
  }

  method JsonParsePrimitive(s: seq<Byte>) returns (n: nat)
    ensures n == PrimLen(s)
  {
    n := 0;
    while n < |s| && !EndsPrimitive(s[n])
      invariant n <= |s| && PrimLen(s) == n + PrimLen(s[n..])
    {
      assert s[n..][1..] == s[n + 1..];
      n := n + 1;
    }
  }

  // ----- The number grammar (RFC 8259 section 6) -----

  ghost function SkipDigits(s: seq<Byte>): (r: seq<Byte>)
    ensures |r| <= |s|
  {
    if s != [] && IsDigit(s[0]) then SkipDigits(s[1..]) else s
  }

  method JsonSkipDigits(s: seq<Byte>) returns (r: seq<Byte>)
    ensures r == SkipDigits(s)
  {
    r := s;
    while r != [] && IsDigit(r[0])
      invariant SkipDigits(r) == SkipDigits(s)
      decreases |r|
    {
      r := r[1..];
    }
  }

  /** One or more digits, then the rest. */
  ghost function Digits1(s: seq<Byte>): Option<seq<Byte>> {
    if s != [] && IsDigit(s[0]) then Some(SkipDigits(s)) else None
  }

  ghost function AfterInt(s: seq<Byte>): Option<seq<Byte>> {
    var t := if s != [] && s[0] == 45 then s[1..] else s;
    if t != [] && t[0] == 48 then Some(t[1..]) else Digits1(t)
  }

  ghost function AfterFrac(s: seq<Byte>): Option<seq<Byte>> {
    if s != [] && s[0] == 46 then Digits1(s[1..]) else Some(s)
  }

  ghost function AfterExp(s: seq<Byte>): Option<seq<Byte>> {
    if s != [] && (s[0] == 101 || s[0] == 69) then
      var t := s[1..];
      Digits1(if t != [] && (t[0] == 43 || t[0] == 45) then t[1..] else t)
    else Some(s)
  }

  ghost predicate IsNumber(s: seq<Byte>) {
    match AfterInt(s)
    case None => false
    case Some(t) => match AfterFrac(t)
      case None => false
      case Some(u) => AfterExp(u) == Some([])
  }

  method JsonIsNumber(s: seq<Byte>) returns (ok: bool)
    ensures ok <==> IsNumber(s)
  {
    hide SkipDigits;
    var number := s;
    if number != [] && number[0] == 45 {
      number := number[1..];
    }
    if number != [] && number[0] == 48 {
      number := number[1..];
    } else if number != [] && 49 <= number[0] <= 57 {
      number := JsonSkipDigits(number);
    } else {
      return false;
    }
    ok, number := JsonFraction(number);
    if !ok {
      return false;
    }
    ok, number := JsonExponent(number);
    ok := ok && number == [];
  }

  method JsonFraction(s: seq<Byte>) returns (ok: bool, number: seq<Byte>)
    ensures AfterFrac(s) == if ok then Some(number) else None
  {
    number := s;
    if number != [] && number[0] == 46 {
      number := number[1..];
      if number == [] || !IsDigit(number[0]) {
        return false, number;
      }
      number := JsonSkipDigits(number);
    }
    ok := true;
  }

  method JsonExponent(s: seq<Byte>) returns (ok: bool, number: seq<Byte>)
    ensures AfterExp(s) == if ok then Some(number) else None
  {
    number := s;
    if number != [] && (number[0] == 101 || number[0] == 69) {
      number := number[1..];
      if number != [] && (number[0] == 43 || number[0] == 45) {
        number := number[1..];
      }
      if number == [] || !IsDigit(number[0]) {
        return false, number;
      }
      number := JsonSkipDigits(number);
    }
    ok := true;
  }

  predicate IsInteger(s: seq<Byte>) {
    46 !in s && 101 !in s && 69 !in s
  }

  // ----- Values of decimal text -----

  function DigitsValue(s: seq<Byte>): int {
    if s == [] then 0 else 10 * DigitsValue(s[..|s| - 1]) + (s[|s| - 1] as int - 48)
  }

  function DecimalValue(s: seq<Byte>): int {
    if s != [] && s[0] == 45 then -DigitsValue(s[1..]) else DigitsValue(s)
  }

  /** The narrowest type the reader gives an integer. */
  function IntegerValue(n: int): Option<Value> {
    if INT_MIN <= n <= INT_MAX then Some(Int(n))
    else if LLONG_MIN <= n <= LLONG_MAX then Some(Long(n))
    else if 0 <= n <= ULLONG_MAX then Some(ULong(n))
    else None
  }

  const TEXT_NULL: seq<Byte> := [110, 117, 108, 108]
  const TEXT_TRUE: seq<Byte> := [116, 114, 117, 101]
  const TEXT_FALSE: seq<Byte> := [102, 97, 108, 115, 101]

  ghost function Primitive(tok: seq<Byte>, tod: Strtod): Option<Value> {
    if tok == TEXT_NULL then Some(NullV)
    else if tok == TEXT_TRUE then Some(Bool(true))
    else if tok == TEXT_FALSE then Some(Bool(false))
    else if !IsNumber(tok) then None
    else if IsInteger(tok) then IntegerValue(DecimalValue(tok))
    else match tod(tok) case None => None case Some(r) => Some(Double(r))
  }

  method JsonPrimitive(tok: seq<Byte>, tod: Strtod) returns (v: Option<Value>)
    ensures v == Primitive(tok, tod)
  {
    if tok == TEXT_NULL {
      return Some(NullV);
    }
    if tok == TEXT_TRUE {
      return Some(Bool(true));
    }
    if tok == TEXT_FALSE {
      return Some(Bool(false));
    }
    var ok := JsonIsNumber(tok);
    if !ok {
      return None;
    }
    if IsInteger(tok) {
      return IntegerValue(DecimalValue(tok));
    }
    var r := tod(tok);
    return if r.None? then None else Some(Double(r.value));
  }

  // ----- Printing integers -----

  function NatText(n: nat): (s: seq<Byte>)
    ensures s != []
  {
    if n < 10 then [48 + n] else NatText(n / 10) + [48 + n % 10]
  }

  function DecText(n: int): seq<Byte> {
    if n < 0 then [45] + NatText(-n) else NatText(n)
  }

  ghost predicate AllDigits(s: seq<Byte>) {
    forall i :: 0 <= i < |s| ==> IsDigit(s[i])
  }

  lemma {:induction false} NatTextIs(n: nat)
    ensures AllDigits(NatText(n)) && DigitsValue(NatText(n)) == n
    ensures n > 0 ==> NatText(n)[0] != 48
    ensures n == 0 ==> NatText(n) == [48]
  {
    if n >= 10 {
      NatTextIs(n / 10);
      assert NatText(n)[..|NatText(n)| - 1] == NatText(n / 10);
    }
  }

  lemma {:induction false} SkipAllDigits(s: seq<Byte>)
    requires AllDigits(s)
    ensures SkipDigits(s) == []
  {
    if s != [] {
      SkipAllDigits(s[1..]);
    }
  }

  /** Reading a printed integer gives it back, in the narrowest type that holds it. */
  lemma PrimitiveOfDecText(n: int, tod: Strtod)
    ensures Primitive(DecText(n), tod) == IntegerValue(n)
    ensures PrintsToken(DecText(n))
  {
    var a := if n < 0 then -n else n;
    NatTextIs(a);
    IntegerToken(DecText(n), NatText(a), n < 0);
  }

  /** A sign and digits without a leading zero are an integer token. */
  lemma IntegerToken(s: seq<Byte>, d: seq<Byte>, negative: bool)
    requires AllDigits(d) && d != [] && (d[0] != 48 || d == [48])
    requires s == if negative then [45] + d else d
    ensures IsNumber(s) && IsInteger(s) && PrintsToken(s)
    ensures s != TEXT_NULL && s != TEXT_TRUE && s != TEXT_FALSE
    ensures DecimalValue(s) == if negative then -DigitsValue(d) else DigitsValue(d)
  {
    hide DigitsValue;
    SkipAllDigits(d);
    if negative {
      assert s[1..] == d;
    }
    hide SkipDigits;
    assert AfterInt(s) == Some([]);
    forall i | 0 <= i < |s| ensures IsDigit(s[i]) || s[i] == 45 {
      assert negative && i > 0 ==> s[i] == d[i - 1];
    }
    assert IsDigit(s[0]) || s[0] == 45;
  }

  /** A token that the tokenizer takes whole and that is not white space, a quote or a bracket. */
  ghost predicate PrintsToken(s: seq<Byte>) {
    s != [] && forall i :: 0 <= i < |s| ==> !EndsPrimitive(s[i]) && s[i] != 0 && s[i] != 34 && s[i] != 91 && s[i] != 123
  }

  lemma {:induction false} PrimLenOfToken(tok: seq<Byte>, rest: seq<Byte>)
    requires forall i :: 0 <= i < |tok| ==> !EndsPrimitive(tok[i])
    requires rest == [] || EndsPrimitive(rest[0])
    ensures PrimLen(tok + rest) == |tok|
  {
    if tok == [] {
      assert tok + rest == rest;
    } else {
      assert (tok + rest)[1..] == tok[1..] + rest;
      PrimLenOfToken(tok[1..], rest);
    }
  }
}
