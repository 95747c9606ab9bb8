/**
 The terminal driver's UTF-8 coder, which covers the original 31-bit range
 (RFC 3629 section 3 keeps the first four lengths of it).
 */
module Utf8 {
  import opened Bytes

  const UTF8_INVALID := 0xFFFD

  datatype Parsed = Again | Key(cp: nat, nbytes: nat)

  function SeqLen(cp: nat): (n: nat)
    ensures 1 <= n <= 6
  {
    if cp < 0x80 then 1
    else if cp < 0x800 then 2
    else if cp < 0x1_0000 then 3
    else if cp < 0x20_0000 then 4
    else if cp < 0x400_0000 then 5
    else 6
  }

  /** The leading byte's fixed bits and the number of values its free bits take. */
  function Lead(n: nat): nat {
    match n case 1 => 0 case 2 => 0xC0 case 3 => 0xE0 case 4 => 0xF0 case 5 => 0xF8 case _ => 0xFC
  }

  function Span(n: nat): (s: nat)
    ensures s > 0
  {
    match n case 1 => 128 case 2 => 32 case 3 => 16 case 4 => 8 case 5 => 4 case _ => 2
  }

  /** `cp` shifted right by `k` groups of six bits. */
  ghost function High(cp: nat, k: nat): nat {
    if k == 0 then cp else High(cp / 64, k - 1)
  }

  /** The low `k` groups of six bits, as continuation bytes. */
  ghost function Tail(cp: nat, k: nat): (s: seq<Byte>)
    ensures |s| == k
  {
    if k == 0 then [] else Tail(cp / 64, k - 1) + [0x80 + cp % 64]
  }

  /** `cp` written in `n` bytes. */
  ghost function Form(cp: nat, n: nat): (s: seq<Byte>)
    requires 1 <= n <= 6
    ensures |s| == n
  {
    [Lead(n) + High(cp, n - 1) % Span(n)] + Tail(cp, n - 1)
  }

  ghost function Encode(cp: nat): seq<Byte> {
    Form(cp, SeqLen(cp))
  }

  /** Code points the parser turns down even when well-formed. */
  predicate Refused(cp: nat) {
    0xD800 <= cp <= 0xDFFF || cp == 0xFFFE || cp == 0xFFFF
  }

  // ----- The coder -----

  method FillUtf8(cp0: nat, utf8: array<Byte>)
    requires utf8.Length >= 7
    modifies utf8
    ensures utf8[..SeqLen(cp0)] == Encode(cp0) && utf8[SeqLen(cp0)] == 0
    ensures utf8[SeqLen(cp0) + 1..] == old(utf8[SeqLen(cp0) + 1..])
  {
    var cp: nat := cp0;
    var n := SeqLen(cp);
    utf8[n] := 0;
    var b := n;
    while b > 1
      invariant 1 <= b <= n
      invariant utf8[n] == 0 && utf8[n + 1..] == old(utf8[n + 1..])
      invariant High(cp0, n - 1) == High(cp, b - 1)
      invariant Tail(cp0, n - 1) == Tail(cp, b - 1) + utf8[b..n]
    {
      ghost var done := utf8[b..n];
      b := b - 1;
      utf8[b] := 0x80 + cp % 64;
      assert utf8[b..n] == [0x80 + cp % 64] + done;
      assert Tail(cp, b) + done == Tail(cp / 64, b - 1) + ([0x80 + cp % 64] + done);
      cp := cp / 64;
    }
    utf8[0] := Lead(n) + cp % Span(n);
  }

  function Finish(cp: nat, n: nat): Parsed {
    if n > SeqLen(cp) || Refused(cp) then Key(UTF8_INVALID, n) else Key(cp, n)
  }

  /** From byte `b` on, with the value collected so far. */
  ghost function ParseTail(bytes: seq<Byte>, b: nat, n: nat, cp: nat): Parsed
    requires b <= n
    decreases n - b
  {
    if b == n then Finish(cp, n)
    else if b >= |bytes| then Again
    else if bytes[b] < 0x80 || bytes[b] >= 0xC0 then Key(UTF8_INVALID, b)
    else ParseTail(bytes, b + 1, n, cp * 64 + bytes[b] % 64)
  }

  /** The length a leading byte announces; 0 when it cannot lead. */
  function Announced(b0: Byte): (n: nat)
    ensures n <= 6
  {
    if b0 < 0x80 then 1
    else if b0 < 0xC0 then 0
    else if b0 < 0xE0 then 2
    else if b0 < 0xF0 then 3
    else if b0 < 0xF8 then 4
    else if b0 < 0xFC then 5
    else if b0 < 0xFE then 6
    else 0
  }

  ghost function Parse(bytes: seq<Byte>): Parsed
    requires |bytes| > 0
  {
    var n := Announced(bytes[0]);
    if n == 0 then Key(UTF8_INVALID, 1)
    else if n == 1 then Key(bytes[0], 1)
    else ParseTail(bytes, 1, n, bytes[0] % Span(n))
  }

  method ParseUtf8(bytes: seq<Byte>) returns (r: Parsed)
    requires |bytes| > 0
    ensures r == Parse(bytes)
  {
    hide Refused, SeqLen, Span;
    var b0 := bytes[0];
    var n := Announced(b0);
    if b0 < 0x80 {
      return Key(b0, 1);
    }
    if n == 0 {
      return Key(UTF8_INVALID, 1);
    }
    var cp: nat := b0 % Span(n);
    var b := 1;
    while b < n
      invariant 1 <= b <= n
      invariant Parse(bytes) == ParseTail(bytes, b, n, cp)
    {
      if b >= |bytes| {
        return Again;
      }
      var cb := bytes[b];
      if cb < 0x80 || cb >= 0xC0 {
        return Key(UTF8_INVALID, b);
      }
      cp := cp * 64 + cb % 64;
      b := b + 1;
    }
    if n > SeqLen(cp) {
      cp := UTF8_INVALID;
    }
    if Refused(cp) {
      cp := UTF8_INVALID;
    }
    return Key(cp, n);
  }

  // ----- Decoding inverts encoding -----

  /** Reading `k` continuation bytes of `cp` onto its high part gives `cp` back. */
  lemma {:induction false} ParseTailOfTail(bytes: seq<Byte>, b: nat, n: nat, cp: nat, k: nat)
    requires b + k <= n && b + k <= |bytes|
    requires bytes[b..b + k] == Tail(cp, k)
    ensures ParseTail(bytes, b, n, High(cp, k)) == ParseTail(bytes, b + k, n, cp)
    decreases k
  {
    if k > 0 {
      assert Tail(cp, k) == Tail(cp / 64, k - 1) + [0x80 + cp % 64];
      assert bytes[b..b + k] == bytes[b..b + k - 1] + [bytes[b + k - 1]];
      SnocInjective(bytes[b..b + k - 1], bytes[b + k - 1], Tail(cp / 64, k - 1), 0x80 + cp % 64);
      hide Tail, Form;
      ParseTailOfTail(bytes, b, n, cp / 64, k - 1);
      assert cp / 64 * 64 + cp % 64 == cp;
    }
  }

  lemma HighFits(cp: nat, n: nat)
    requires cp < 0x8000_0000
    requires SeqLen(cp) <= n <= 6
    ensures High(cp, n - 1) < Span(n)
  {
    var c1, c2, c3, c4, c5 := cp / 64, cp / 64 / 64, cp / 64 / 64 / 64, cp / 64 / 64 / 64 / 64, cp / 64 / 64 / 64 / 64 / 64;
    assert High(cp, 0) == cp && High(cp, 1) == High(c1, 0) == c1;
    assert High(cp, 2) == High(c1, 1) == High(c2, 0) == c2;
    assert High(cp, 3) == High(c1, 2) == High(c2, 1) == c3;
    assert High(cp, 4) == High(c1, 3) == High(c2, 2) == High(c3, 1) == c4;
    assert High(cp, 5) == High(c1, 4) == High(c2, 3) == High(c3, 2) == High(c4, 1) == c5;
  }

  lemma FormParts(cp: nat, n: nat, rest: seq<Byte>)
    requires cp < 0x8000_0000 && SeqLen(cp) <= n <= 6
    ensures High(cp, n - 1) < Span(n)
    ensures (Form(cp, n) + rest)[0] == Lead(n) + High(cp, n - 1)
    ensures (Form(cp, n) + rest)[1..n] == Tail(cp, n - 1)
    ensures n == 1 ==> High(cp, n - 1) == cp
  {
    HighFits(cp, n);
    assert n == 1 ==> High(cp, n - 1) == cp;
    hide High, Tail, Lead, Span, SeqLen;
    SmallMod(High(cp, n - 1), Span(n));
    ConsMiddle<Byte>(Lead(n) + High(cp, n - 1) % Span(n), Tail(cp, n - 1), rest);
  }

  lemma LeadPlus(n: nat, h: nat)
    requires 1 <= n <= 6 && h < Span(n)
    ensures Lead(n) + h < 256 && Announced(Lead(n) + h) == n && (Lead(n) + h) % Span(n) == h
  {
  }

  /** Parsing any `n`-byte form that can hold `cp` consumes it whole: only the shortest form of an accepted code point yields it. */
  lemma ParseOfForm(cp: nat, n: nat, rest: seq<Byte>)
    requires cp < 0x8000_0000
    requires SeqLen(cp) <= n <= 6
    ensures Parse(Form(cp, n) + rest)
            == if n > SeqLen(cp) || 0xD800 <= cp < 0xE000 || cp in {0xFFFE, 0xFFFF} then Key(0xFFFD, n) else Key(cp, n)
  {
    var bytes := Form(cp, n) + rest;
    var h := High(cp, n - 1);
    assert ParseTail(bytes, n, n, cp) == Finish(cp, n);
    hide High, Tail, ParseTail, Form;
    FormParts(cp, n, rest);
    LeadPlus(n, h);
    if n > 1 {
      ParseTailOfTail(bytes, 1, n, cp, n - 1);
    }
  }

  /** A successful tail run consumed exactly the low part of its result. */
  lemma {:induction false} TailOfParseTail(bytes: seq<Byte>, b: nat, n: nat, h: nat) returns (cp: nat)
    requires b <= n <= |bytes|
    requires forall i :: b <= i < n ==> 0x80 <= bytes[i] < 0xC0
    ensures ParseTail(bytes, b, n, h) == Finish(cp, n)
    ensures High(cp, n - b) == h && bytes[b..n] == Tail(cp, n - b)
    decreases n - b
  {
    if b == n {
      cp := h;
    } else {
      cp := TailOfParseTail(bytes, b + 1, n, h * 64 + bytes[b] % 64);
      var k := n - b - 1;
      HighSplit(cp, k);
      TailSplit(cp, k);
      assert bytes[b..n] == [bytes[b]] + bytes[b + 1..n];
    }
  }

  lemma {:induction false} HighSplit(cp: nat, k: nat)
    ensures High(cp, k + 1) == High(cp, k) / 64
  {
    if k > 0 {
      HighSplit(cp / 64, k - 1);
    }
  }

  lemma {:induction false} TailSplit(cp: nat, k: nat)
    ensures Tail(cp, k + 1) == [0x80 + High(cp, k) % 64] + Tail(cp, k)
  {
    if k > 0 {
      TailSplit(cp / 64, k - 1);
    } else {
      assert Tail(cp, 1) == Tail(cp / 64, 0) + [0x80 + cp % 64];
    }
  }

  lemma {:induction false} ParseTailStops(bytes: seq<Byte>, b: nat, n: nat, cp: nat)
    requires b <= n && b <= |bytes|
    ensures (n <= |bytes| && forall i :: b <= i < n ==> 0x80 <= bytes[i] < 0xC0)
            || ParseTail(bytes, b, n, cp) == Again || (ParseTail(bytes, b, n, cp).Key? && ParseTail(bytes, b, n, cp).cp == UTF8_INVALID)
    decreases n - b
  {
    if b < n && b < |bytes| && 0x80 <= bytes[b] < 0xC0 {
      ParseTailStops(bytes, b + 1, n, cp * 64 + bytes[b] % 64);
    }
  }

  /** The accepted inputs: a code point comes out exactly when its own encoding leads the buffer, with that encoding's length. */
  lemma ParseYieldsIff(bytes: seq<Byte>, cp: nat, n: nat)
    requires |bytes| > 0
    requires cp < 0x8000_0000 && cp != 0xFFFD
    ensures Parse(bytes) == Key(cp, n)
            <==> Encode(cp) <= bytes && n == SeqLen(cp) && !(0xD800 <= cp < 0xE000) && cp !in {0xFFFE, 0xFFFF}
  {
    if Encode(cp) <= bytes {
      var rest := bytes[SeqLen(cp)..];
      assert bytes == Encode(cp) + rest;
      ParseOfForm(cp, SeqLen(cp), rest);
    }
    if Parse(bytes) == Key(cp, n) {
      ParseYieldsOnly(bytes, cp, n);
    }
  }

  lemma ParseYieldsOnly(bytes: seq<Byte>, cp: nat, n: nat)
    requires |bytes| > 0
    requires cp != UTF8_INVALID && Parse(bytes) == Key(cp, n)
    ensures Encode(cp) <= bytes && n == SeqLen(cp) && !Refused(cp)
  {
    var k := Announced(bytes[0]);
    if k == 1 {
      assert Form(cp, 1) == [bytes[0]];
    } else {
      hide Form, High, Tail, ParseTail;
      var h := bytes[0] % Span(k);
      LeadOf(bytes[0]);
      ParseTailStops(bytes, 1, k, h);
      var v := TailOfParseTail(bytes, 1, k, h);
      assert bytes[..k][1..] == bytes[1..k];
      FormIs(bytes[..k], cp, k);
    }
  }

  lemma LeadOf(b: Byte)
    requires Announced(b) > 1
    ensures b == Lead(Announced(b)) + b % Span(Announced(b))
  {
  }

  lemma FormIs(s: seq<Byte>, cp: nat, n: nat)
    requires 1 <= n <= 6 && |s| == n
    requires s[0] == Lead(n) + High(cp, n - 1) && High(cp, n - 1) < Span(n)
    requires s[1..] == Tail(cp, n - 1)
    ensures s == Form(cp, n)
  {
  }

  /** A truncated encoding asks for more input. */
  lemma ParseOfPrefix(cp: nat, k: nat)
    requires cp < 0x8000_0000
    requires 0 < k < SeqLen(cp)
    ensures Parse(Encode(cp)[..k]) == Again
  {
    var n := SeqLen(cp);
    HighFits(cp, n);
    var bytes := Encode(cp)[..k];
    assert bytes[0] == Lead(n) + High(cp, n - 1);
    TailBytes(cp, n - 1);
    assert forall i :: 1 <= i < k ==> bytes[i] == Tail(cp, n - 1)[i - 1];
    ParseTailShort(bytes, 1, n, bytes[0] % Span(n));
  }

  lemma {:induction false} TailBytes(cp: nat, k: nat)
    ensures forall i :: 0 <= i < k ==> 0x80 <= Tail(cp, k)[i] < 0xC0
  {
    if k > 0 {
      TailBytes(cp / 64, k - 1);
    }
  }

  lemma {:induction false} ParseTailShort(bytes: seq<Byte>, b: nat, n: nat, cp: nat)
    requires b <= |bytes| < n
    requires forall i :: b <= i < |bytes| ==> 0x80 <= bytes[i] < 0xC0
    ensures ParseTail(bytes, b, n, cp) == Again
    decreases |bytes| - b
  {
    if b < |bytes| {
      ParseTailShort(bytes, b + 1, n, cp * 64 + bytes[b] % 64);
    }
  }

  /** A leading byte of an `n`-byte form. */
  predicate Leads(b: Byte, n: nat) {
    || (n == 2 && 0xC0 <= b < 0xE0)
    || (n == 3 && 0xE0 <= b < 0xF0)
    || (n == 4 && 0xF0 <= b < 0xF8)
    || (n == 5 && 0xF8 <= b < 0xFC)
    || (n == 6 && 0xFC <= b < 0xFE)
  }

  /** What is not a form: a byte that cannot lead is invalid on its own, and a form that breaks off is invalid up to the byte that does not continue it. */
  lemma ParseOfBroken(bytes: seq<Byte>, n: nat, b: nat)
    requires |bytes| > 0
    ensures 0x80 <= bytes[0] < 0xC0 || bytes[0] >= 0xFE ==> Parse(bytes) == Key(0xFFFD, 1)
    ensures Leads(bytes[0], n) && 1 <= b < n && b < |bytes| && !(0x80 <= bytes[b] < 0xC0) && (forall i :: 1 <= i < b ==> 0x80 <= bytes[i] < 0xC0)
            ==> Parse(bytes) == Key(0xFFFD, b)
  {
    if Leads(bytes[0], n) && 1 <= b < n && b < |bytes| && !(0x80 <= bytes[b] < 0xC0) && forall i :: 1 <= i < b ==> 0x80 <= bytes[i] < 0xC0 {
      ParseTailBreaks(bytes, 1, n, bytes[0] % Span(n), b);
    }
  }

  lemma {:induction false} ParseTailBreaks(bytes: seq<Byte>, from: nat, n: nat, cp: nat, b: nat)
    requires from <= b < n && b < |bytes| && !(0x80 <= bytes[b] < 0xC0)
    requires forall i :: from <= i < b ==> 0x80 <= bytes[i] < 0xC0
    ensures ParseTail(bytes, from, n, cp) == Key(0xFFFD, b)
    decreases b - from
  {
    if from < b {
      ParseTailBreaks(bytes, from + 1, n, cp * 64 + bytes[from] % 64, b);
    }
  }
}
