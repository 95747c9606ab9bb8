/**
 CRC-32 by table, and the long division it is a fast form of (RFC 1952, section 8).

 A 32-bit word is its bits, least significant first.  In the reflected register
 that puts the highest power first, so words and messages read as polynomials
 from left to right.
 */
module Crc32 {
  import opened Bytes

  type Bits = seq<bool>
  type Word = w: Bits | |w| == 32 witness seq(32, _ => false)

  function Zeros(n: nat): (z: Bits)
    ensures |z| == n && forall i :: 0 <= i < n ==> !z[i]
  {
    seq(n, _ => false)
  }

  function Xor(a: Bits, b: Bits): (c: Bits)
    requires |a| == |b|
    ensures |c| == |a| && forall i :: 0 <= i < |a| ==> c[i] == (a[i] != b[i])
  {
    seq(|a|, i requires 0 <= i < |a| => a[i] != b[i])
  }

  function Not(a: Word): (c: Word)
    ensures forall i :: 0 <= i < 32 ==> c[i] == !a[i]
  {
    seq(32, i requires 0 <= i < 32 => !a[i])
  }

  /** The low `n` bits of a number. */
  function OfNat(v: nat, n: nat): (b: Bits)
    ensures |b| == n
  {
    if n == 0 then [] else [v % 2 == 1] + OfNat(v / 2, n - 1)
  }

  function ToNat(b: Bits): nat {
    if b == [] then 0 else (if b[0] then 1 else 0) + 2 * ToNat(b[1..])
  }

  function Shr(w: Word, k: nat): Word
    requires k <= 32
  {
    w[k..] + Zeros(k)
  }

  /** Bits in front of a word's worth of zeros. */
  function Widen(b: Bits): Word
    requires |b| <= 32
  {
    b + Zeros(32 - |b|)
  }

  function Poly(): Word {
    OfNat(0xEDB8_8320, 32)
  }

  // ----- The register -----

  function Step(c: Word): Word {
    if c[0] then Xor(Shr(c, 1), Poly()) else Shr(c, 1)
  }

  ghost function Steps(c: Word, n: nat): Word
    decreases n
  {
    if n == 0 then c else Steps(Step(c), n - 1)
  }

  /** One byte through the table: the low byte picks an entry, the rest moves down. */
  ghost function ByByte(crc: Word, b: Byte): Word {
    var x := Xor(crc, Widen(OfNat(b, 8)));
    Xor(Steps(Widen(x[..8]), 8), Shr(x, 8))
  }

  ghost function Fold(crc: Word, data: seq<Byte>): Word
    decreases |data|
  {
    if data == [] then crc else Fold(ByByte(crc, data[0]), data[1..])
  }

  /** What `crc32` answers, starting from an earlier answer. */
  ghost function Crc(crc: Word, data: seq<Byte>): Word {
    Not(Fold(Not(crc), data))
  }

  // ----- The table and the byte loop -----

  ghost predicate IsTable(table: array<Word>, n: nat)
    reads table
  {
    table.Length == 256 && n <= 256 && forall i :: 0 <= i < n ==> table[i] == Steps(OfNat(i, 32), 8)
  }

  method BuildTable() returns (table: array<Word>)
    ensures fresh(table) && IsTable(table, 256)
  {
    hide OfNat, Step;
    table := new Word[256](_ => Zeros(32));
    var i := 0;
    while i < 256
      invariant i <= 256 && IsTable(table, i)
    {
      var c: Word := OfNat(i, 32);
      var j := 0;
      while j < 8
        invariant j <= 8 && Steps(c, 8 - j) == Steps(OfNat(i, 32), 8)
      {
        c := Step(c);
        j := j + 1;
      }
      table[i] := c;
      i := i + 1;
    }
  }

  method Compute(crc0: Word, data: seq<Byte>, table: array<Word>) returns (crc: Word)
    requires IsTable(table, 256)
    ensures crc == Crc(crc0, data)
  {
    hide OfNat, Steps, ToNat;
    crc := Not(crc0);
    var p := data;
    while p != []
      invariant Fold(crc, p) == Fold(Not(crc0), data)
      decreases |p|
    {
      var x: Word := Xor(crc, Widen(OfNat(p[0], 8)));
      OfToNat(x[..8]);
      crc := Xor(table[ToNat(x[..8])], Shr(x, 8));
      p := p[1..];
    }
    crc := Not(crc);
  }

  lemma {:induction false} OfToNatBy(b: Bits, n: nat)
    requires |b| <= n
    ensures OfNat(ToNat(b), n) == b + Zeros(n - |b|)
  {
    if b == [] {
      OfZero(n);
      assert b + Zeros(n) == Zeros(n);
    } else {
      OfToNatBy(b[1..], n - 1);
      assert b + Zeros(n - |b|) == [b[0]] + (b[1..] + Zeros(n - 1 - |b[1..]|));
    }
  }

  lemma {:induction false} OfZero(n: nat)
    ensures OfNat(0, n) == Zeros(n)
  {
    if n > 0 {
      OfZero(n - 1);
    }
  }

  lemma OfToNat(b: Bits)
    requires |b| == 8
    ensures ToNat(b) < 256 && OfNat(ToNat(b), 32) == Widen(b)
  {
    ToNatBound(b);
    OfToNatBy(b, 32);
  }

  lemma {:induction false} ToNatBound(b: Bits)
    requires |b| <= 8
    ensures ToNat(b) < [1, 2, 4, 8, 16, 32, 64, 128, 256][|b|]
  {
    if b != [] {
      ToNatBound(b[1..]);
    }
  }

  // ----- Continuing a checksum -----

  lemma {:induction false} FoldConcat(crc: Word, a: seq<Byte>, b: seq<Byte>)
    ensures Fold(crc, a + b) == Fold(Fold(crc, a), b)
    decreases |a|
  {
    hide ByByte;
    if a == [] {
      assert a + b == b;
    } else {
      assert (a + b)[0] == a[0] && (a + b)[1..] == a[1..] + b;
      FoldConcat(ByByte(crc, a[0]), a[1..], b);
    }
  }

  /** Feeding a checksum back in continues it over the concatenation. */
  lemma CrcConcat(crc: Word, a: seq<Byte>, b: seq<Byte>)
    ensures Crc(Crc(crc, a), b) == Crc(crc, a + b)
  {
    hide Fold;
    FoldConcat(Not(crc), a, b);
    var r := Fold(Not(crc), a);
    assert Not(Not(r)) == r;
  }

  // ----- A byte by table is eight bits by the polynomial -----

  lemma StepXor(x: Word, y: Word)
    ensures Step(Xor(x, y)) == Xor(Step(x), Step(y))
  {
    hide Poly;
    var p := Poly();
    assert Shr(Xor(x, y), 1) == Xor(Shr(x, 1), Shr(y, 1));
  }

  lemma {:induction false} StepsXor(x: Word, y: Word, n: nat)
    ensures Steps(Xor(x, y), n) == Xor(Steps(x, n), Steps(y, n))
    decreases n
  {
    hide Step;
    if n > 0 {
      StepXor(x, y);
      StepsXor(Step(x), Step(y), n - 1);
    }
  }

  lemma {:induction false} StepsOverZeros(y: Word, n: nat)
    requires n <= 32 && forall i :: 0 <= i < n ==> !y[i]
    ensures Steps(y, n) == Shr(y, n)
    decreases n
  {
    hide Poly;
    if n > 0 {
      StepsOverZeros(Shr(y, 1), n - 1);
      assert Shr(Shr(y, 1), n - 1) == Shr(y, n);
    } else {
      assert Shr(y, 0) == y;
    }
  }

  lemma ByByteIsSteps(crc: Word, b: Byte)
    ensures ByByte(crc, b) == Steps(Xor(crc, Widen(OfNat(b, 8))), 8)
  {
    hide Steps, OfNat;
    var x: Word := Xor(crc, Widen(OfNat(b, 8)));
    var lo: Word, hi: Word := Widen(x[..8]), Zeros(8) + x[8..];
    assert x == Xor(lo, hi);
    StepsXor(lo, hi, 8);
    StepsOverZeros(hi, 8);
    assert Shr(hi, 8) == Shr(x, 8);
  }

  /** The register fed one bit at a time. */
  ghost function BitFold(r: Word, bits: Bits): Word
    decreases |bits|
  {
    if bits == [] then r else BitFold(Step(Xor(r, Widen(bits[..1]))), bits[1..])
  }

  /** Stepping over several bits: the first enters the register now, the rest arrive one place lower. */
  lemma FirstBitApart(r: Word, bits: Bits)
    requires 0 < |bits| <= 32
    ensures Step(Xor(r, Widen(bits))) == Xor(Step(Xor(r, Widen(bits[..1]))), Widen(bits[1..]))
  {
    var a: Word := Xor(r, Widen(bits[..1]));
    var e: Word := [false] + bits[1..] + Zeros(32 - |bits|);
    SplitFirstBit(r, bits, e);
    StepXor(a, e);
    StepOfZero(e);
    assert Shr(e, 1) == Widen(bits[1..]);
  }

  lemma StepOfZero(e: Word)
    requires !e[0]
    ensures Step(e) == Shr(e, 1)
  {
  }

  lemma SplitFirstBit(r: Word, bits: Bits, e: Word)
    requires 0 < |bits| <= 32 && e == [false] + bits[1..] + Zeros(32 - |bits|)
    ensures Xor(r, Widen(bits)) == Xor(Xor(r, Widen(bits[..1])), e)
  {
  }

  lemma {:induction false} BitFoldIsSteps(r: Word, bits: Bits)
    requires |bits| <= 32
    ensures BitFold(r, bits) == Steps(Xor(r, Widen(bits)), |bits|)
    decreases |bits|
  {
    if bits == [] {
      assert Xor(r, Zeros(32)) == r;
      assert Widen([]) == Zeros(32);
    } else {
      var a: Word := Xor(r, Widen(bits[..1]));
      FirstBitApart(r, bits);
      BitFoldIsSteps(Step(a), bits[1..]);
    }
  }

  ghost function MessageBits(data: seq<Byte>): Bits {
    if data == [] then [] else OfNat(data[0], 8) + MessageBits(data[1..])
  }

  lemma {:induction false} BitFoldConcat(r: Word, a: Bits, b: Bits)
    ensures BitFold(r, a + b) == BitFold(BitFold(r, a), b)
    decreases |a|
  {
    if a == [] {
      assert a + b == b;
    } else {
      assert (a + b)[1..] == a[1..] + b && (a + b)[..1] == a[..1];
      BitFoldConcat(Step(Xor(r, Widen(a[..1]))), a[1..], b);
    }
  }

  /** The table-driven loop is the bit-by-bit register. */
  lemma {:induction false} FoldIsBitFold(r: Word, data: seq<Byte>)
    ensures Fold(r, data) == BitFold(r, MessageBits(data))
    decreases |data|
  {
    hide ByByte, BitFold, OfNat, Steps;
    if data == [] {
      FoldOfNothing(r);
    } else {
      BitFoldConcat(r, OfNat(data[0], 8), MessageBits(data[1..]));
      BitFoldIsSteps(r, OfNat(data[0], 8));
      ByByteIsSteps(r, data[0]);
      FoldIsBitFold(ByByte(r, data[0]), data[1..]);
    }
  }

  lemma FoldOfNothing(r: Word)
    ensures BitFold(r, []) == r
  {
  }

  // ----- Long division -----

  /** The powers in the generator polynomial of RFC 1952, section 8. */
  predicate HasPower(k: nat) {
    || k == 32 || k == 26 || k == 23 || k == 22 || k == 16 || k == 12 || k == 11 || k == 10
    || k == 8 || k == 7 || k == 5 || k == 4 || k == 2 || k == 1 || k == 0
  }

  /** The generator polynomial, degree 32, highest coefficient first. */
  ghost function Generator(): (g: Bits)
    ensures |g| == 33 && g[0]
    ensures forall k :: 0 <= k <= 32 ==> g[32 - k] == HasPower(k)
  {
    seq(33, i requires 0 <= i < 33 => HasPower(32 - i))
  }

  function Digit(b: bool): nat {
    if b then 1 else 0
  }

  /** Four more bits of the constant, for the powers below `n`. */
  lemma FourPowers(v: nat, more: nat, n: nat)
    requires 4 <= n <= 32 && OfNat(more, n - 4) == Generator()[37 - n..]
    requires v == Digit(HasPower(n - 1)) + 2 * Digit(HasPower(n - 2)) + 4 * Digit(HasPower(n - 3)) + 8 * Digit(HasPower(n - 4)) + 16 * more
    ensures OfNat(v, n) == Generator()[33 - n..]
  {
    hide OfNat, Generator, HasPower;
    var a, b, c, d := HasPower(n - 1), HasPower(n - 2), HasPower(n - 3), HasPower(n - 4);
    var g := Generator();
    FourTails(g, 33 - n);
    OfNatBit(a, 8 * more + 4 * Digit(d) + 2 * Digit(c) + Digit(b), n);
    OfNatBit(b, 4 * more + 2 * Digit(d) + Digit(c), n - 1);
    OfNatBit(c, 2 * more + Digit(d), n - 2);
    OfNatBit(d, more, n - 3);
  }

  lemma FourTails(g: Bits, i: nat)
    requires i + 4 <= |g|
    ensures g[i..] == [g[i]] + ([g[i + 1]] + ([g[i + 2]] + ([g[i + 3]] + g[i + 4..])))
  {
    TailStep(g, i);
    TailStep(g, i + 1);
    TailStep(g, i + 2);
    TailStep(g, i + 3);
  }

  lemma OfNatBit(b: bool, more: nat, n: nat)
    requires n > 0
    ensures OfNat(Digit(b) + 2 * more, n) == [b] + OfNat(more, n - 1)
  {
  }

  lemma TailStep(g: Bits, i: nat)
    requires i < |g|
    ensures g[i..] == [g[i]] + g[i + 1..]
  {
  }

  lemma NoPowers()
    ensures OfNat(0, 0) == Generator()[33..]
  {
  }

  /** The register's constant is that polynomial without its leading power, the lowest bit for power 31. */
  lemma PolyIsGenerator()
    ensures Generator() == [true] + Poly()
  {
    hide OfNat, Generator;
    NoPowers();
    FourPowers(0xE, 0, 4);
    FourPowers(0xED, 0xE, 8);
    FourPowers(0xEDB, 0xED, 12);
    FourPowers(0xEDB8, 0xEDB, 16);
    FourPowers(0xEDB88, 0xEDB8, 20);
    FourPowers(0xEDB883, 0xEDB88, 24);
    FourPowers(0xEDB8832, 0xEDB883, 28);
    FourPowers(0xEDB88320, 0xEDB8832, 32);
    TailStep(Generator(), 0);
  }

  /** The remainder of schoolbook division by the generator, coefficients modulo 2. */
  ghost function Remainder(d: Bits): (r: Bits)
    requires |d| >= 32
    ensures |r| == 32
    decreases |d|
  {
    if |d| == 32 then d
    else if d[0] then Remainder(Xor(d[..33], Generator())[1..] + d[33..])
    else Remainder(d[1..])
  }

  /** A word added to the leading coefficients. */
  ghost function AddFront(d: Bits, r: Word): (e: Bits)
    requires |d| >= 32
    ensures |e| == |d|
    ensures forall i :: 0 <= i < |d| ==> e[i] == if i < 32 then d[i] != r[i] else d[i]
  {
    Xor(d[..32], r) + d[32..]
  }

  lemma DivisionStep(bits: Bits, r: Word)
    requires bits != []
    ensures Remainder(AddFront(bits + Zeros(32), r))
            == Remainder(AddFront(bits[1..] + Zeros(32), Step(Xor(r, Widen(bits[..1])))))
  {
    hide Poly, Generator;
    PolyIsGenerator();
    var d := AddFront(bits + Zeros(32), r);
    var a: Word := Xor(r, Widen(bits[..1]));
    var rest := bits[1..] + Zeros(32);
    assert (bits + Zeros(32))[1..] == rest;
    assert d[1..] == AddFront(rest, Shr(a, 1));
    assert a[0] == d[0];
    if d[0] {
      assert Xor(d[..33], Generator())[1..] + d[33..] == AddFront(rest, Xor(Shr(a, 1), Poly()));
    }
  }

  lemma {:induction false} BitFoldIsRemainder(r: Word, bits: Bits)
    ensures BitFold(r, bits) == Remainder(AddFront(bits + Zeros(32), r))
    decreases |bits|
  {
    hide Poly, Generator;
    if bits == [] {
      assert AddFront([] + Zeros(32), r) == r;
    } else {
      DivisionStep(bits, r);
      BitFoldIsRemainder(Step(Xor(r, Widen(bits[..1]))), bits[1..]);
    }
  }

  /**
   For every byte string and starting value, the answer is the complemented
   remainder of the message, followed by 32 zeros and with the complemented
   starting value added to its front, divided by the generator.
   */
  lemma CrcIsDivision(crc: Word, data: seq<Byte>)
    ensures Crc(crc, data) == Not(Remainder(AddFront(MessageBits(data) + Zeros(32), Not(crc))))
  {
    hide Fold, BitFold, Remainder, AddFront;
    FoldIsBitFold(Not(crc), data);
    BitFoldIsRemainder(Not(crc), MessageBits(data));
  }
}
