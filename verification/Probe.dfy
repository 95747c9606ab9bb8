/**
 The probe sequence of the hash dictionary.

 A probe starts at any slot and repeats `i = 5 * i + perturb + 1` modulo the
 table size, where `perturb` starts as the 32-bit hash and loses five bits a
 round.  Once `perturb` is exhausted the recurrence is `5 * i + 1`, which is a
 single cycle through every residue of a power of two.
 */
module Probe {

  type Hash = h: nat | h < 0x1_0000_0000

  /** Rounds after which a 32-bit `perturb` is zero: 7 * 5 > 32. */
  const PERTURB_ROUNDS := 7

  ghost function Pow2(k: nat): (r: nat)
    ensures r > 0
  {
    if k == 0 then 1 else 2 * Pow2(k - 1)
  }

  ghost predicate IsPow2(size: nat) {
    exists k: nat :: size == Pow2(k)
  }

  /** `hash` after `n` right shifts by PERTURB_SHIFT. */
  ghost function Perturb(hash: nat, n: nat): nat {
    if n == 0 then hash else Perturb(hash, n - 1) / 32
  }

  ghost function Next(size: nat, i: nat, perturb: nat): (j: nat)
    requires size > 0
    ensures j < size
  {
    (5 * i + perturb + 1) % size
  }

  /** The slot examined in round `n` of a probe that begins at slot `start`. */
  ghost function Slot(size: nat, start: nat, hash: nat, n: nat): (i: nat)
    requires size > 0
    ensures i < size
  {
    if n == 0 then start % size
    else Next(size, Slot(size, start, hash, n - 1), Perturb(hash, n - 1))
  }

  /** `n` steps of the unperturbed recurrence over the naturals. */
  ghost function Iter(n: nat, x: nat): nat {
    if n == 0 then x else 5 * Iter(n - 1, x) + 1
  }

  lemma {:induction false} PerturbVanishes(hash: Hash, n: nat)
    requires n >= PERTURB_ROUNDS
    ensures Perturb(hash, n) == 0
  {
    if n == PERTURB_ROUNDS {
      assert Perturb(hash, 1) == hash / 32;
      assert Perturb(hash, 2) == hash / 32 / 32;
      assert Perturb(hash, 3) == hash / 32 / 32 / 32;
      assert Perturb(hash, 4) == hash / 32 / 32 / 32 / 32;
      assert Perturb(hash, 5) == Perturb(hash, 4) / 32;
      assert Perturb(hash, 6) == Perturb(hash, 5) / 32;
    } else {
      PerturbVanishes(hash, n - 1);
    }
  }

  /** The C code lets `5 * i + perturb + 1` wrap at 32 bits before masking. A power of two up to 2^32 cannot tell. */
  lemma WrapIsHarmless(k: nat, x: nat)
    requires k <= 32
    ensures (x % 0x1_0000_0000) % Pow2(k) == x % Pow2(k)
  {
    Pow2Sum(k, 32 - k);
    Pow2Is32();
    ModOfMultiple(x, Pow2(k), Pow2(32 - k), 0x1_0000_0000);
  }

  lemma ModOfMultiple(x: nat, size: nat, m: nat, whole: nat)
    requires size > 0 && whole > 0 && whole == size * m
    ensures (x % whole) % size == x % size
  {
    Regroup(x, size, m, whole);
    ModOfSum(x % whole, m * (x / whole), size);
  }

  lemma Regroup(x: nat, size: nat, m: nat, whole: nat)
    requires whole > 0 && whole == size * m
    ensures x == x % whole + size * (m * (x / whole))
  {
    MulAssociates(size, m, x / whole);
    Divide(x, whole);
  }

  lemma Divide(x: nat, whole: nat)
    requires whole > 0
    ensures x == x % whole + whole * (x / whole)
  {
  }

  lemma MulAssociates(a: nat, b: nat, c: nat)
    ensures (a * b) * c == a * (b * c)
  {
  }

  lemma {:induction false} Pow2Sum(a: nat, b: nat)
    ensures Pow2(a + b) == Pow2(a) * Pow2(b)
  {
    if b > 0 {
      Pow2Sum(a, b - 1);
    }
  }

  lemma Pow2Is32()
    ensures Pow2(32) == 0x1_0000_0000
  {
    assert Pow2(8) == 256;
    Pow2Sum(8, 8);
    Pow2Sum(16, 16);
  }

  lemma ModOfSum(x: nat, q: int, m: nat)
    requires m > 0
    requires x + m * q >= 0
    ensures (x + m * q) % m == x % m
  {
    var y := x + m * q;
    assert y == m * (x / m + q) + x % m;
    ModUnique(y, x / m + q, x % m, m);
  }

  lemma ModUnique(y: nat, q: int, r: nat, m: nat)
    requires 0 <= r < m
    requires y == m * q + r
    ensures y % m == r
  {
    var d := y / m - q;
    assert m * d == r - y % m;
    if d >= 1 {
      MulAtLeast(m, d);
    } else if d <= -1 {
      MulAtLeast(m, -d);
    }
  }

  lemma MulAtLeast(m: nat, d: nat)
    requires d >= 1
    ensures m * d >= m
  {
  }

  /**
   2^k steps act as an affine map whose slope is 1 modulo 2^(k+2) and whose
   offset is an odd multiple of 2^k; `a` and `b` witness both facts.
   */
  lemma {:induction false} CycleCoefficients(k: nat) returns (a: nat, b: nat)
    ensures forall x: nat :: Iter(Pow2(k), x) == (1 + 4 * Pow2(k) * a) * x + Pow2(k) * (1 + 2 * b)
  {
    if k == 0 {
      a, b := 1, 0;
      forall x: nat ensures Iter(Pow2(k), x) == 5 * x + 1 {
        assert Iter(1, x) == 5 * Iter(0, x) + 1;
      }
    } else {
      var a0, b0 := CycleCoefficients(k - 1);
      var p := Pow2(k - 1);
      a := a0 + 2 * p * a0 * a0;
      b := b0 + p * a0 * (1 + 2 * b0);
      SlopeSquared(p, a0);
      OffsetDoubled(p, a0, b0);
      forall x: nat ensures Iter(Pow2(k), x) == (1 + 4 * Pow2(k) * a) * x + Pow2(k) * (1 + 2 * b) {
        IterSum(p, p, x);
        AffineTwice(1 + 4 * p * a0, p * (1 + 2 * b0), x);
      }
    }
  }

  lemma AffineTwice(s: nat, t: nat, x: nat)
    ensures s * (s * x + t) + t == (s * s) * x + (s * t + t)
  {
    assert s * (s * x) == (s * s) * x;
  }

  lemma SlopeSquared(p: nat, a: nat)
    ensures (1 + 4 * p * a) * (1 + 4 * p * a) == 1 + 4 * (2 * p) * (a + 2 * p * a * a)
  {
    var u := p * a;
    assert (1 + 4 * u) * (1 + 4 * u) == 1 + 8 * u + 16 * (u * u);
    assert u * u == p * (p * a * a);
    assert 4 * (2 * p) * (a + 2 * p * a * a) == 8 * (p * a) + 16 * (p * (p * a * a));
  }

  lemma OffsetDoubled(p: nat, a: nat, b: nat)
    ensures (1 + 4 * p * a) * (p * (1 + 2 * b)) + p * (1 + 2 * b) == 2 * p * (1 + 2 * (b + p * a * (1 + 2 * b)))
  {
    var v := 1 + 2 * b;
    var u := p * a;
    assert (1 + 4 * u) * (p * v) + p * v == 2 * (p * v) + 4 * (u * (p * v));
    assert 2 * p * (1 + 2 * (b + u * v)) == 2 * (p * v) + 4 * (p * (u * v));
    assert u * (p * v) == p * (u * v);
  }

  lemma {:induction false} IterSum(m: nat, n: nat, x: nat)
    ensures Iter(m + n, x) == Iter(m, Iter(n, x))
  {
    if m > 0 {
      IterSum(m - 1, n, x);
    }
  }

  /** Within 2^k steps of `5 * i + 1`, every residue modulo 2^k turns up. */
  lemma {:induction false} CycleReaches(k: nat, x: nat, target: nat) returns (n: nat)
    requires target < Pow2(k)
    ensures n < Pow2(k) && Iter(n, x) % Pow2(k) == target
  {
    if k == 0 {
      n := 0;
    } else {
      var p := Pow2(k - 1);
      SplitHalf(target, p);
      var m := CycleReaches(k - 1, x, target % p);
      var y := Iter(m, x);
      var q, r := Halves(p, y);
      if r == target {
        n := m;
        ModUnique(y, q, target, 2 * p);
      } else {
        var a, b := CycleCoefficients(k - 1);
        n := p + m;
        IterSum(p, m, x);
        AffineForm(p, y, a, b, q, r);
        OtherHalf(p, 2 * (a * y) + b + q, r, target);
      }
    }
  }

  /** `y` modulo 2p is its residue modulo p, or that plus p. */
  lemma Halves(p: nat, y: nat) returns (q: nat, r: nat)
    requires p > 0
    ensures y == (2 * p) * q + r
    ensures r == y % p || r == y % p + p
  {
    var j := y / p;
    q := j / 2;
    r := y % p + if j % 2 == 0 then 0 else p;
    assert y == p * j + y % p;
    HalfTimes(p, j);
  }

  lemma HalfTimes(p: nat, j: nat)
    ensures p * j == (2 * p) * (j / 2) + if j % 2 == 0 then 0 else p
  {
    var q := j / 2;
    if j % 2 == 0 {
      assert p * (2 * q) == (2 * p) * q;
    } else {
      assert p * (2 * q + 1) == (2 * p) * q + p;
    }
  }

  lemma OtherHalf(p: nat, w: nat, r: nat, target: nat)
    requires p > 0 && target < 2 * p
    requires target == r + p || r == target + p
    ensures ((2 * p) * w + (r + p)) % (2 * p) == target
  {
    if target == r + p {
      ModUnique((2 * p) * w + target, w, target, 2 * p);
    } else {
      assert (2 * p) * w + (r + p) == (2 * p) * (w + 1) + target;
      ModUnique((2 * p) * (w + 1) + target, w + 1, target, 2 * p);
    }
  }

  lemma AffineForm(p: nat, y: nat, a: nat, b: nat, q: nat, r: nat)
    requires y == (2 * p) * q + r
    ensures (1 + 4 * p * a) * y + p * (1 + 2 * b) == (2 * p) * (2 * (a * y) + b + q) + (r + p)
  {
    assert (4 * p * a) * y == (2 * p) * (2 * (a * y));
  }

  lemma SplitHalf(v: nat, p: nat)
    requires 0 < p && v < 2 * p
    ensures v % p == if v < p then v else v - p
  {
    if v < p {
      ModUnique(v, 0, v, p);
    } else {
      ModUnique(v, 1, v - p, p);
    }
  }

  /** From round PERTURB_ROUNDS on, the probe follows the unperturbed cycle. */
  lemma {:induction false} SlotIsIter(size: nat, start: nat, hash: Hash, n: nat)
    requires size > 0
    ensures Slot(size, start, hash, PERTURB_ROUNDS + n)
            == Iter(n, Slot(size, start, hash, PERTURB_ROUNDS)) % size
  {
    var x := Slot(size, start, hash, PERTURB_ROUNDS);
    if n == 0 {
      ModUnique(x, 0, x, size);
    } else {
      SlotIsIter(size, start, hash, n - 1);
      PerturbVanishes(hash, PERTURB_ROUNDS + n - 1);
      NextOfMod(size, Iter(n - 1, x));
    }
  }

  lemma NextOfMod(size: nat, y: nat)
    requires size > 0
    ensures (5 * (y % size) + 1) % size == (5 * y + 1) % size
  {
    assert 5 * y + 1 == (5 * (y % size) + 1) + size * (5 * (y / size));
    ModOfSum(5 * (y % size) + 1, 5 * (y / size), size);
  }

  /** For every power-of-two size, start slot and 32-bit hash, the probe visits every slot within size + 7 rounds. */
  lemma ProbeVisitsEverySlot(size: nat, start: nat, hash: Hash, target: nat) returns (n: nat)
    requires IsPow2(size)
    requires target < size
    ensures n < size + PERTURB_ROUNDS
    ensures Slot(size, start, hash, n) == target
  {
    var k: nat :| size == Pow2(k);
    var m := CycleReaches(k, Slot(size, start, hash, PERTURB_ROUNDS), target);
    SlotIsIter(size, start, hash, m);
    n := PERTURB_ROUNDS + m;
  }
}
