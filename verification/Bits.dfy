/** Bitwise operators of C on unsigned words, as arithmetic on natural numbers. */
module Bits {

  function Pow2(n: nat): (p: nat)
    ensures p >= 1
  {
    if n == 0 then 1 else 2 * Pow2(n - 1)
  }

  lemma {:induction false} Pow2Add(m: nat, n: nat)
    ensures Pow2(m + n) == Pow2(m) * Pow2(n)
  {
    if m > 0 {
      Pow2Add(m - 1, n);
      assert 2 * Pow2(m - 1) * Pow2(n) == 2 * (Pow2(m - 1) * Pow2(n));
    }
  }

  /** The powers of two the firmware names. */
  lemma Pow2Values()
    ensures Pow2(3) == 8 && Pow2(5) == 32 && Pow2(4) == 16 && Pow2(7) == 0x80 && Pow2(8) == 0x100
    ensures Pow2(11) == 0x800 && Pow2(16) == 0x1_0000 && Pow2(24) == 0x100_0000
    ensures Pow2(30) == 0x4000_0000 && Pow2(31) == 0x8000_0000 && Pow2(32) == 0x1_0000_0000
  {
    assert Pow2(4) == 16 && Pow2(7) == 0x80;
    Pow2Add(4, 4);
    Pow2Add(3, 8);
    Pow2Add(8, 8);
    Pow2Add(8, 16);
    Pow2Add(7, 24);
    Pow2Add(16, 16);
  }

  /** Bit i of the word x. */
  predicate HasBit(x: nat, i: nat) {
    if i == 0 then x % 2 == 1 else HasBit(x / 2, i - 1)
  }

  function And(x: nat, y: nat): (z: nat)
  {
    if x == 0 || y == 0 then 0
    else (if x % 2 == 1 && y % 2 == 1 then 1 else 0) + 2 * And(x / 2, y / 2)
  }

  function Or(x: nat, y: nat): (z: nat)
  {
    if x == 0 then y
    else if y == 0 then x
    else (if x % 2 == 1 || y % 2 == 1 then 1 else 0) + 2 * Or(x / 2, y / 2)
  }

  /** The complement of x within a word of n bits. */
  function Not(x: nat, n: nat): nat
    requires x < Pow2(n)
  {
    Pow2(n) - 1 - x
  }

  /** Number of trailing zero bits. */
  function Ctz(x: nat): nat
    requires x > 0
  {
    if x % 2 == 1 then 0 else 1 + Ctz(x / 2)
  }

  function PopCount(x: nat): nat {
    if x == 0 then 0 else x % 2 + PopCount(x / 2)
  }

  /** A word is its lowest bit and the word of the others. */
  lemma Halves(low: nat, rest: nat)
    requires low <= 1
    ensures (low + 2 * rest) / 2 == rest && (low + 2 * rest) % 2 == low
  {
  }

  lemma {:induction false} ZeroHasNoBit(i: nat)
    ensures !HasBit(0, i)
  {
    if i > 0 {
      ZeroHasNoBit(i - 1);
    }
  }

  lemma {:induction false} HasBitAnd(x: nat, y: nat, i: nat)
    ensures HasBit(And(x, y), i) == (HasBit(x, i) && HasBit(y, i))
  {
    if x == 0 || y == 0 {
      ZeroHasNoBit(i);
    } else {
      Halves(if x % 2 == 1 && y % 2 == 1 then 1 else 0, And(x / 2, y / 2));
      if i > 0 {
        HasBitAnd(x / 2, y / 2, i - 1);
      }
    }
  }

  lemma {:induction false} HasBitOr(x: nat, y: nat, i: nat)
    ensures HasBit(Or(x, y), i) == (HasBit(x, i) || HasBit(y, i))
  {
    if x == 0 || y == 0 {
      ZeroHasNoBit(i);
    } else {
      Halves(if x % 2 == 1 || y % 2 == 1 then 1 else 0, Or(x / 2, y / 2));
      if i > 0 {
        HasBitOr(x / 2, y / 2, i - 1);
      }
    }
  }

  lemma {:induction false} HasBitPow2(k: nat, i: nat)
    ensures HasBit(Pow2(k), i) == (i == k)
  {
    if k == 0 {
      if i > 0 {
        ZeroHasNoBit(i - 1);
      }
    } else if i > 0 {
      assert Pow2(k) / 2 == Pow2(k - 1);
      HasBitPow2(k - 1, i - 1);
    }
  }

  lemma {:induction false} HasBitNot(x: nat, n: nat, i: nat)
    requires x < Pow2(n)
    ensures HasBit(Not(x, n), i) == (i < n && !HasBit(x, i))
  {
    if n == 0 {
      ZeroHasNoBit(i);
    } else {
      Halves(1 - x % 2, Not(x / 2, n - 1));
      assert Not(x, n) == 1 - x % 2 + 2 * Not(x / 2, n - 1);
      if i > 0 {
        HasBitNot(x / 2, n - 1, i - 1);
      }
    }
  }

  /** The low n bits all set. */
  lemma HasBitOnes(n: nat, i: nat)
    ensures HasBit(Pow2(n) - 1, i) == (i < n)
  {
    ZeroHasNoBit(i);
    HasBitNot(0, n, i);
  }

  /** A word below 2^n has no bit at n or above. */
  lemma {:induction false} HighBitsClear(x: nat, n: nat, i: nat)
    requires x < Pow2(n) && n <= i
    ensures !HasBit(x, i)
  {
    if n == 0 {
      ZeroHasNoBit(i);
    } else {
      HighBitsClear(x / 2, n - 1, i - 1);
    }
  }

  /** Masking with n ones is the remainder modulo 2^n. */
  lemma {:induction false} AndOnes(x: nat, n: nat)
    ensures And(x, Pow2(n) - 1) == x % Pow2(n)
  {
    if n == 0 {
    } else if x == 0 {
    } else {
      var p := Pow2(n - 1);
      assert Pow2(n) - 1 == 2 * (p - 1) + 1;
      assert (Pow2(n) - 1) / 2 == p - 1;
      AndOnes(x / 2, n - 1);
      ModDouble(x, p);
    }
  }

  lemma ModDouble(x: nat, p: nat)
    requires p >= 1
    ensures x % (2 * p) == x % 2 + 2 * ((x / 2) % p)
  {
    var q, r := (x / 2) / p, (x / 2) % p;
    assert x / 2 == q * p + r;
    var low := x % 2 + 2 * r;
    assert x == q * (2 * p) + low;
    assert 0 <= low < 2 * p;
    ModUnique(x, 2 * p, q, low);
  }

  lemma ModUnique(x: int, d: int, q: int, r: int)
    requires d > 0 && x == q * d + r && 0 <= r < d
    ensures x / d == q && x % d == r
  {
    var q', r' := x / d, x % d;
    assert x == q' * d + r';
    assert (q - q') * d == r' - r;
    assert q - q' >= 1 ==> (q - q') * d >= d;
    assert q - q' <= -1 ==> (q - q') * d <= -d;
  }

  /** Joining a low part with a shifted high part is addition. */
  lemma {:induction false} OrShifted(low: nat, high: nat, n: nat)
    requires low < Pow2(n)
    ensures Or(low, high * Pow2(n)) == low + high * Pow2(n)
  {
    if n == 0 || low == 0 || high == 0 {
    } else {
      var p := Pow2(n - 1);
      assert high * Pow2(n) == 2 * (high * p);
      OrShifted(low / 2, high, n - 1);
      assert high * p >= 1;
      assert (high * Pow2(n)) / 2 == high * p;
    }
  }

  /** Clearing the lowest set bit, the way the flush loop does it. */
  lemma {:induction false} ClearLowest(x: nat)
    requires x > 0
    ensures And(x, x - 1) < x
    ensures HasBit(x, Ctz(x))
    ensures PopCount(x) == 1 + PopCount(And(x, x - 1))
    ensures forall i: nat :: HasBit(And(x, x - 1), i) == (HasBit(x, i) && i != Ctz(x))
    ensures forall i: nat :: HasBit(x, i) ==> Ctz(x) <= i
  {
    if x % 2 == 1 {
      AndSelf(x / 2);
      assert (x - 1) / 2 == x / 2;
      assert And(x, x - 1) == x - 1;
      forall i: nat
        ensures HasBit(x - 1, i) == (HasBit(x, i) && i != 0)
      {
        if i > 0 {
          assert HasBit(x - 1, i) == HasBit(x / 2, i - 1);
        }
      }
      assert Ctz(x) == 0;
    } else {
      var h := x / 2;
      assert (x - 1) / 2 == h - 1;
      ClearLowest(h);
      var a := And(x, x - 1);
      assert a == 2 * And(h, h - 1);
      assert PopCount(a) == PopCount(And(h, h - 1)) by {
        assert a / 2 == And(h, h - 1);
      }
      forall i: nat
        ensures HasBit(a, i) == (HasBit(x, i) && i != Ctz(x))
        ensures HasBit(x, i) ==> Ctz(x) <= i
      {
        if i > 0 {
          assert HasBit(a, i) == HasBit(And(h, h - 1), i - 1);
          assert HasBit(x, i) == HasBit(h, i - 1);
        }
      }
    }
  }

  lemma {:induction false} AndSelf(x: nat)
    ensures And(x, x) == x
  {
    if x > 0 {
      AndSelf(x / 2);
    }
  }

  lemma {:induction false} AndBelow(x: nat, y: nat)
    ensures And(x, y) <= x && And(x, y) <= y
  {
    if x == 0 || y == 0 {
    } else {
      AndBelow(x / 2, y / 2);
    }
  }

  lemma {:induction false} OrBelow(x: nat, y: nat, n: nat)
    requires x < Pow2(n) && y < Pow2(n)
    ensures Or(x, y) < Pow2(n)
  {
    if x == 0 || y == 0 {
    } else {
      OrBelow(x / 2, y / 2, n - 1);
    }
  }
}
