/** The bitwise integer square root of common/joint/src/joint.c. */
module Isqrt {
  import opened Bits
  import opened CIntegers

  /** r is the floor of the square root of x. */
  predicate IsRoot(x: int, r: int) {
    0 <= r && r * r <= x < (r + 1) * (r + 1)
  }

  /** The floor of the square root, searched upward from zero. */
  function Root(x: nat): (r: nat)
    ensures IsRoot(x, r)
  {
    RootFrom(x, 0)
  }

  function RootFrom(x: nat, r: nat): (root: nat)
    requires r * r <= x
    ensures IsRoot(x, root)
    decreases x - r * r
  {
    if (r + 1) * (r + 1) > x then r else RootFrom(x, r + 1)
  }

  lemma RootUnique(x: int, r: int, s: int)
    requires IsRoot(x, r) && IsRoot(x, s)
    ensures r == s
  {
    if r < s {
      MulMonotone(r + 1, s, r + 1);
      MulMonotone(r + 1, s, s);
    }
    if s < r {
      MulMonotone(s + 1, r, s + 1);
      MulMonotone(s + 1, r, r);
    }
  }

  /** The word the firmware calls bit when the k lowest binary places of the root are still open. */
  ghost function PlaceBit(k: nat): nat {
    if k == 0 then 0 else Pow2(k - 1) * Pow2(k - 1)
  }

  lemma PlaceBitQuarter(k: nat)
    requires k > 0
    ensures PlaceBit(k) / 4 == PlaceBit(k - 1) && 4 * PlaceBit(k) == Pow2(k) * Pow2(k)
  {
  }

  /**
    The state of the second loop: s is the part of the root found so far and k the number of binary
    places still open; r holds s * 2^k, bit holds PlaceBit(k), and x what is left of the argument
    once s * s is taken away.
   */
  ghost predicate Rooting(arg: int, x: int, r: int, bit: int, s: nat, k: nat) {
    && bit == PlaceBit(k)
    && s + Pow2(k) <= 0x1_0000_0000
    && r == s * Pow2(k)
    && x + s * s == arg < (s + Pow2(k)) * (s + Pow2(k))
  }

  /** What adding the place h to the root s does to its square and to the word s * 2h. */
  lemma RootStep(s: nat, h: nat)
    requires h > 0 && s + 2 * h <= 0x1_0000_0000
    ensures (s * (2 * h)) / 2 == s * h
    ensures s * (2 * h) + h * h == (s + h) * (s + h) - s * s
    ensures s * (2 * h) + h * h < 0x1_0000_0000_0000_0000
    ensures s * h + h * h == (s + h) * h
  {
    var t, m := s + h, 0xFFFF_FFFF;
    assert s * (2 * h) == 2 * (s * h);
    assert t * t == s * s + 2 * (s * h) + h * h;
    MulMonotone(t, m, t);
    MulMonotone(t, m, m);
    assert t * t <= m * m;
    assert s * s >= 0;
  }

  lemma TryPlace(arg: int, x: int, r: int, bit: int, s: nat, k: nat)
    requires Rooting(arg, x, r, bit, s, k) && k > 0 && x >= 0
    ensures r + bit < 0x1_0000_0000_0000_0000
    ensures x >= r + bit ==> Rooting(arg, x - (r + bit), r / 2 + bit, bit / 4, s + Pow2(k - 1), k - 1)
    ensures x < r + bit ==> Rooting(arg, x, r / 2, bit / 4, s, k - 1)
  {
    PlaceBitQuarter(k);
    RootStep(s, Pow2(k - 1));
  }

  lemma FirstPlace(arg: int)
    requires 0 <= arg < TWO_64
    ensures Rooting(arg, arg, 0, 0x4000_0000_0000_0000, 0, 32)
  {
    Pow2Values();
  }

  lemma ShrinkPlace(arg: int, bit: int, k: nat)
    requires Rooting(arg, arg, 0, bit, 0, k) && bit > arg >= 0
    ensures k > 0 && Rooting(arg, arg, 0, bit / 4, 0, k - 1)
  {
    PlaceBitQuarter(k);
  }

  lemma LastPlace(arg: int, x: int, r: int, s: nat, k: nat)
    requires Rooting(arg, x, r, 0, s, k) && 0 <= x
    ensures IsRoot(arg, r)
  {
  }

  method IsqrtU64(arg: uint64) returns (r: uint64)
    ensures IsRoot(arg as int, r as int)
    ensures r as int == Root(arg as int)
  {
    var x := arg;
    var bit: uint64 := 0x4000_0000_0000_0000;
    r := 0;
    ghost var k: nat := 32;
    FirstPlace(arg as int);
    while bit > x
      invariant x == arg && Rooting(arg as int, x as int, 0, bit as int, 0, k)
      decreases k
    {
      ShrinkPlace(arg as int, bit as int, k);
      bit := bit / 4;
      k := k - 1;
    }
    ghost var s: nat := 0;
    while bit != 0
      invariant Rooting(arg as int, x as int, r as int, bit as int, s, k)
      decreases k
    {
      TryPlace(arg as int, x as int, r as int, bit as int, s, k);
      if x >= r + bit {
        x := x - (r + bit);
        r := r / 2 + bit;
        s := s + Pow2(k - 1);
      } else {
        r := r / 2;
      }
      bit := bit / 4;
      k := k - 1;
    }
    LastPlace(arg as int, x as int, r as int, s, k);
    RootUnique(arg as int, r as int, Root(arg as int));
  }
}
