/** Powers of two, the alignment of page numbers, and the bit arithmetic the allocator relies on.

    Alignment and XOR are defined by recursion on the exponent, so that every proof about them
    is an induction over linear arithmetic. */
module PowersOfTwo {

  function Pow2(k: nat): (r: nat)
    ensures r >= 1
  {
    if k == 0 then 1 else 2 * Pow2(k - 1)
  }

  /** The low k bits of x are zero. */
  predicate Aligned(x: nat, k: nat)
    decreases k
  {
    k == 0 || (x % 2 == 0 && Aligned(x / 2, k - 1))
  }

  /** Bit j of x. */
  predicate Bit(x: nat, j: nat)
    decreases j
  {
    if j == 0 then x % 2 == 1 else Bit(x / 2, j - 1)
  }

  /** x ^ (1 << k). */
  function FlipBit(x: nat, k: nat): (r: nat)
    decreases k
  {
    if k == 0 then (if x % 2 == 0 then x + 1 else x - 1)
    else 2 * FlipBit(x / 2, k - 1) + x % 2
  }

  /** The reference definition of XOR with a single bit: that bit changes and no other does. */
  lemma {:induction false} FlipBitIsXor(x: nat, k: nat, j: nat)
    ensures Bit(FlipBit(x, k), j) == (if j == k then !Bit(x, j) else Bit(x, j))
    decreases k
  {
    if k > 0 && j > 0 {
      assert FlipBit(x, k) / 2 == FlipBit(x / 2, k - 1);
      FlipBitIsXor(x / 2, k - 1, j - 1);
    }
  }

  lemma {:induction false} Pow2Sum(a: nat, b: nat)
    ensures Pow2(a + b) == Pow2(a) * Pow2(b)
  {
    if a > 0 {
      Pow2Sum(a - 1, b);
      assert Pow2(a + b) == 2 * Pow2(a - 1 + b);
    }
  }

  lemma {:induction false} Pow2Monotone(a: nat, b: nat)
    requires a <= b
    ensures Pow2(a) <= Pow2(b)
    ensures a < b ==> 2 * Pow2(a) <= Pow2(b)
    decreases b
  {
    if a < b {
      Pow2Monotone(a, b - 1);
    }
  }

  /** Alignment is divisibility by the power of two. */
  lemma {:induction false} AlignedIffMultiple(x: nat, k: nat)
    ensures Aligned(x, k) <==> x % Pow2(k) == 0
    decreases k
  {
    if k > 0 {
      AlignedIffMultiple(x / 2, k - 1);
      HalfRemainder(x, Pow2(k - 1));
    }
  }

  lemma HalfRemainder(x: nat, p: nat)
    requires p > 0
    ensures x % (2 * p) == 2 * ((x / 2) % p) + x % 2
  {
    var q, r := (x / 2) / p, (x / 2) % p;
    assert x / 2 == q * p + r;
    assert x == q * (2 * p) + (2 * r + x % 2);
    RemainderUnique(x, 2 * p, q, 2 * r + x % 2);
  }

  lemma RemainderUnique(x: int, d: int, q: int, r: int)
    requires d > 0 && 0 <= r < d && x == q * d + r
    ensures x / d == q && x % d == r
  {
    MultipleBelow(q - x / d, d, x % d - r);
  }

  lemma MultipleBelow(z: int, d: int, w: int)
    requires z * d == w && -d < w < d
    ensures z == 0
  {
    assert z >= 1 ==> z * d >= d;
    assert z <= -1 ==> z * d <= -d;
  }

  lemma {:induction false} AlignedDown(x: nat, k: nat, m: nat)
    requires Aligned(x, m) && k <= m
    ensures Aligned(x, k)
    decreases k
  {
    if k > 0 {
      AlignedDown(x / 2, k - 1, m - 1);
    }
  }

  lemma {:induction false} Pow2Aligned(m: nat, k: nat)
    requires k <= m
    ensures Aligned(Pow2(m), k)
    decreases k
  {
    if k > 0 {
      var half := Pow2(m - 1);
      assert Pow2(m) == 2 * half;
      assert Pow2(m) % 2 == 0 && Pow2(m) / 2 == half;
      Pow2Aligned(m - 1, k - 1);
    }
  }

  lemma {:induction false} AlignedAdd(x: nat, y: nat, k: nat)
    requires Aligned(y, k)
    ensures Aligned(x + y, k) == Aligned(x, k)
    decreases k
  {
    if k > 0 && x % 2 == 0 {
      assert (x + y) / 2 == x / 2 + y / 2;
      AlignedAdd(x / 2, y / 2, k - 1);
    }
  }

  /** Two aligned blocks that meet are nested: the smaller lies inside the larger. */
  lemma {:induction false} Nested(i: nat, k: nat, j: nat, m: nat)
    requires Aligned(i, k) && Aligned(j, m) && k <= m
    requires i < j + Pow2(m) && j < i + Pow2(k)
    ensures j <= i && i + Pow2(k) <= j + Pow2(m)
    decreases k
  {
    if k > 0 {
      Nested(i / 2, k - 1, j / 2, m - 1);
    }
  }

  /** Two aligned blocks of one order that meet are the same block. */
  lemma SameOrderSame(i: nat, j: nat, k: nat)
    requires Aligned(i, k) && Aligned(j, k)
    requires i < j + Pow2(k) && j < i + Pow2(k)
    ensures i == j
  {
    Nested(i, k, j, k);
    Nested(j, k, i, k);
  }

  /** The buddy of the block of order k at page i. */
  function Buddy(i: nat, k: nat): (r: nat)
  {
    FlipBit(i, k)
  }

  /** The buddy is the other half of the enclosing block of order k + 1. */
  lemma {:induction false} BuddyIsOtherHalf(i: nat, k: nat)
    requires Aligned(i, k)
    ensures Aligned(i, k + 1) ==> Buddy(i, k) == i + Pow2(k)
    ensures !Aligned(i, k + 1) ==> i >= Pow2(k) && Buddy(i, k) == i - Pow2(k) && Aligned(i - Pow2(k), k + 1)
    ensures Aligned(Buddy(i, k), k)
    ensures Buddy(Buddy(i, k), k) == i
    decreases k
  {
    if k > 0 {
      BuddyIsOtherHalf(i / 2, k - 1);
      assert Buddy(i, k) / 2 == Buddy(i / 2, k - 1);
      assert Aligned(i, k + 1) <==> Aligned(i / 2, k);
      if !Aligned(i, k + 1) {
        assert (i - Pow2(k)) / 2 == i / 2 - Pow2(k - 1);
      }
    }
  }

  /** XOR commutes with adding a base whose low k + 1 bits are clear. */
  lemma {:induction false} FlipBitAboveBase(b: nat, x: nat, k: nat)
    requires Aligned(b, k + 1)
    ensures FlipBit(b + x, k) == b + FlipBit(x, k)
    decreases k
  {
    if k > 0 {
      assert (b + x) / 2 == b / 2 + x / 2;
      FlipBitAboveBase(b / 2, x / 2, k - 1);
    }
  }

  lemma DoubledProduct(p: nat, x: nat)
    ensures p * x >= 0 && (2 * p) * x == 2 * (p * x)
  {
  }

  lemma FlipBitOfDouble(y: nat, k: nat)
    ensures FlipBit(2 * y, k + 1) == 2 * FlipBit(y, k)
  {
    assert (2 * y) / 2 == y && (2 * y) % 2 == 0;
  }

  /** XOR commutes with a left shift. */
  lemma {:induction false} FlipBitShifted(x: nat, k: nat, s: nat)
    ensures FlipBit(Pow2(s) * x, s + k) == Pow2(s) * FlipBit(x, k)
    decreases s
  {
    if s > 0 {
      var p, y := Pow2(s - 1), FlipBit(x, k);
      FlipBitShifted(x, k, s - 1);
      DoubledProduct(p, x);
      DoubledProduct(p, y);
      FlipBitOfDouble(p * x, s - 1 + k);
    }
  }

  // ----- logarithms and the lowest set bit -----

  /** floor_log2: 31 - clz(n), trapping on 0. */
  function FloorLog2(n: nat): (r: nat)
    requires n > 0
    ensures Pow2(r) <= n < Pow2(r + 1)
  {
    if n == 1 then 0 else 1 + FloorLog2(n / 2)
  }

  lemma {:induction false} FloorLog2Unique(n: nat, r: nat)
    requires Pow2(r) <= n < Pow2(r + 1)
    ensures FloorLog2(n) == r
    decreases n
  {
    if r > 0 {
      FloorLog2Unique(n / 2, r - 1);
    } else {
      assert n == 1;
    }
  }

  /** The position of the lowest set bit of n. */
  function LowBit(n: nat): (r: nat)
    requires n > 0
    ensures Aligned(n, r) && !Aligned(n, r + 1)
  {
    if n % 2 == 1 then 0 else 1 + LowBit(n / 2)
  }

  lemma {:induction false} LowBitUnique(n: nat, r: nat)
    requires n > 0 && Aligned(n, r) && !Aligned(n, r + 1)
    ensures LowBit(n) == r
    decreases n
  {
    if n % 2 == 0 {
      assert r > 0;
      LowBitUnique(n / 2, r - 1);
    }
  }

  /** Between two multiples of 2^k there is room for a whole block. */
  lemma {:induction false} AlignedGap(i: nat, j: nat, k: nat)
    requires Aligned(i, k) && Aligned(j, k) && i < j
    ensures i + Pow2(k) <= j
    decreases k
  {
    if k > 0 {
      AlignedGap(i / 2, j / 2, k - 1);
    }
  }

  /** n is a power of two exactly when its lowest set bit is its highest. */
  lemma {:induction false} LowBitOfPower(n: nat)
    requires n > 0
    ensures LowBit(n) <= FloorLog2(n)
    ensures LowBit(n) == FloorLog2(n) <==> n == Pow2(FloorLog2(n))
  {
    if n % 2 == 0 {
      LowBitOfPower(n / 2);
    } else if n > 1 {
      assert FloorLog2(n) > 0;
    }
  }
}
