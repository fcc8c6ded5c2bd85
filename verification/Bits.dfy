/**
 Machine-word operators on natural numbers, defined bit by bit. The first argument of each
 operator is the width of the word. The lemmas give the arithmetic meaning of the masks and
 shifts that the tag, subnet and alignment code uses.
 */
module Bits {
  function Pow2(k: nat): (p: nat)
    ensures p >= 1
  {
    if k == 0 then 1 else 2 * Pow2(k - 1)
  }

  function And(width: nat, a: nat, b: nat): (r: nat)
    ensures r <= a
  {
    if width == 0 then 0 else 2 * And(width - 1, a / 2, b / 2) + (if a % 2 == 1 && b % 2 == 1 then 1 else 0)
  }

  function Or(width: nat, a: nat, b: nat): (r: nat)
    ensures r < Pow2(width)
  {
    if width == 0 then 0 else 2 * Or(width - 1, a / 2, b / 2) + (if a % 2 == 1 || b % 2 == 1 then 1 else 0)
  }

  function Not(width: nat, a: nat): (r: nat)
    requires a < Pow2(width)
    ensures r == Pow2(width) - 1 - a
  {
    if width == 0 then 0 else 2 * Not(width - 1, a / 2) + (1 - a % 2)
  }

  /** `a << k`, one bit at a time; a bit that leaves the word is lost. */
  function ShiftLeft(width: nat, a: nat, k: nat): (r: nat)
    requires a < Pow2(width)
    ensures r < Pow2(width)
    decreases k
  {
    if k == 0 then a
    else ShiftLeft(width, if 2 * a < Pow2(width) then 2 * a else 2 * a - Pow2(width), k - 1)
  }

  /** `a >> k`, bit by bit. */
  function ShiftRight(a: nat, k: nat): nat
    decreases k
  {
    if k == 0 then a else ShiftRight(a / 2, k - 1)
  }

  /** `leading_ones` of a word of the given width. */
  function LeadingOnes(width: nat, a: nat): nat
    requires a < Pow2(width)
  {
    if width == 0 || a < Pow2(width - 1) then 0 else 1 + LeadingOnes(width - 1, a - Pow2(width - 1))
  }

  // ----- division facts

  lemma ProductAtLeast(m: nat, d: int)
    requires d >= 1
    ensures m * d >= m
  {
  }

  lemma DivisionIsUnique(a: nat, m: nat, q: nat, r: nat)
    requires r < m && a == m * q + r
    ensures a / m == q && a % m == r
  {
    var d := a / m - q;
    assert m * d == r - a % m by {
      assert a == m * (a / m) + a % m;
    }
    if d >= 1 {
      ProductAtLeast(m, d);
    } else if d <= -1 {
      ProductAtLeast(m, -d);
    }
  }

  /** Dividing by `2 * m` is halving and then dividing by `m`. */
  lemma Halve(a: nat, m: nat)
    requires m > 0
    ensures a / (2 * m) == a / 2 / m
    ensures a % (2 * m) == 2 * (a / 2 % m) + a % 2
  {
    var q, r := a / 2 / m, a / 2 % m;
    assert a == (2 * m) * q + (2 * r + a % 2);
    DivisionIsUnique(a, 2 * m, q, 2 * r + a % 2);
  }

  lemma Pow2Zero()
    ensures Pow2(0) == 1
  {
  }

  lemma Pow2Sum(j: nat, k: nat)
    ensures Pow2(j + k) == Pow2(j) * Pow2(k)
  {
    if j > 0 {
      Pow2Sum(j - 1, k);
    }
  }

  lemma Pow2Grows(j: nat, k: nat)
    requires j < k
    ensures 2 * Pow2(j) <= Pow2(k)
  {
    if j + 1 < k {
      Pow2Grows(j, k - 1);
    }
  }

  lemma Pow2Monotone(j: nat, k: nat)
    requires j <= k
    ensures Pow2(j) <= Pow2(k)
  {
    if j < k {
      Pow2Grows(j, k);
    }
  }

  // ----- masks

  lemma AndWithZero(width: nat, a: nat)
    ensures And(width, a, 0) == 0 == And(width, 0, a)
  {
  }

  /** `a & (2^k - 1)` keeps the low `k` bits. */
  lemma {:induction false} AndLowMask(width: nat, a: nat, k: nat)
    requires k <= width
    ensures And(width, a, Pow2(k) - 1) == a % Pow2(k)
  {
    if k == 0 {
      AndWithZero(width, a);
    } else {
      var m, mask := Pow2(k - 1), Pow2(k) - 1;
      assert mask / 2 == m - 1 && mask % 2 == 1;
      AndLowMask(width - 1, a / 2, k - 1);
      Halve(a, m);
      hide Pow2;
      assert And(width, a, mask) == 2 * And(width - 1, a / 2, mask / 2) + a % 2;
    }
  }

  /** `a & 2^k` tests bit `k`. */
  lemma {:induction false} AndSingleBit(width: nat, a: nat, k: nat)
    requires k < width
    ensures And(width, a, Pow2(k)) == if a / Pow2(k) % 2 == 1 then Pow2(k) else 0
  {
    if k == 0 {
      AndWithZero(width - 1, a / 2);
    } else {
      AndSingleBit(width - 1, a / 2, k - 1);
      Halve(a, Pow2(k - 1));
    }
  }

  /** `a & !(2^k - 1)` clears the low `k` bits. */
  lemma {:induction false} AndHighMask(width: nat, a: nat, k: nat, mask: nat)
    requires k <= width && a < Pow2(width) && mask + Pow2(k) == Pow2(width)
    ensures And(width, a, mask) == a - a % Pow2(k)
  {
    if k == 0 {
      AndAllOnes(width, a);
    } else {
      AndHighMask(width - 1, a / 2, k - 1, mask / 2);
      Halve(a, Pow2(k - 1));
    }
  }

  lemma {:induction false} AndAllOnes(width: nat, a: nat)
    requires a < Pow2(width)
    ensures And(width, a, Pow2(width) - 1) == a
  {
    if width > 0 {
      var w := Pow2(width - 1);
      assert (2 * w - 1) / 2 == w - 1;
      AndAllOnes(width - 1, a / 2);
    }
  }

  /** Or is addition when no bit is set on both sides. */
  lemma {:induction false} OrDisjoint(width: nat, a: nat, b: nat, k: nat)
    requires a < Pow2(width) && b < Pow2(k) && k <= width && a % Pow2(k) == 0
    ensures Or(width, a, b) == a + b
  {
    if width == 0 {
    } else if k == 0 {
      OrWithZero(width, a);
    } else {
      Halve(a, Pow2(k - 1));
      OrDisjoint(width - 1, a / 2, b / 2, k - 1);
    }
  }

  lemma {:induction false} OrWithZero(width: nat, a: nat)
    requires a < Pow2(width)
    ensures Or(width, a, 0) == a
  {
    if width > 0 {
      OrWithZero(width - 1, a / 2);
    }
  }

  /** The classic test `x & (x + 1) == 0` holds exactly for `2^k - 1`. */
  lemma {:induction false} AndSuccessor(width: nat, x: nat)
    requires x + 1 < Pow2(width)
    ensures And(width, x, x + 1) == 0 <==> exists k: nat :: k < width && x + 1 == Pow2(k)
  {
    if x == 0 {
      AndWithZero(width, 1);
      assert width > 0 && x + 1 == Pow2(0);
    } else if x % 2 == 0 {
      assert (x + 1) / 2 == x / 2;
      AndSelf(width - 1, x / 2);
      forall k: nat | k < width
        ensures x + 1 != Pow2(k)
      {
        assert k > 0 ==> Pow2(k) % 2 == 0;
      }
    } else {
      assert (x + 1) / 2 == x / 2 + 1;
      AndSuccessor(width - 1, x / 2);
      if And(width, x, x + 1) == 0 {
        var k: nat :| k < width - 1 && x / 2 + 1 == Pow2(k);
        assert x + 1 == Pow2(k + 1);
      }
      if k: nat :| k < width && x + 1 == Pow2(k) {
        assert k > 0 && x / 2 + 1 == Pow2(k - 1);
      }
    }
  }

  lemma {:induction false} AndSelf(width: nat, a: nat)
    requires a < Pow2(width)
    ensures And(width, a, a) == a
  {
    if width > 0 {
      AndSelf(width - 1, a / 2);
    }
  }

  /** Shifting a word of high ones by `k` leaves `k` more low zeros. */
  lemma {:induction false} ShiftedHighOnes(width: nat, word: nat, j: nat, k: nat)
    requires j + k <= width && word + Pow2(j) == Pow2(width)
    ensures ShiftLeft(width, word, k) + Pow2(j + k) == Pow2(width)
    decreases k
  {
    if k > 0 {
      Pow2Grows(j, width);
      ShiftedHighOnes(width, 2 * word - Pow2(width), j + 1, k - 1);
      assert j + 1 + (k - 1) == j + k;
    }
  }

  /** A shift that loses no bit is a multiplication. */
  lemma {:induction false} ShiftLeftValue(width: nat, a: nat, k: nat, j: nat)
    requires a < Pow2(j) && j + k <= width && a < Pow2(width)
    ensures ShiftLeft(width, a, k) == a * Pow2(k)
    decreases k
  {
    if k > 0 {
      Pow2Grows(j, width);
      ShiftLeftValue(width, 2 * a, k - 1, j + 1);
      Reassociate(a, Pow2(k - 1));
    }
  }

  lemma Reassociate(a: nat, m: nat)
    ensures (2 * a) * m == a * (2 * m)
  {
  }

  lemma {:induction false} ShiftRightValue(a: nat, k: nat)
    ensures ShiftRight(a, k) == a / Pow2(k)
    decreases k
  {
    if k > 0 {
      ShiftRightValue(a / 2, k - 1);
      Halve(a, Pow2(k - 1));
    }
  }

  /** An address in a `width`-bit space lies in a block of `2^k` that fits the space. */
  lemma BlockFits(width: nat, address: nat, k: nat)
    requires k <= width && address < Pow2(width)
    ensures var block := address - address % Pow2(k);
      block % Pow2(k) == 0 && block + Pow2(k) <= Pow2(width)
  {
    hide Pow2;
    Pow2Sum(width - k, k);
    MultipleFits(address, Pow2(k), Pow2(width - k));
  }

  lemma MultipleFits(address: nat, h: nat, n: nat)
    requires h > 0 && address < n * h
    ensures var block := address - address % h;
      block % h == 0 && block + h <= n * h
  {
    var q := address / h;
    assert address == h * q + address % h;
    DivisionIsUnique(h * q, h, q, 0);
    if q >= n {
      Monotone(h, n, q);
    }
    Monotone(h, q + 1, n);
  }

  lemma Monotone(h: nat, a: nat, b: nat)
    ensures a <= b ==> h * a <= h * b
  {
  }

  /** A word of `p` ones followed by zeros has `p` leading ones. */
  lemma {:induction false} LeadingOnesOfHighMask(width: nat, k: nat, mask: nat)
    requires k <= width && mask + Pow2(k) == Pow2(width)
    ensures LeadingOnes(width, mask) == width - k
  {
    if k < width {
      Pow2Grows(k, width);
      LeadingOnesOfHighMask(width - 1, k, mask - Pow2(width - 1));
    }
  }

  lemma Pow2Values()
    ensures Pow2(2) == 4 && Pow2(3) == 8 && Pow2(12) == 0x1000 && Pow2(13) == 0x2000
    ensures Pow2(16) == 0x1_0000 && Pow2(32) == 0x1_0000_0000
    ensures Pow2(63) == 0x8000_0000_0000_0000 && Pow2(64) == 0x1_0000_0000_0000_0000
  {
    assert Pow2(4) == 16 && Pow2(8) == 256;
    Pow2Sum(4, 8);
    Pow2Sum(1, 12);
    Pow2Sum(8, 8);
    Pow2Sum(16, 16);
    Pow2Sum(32, 32);
    assert Pow2(64) == 2 * Pow2(63);
  }
}
