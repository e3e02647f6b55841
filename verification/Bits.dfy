/** The bits of numbers: what the bit operations do to each of them, and numbers that agree under a mask. */
module Bits {
  import opened Bytes

  /** Bit j of a number, counted from the low end. */
  function Bit(x: nat, j: nat): (r: nat)
    ensures r < 2
    decreases j
  {
    if j == 0 then x % 2 else Bit(x / 2, j - 1)
  }

  /** A number without its low k bits. */
  function Shifted(x: nat, k: nat): (r: nat)
    decreases k
  {
    if k == 0 then x else Shifted(x / 2, k - 1)
  }

  lemma {:induction false} ShiftedIs(x: nat, k: nat)
    ensures Shifted(x, k) == x / Pow2(k)
    decreases k
  {
    if k > 0 {
      ShiftedIs(x / 2, k - 1);
      HalfQuotient(x, Pow2(k - 1));
    }
  }

  lemma HalfQuotient(x: nat, p: nat)
    requires p > 0
    ensures x / 2 / p == x / (2 * p)
  {
    var q, r := x / 2 / p, x / 2 % p;
    assert x / 2 == p * q + r;
    assert x == 2 * p * q + (2 * r + x % 2);
    QuotientIs(x, 2 * p, q, 2 * r + x % 2);
  }

  lemma QuotientIs(x: int, d: nat, q: int, r: nat)
    requires x == d * q + r && r < d
    ensures x / d == q
  {
    var q', r' := x / d, x % d;
    assert d * (q - q') == r' - r;
    if q < q' {
      TimesMore(1, q' - q, d);
    } else if q' < q {
      TimesMore(1, q - q', d);
    }
  }

  lemma {:induction false} TimesMore(a: nat, b: nat, p: nat)
    requires a <= b
    ensures a * p <= b * p
    decreases b - a
  {
    if a < b {
      TimesMore(a, b - 1, p);
      assert b * p == (b - 1) * p + p;
    }
  }

  /** Bit j as quotient and remainder. */
  lemma {:induction false} BitIs(x: nat, j: nat)
    ensures Bit(x, j) == Shifted(x, j) % 2 == x / Pow2(j) % 2
    decreases j
  {
    ShiftedIs(x, j);
    if j > 0 {
      BitIs(x / 2, j - 1);
    }
  }

  lemma {:induction false} BitZero(j: nat)
    ensures Bit(0, j) == 0
    decreases j
  {
    if j > 0 {
      BitZero(j - 1);
    }
  }

  /** The operations work on each bit by itself. */
  lemma {:induction false} BitOps(a: nat, b: nat, j: nat)
    ensures Bit(AndBits(a, b), j) == if Bit(a, j) == 1 && Bit(b, j) == 1 then 1 else 0
    ensures Bit(OrBits(a, b), j) == if Bit(a, j) == 1 || Bit(b, j) == 1 then 1 else 0
    ensures Bit(XorBits(a, b), j) == if Bit(a, j) != Bit(b, j) then 1 else 0
    decreases j
  {
    LowAnd(a, b);
    LowOr(a, b);
    LowXor(a, b);
    hide AndBits, OrBits, XorBits;
    if j > 0 {
      BitOps(a / 2, b / 2, j - 1);
    }
  }

  lemma LowAnd(a: nat, b: nat)
    ensures var low := if a % 2 == 1 && b % 2 == 1 then 1 else 0;
            AndBits(a, b) % 2 == low && AndBits(a, b) / 2 == AndBits(a / 2, b / 2)
  {
    if a != 0 && b != 0 {
      LowBit(if a % 2 == 1 && b % 2 == 1 then 1 else 0, AndBits(a / 2, b / 2));
    }
  }

  lemma LowOr(a: nat, b: nat)
    ensures var low := if a % 2 == 1 || b % 2 == 1 then 1 else 0;
            OrBits(a, b) % 2 == low && OrBits(a, b) / 2 == OrBits(a / 2, b / 2)
  {
    if a != 0 || b != 0 {
      LowBit(if a % 2 == 1 || b % 2 == 1 then 1 else 0, OrBits(a / 2, b / 2));
    }
  }

  lemma LowXor(a: nat, b: nat)
    ensures var low := if a % 2 != b % 2 then 1 else 0;
            XorBits(a, b) % 2 == low && XorBits(a, b) / 2 == XorBits(a / 2, b / 2)
  {
    hide XorBits;
    Parity(a, b);
    XorHalves(a, b);
    LowBit((a + b) % 2, XorBits(a / 2, b / 2));
  }

  lemma XorHalves(a: nat, b: nat)
    ensures XorBits(a, b) == (a + b) % 2 + 2 * XorBits(a / 2, b / 2)
  {
  }

  lemma LowBit(bit: nat, rest: nat)
    requires bit < 2
    ensures (bit + 2 * rest) % 2 == bit && (bit + 2 * rest) / 2 == rest
  {
  }

  lemma Parity(a: nat, b: nat)
    ensures (a + b) % 2 == if a % 2 != b % 2 then 1 else 0
  {
  }

  lemma {:induction false} SameBits(a: nat, b: nat)
    requires forall j: nat :: Bit(a, j) == Bit(b, j)
    ensures a == b
    decreases a + b
  {
    assert Bit(a, 0) == Bit(b, 0);
    if a != 0 || b != 0 {
      forall j: nat ensures Bit(a / 2, j) == Bit(b / 2, j) {
        assert Bit(a, j + 1) == Bit(b, j + 1);
      }
      SameBits(a / 2, b / 2);
    }
  }

  /** Agreement in every bit of a mask. */
  ghost predicate Agree(a: nat, b: nat, mask: nat)
  {
    forall j: nat :: Bit(mask, j) == 1 ==> Bit(a, j) == Bit(b, j)
  }

  /** Two numbers agree under a mask exactly if they agree in every bit of it. */
  lemma MaskedEqualIff(a: nat, b: nat, mask: nat)
    ensures AndBits(a, mask) == AndBits(b, mask) <==> Agree(a, b, mask)
  {
    hide Bit, AndBits;
    var x, y := AndBits(a, mask), AndBits(b, mask);
    if x == y {
      forall j: nat | Bit(mask, j) == 1 ensures Bit(a, j) == Bit(b, j) {
        BitOps(a, mask, j);
        BitOps(b, mask, j);
      }
    }
    if Agree(a, b, mask) {
      forall j: nat ensures Bit(x, j) == Bit(y, j) {
        BitOps(a, mask, j);
        BitOps(b, mask, j);
      }
      SameBits(x, y);
    }
  }

  /** The bits of a prefix mask of n bits, the low k of them clear. */
  lemma {:induction false} PrefixBits(n: nat, k: nat, j: nat)
    requires k <= n
    ensures Pow2(n) >= Pow2(k) && Bit(Pow2(n) - Pow2(k), j) == if k <= j < n then 1 else 0
    decreases n
  {
    if k == n {
      BitZero(j);
    } else if k > 0 {
      PrefixBits(n - 1, k - 1, if j > 0 then j - 1 else 0);
      assert Pow2(n) - Pow2(k) == 2 * (Pow2(n - 1) - Pow2(k - 1));
    } else {
      PrefixBits(n - 1, 0, if j > 0 then j - 1 else 0);
      assert Pow2(n) - 1 == 2 * (Pow2(n - 1) - 1) + 1;
    }
  }

  lemma {:induction false} ShiftedBits(x: nat, k: nat, j: nat)
    ensures Bit(Shifted(x, k), j) == Bit(x, k + j)
    decreases k
  {
    if k > 0 {
      ShiftedBits(x / 2, k - 1, j);
    }
  }

  lemma {:induction false} HighBits(x: nat, n: nat, j: nat)
    requires x < Pow2(n) && j >= n
    ensures Bit(x, j) == 0
    decreases n
  {
    if n == 0 {
      BitZero(j);
    } else {
      HighBits(x / 2, n - 1, j - 1);
    }
  }

  /** Under a prefix mask, numbers agree exactly if they do without their low k bits. */
  lemma PrefixEqualIff(a: nat, b: nat, n: nat, k: nat)
    requires k <= n && a < Pow2(n) && b < Pow2(n)
    ensures Pow2(n) >= Pow2(k)
    ensures AndBits(a, Pow2(n) - Pow2(k)) == AndBits(b, Pow2(n) - Pow2(k)) <==> Shifted(a, k) == Shifted(b, k)
  {
    hide Bit, AndBits, Pow2, Shifted;
    PrefixBits(n, k, 0);
    var mask, p, q := Pow2(n) - Pow2(k), Shifted(a, k), Shifted(b, k);
    MaskedEqualIff(a, b, mask);
    if p == q {
      forall j: nat | Bit(mask, j) == 1 ensures Bit(a, j) == Bit(b, j) {
        PrefixBits(n, k, j);
        ShiftedBits(a, k, j - k);
        ShiftedBits(b, k, j - k);
      }
    }
    if Agree(a, b, mask) {
      forall j: nat ensures Bit(p, j) == Bit(q, j) {
        PrefixBits(n, k, k + j);
        ShiftedBits(a, k, j);
        ShiftedBits(b, k, j);
        if k + j >= n {
          HighBits(a, n, k + j);
          HighBits(b, n, k + j);
        }
      }
      SameBits(p, q);
    }
  }
}
