/** Unsigned words bit by bit: the bitwise operators on natural numbers. */
module Bits {
  import opened Arithmetic

  /** Bit `k` of `x`, the lowest one being bit 0. */
  predicate Bit(x: nat, k: nat) {
    if k == 0 then x % 2 == 1 else Bit(x / 2, k - 1)
  }

  /** Bitwise and of two unsigned numbers. */
  function And(x: nat, y: nat): nat {
    if x == 0 || y == 0 then 0
    else 2 * And(x / 2, y / 2) + if x % 2 == 1 && y % 2 == 1 then 1 else 0
  }

  /** Bitwise or of two unsigned numbers. */
  function Or(x: nat, y: nat): nat {
    if x == 0 then y else if y == 0 then x
    else 2 * Or(x / 2, y / 2) + if x % 2 == 1 || y % 2 == 1 then 1 else 0
  }

  /** Bitwise and of an unsigned number with the complement of another. */
  function AndNot(x: nat, y: nat): nat {
    if x == 0 then 0 else if y == 0 then x
    else 2 * AndNot(x / 2, y / 2) + if x % 2 == 1 && y % 2 == 0 then 1 else 0
  }

  // ---- The operators are what they say, on every bit ----

  lemma {:induction false} ZeroHasNoBit(k: nat)
    ensures !Bit(0, k)
  {
    if k > 0 {
      ZeroHasNoBit(k - 1);
    }
  }

  lemma {:induction false} BitOfAnd(x: nat, y: nat, k: nat)
    ensures Bit(And(x, y), k) <==> Bit(x, k) && Bit(y, k)
    decreases k
  {
    ZeroHasNoBit(k);
    if x != 0 && y != 0 && k > 0 {
      BitOfAnd(x / 2, y / 2, k - 1);
    }
  }

  lemma {:induction false} BitOfOr(x: nat, y: nat, k: nat)
    ensures Bit(Or(x, y), k) <==> Bit(x, k) || Bit(y, k)
    decreases k
  {
    ZeroHasNoBit(k);
    if x != 0 && y != 0 && k > 0 {
      BitOfOr(x / 2, y / 2, k - 1);
    }
  }

  lemma {:induction false} BitOfAndNot(x: nat, y: nat, k: nat)
    ensures Bit(AndNot(x, y), k) <==> Bit(x, k) && !Bit(y, k)
    decreases k
  {
    ZeroHasNoBit(k);
    if x != 0 && y != 0 && k > 0 {
      BitOfAndNot(x / 2, y / 2, k - 1);
    }
  }

  lemma {:induction false} BitOfPow2(f: nat, k: nat)
    ensures Bit(Pow2(f), k) <==> k == f
    decreases k
  {
    if f == 0 && k > 0 {
      ZeroHasNoBit(k - 1);
    } else if k > 0 {
      BitOfPow2(f - 1, k - 1);
    }
  }

  /** Testing one bit with a mask. */
  lemma {:induction false} AndPow2(x: nat, f: nat)
    ensures And(x, Pow2(f)) != 0 <==> Bit(x, f)
    decreases f
  {
    if x == 0 {
      ZeroHasNoBit(f);
    } else if f > 0 {
      AndPow2(x / 2, f - 1);
    } else {
      assert And(x / 2, 0) == 0;
    }
  }

  lemma HalvePow2(x: nat, k: nat)
    ensures x / 2 / Pow2(k) == x / Pow2(k + 1)
  {
    var p := Pow2(k);
    var q := x / 2 / p;
    assert x / 2 == q * p + x / 2 % p;
    assert q * (2 * p) == 2 * (q * p);
    ModIs(x, q, 2 * (x / 2 % p) + x % 2, 2 * p);
  }

  /** Bit `k` counts 2^k. */
  lemma {:induction false} BitIsQuotient(x: nat, k: nat)
    ensures Bit(x, k) <==> x / Pow2(k) % 2 == 1
    decreases k
  {
    if k > 0 {
      BitIsQuotient(x / 2, k - 1);
      HalvePow2(x, k - 1);
    }
  }

  ghost predicate NoCommonBit(x: nat, y: nat) { forall k: nat :: !(Bit(x, k) && Bit(y, k)) }

  /** Two numbers have no bit in common exactly when masking leaves nothing. */
  lemma AndIsZeroIff(x: nat, y: nat)
    ensures And(x, y) == 0 <==> NoCommonBit(x, y)
  {
    if And(x, y) == 0 {
      forall k: nat ensures !(Bit(x, k) && Bit(y, k)) {
        BitOfAnd(x, y, k);
        ZeroHasNoBit(k);
      }
    } else if NoCommonBit(x, y) {
      forall k: nat ensures Bit(And(x, y), k) <==> Bit(0, k) {
        BitOfAnd(x, y, k);
        ZeroHasNoBit(k);
      }
      BitsDetermine(And(x, y), 0);
    }
  }

  /** A number is the number of its bits. */
  lemma {:induction false} BitsDetermine(x: nat, y: nat)
    requires forall k :: Bit(x, k) <==> Bit(y, k)
    ensures x == y
    decreases x + y
  {
    if x + y > 0 {
      assert Bit(x, 0) <==> Bit(y, 0);
      forall k: nat ensures Bit(x / 2, k) <==> Bit(y / 2, k) {
        assert Bit(x, k + 1) <==> Bit(y, k + 1);
      }
      BitsDetermine(x / 2, y / 2);
    }
  }

  /** A number of at most n bits has none from bit n on. */
  lemma {:induction false} BitsBelow(x: nat, n: nat, k: nat)
    requires x < Pow2(n) && k >= n
    ensures !Bit(x, k)
    decreases n
  {
    if n == 0 {
      ZeroHasNoBit(k);
    } else {
      BitsBelow(x / 2, n - 1, k - 1);
    }
  }

  lemma {:induction false} OrWidth(x: nat, y: nat, n: nat)
    requires x < Pow2(n) && y < Pow2(n)
    ensures Or(x, y) < Pow2(n)
    decreases n
  {
    if n > 0 && x != 0 && y != 0 {
      OrWidth(x / 2, y / 2, n - 1);
    }
  }

  lemma {:induction false} AndNotWidth(x: nat, y: nat)
    ensures AndNot(x, y) <= x
  {
    if x != 0 && y != 0 {
      AndNotWidth(x / 2, y / 2);
    }
  }

  // ---- Masks of low ones ----

  lemma ModByHalves(x: nat, p: nat)
    requires p > 0
    ensures x % (2 * p) == 2 * (x / 2 % p) + x % 2
  {
    var q, r := x / 2 / p, x / 2 % p;
    assert x / 2 == q * p + r;
    assert q * (2 * p) == 2 * (q * p);
    ModIs(x, q, 2 * r + x % 2, 2 * p);
  }

  /** Masking with k low ones is the remainder modulo 2^k. */
  lemma {:induction false} LowMask(x: nat, k: nat)
    ensures And(x, Pow2(k) - 1) == x % Pow2(k)
  {
    if k > 0 {
      var p := Pow2(k - 1);
      LowMask(x / 2, k - 1);
      assert (2 * p - 1) / 2 == p - 1 && (2 * p - 1) % 2 == 1;
      ModByHalves(x, p);
    }
  }

  lemma OrOfOdd(x: nat, y: nat)
    ensures Or(2 * x + 1, 2 * y + 1) == 2 * Or(x, y) + 1
  {
    assert (2 * x + 1) / 2 == x && (2 * x + 1) % 2 == 1 && (2 * y + 1) / 2 == y;
  }

  function Max(a: nat, b: nat): nat { if a > b then a else b }

  /** A run of k low ones. */
  function Ones(k: nat): nat {
    if k == 0 then 0 else 2 * Ones(k - 1) + 1
  }

  lemma {:induction false} OnesArePow2(k: nat)
    ensures Ones(k) == Pow2(k) - 1
  {
    if k > 0 {
      OnesArePow2(k - 1);
    }
  }

  /** Of two runs of low ones the longer one contains the other. */
  lemma {:induction false} OrOfLowMasks(a: nat, b: nat)
    ensures Or(Ones(a), Ones(b)) == Ones(Max(a, b))
  {
    if a > 0 && b > 0 {
      OrOfLowMasks(a - 1, b - 1);
      OrOfOdd(Ones(a - 1), Ones(b - 1));
    }
  }
}
