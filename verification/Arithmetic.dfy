/** Remainders and powers of two. */
module Arithmetic {

  lemma SmallProduct(d: int, g: int)
    requires g > 0
    ensures d >= 1 ==> d * g >= g
    ensures d <= -1 ==> d * g <= -g
  {
    if d >= 1 {
      assert (d - 1) * g >= 0;
    } else if d <= -1 {
      assert (-d - 1) * g >= 0;
    }
  }

  /** Quotient and remainder are unique. */
  lemma ModIs(x: int, q: int, r: int, g: int)
    requires g > 0 && 0 <= r < g && x == q * g + r
    ensures x % g == r && x / g == q
  {
    var d := x / g - q;
    assert x == x / g * g + x % g;
    assert d * g == r - x % g;
    SmallProduct(d, g);
  }

  lemma ModShift(x: int, k: int, g: int)
    requires g > 0
    ensures (x + k * g) % g == x % g
  {
    assert x + k * g == (x / g + k) * g + x % g;
    ModIs(x + k * g, x / g + k, x % g, g);
  }

  lemma ModAdd(a: int, b: int, g: int)
    requires g > 0
    ensures (a + b % g) % g == (a + b) % g
  {
    var q := b / g;
    assert a + b == a + b % g + q * g;
    ModShift(a + b % g, q, g);
  }

  /** Two numbers with the same remainder differ by a multiple. */
  lemma SameMod(x: int, y: int, g: int)
    requires g > 0
    ensures x % g == y % g <==> (x - y) % g == 0
  {
    var q := x / g - y / g;
    assert x - y == q * g + (x % g - y % g);
    if x % g >= y % g {
      ModIs(x - y, q, x % g - y % g, g);
    } else {
      assert x - y == (q - 1) * g + (x % g - y % g + g);
      ModIs(x - y, q - 1, x % g - y % g + g, g);
    }
  }

  function Pow2(k: nat): (p: nat)
    ensures p >= 1
  {
    if k == 0 then 1 else 2 * Pow2(k - 1)
  }

  lemma {:induction false} Pow2Divides(j: nat, k: nat)
    requires j <= k
    ensures Pow2(k) % Pow2(j) == 0
    decreases k - j
  {
    if j < k {
      Pow2Divides(j, k - 1);
      var q := Pow2(k - 1) / Pow2(j);
      assert Pow2(k) == 2 * q * Pow2(j) + 0;
      ModIs(Pow2(k), 2 * q, 0, Pow2(j));
    } else {
      ModIs(Pow2(k), 1, 0, Pow2(j));
    }
  }

  lemma {:induction false} Pow2Sum(a: nat, b: nat)
    ensures Pow2(a + b) == Pow2(a) * Pow2(b)
    decreases a
  {
    if a > 0 {
      Pow2Sum(a - 1, b);
    }
  }

  lemma {:induction false} Pow2Monotone(j: nat, k: nat)
    requires j <= k
    ensures Pow2(j) <= Pow2(k)
    decreases k - j
  {
    if j < k {
      Pow2Monotone(j, k - 1);
    }
  }

  lemma Pow2Strict(j: nat, k: nat)
    requires j < k
    ensures Pow2(j) < Pow2(k)
  {
    Pow2Monotone(j, k - 1);
  }
}
