/** Bitwise operations of C's unsigned integers, on naturals. */
module Bits {
  const TWO32: nat := 0x1_0000_0000
  const TWO64: nat := 0x1_0000_0000_0000_0000

  function Pow2(n: nat): (p: nat)
    ensures p > 0
  {
    if n == 0 then 1 else 2 * Pow2(n - 1)
  }

  lemma Pow2Add(a: nat, b: nat)
    ensures Pow2(a + b) == Pow2(a) * Pow2(b)
  {
    if a != 0 {
      Pow2Add(a - 1, b);
      assert Pow2(a + b) == 2 * (Pow2(a - 1) * Pow2(b));
    }
  }

  /** Bit j of w. */
  predicate Bit(w: nat, j: nat) {
    if j == 0 then w % 2 == 1 else Bit(w / 2, j - 1)
  }

  /** C's a | b. */
  function Or(a: nat, b: nat): nat
    decreases a + b
  {
    if a == 0 && b == 0 then 0
    else (if a % 2 == 1 || b % 2 == 1 then 1 else 0) + 2 * Or(a / 2, b / 2)
  }

  lemma {:induction false} OrBit(a: nat, b: nat, j: nat)
    ensures Bit(Or(a, b), j) <==> Bit(a, j) || Bit(b, j)
    decreases j
  {
    if a == 0 && b == 0 {
      ZeroBit(j);
    } else {
      assert Or(a, b) / 2 == Or(a / 2, b / 2);
      if j != 0 {
        OrBit(a / 2, b / 2, j - 1);
      }
    }
  }

  lemma {:induction false} ZeroBit(j: nat)
    ensures !Bit(0, j)
  {
    if j != 0 {
      ZeroBit(j - 1);
    }
  }

  lemma {:induction false} OrZero(a: nat)
    ensures Or(a, 0) == a && Or(0, a) == a
  {
    if a != 0 {
      OrZero(a / 2);
    }
  }

  /** Operands without a common bit: or is addition. */
  lemma {:induction false} OrDisjoint(a: nat, k: nat, b: nat)
    requires a < Pow2(k)
    ensures Or(a, b * Pow2(k)) == a + b * Pow2(k)
    decreases k
  {
    if k == 0 {
      OrZero(b);
    } else if a == 0 {
      OrZero(b * Pow2(k));
    } else {
      var h := Pow2(k - 1);
      assert b * Pow2(k) == 2 * (b * h);
      OrDisjoint(a / 2, k - 1, b);
    }
  }

  lemma {:induction false} OrBound(a: nat, b: nat, k: nat)
    requires a < Pow2(k) && b < Pow2(k)
    ensures Or(a, b) < Pow2(k)
  {
    if k != 0 && !(a == 0 && b == 0) {
      OrBound(a / 2, b / 2, k - 1);
    }
  }

  /** A word is determined by its bits. */
  lemma {:induction false} BitsDetermine(a: nat, b: nat, k: nat)
    requires a < Pow2(k) && b < Pow2(k)
    requires forall j :: 0 <= j < k ==> (Bit(a, j) <==> Bit(b, j))
    ensures a == b
  {
    if k != 0 {
      assert Bit(a, 0) <==> Bit(b, 0);
      forall j | 0 <= j < k - 1 ensures Bit(a / 2, j) <==> Bit(b / 2, j) {
        assert Bit(a, j + 1) <==> Bit(b, j + 1);
      }
      BitsDetermine(a / 2, b / 2, k - 1);
    }
  }

  lemma {:induction false} Pow2Bit(k: nat, j: nat)
    ensures Bit(Pow2(k), j) <==> j == k
  {
    if k == 0 {
      if j != 0 {
        ZeroBit(j - 1);
      }
    } else if j != 0 {
      Pow2Bit(k - 1, j - 1);
    }
  }

  /** 2^k - 1 has exactly the k low bits set. */
  lemma {:induction false} LowOnesBit(k: nat, j: nat)
    ensures Bit(Pow2(k) - 1, j) <==> j < k
  {
    if k == 0 {
      ZeroBit(j);
    } else {
      assert (Pow2(k) - 1) / 2 == Pow2(k - 1) - 1;
      if j != 0 {
        LowOnesBit(k - 1, j - 1);
      }
    }
  }

  lemma MulAtLeast(d: int, m: nat)
    ensures d >= 1 ==> d * m >= m
  {
  }

  /** Quotient and remainder are unique. */
  lemma DivModUnique(x: nat, q: nat, r: nat, m: nat)
    requires r < m && x == q * m + r
    ensures x / m == q && x % m == r
  {
    var d := x / m - q;
    assert d * m == r - x % m;
    MulAtLeast(d, m);
    MulAtLeast(-d, m);
  }

  lemma Pow2Values()
    ensures Pow2(3) == 8 && Pow2(7) == 128 && Pow2(8) == 256 && Pow2(32) == TWO32 && Pow2(64) == TWO64
    ensures Pow2(16) == 65536
  {
    assert Pow2(4) == 16;
    Pow2Add(4, 4);
    Pow2Add(8, 8);
    Pow2Add(16, 16);
    Pow2Add(32, 32);
  }
}
