/** The bitwise operators of C on non-negative integers, with the arithmetic facts the other modules use. */
module Bits {

  function Pow2(k: nat): (p: nat)
    ensures p >= 1
  {
    if k == 0 then 1 else 2 * Pow2(k - 1)
  }

  /** Whether bit `k` of `n` is one. */
  predicate Bit(n: nat, k: nat)
    decreases k
  {
    if k == 0 then n % 2 == 1 else Bit(n / 2, k - 1)
  }

  function And(a: nat, b: nat): (r: nat)
    ensures r <= a && r <= b
  {
    if a == 0 || b == 0 then 0
    else (if a % 2 == 1 && b % 2 == 1 then 1 else 0) + 2 * And(a / 2, b / 2)
  }

  function Or(a: nat, b: nat): (r: nat)
    ensures a <= r && b <= r <= a + b
  {
    if a == 0 then b
    else if b == 0 then a
    else (if a % 2 == 1 || b % 2 == 1 then 1 else 0) + 2 * Or(a / 2, b / 2)
  }

  lemma Halving(x: nat, h: nat, r: nat)
    requires r < 2 && x == 2 * h + r
    ensures x / 2 == h && x % 2 == r
  {
  }

  lemma {:induction false} ZeroHasNoBits(k: nat)
    ensures !Bit(0, k)
  {
    if k > 0 { ZeroHasNoBits(k - 1); }
  }

  lemma OrParts(a: nat, b: nat)
    requires a > 0 && b > 0
    ensures Or(a, b) / 2 == Or(a / 2, b / 2) && (Or(a, b) % 2 == 1 <==> a % 2 == 1 || b % 2 == 1)
  {
    Halving(Or(a, b), Or(a / 2, b / 2), if a % 2 == 1 || b % 2 == 1 then 1 else 0);
  }

  lemma {:induction false} OrBit(a: nat, b: nat, k: nat)
    ensures Bit(Or(a, b), k) <==> Bit(a, k) || Bit(b, k)
    decreases k
  {
    ZeroHasNoBits(k);
    if a > 0 && b > 0 {
      OrParts(a, b);
      hide Or;
      if k > 0 { OrBit(a / 2, b / 2, k - 1); }
    }
  }

  lemma AndParts(a: nat, b: nat)
    requires a > 0 && b > 0
    ensures And(a, b) / 2 == And(a / 2, b / 2) && (And(a, b) % 2 == 1 <==> a % 2 == 1 && b % 2 == 1)
  {
    Halving(And(a, b), And(a / 2, b / 2), if a % 2 == 1 && b % 2 == 1 then 1 else 0);
  }

  lemma {:induction false} AndBit(a: nat, b: nat, k: nat)
    ensures Bit(And(a, b), k) <==> Bit(a, k) && Bit(b, k)
    decreases k
  {
    ZeroHasNoBits(k);
    if a > 0 && b > 0 {
      AndParts(a, b);
      hide And;
      if k > 0 { AndBit(a / 2, b / 2, k - 1); }
    }
  }

  lemma {:induction false} Pow2Bit(k: nat, j: nat)
    ensures Bit(Pow2(k), j) <==> j == k
    decreases j
  {
    if k == 0 {
      if j > 0 { ZeroHasNoBits(j - 1); }
    } else if j > 0 {
      Pow2Bit(k - 1, j - 1);
    }
  }

  /** A number is determined by its bits. */
  lemma {:induction false} BitsDetermine(a: nat, b: nat)
    requires forall k: nat :: Bit(a, k) == Bit(b, k)
    ensures a == b
  {
    assert Bit(a, 0) == Bit(b, 0);
    if a != 0 || b != 0 {
      forall k: nat ensures Bit(a / 2, k) == Bit(b / 2, k) {
        assert Bit(a, k + 1) == Bit(b, k + 1);
      }
      BitsDetermine(a / 2, b / 2);
    }
  }

  /** The complement within `n` bits. */
  lemma {:induction false} ComplementBit(n: nat, a: nat, k: nat)
    requires a < Pow2(n)
    ensures Bit(Pow2(n) - 1 - a, k) <==> k < n && !Bit(a, k)
    decreases n
  {
    var c := Pow2(n) - 1 - a;
    if n == 0 {
      ZeroHasNoBits(k);
    } else {
      Halving(c, Pow2(n - 1) - 1 - a / 2, 1 - a % 2);
      if k > 0 { ComplementBit(n - 1, a / 2, k - 1); }
    }
  }

  /** `n & (1 << k)` is non-zero exactly when bit `k` is set. */
  lemma {:induction false} AndPow2(n: nat, k: nat)
    ensures And(n, Pow2(k)) != 0 <==> Bit(n, k)
    decreases k
  {
    if k == 0 {
      assert Pow2(k) == 1;
      assert n > 0 ==> And(n / 2, 0) == 0;
    } else {
      AndPow2(n / 2, k - 1);
      if n == 0 { ZeroHasNoBits(k); }
    }
  }

  // ---- divisibility by powers of two, by halving --------------------------------------------

  /** The low `k` bits of `a`, that is, `a` modulo 2^k (see LowIsRemainder). */
  function Low(a: nat, k: nat): (r: nat)
    ensures r <= a && r < Pow2(k)
    decreases k
  {
    if k == 0 then 0 else a % 2 + 2 * Low(a / 2, k - 1)
  }

  /** Whether 2^k divides `a`. */
  predicate Multiple(a: nat, k: nat)
    decreases k
  {
    k == 0 || (a % 2 == 0 && Multiple(a / 2, k - 1))
  }

  lemma {:induction false} LowAndQuotient(a: nat, k: nat) returns (q: nat)
    ensures a == Pow2(k) * q + Low(a, k)
    decreases k
  {
    if k == 0 {
      q := a;
    } else {
      q := LowAndQuotient(a / 2, k - 1);
      Regroup(Pow2(k - 1), q);
    }
  }

  lemma Regroup(p: nat, q: nat)
    ensures 2 * (p * q) == (2 * p) * q
  {
  }

  lemma LowIsRemainder(a: nat, k: nat)
    ensures a % Pow2(k) == Low(a, k)
  {
    var q := LowAndQuotient(a, k);
    ModUnique(a, Pow2(k), q, Low(a, k));
  }

  lemma ModUnique(a: int, p: int, q: int, r: int)
    requires 0 <= r < p && a == p * q + r
    ensures a % p == r
  {
    var q' := a / p;
    assert a == p * q' + a % p;
    if q < q' { MulMonotone(p, q + 1, q'); }
    if q' < q { MulMonotone(p, q' + 1, q); }
  }

  lemma MulMonotone(p: nat, x: int, y: int)
    requires x <= y
    ensures p * x <= p * y
  {
    assert p * y - p * x == p * (y - x);
  }

  lemma {:induction false} MultipleIff(a: nat, k: nat)
    ensures Multiple(a, k) <==> Low(a, k) == 0
    decreases k
  {
    if k > 0 { MultipleIff(a / 2, k - 1); }
  }

  lemma {:induction false} MultipleOfSmaller(a: nat, j: nat, k: nat)
    requires j <= k && Multiple(a, k)
    ensures Multiple(a, j)
    decreases k
  {
    if j > 0 { MultipleOfSmaller(a / 2, j - 1, k - 1); }
  }

  lemma {:induction false} SumOfMultiples(a: nat, b: nat, k: nat)
    requires Multiple(a, k) && Multiple(b, k)
    ensures Multiple(a + b, k)
    decreases k
  {
    if k > 0 { SumOfMultiples(a / 2, b / 2, k - 1); }
  }

  /** Two different multiples of 2^k are at least 2^k apart. */
  lemma {:induction false} MultiplesApart(a: nat, b: nat, k: nat)
    requires Multiple(a, k) && Multiple(b, k) && a < b
    ensures a + Pow2(k) <= b
    decreases k
  {
    if k > 0 { MultiplesApart(a / 2, b / 2, k - 1); }
  }

  lemma {:induction false} Pow2IsMultiple(j: nat, k: nat)
    requires j <= k
    ensures Multiple(Pow2(k), j)
    decreases j
  {
    if j > 0 {
      Halving(Pow2(k), Pow2(k - 1), 0);
      Pow2IsMultiple(j - 1, k - 1);
    }
  }

  /** A multiple of 2^k that is no multiple of 2^(k+1) becomes one when 2^k is added. */
  lemma {:induction false} OddMultiple(a: nat, k: nat)
    requires Multiple(a, k) && !Multiple(a, k + 1)
    ensures Multiple(a + Pow2(k), k + 1)
    decreases k
  {
    if k > 0 {
      Halving(a + Pow2(k), a / 2 + Pow2(k - 1), 0);
      OddMultiple(a / 2, k - 1);
    }
  }

  lemma {:induction false} LowOfSmall(a: nat, k: nat)
    requires a < Pow2(k)
    ensures Low(a, k) == a
    decreases k
  {
    if k > 0 { LowOfSmall(a / 2, k - 1); }
  }

  lemma {:induction false} RoundDown(a: nat, k: nat)
    ensures Multiple(a - Low(a, k), k)
    decreases k
  {
    if k > 0 {
      RoundDown(a / 2, k - 1);
      assert a - Low(a, k) == 2 * (a / 2 - Low(a / 2, k - 1));
    }
  }

  lemma {:induction false} Pow2Monotone(j: nat, k: nat)
    requires j <= k
    ensures Pow2(j) <= Pow2(k)
    ensures j < k ==> 2 * Pow2(j) <= Pow2(k)
  {
    if j < k { Pow2Monotone(j, k - 1); }
  }

  /** The low `i` bits of `s` are all zero exactly when 2^i divides `s`. */
  lemma {:induction false} LowBitsZero(s: nat, i: nat)
    ensures Multiple(s, i) <==> forall k :: 0 <= k < i ==> !Bit(s, k)
    decreases i
  {
    if i > 0 {
      LowBitsZero(s / 2, i - 1);
      if Multiple(s, i) {
        forall k | 0 <= k < i ensures !Bit(s, k) {
          if k > 0 { assert !Bit(s / 2, k - 1); }
        }
      } else if s % 2 == 1 {
        assert Bit(s, 0);
        assert exists k :: 0 <= k < i && Bit(s, k);
      } else {
        var k :| 0 <= k < i - 1 && Bit(s / 2, k);
        assert Bit(s, k + 1);
        assert exists k' :: 0 <= k' < i && Bit(s, k');
      }
    }
  }

  // ---- masks --------------------------------------------------------------------------------

  lemma AndHalves(a: nat, b: nat)
    ensures And(a, b) == (if a % 2 == 1 && b % 2 == 1 then 1 else 0) + 2 * And(a / 2, b / 2)
  {
  }

  /** Masking with `k` low ones is the remainder. */
  lemma {:induction false} LowMask(a: nat, k: nat, mask: nat)
    requires mask == Pow2(k) - 1
    ensures And(a, mask) == Low(a, k)
    decreases k
  {
    if k > 0 {
      assert mask == 2 * (Pow2(k - 1) - 1) + 1;
      AndHalves(a, mask);
      LowMask(a / 2, k - 1, mask / 2);
    }
  }

  /** Masking an `n`-bit number with ones from bit `k` up clears the low `k` bits. */
  lemma {:induction false} HighMask(a: nat, k: nat, n: nat, mask: nat)
    requires k <= n && a < Pow2(n) && mask == Pow2(n) - Pow2(k)
    ensures And(a, mask) == a - Low(a, k)
    decreases n
  {
    if k == 0 {
      LowMask(a, n, mask);
      LowOfSmall(a, n);
    } else {
      assert mask == 2 * (Pow2(n - 1) - Pow2(k - 1));
      AndHalves(a, mask);
      HighMask(a / 2, k - 1, n - 1, mask / 2);
    }
  }

  /** Or of numbers without a common bit is their sum. */
  lemma {:induction false} OrDisjoint(a: nat, b: nat, k: nat)
    requires Multiple(a, k) && b < Pow2(k)
    ensures Or(a, b) == a + b
    decreases k
  {
    if k > 0 && a > 0 && b > 0 {
      OrDisjoint(a / 2, b / 2, k - 1);
    }
  }

  /** The powers of two up to 2^32 as literals. */
  lemma Pow2Literals()
    ensures Pow2(0) == 1 && Pow2(1) == 2 && Pow2(2) == 4 && Pow2(3) == 8 && Pow2(4) == 16
    ensures Pow2(5) == 32 && Pow2(6) == 64 && Pow2(7) == 128 && Pow2(8) == 256 && Pow2(9) == 512
    ensures Pow2(10) == 0x400 && Pow2(11) == 0x800 && Pow2(12) == 0x1000 && Pow2(13) == 0x2000
    ensures Pow2(15) == 0x8000 && Pow2(16) == 0x1_0000 && Pow2(17) == 0x2_0000
    ensures Pow2(19) == 0x8_0000 && Pow2(20) == 0x10_0000 && Pow2(21) == 0x20_0000
    ensures Pow2(23) == 0x80_0000 && Pow2(24) == 0x100_0000 && Pow2(25) == 0x200_0000
    ensures Pow2(27) == 0x800_0000 && Pow2(28) == 0x1000_0000 && Pow2(29) == 0x2000_0000
    ensures Pow2(31) == 0x8000_0000 && Pow2(32) == 0x1_0000_0000
  {
    assert Pow2(4) == 16;
    assert Pow2(8) == 256;
    assert Pow2(12) == 0x1000;
    assert Pow2(16) == 0x1_0000;
    assert Pow2(20) == 0x10_0000;
    assert Pow2(24) == 0x100_0000;
    assert Pow2(28) == 0x1000_0000;
  }
}
