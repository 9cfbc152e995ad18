/** Machine words as naturals: powers of two, the bit operators the codec uses, and the
    arithmetic each of them amounts to on the operands it is given. */
module BitOps {

  function Pow2(k: nat): (r: nat)
    ensures r >= 1
  {
    if k == 0 then 1 else 2 * Pow2(k - 1)
  }

  lemma {:induction false} Pow2Add(a: nat, b: nat)
    ensures Pow2(a + b) == Pow2(a) * Pow2(b)
  {
    if a > 0 {
      Pow2Add(a - 1, b);
      calc {
        Pow2(a + b);
        2 * Pow2(a - 1 + b);
        2 * (Pow2(a - 1) * Pow2(b));
        (2 * Pow2(a - 1)) * Pow2(b);
      }
    }
  }

  lemma {:induction false} Pow2Monotonic(a: nat, b: nat)
    requires a <= b
    ensures Pow2(a) <= Pow2(b)
  {
    if a < b {
      Pow2Monotonic(a, b - 1);
    }
  }

  lemma Pow2Values()
    ensures Pow2(7) == 128 && Pow2(8) == 256
    ensures Pow2(14) == 0x4000 && Pow2(16) == 0x1_0000 && Pow2(21) == 0x20_0000 && Pow2(28) == 0x1000_0000
    ensures Pow2(32) == 0x1_0000_0000
  {
    assert Pow2(8) == 256;
    Pow2Add(7, 7);
    Pow2Add(8, 8);
    Pow2Add(14, 7);
    Pow2Add(14, 14);
    Pow2Add(16, 16);
  }

  // Division and remainder

  lemma MulMonotonic(d: nat, x: int, y: int)
    requires x <= y
    ensures d * x <= d * y
  {
  }

  lemma MulSplit(d: int, x: int, y: int)
    ensures d * (x + y) == d * x + d * y
  {
  }

  lemma DivModUnique(x: int, d: int, q: int, r: int)
    requires d > 0 && 0 <= r < d && x == d * q + r
    ensures x / d == q && x % d == r
  {
    var q0, r0 := x / d, x % d;
    assert x == d * q0 + r0;
    MulSplit(d, q0, 1);
    MulSplit(d, q, 1);
    if q > q0 {
      MulMonotonic(d, q0 + 1, q);
    } else if q < q0 {
      MulMonotonic(d, q + 1, q0);
    }
  }

  lemma DivNonNegative(x: nat, d: nat)
    requires d > 0
    ensures x / d >= 0
  {
    assert d * (x / d) + x % d == x;
    if x / d < 0 {
      MulMonotonic(d, x / d, -1);
    }
  }

  lemma DivBound(x: nat, d: nat, b: nat)
    requires d > 0 && x < d * b
    ensures x / d < b
  {
    assert d * (x / d) + x % d == x;
    if x / d >= b {
      MulMonotonic(d, b, x / d);
    }
  }

  /** Splitting a number at `a`, then its high part at `b`, is splitting it at `a * b`. */
  lemma DivModProduct(x: nat, a: nat, b: nat)
    requires a > 0 && b > 0
    ensures a * b > 0
    ensures x / (a * b) == (x / a) / b
    ensures x % (a * b) == x % a + a * ((x / a) % b)
  {
    var q, r := x / a, x % a;
    var q', r' := q / b, q % b;
    MulSplit(a, b * q', r');
    MulAssociative(a, b, q');
    MulMonotonic(a, r' + 1, b);
    MulSplit(a, r', 1);
    DivModUnique(x, a * b, q', a * r' + r);
  }

  lemma MulAssociative(a: int, b: int, c: int)
    ensures a * (b * c) == (a * b) * c
  {
  }

  lemma ModDiv(x: nat, a: nat, b: nat)
    requires a > 0 && b > 0
    ensures a * b > 0
    ensures (x % (a * b)) / a == (x / a) % b
  {
    DivModProduct(x, a, b);
    DivModUnique(x % (a * b), a, (x / a) % b, x % a);
  }

  // Bit operators

  function BitOr(a: nat, b: nat): nat {
    if a == 0 then b
    else if b == 0 then a
    else (if a % 2 == 1 || b % 2 == 1 then 1 else 0) + 2 * BitOr(a / 2, b / 2)
  }

  function BitAnd(a: nat, b: nat): nat {
    if a == 0 || b == 0 then 0
    else (if a % 2 == 1 && b % 2 == 1 then 1 else 0) + 2 * BitAnd(a / 2, b / 2)
  }

  /** `a | (b << k)` with `a` below bit `k` is a sum. */
  lemma {:induction false} OrDisjoint(a: nat, b: nat, k: nat)
    requires a < Pow2(k)
    ensures BitOr(a, b * Pow2(k)) == a + b * Pow2(k)
  {
    if a != 0 && b * Pow2(k) != 0 {
      var h := b * Pow2(k - 1);
      assert b * Pow2(k) == 2 * h;
      OrDisjoint(a / 2, b, k - 1);
    }
  }

  /** `a & ((1 << k) - 1)` keeps the low `k` bits. */
  lemma {:induction false} AndMask(a: nat, k: nat)
    ensures BitAnd(a, Pow2(k) - 1) == a % Pow2(k)
  {
    if a == 0 {
      DivModUnique(0, Pow2(k), 0, 0);
    } else if k > 0 {
      AndMask(a / 2, k - 1);
      DivModProduct(a, 2, Pow2(k - 1));
      var m := Pow2(k) - 1;
      assert m % 2 == 1 && m / 2 == Pow2(k - 1) - 1;
      assert BitAnd(a, m) == a % 2 + 2 * BitAnd(a / 2, m / 2);
    }
  }

  /** `a & (1 << k)` isolates bit `k`. */
  lemma {:induction false} AndBit(a: nat, k: nat)
    ensures BitAnd(a, Pow2(k)) == Pow2(k) * ((a / Pow2(k)) % 2)
  {
    if a == 0 {
      DivModUnique(0, Pow2(k), 0, 0);
    } else if k == 0 {
    } else {
      AndBit(a / 2, k - 1);
      DivModProduct(a, 2, Pow2(k - 1));
      assert Pow2(k) / 2 == Pow2(k - 1);
    }
  }

  // Shifts and low bits, the vocabulary the packing proofs are written in

  function Shl(x: nat, k: nat): nat {
    x * Pow2(k)
  }

  function Shr(x: nat, k: nat): nat {
    DivNonNegative(x, Pow2(k));
    x / Pow2(k)
  }

  function Low(x: nat, k: nat): (r: nat)
    ensures r < Pow2(k)
  {
    x % Pow2(k)
  }

  lemma ShiftNothing(x: nat)
    ensures Shl(x, 0) == x && Shr(x, 0) == x && Low(x, 0) == 0
  {
  }

  lemma ShiftByte(x: nat)
    ensures Shl(x, 8) == 256 * x && Shr(x, 8) == x / 256 && Low(x, 8) == x % 256
  {
    assert Pow2(8) == 256;
  }

  lemma ShrShr(x: nat, a: nat, b: nat)
    ensures Shr(Shr(x, a), b) == Shr(x, a + b)
  {
    Pow2Add(a, b);
    DivModProduct(x, Pow2(a), Pow2(b));
  }

  lemma ShlShl(x: nat, a: nat, b: nat)
    ensures Shl(Shl(x, a), b) == Shl(x, a + b)
  {
    Pow2Add(a, b);
    MulAssociative(x, Pow2(a), Pow2(b));
  }

  lemma ShlSum(x: nat, y: nat, a: nat)
    ensures Shl(x + y, a) == Shl(x, a) + Shl(y, a)
  {
  }

  lemma LowSplit(x: nat, a: nat, b: nat)
    ensures Low(x, a + b) == Low(x, a) + Shl(Low(Shr(x, a), b), a)
  {
    Pow2Add(a, b);
    DivModProduct(x, Pow2(a), Pow2(b));
  }

  lemma LowShr(x: nat, a: nat, b: nat)
    ensures Shr(Low(x, a + b), a) == Low(Shr(x, a), b)
  {
    Pow2Add(a, b);
    ModDiv(x, Pow2(a), Pow2(b));
  }

  /** A number assembled from low bits and shifted high bits. */
  lemma Join(low: nat, high: nat, a: nat)
    requires low < Pow2(a)
    ensures Low(low + Shl(high, a), a) == low && Shr(low + Shl(high, a), a) == high
  {
    DivModUnique(low + Shl(high, a), Pow2(a), high, low);
  }

  lemma LowSmall(x: nat, a: nat)
    requires x < Pow2(a)
    ensures Low(x, a) == x
  {
    DivModUnique(x, Pow2(a), 0, x);
  }

  lemma LowLow(x: nat, a: nat, b: nat)
    ensures Low(Low(x, a + b), a) == Low(x, a)
  {
    LowSplit(x, a, b);
    Join(Low(x, a), Low(Shr(x, a), b), a);
  }

  lemma JoinBound(low: nat, high: nat, a: nat, b: nat)
    requires low < Pow2(a) && high < Pow2(b)
    ensures low + Shl(high, a) < Pow2(a + b)
  {
    Pow2Add(a, b);
    MulMonotonic(Pow2(a), high + 1, Pow2(b));
    MulSplit(Pow2(a), high, 1);
  }

  lemma ShrBound(x: nat, a: nat, b: nat)
    requires x < Pow2(a + b)
    ensures Shr(x, a) < Pow2(b)
  {
    Pow2Add(a, b);
    DivBound(x, Pow2(a), Pow2(b));
  }

  lemma OrShl(low: nat, high: nat, k: nat)
    requires low < Pow2(k)
    ensures BitOr(low, Shl(high, k)) == low + Shl(high, k)
  {
    OrDisjoint(low, high, k);
  }

  lemma AndLow(x: nat, k: nat)
    ensures BitAnd(x, Pow2(k) - 1) == Low(x, k)
  {
    AndMask(x, k);
  }

  // Bit width

  /** Number of significant bits (`u32::BITS - leading_zeros`); 0 for 0. */
  function BitWidth(v: nat): (w: nat)
    ensures w == 0 <==> v == 0
  {
    if v == 0 then 0 else 1 + BitWidth(v / 2)
  }

  lemma {:induction false} BitWidthBound(v: nat, k: nat)
    ensures BitWidth(v) <= k <==> v < Pow2(k)
  {
    if v != 0 && k != 0 {
      BitWidthBound(v / 2, k - 1);
    }
  }

  // Single bits

  predicate Bit(x: nat, i: nat) {
    if i == 0 then x % 2 == 1 else Bit(x / 2, i - 1)
  }

  lemma {:induction false} ZeroBit(i: nat)
    ensures !Bit(0, i)
  {
    if i > 0 {
      ZeroBit(i - 1);
    }
  }

  /** The bits of low and high parts put together. */
  lemma {:induction false} BitJoin(low: nat, high: nat, a: nat, i: nat)
    requires low < Pow2(a)
    ensures Bit(low + Shl(high, a), i) <==> if i < a then Bit(low, i) else Bit(high, i - a)
    decreases a
  {
    if a > 0 {
      var h := Shl(high, a - 1);
      assert Shl(high, a) == 2 * h;
      if i > 0 {
        BitJoin(low / 2, high, a - 1, i - 1);
        assert (low + 2 * h) / 2 == low / 2 + h;
      }
    } else {
      ShiftNothing(high);
    }
  }

  /** Cutting a number to its low bits keeps those bits. */
  lemma LowBit(x: nat, a: nat, i: nat)
    ensures Bit(Low(x, a), i) <==> (i < a && Bit(x, i))
  {
    hide Bit, Low, Shl, Shr;
    LowAndHigh(x, a);
    BitJoin(Low(x, a), Shr(x, a), a, i);
    BitJoin(Low(x, a), 0, a, i);
    ZeroShl(a);
    if i >= a {
      ZeroBit(i - a);
    }
  }

  lemma LowAndHigh(x: nat, a: nat)
    ensures x == Low(x, a) + Shl(Shr(x, a), a)
  {
  }

  lemma ZeroShl(a: nat)
    ensures Shl(0, a) == 0
  {
  }
}
