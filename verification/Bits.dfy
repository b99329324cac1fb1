// Bit operations on unbounded non-negative integers, as Python has them.
module Bits {

  function Pow2(k: nat): (p: nat)
    ensures p > 0
  {
    if k == 0 then 1 else 2 * Pow2(k - 1)
  }

  lemma {:induction false} Pow2Add(m: nat, n: nat)
    ensures Pow2(m + n) == Pow2(m) * Pow2(n)
  {
    if m > 0 {
      Pow2Add(m - 1, n);
      Doubled(Pow2(m - 1), Pow2(n));
    }
  }

  lemma Doubled(a: nat, b: nat)
    ensures 2 * (a * b) == (2 * a) * b
  {
  }

  /** `a ^ b` */
  function Xor(a: nat, b: nat): nat
    decreases a + b
  {
    if a == 0 && b == 0 then 0 else 2 * Xor(a / 2, b / 2) + (if a % 2 != b % 2 then 1 else 0)
  }

  /** `a | b` */
  function Or(a: nat, b: nat): nat
    decreases a + b
  {
    if a == 0 && b == 0 then 0
    else 2 * Or(a / 2, b / 2) + (if a % 2 == 1 || b % 2 == 1 then 1 else 0)
  }

  /** Bit `k` of `n`, that is `(n >> k) & 1`. */
  predicate Bit(n: nat, k: nat) {
    if k == 0 then n % 2 == 1 else Bit(n / 2, k - 1)
  }

  /** `x << k` */
  function Shl(x: nat, k: nat): nat {
    if k == 0 then x else 2 * Shl(x, k - 1)
  }

  lemma {:induction false} ShlPow2(x: nat, k: nat)
    ensures Shl(x, k) == x * Pow2(k)
  {
    if k > 0 {
      ShlPow2(x, k - 1);
      assert 2 * (x * Pow2(k - 1)) == x * (2 * Pow2(k - 1));
    }
  }

  // ---------------------------------------------------------------------
  // Exclusive or
  // ---------------------------------------------------------------------

  lemma XorStep(a: nat, b: nat)
    ensures Xor(a, b) / 2 == Xor(a / 2, b / 2)
    ensures Xor(a, b) % 2 == if a % 2 != b % 2 then 1 else 0
  {
  }

  /** The low bits meet separately from the rest. */
  lemma XorJoin(a: nat, b: nat, p: nat, q: nat)
    requires p < 2 && q < 2
    ensures Xor(2 * a + p, 2 * b + q) == 2 * Xor(a, b) + (if p != q then 1 else 0)
  {
    XorStep(2 * a + p, 2 * b + q);
    assert (2 * a + p) / 2 == a && (2 * b + q) / 2 == b;
  }

  lemma {:induction false} XorZero(a: nat)
    ensures Xor(a, 0) == a && Xor(0, a) == a
  {
    if a > 0 {
      XorZero(a / 2);
    }
  }

  lemma {:induction false} XorComm(a: nat, b: nat)
    ensures Xor(a, b) == Xor(b, a)
    decreases a + b
  {
    if a + b > 0 {
      XorComm(a / 2, b / 2);
    }
  }

  lemma {:induction false} XorAssoc(a: nat, b: nat, c: nat)
    ensures Xor(Xor(a, b), c) == Xor(a, Xor(b, c))
    decreases a + b + c
  {
    if a + b + c > 0 {
      var l, r := Xor(Xor(a, b), c), Xor(a, Xor(b, c));
      assert l / 2 == Xor(Xor(a / 2, b / 2), c / 2) && r / 2 == Xor(a / 2, Xor(b / 2, c / 2)) by {
        XorStep(a, b);
        XorStep(b, c);
        XorStep(Xor(a, b), c);
        XorStep(a, Xor(b, c));
      }
      assert l % 2 == r % 2 by {
        XorStep(a, b);
        XorStep(b, c);
        XorStep(Xor(a, b), c);
        XorStep(a, Xor(b, c));
      }
      XorAssoc(a / 2, b / 2, c / 2);
    }
  }

  lemma {:induction false} XorSelf(a: nat)
    ensures Xor(a, a) == 0
  {
    if a > 0 {
      XorSelf(a / 2);
    }
  }

  lemma XorCancel(a: nat, b: nat)
    ensures Xor(Xor(a, b), b) == a
  {
    XorAssoc(a, b, b);
    XorSelf(b);
    XorZero(a);
  }

  lemma {:induction false} XorBound(a: nat, b: nat, k: nat)
    requires a < Pow2(k) && b < Pow2(k)
    ensures Xor(a, b) < Pow2(k)
  {
    if k > 0 {
      XorBound(a / 2, b / 2, k - 1);
      XorStep(a, b);
    }
  }

  /** Disjoint low and high parts add up. */
  lemma {:induction false} XorDisjoint(a: nat, y: nat, k: nat)
    requires a < Pow2(k)
    ensures Xor(a, Shl(y, k)) == a + Shl(y, k)
  {
    if k == 0 {
      XorZero(y);
    } else {
      XorDisjoint(a / 2, y, k - 1);
      XorJoin(a / 2, Shl(y, k - 1), a % 2, 0);
      assert 2 * (a / 2) + a % 2 == a;
    }
  }

  lemma SwapXor(a: nat, b: nat, c: nat)
    ensures Xor(Xor(a, b), c) == Xor(Xor(a, c), b)
  {
    XorAssoc(a, b, c);
    XorComm(b, c);
    XorAssoc(a, c, b);
  }

  lemma {:induction false} XorShl(s: nat, t: nat, k: nat)
    ensures Xor(Shl(s, k), Shl(t, k)) == Shl(Xor(s, t), k)
  {
    if k > 0 {
      XorShl(s, t, k - 1);
      XorJoin(Shl(s, k - 1), Shl(t, k - 1), 0, 0);
    }
  }

  lemma XorBits(s: nat, t: nat)
    requires s < 2 && t < 2
    ensures Xor(s, t) == if s != t then 1 else 0
  {
    XorJoin(0, 0, s, t);
  }

  /** Exclusive or works separately on the low `k` bits and on those above. */
  lemma XorHigh(a: nat, b: nat, s: nat, t: nat, k: nat)
    requires a < Pow2(k) && b < Pow2(k)
    ensures Xor(a + Shl(s, k), b + Shl(t, k)) == Xor(a, b) + Shl(Xor(s, t), k)
  {
    XorDisjoint(a, s, k);
    XorDisjoint(b, t, k);
    XorBound(a, b, k);
    XorDisjoint(Xor(a, b), Xor(s, t), k);
    XorShl(s, t, k);
    XorShuffle(a, Shl(s, k), b, Shl(t, k));
  }

  lemma XorShuffle(a: nat, b: nat, c: nat, d: nat)
    ensures Xor(Xor(a, b), Xor(c, d)) == Xor(Xor(a, c), Xor(b, d))
  {
    XorAssoc(Xor(a, b), c, d);
    SwapXor(a, b, c);
    XorAssoc(Xor(a, c), b, d);
  }

  lemma {:induction false} ShlBit(s: nat, k: nat)
    requires s < 2
    ensures Shl(s, k) == if s == 1 then Pow2(k) else 0
  {
    if k > 0 {
      ShlBit(s, k - 1);
    }
  }

  lemma {:induction false} ShlAdd(x: nat, y: nat, k: nat)
    ensures Shl(x + y, k) == Shl(x, k) + Shl(y, k)
  {
    if k > 0 {
      ShlAdd(x, y, k - 1);
    }
  }

  lemma {:induction false} ShlShl(x: nat, m: nat, k: nat)
    ensures Shl(Shl(x, m), k) == Shl(x, m + k)
  {
    if k > 0 {
      ShlShl(x, m, k - 1);
    }
  }

  lemma {:induction false} ShlBelow(x: nat, m: nat, k: nat)
    requires x < Pow2(m)
    ensures Shl(x, k) < Pow2(m + k)
  {
    if k > 0 {
      ShlBelow(x, m, k - 1);
    }
  }

  lemma {:induction false} ShlZero(k: nat)
    ensures Shl(0, k) == 0
  {
    if k > 0 {
      ShlZero(k - 1);
    }
  }

  // ---------------------------------------------------------------------
  // Or
  // ---------------------------------------------------------------------

  lemma {:induction false} OrBit(a: nat, b: nat, k: nat)
    ensures Bit(Or(a, b), k) <==> Bit(a, k) || Bit(b, k)
  {
    assert Or(a, b) / 2 == Or(a / 2, b / 2);
    if k > 0 {
      OrBit(a / 2, b / 2, k - 1);
    }
  }

  lemma {:induction false} OrZero(a: nat)
    ensures Or(a, 0) == a && Or(0, a) == a
  {
    if a > 0 {
      OrZero(a / 2);
    }
  }

  /** `x` has its low `k` bits clear. */
  predicate LowClear(x: nat, k: nat) {
    k == 0 || (x % 2 == 0 && LowClear(x / 2, k - 1))
  }

  lemma {:induction false} OrDisjoint(x: nat, y: nat, k: nat)
    requires LowClear(x, k) && y < Pow2(k)
    ensures Or(x, y) == x + y
  {
    if k == 0 {
      OrZero(x);
    } else {
      OrDisjoint(x / 2, y / 2, k - 1);
    }
  }

  lemma {:induction false} LowClearShl(x: nat, k: nat)
    ensures LowClear(Shl(x, k), k)
  {
    if k > 0 {
      LowClearShl(x, k - 1);
      assert Shl(x, k) / 2 == Shl(x, k - 1);
    }
  }

  lemma {:induction false} LowClearAdd(x: nat, k: nat)
    requires LowClear(x, k + 1)
    ensures LowClear(x + Pow2(k), k)
    ensures LowClear(x, k)
  {
    if k > 0 {
      LowClearAdd(x / 2, k - 1);
      assert (x + Pow2(k)) / 2 == x / 2 + Pow2(k - 1);
    }
  }

  // ---------------------------------------------------------------------
  // Bits of shifted and truncated numbers
  // ---------------------------------------------------------------------

  lemma {:induction false} ShlBitAt(x: nat, k: nat, j: nat)
    ensures Bit(Shl(x, k), j) <==> j >= k && Bit(x, j - k)
  {
    if k > 0 {
      assert Shl(x, k) == 2 * Shl(x, k - 1);
      if j > 0 {
        ShlBitAt(x, k - 1, j - 1);
      }
    }
  }

  lemma {:induction false} ZeroBit(j: nat)
    ensures !Bit(0, j)
  {
    if j > 0 {
      ZeroBit(j - 1);
    }
  }

  lemma {:induction false} ModBit(n: nat, m: nat, j: nat)
    ensures Bit(n % Pow2(m), j) <==> j < m && Bit(n, j)
    decreases m
  {
    if m == 0 {
      ZeroBit(j);
    } else {
      HalfMod(n, Pow2(m - 1), Pow2(m));
      if j > 0 {
        ModBit(n / 2, m - 1, j - 1);
      }
    }
  }

  lemma HalfMod(n: nat, p: nat, m: nat)
    requires 0 < p && m == 2 * p
    ensures (n % m) / 2 == (n / 2) % p && (n % m) % 2 == n % 2
  {
    var q, r := DivMod(n, m);
    Doubled(p, q);
    HalfSum(n, p * q, r);
    ModIs(n / 2, p, q, r / 2);
  }

  lemma DivMod(n: nat, m: nat) returns (q: nat, r: nat)
    requires m > 0
    ensures n == m * q + r && r < m && r == n % m
  {
    q, r := n / m, n % m;
  }

  lemma HalfSum(n: nat, x: nat, r: nat)
    requires n == 2 * x + r
    ensures n / 2 == x + r / 2 && n % 2 == r % 2
  {
  }

  lemma ModIs(n: nat, p: nat, q: nat, r: nat)
    requires r < p && n == p * q + r
    ensures n % p == r
  {
    var q', r' := DivMod(n, p);
    Distributes(p, q, q');
    NoMultiple(p, q - q');
  }

  lemma Distributes(p: int, a: int, b: int)
    ensures p * a - p * b == p * (a - b)
  {
  }

  /** No multiple of `p` lies strictly between `-p` and `p` but zero. */
  lemma NoMultiple(p: int, d: int)
    requires -p < p * d < p
    ensures d == 0
  {
    if d > 0 {
      Grows(p, d);
    } else if d < 0 {
      Distributes(p, 0, d);
      Grows(p, -d);
    }
  }

  lemma {:induction false} Grows(p: int, d: int)
    requires d > 0 && p > 0
    ensures p * d >= p
    decreases d
  {
    if d > 1 {
      Grows(p, d - 1);
      Distributes(p, d, 1);
    }
  }
}
