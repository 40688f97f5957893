/**
 Unsigned integers as rows of bits, bit 0 being the least significant.  A word of a fixed
 width is a number below the corresponding power of two; `Shl` loses no bits, so where the
 source's type cuts them off, `Trunc` does.
 */
module Bits {
  function Pow2(k: nat): (p: nat)
    ensures p > 0
  {
    if k == 0 then 1 else 2 * Pow2(k - 1)
  }

  predicate Bit(x: nat, i: nat) {
    if i == 0 then x % 2 == 1 else Bit(x / 2, i - 1)
  }

  function Low(b: bool): nat {
    if b then 1 else 0
  }

  function Xor(x: nat, y: nat): nat
    decreases x + y
  {
    if x == 0 then y else if y == 0 then x
    else 2 * Xor(x / 2, y / 2) + Low(x % 2 != y % 2)
  }

  function And(x: nat, y: nat): nat
    decreases x + y
  {
    if x == 0 || y == 0 then 0
    else 2 * And(x / 2, y / 2) + Low(x % 2 == 1 && y % 2 == 1)
  }

  function Or(x: nat, y: nat): nat
    decreases x + y
  {
    if x == 0 then y else if y == 0 then x
    else 2 * Or(x / 2, y / 2) + Low(x % 2 == 1 || y % 2 == 1)
  }

  /** x << k */
  function Shl(x: nat, k: nat): nat {
    if k == 0 then x else 2 * Shl(x, k - 1)
  }

  /** x >> k */
  function Shr(x: nat, k: nat): nat {
    if k == 0 then x else Shr(x / 2, k - 1)
  }

  /** The low `k` bits of `x`. */
  function Trunc(x: nat, k: nat): nat {
    if k == 0 then 0 else 2 * Trunc(x / 2, k - 1) + x % 2
  }

  // --- powers of two ---

  lemma Doubled(a: nat, b: nat, c: nat)
    requires c == a * b
    ensures 2 * c == (2 * a) * b
  {
  }

  lemma {:induction false} Pow2Add(j: nat, k: nat)
    ensures Pow2(j + k) == Pow2(j) * Pow2(k)
  {
    if j > 0 {
      Pow2Add(j - 1, k);
      Doubled(Pow2(j - 1), Pow2(k), Pow2(j - 1 + k));
    }
  }

  lemma {:induction false} Pow2Mono(j: nat, k: nat)
    requires j <= k
    ensures Pow2(j) <= Pow2(k)
    decreases k - j
  {
    if j < k {
      Pow2Mono(j + 1, k);
    }
  }

  // --- single bits ---

  lemma {:induction false} BitZero(i: nat)
    ensures !Bit(0, i)
  {
    if i > 0 {
      BitZero(i - 1);
    }
  }

  lemma XorHalf(x: nat, y: nat)
    ensures Xor(x, y) / 2 == Xor(x / 2, y / 2) && Xor(x, y) % 2 == Low(x % 2 != y % 2)
  {
  }

  lemma AndHalf(x: nat, y: nat)
    ensures And(x, y) / 2 == And(x / 2, y / 2) && And(x, y) % 2 == Low(x % 2 == 1 && y % 2 == 1)
  {
  }

  lemma OrHalf(x: nat, y: nat)
    ensures Or(x, y) / 2 == Or(x / 2, y / 2) && Or(x, y) % 2 == Low(x % 2 == 1 || y % 2 == 1)
  {
  }

  lemma {:induction false} BitXor(x: nat, y: nat, i: nat)
    ensures Bit(Xor(x, y), i) <==> Bit(x, i) != Bit(y, i)
    decreases i
  {
    hide Xor;
    XorHalf(x, y);
    if i > 0 {
      BitXor(x / 2, y / 2, i - 1);
    }
  }

  lemma {:induction false} BitAnd(x: nat, y: nat, i: nat)
    ensures Bit(And(x, y), i) <==> Bit(x, i) && Bit(y, i)
    decreases i
  {
    hide And;
    AndHalf(x, y);
    if i > 0 {
      BitAnd(x / 2, y / 2, i - 1);
    }
  }

  lemma {:induction false} BitOr(x: nat, y: nat, i: nat)
    ensures Bit(Or(x, y), i) <==> Bit(x, i) || Bit(y, i)
    decreases i
  {
    hide Or;
    OrHalf(x, y);
    if i > 0 {
      BitOr(x / 2, y / 2, i - 1);
    }
  }

  /** Above the width there are no bits. */
  lemma {:induction false} BitAbove(x: nat, k: nat, i: nat)
    requires x < Pow2(k) && k <= i
    ensures !Bit(x, i)
    decreases k
  {
    if k == 0 {
      BitZero(i);
    } else {
      BitAbove(x / 2, k - 1, i - 1);
    }
  }

  /** Between 2^k and 2^(k+1) the leading bit is bit `k`. */
  lemma {:induction false} BitLead(x: nat, k: nat)
    requires Pow2(k) <= x < Pow2(k + 1)
    ensures Bit(x, k)
  {
    if k > 0 {
      BitLead(x / 2, k - 1);
    }
  }

  ghost predicate SameBits(x: nat, y: nat) {
    forall i: nat :: Bit(x, i) == Bit(y, i)
  }

  lemma {:induction false} SameBitsEqual(x: nat, y: nat)
    requires SameBits(x, y)
    ensures x == y
    decreases x + y
  {
    assert Bit(x, 0) == Bit(y, 0);
    if x != 0 || y != 0 {
      forall i: nat
        ensures Bit(x / 2, i) == Bit(y / 2, i)
      {
        assert Bit(x, i + 1) == Bit(y, i + 1);
      }
      SameBitsEqual(x / 2, y / 2);
    }
  }

  /** A number without bits from `k` on is below 2^k. */
  lemma {:induction false} NoBitAbove(x: nat, k: nat)
    requires forall i: nat :: k <= i ==> !Bit(x, i)
    ensures x < Pow2(k)
  {
    if k == 0 {
      forall i: nat
        ensures Bit(x, i) == Bit(0, i)
      {
        BitZero(i);
      }
      SameBitsEqual(x, 0);
    } else {
      forall i: nat | k - 1 <= i
        ensures !Bit(x / 2, i)
      {
        assert !Bit(x, i + 1);
      }
      NoBitAbove(x / 2, k - 1);
    }
  }

  // --- shifting and joining ---

  lemma {:induction false} BitShl(x: nat, k: nat, i: nat)
    ensures Bit(Shl(x, k), i) == (i >= k && Bit(x, i - k))
  {
    if k > 0 && i > 0 {
      BitShl(x, k - 1, i - 1);
    }
  }

  lemma {:induction false} BitShr(x: nat, k: nat, i: nat)
    ensures Bit(Shr(x, k), i) == Bit(x, i + k)
  {
    if k > 0 {
      BitShr(x / 2, k - 1, i);
    }
  }

  lemma {:induction false} BitTrunc(x: nat, k: nat, i: nat)
    ensures Bit(Trunc(x, k), i) == (i < k && Bit(x, i))
  {
    if k == 0 {
      BitZero(i);
    } else if i > 0 {
      BitTrunc(x / 2, k - 1, i - 1);
    }
  }

  lemma {:induction false} TruncBelow(x: nat, k: nat)
    ensures Trunc(x, k) < Pow2(k)
    ensures x < Pow2(k) ==> Trunc(x, k) == x
  {
    if k > 0 {
      TruncBelow(x / 2, k - 1);
    }
  }

  lemma {:induction false} ShlPow2(x: nat, k: nat)
    ensures Shl(x, k) == x * Pow2(k)
  {
    if k > 0 {
      ShlPow2(x, k - 1);
      assert x * (2 * Pow2(k - 1)) == 2 * (x * Pow2(k - 1));
    }
  }

  /** A number is its high part and its low part. */
  lemma {:induction false} Split(x: nat, k: nat)
    ensures x == Shl(Shr(x, k), k) + Trunc(x, k)
  {
    if k > 0 {
      Split(x / 2, k - 1);
    }
  }

  lemma {:induction false} BitJoin(hi: nat, lo: nat, k: nat, i: nat)
    requires lo < Pow2(k)
    ensures Bit(Shl(hi, k) + lo, i) == if i < k then Bit(lo, i) else Bit(hi, i - k)
  {
    if k > 0 {
      var x, y := Shl(hi, k) + lo, Shl(hi, k - 1) + lo / 2;
      assert x % 2 == lo % 2 && x / 2 == y;
      if i > 0 {
        BitJoin(hi, lo / 2, k - 1, i - 1);
      }
    }
  }

  lemma BitPow2(k: nat, i: nat)
    ensures Bit(Pow2(k), i) <==> i == k
  {
    ShlPow2(1, k);
    BitShl(1, k, i);
    if i > k {
      BitAbove(1, 1, i - k);
    }
  }

  // --- laws, bit by bit ---

  lemma XorBits(x: nat, y: nat)
    ensures forall i: nat {:trigger Bit(Xor(x, y), i)} :: Bit(Xor(x, y), i) == (Bit(x, i) != Bit(y, i))
  {
    forall i: nat
      ensures Bit(Xor(x, y), i) == (Bit(x, i) != Bit(y, i))
    {
      BitXor(x, y, i);
    }
  }

  /** Enough to prove any rearrangement of sums, bit by bit. */
  lemma XorEverywhere()
    ensures forall x: nat, y: nat, i: nat {:trigger Bit(Xor(x, y), i)} :: Bit(Xor(x, y), i) == (Bit(x, i) != Bit(y, i))
  {
    forall x: nat, y: nat, i: nat
      ensures Bit(Xor(x, y), i) == (Bit(x, i) != Bit(y, i))
    {
      BitXor(x, y, i);
    }
  }

  lemma XorComm(x: nat, y: nat)
    ensures Xor(x, y) == Xor(y, x)
  {
    XorBits(x, y);
    XorBits(y, x);
    SameBitsEqual(Xor(x, y), Xor(y, x));
  }

  lemma XorAssoc(x: nat, y: nat, z: nat)
    ensures Xor(Xor(x, y), z) == Xor(x, Xor(y, z))
  {
    hide Xor, Bit;
    XorBits(x, y);
    XorBits(y, z);
    XorBits(Xor(x, y), z);
    XorBits(x, Xor(y, z));
    SameBitsEqual(Xor(Xor(x, y), z), Xor(x, Xor(y, z)));
  }

  lemma {:induction false} XorSelf(x: nat)
    ensures Xor(x, x) == 0 && Xor(x, 0) == x && Xor(0, x) == x
  {
    if x > 0 {
      XorSelf(x / 2);
    }
  }

  lemma XorCancel(x: nat, y: nat)
    ensures Xor(x, Xor(x, y)) == y && Xor(Xor(y, x), x) == y
  {
    hide Xor;
    XorAssoc(x, x, y);
    XorAssoc(y, x, x);
    XorSelf(x);
    XorSelf(y);
  }

  lemma XorZeroEqual(x: nat, y: nat)
    ensures Xor(x, y) == 0 <==> x == y
  {
    hide Xor;
    XorSelf(x);
    XorSelf(y);
    XorCancel(x, y);
  }

  /** Four terms in the other pairing. */
  lemma XorSwap(a: nat, b: nat, c: nat, d: nat)
    ensures Xor(Xor(a, b), Xor(c, d)) == Xor(Xor(a, c), Xor(b, d))
  {
    hide Xor, Bit;
    XorBits(a, b);
    XorBits(c, d);
    XorBits(a, c);
    XorBits(b, d);
    XorBits(Xor(a, b), Xor(c, d));
    XorBits(Xor(a, c), Xor(b, d));
    SameBitsEqual(Xor(Xor(a, b), Xor(c, d)), Xor(Xor(a, c), Xor(b, d)));
  }

  lemma XorBelow(x: nat, y: nat, k: nat)
    requires x < Pow2(k) && y < Pow2(k)
    ensures Xor(x, y) < Pow2(k)
  {
    forall i: nat | k <= i
      ensures !Bit(Xor(x, y), i)
    {
      BitXor(x, y, i);
      BitAbove(x, k, i);
      BitAbove(y, k, i);
    }
    NoBitAbove(Xor(x, y), k);
  }

  lemma XorShl(x: nat, y: nat, k: nat)
    ensures Shl(Xor(x, y), k) == Xor(Shl(x, k), Shl(y, k))
  {
    hide Xor, Shl;
    var l, r := Shl(Xor(x, y), k), Xor(Shl(x, k), Shl(y, k));
    forall i: nat
      ensures Bit(l, i) == Bit(r, i)
    {
      hide Bit;
      BitShl(Xor(x, y), k, i);
      BitShl(x, k, i);
      BitShl(y, k, i);
      BitXor(Shl(x, k), Shl(y, k), i);
      if i >= k {
        BitXor(x, y, i - k);
      }
    }
    SameBitsEqual(l, r);
  }

  lemma XorDouble(x: nat, y: nat)
    ensures 2 * Xor(x, y) == Xor(2 * x, 2 * y)
  {
    if x > 0 && y > 0 {
      assert (2 * x) / 2 == x && (2 * y) / 2 == y;
    }
  }

  /** A number is the sum of its bits from `e` on and below. */
  lemma SplitXor(x: nat, e: nat)
    ensures Xor(Shl(Shr(x, e), e), Trunc(x, e)) == x
  {
    hide Xor, Shl, Shr, Trunc;
    forall i: nat
      ensures Bit(Xor(Shl(Shr(x, e), e), Trunc(x, e)), i) == Bit(x, i)
    {
      BitXor(Shl(Shr(x, e), e), Trunc(x, e), i);
      BitShl(Shr(x, e), e, i);
      BitTrunc(x, e, i);
      if i >= e {
        BitShr(x, e, i - e);
      }
    }
    SameBitsEqual(Xor(Shl(Shr(x, e), e), Trunc(x, e)), x);
  }

  lemma {:induction false} ShlShl(x: nat, j: nat, k: nat)
    ensures Shl(Shl(x, j), k) == Shl(x, j + k)
  {
    if k > 0 {
      ShlShl(x, j, k - 1);
    }
  }

  lemma {:induction false} OnesBit(k: nat, b: nat)
    requires b < k
    ensures Bit(Pow2(k) - 1, b)
  {
    if b > 0 {
      OnesBit(k - 1, b - 1);
    }
  }

  lemma ModUnique(x: int, n: nat, q: int, r: int)
    requires n >= 1 && x == q * n + r && 0 <= r < n
    ensures x % n == r
  {
    QuotUnique(n, q, r, x / n, x % n);
  }

  lemma QuotUnique(n: nat, q: int, r: int, d: int, e: int)
    requires n >= 1 && q * n + r == d * n + e && 0 <= r < n && 0 <= e < n
    ensures r == e
  {
    if q < d {
      Gap(n, q, d);
    } else if d < q {
      Gap(n, d, q);
    }
  }

  lemma {:induction false} Gap(n: nat, q: int, d: int)
    requires q < d
    ensures q * n + n <= d * n
    decreases d - q
  {
    assert (d - 1) * n + n == d * n;
    if q < d - 1 {
      Gap(n, q, d - 1);
    }
  }

  /** The bits below `k`, and those below `w` that are not, as words. */
  lemma OnesBits(w: nat, k: nat, i: nat)
    requires k <= w
    ensures Bit(Pow2(k) - 1, i) == (i < k)
    ensures Bit(Xor(Pow2(k) - 1, Pow2(w) - 1), i) == (k <= i < w)
  {
    hide Bit, Xor;
    BitXor(Pow2(k) - 1, Pow2(w) - 1, i);
    if i < k {
      OnesBit(k, i);
    } else {
      BitAbove(Pow2(k) - 1, k, i);
    }
    if i < w {
      OnesBit(w, i);
    } else {
      BitAbove(Pow2(w) - 1, w, i);
    }
  }

  /** Masking out the low bits of a word rounds it down. */
  lemma ClearLow(y: nat, k: nat, w: nat)
    requires k <= w && y < Pow2(w)
    ensures And(y, Xor(Pow2(k) - 1, Pow2(w) - 1)) == Shl(Shr(y, k), k)
  {
    hide And, Bit, Xor, Shl, Shr;
    var l, r := And(y, Xor(Pow2(k) - 1, Pow2(w) - 1)), Shl(Shr(y, k), k);
    forall i: nat
      ensures Bit(l, i) == Bit(r, i)
    {
      BitAnd(y, Xor(Pow2(k) - 1, Pow2(w) - 1), i);
      OnesBits(w, k, i);
      BitShl(Shr(y, k), k, i);
      if i >= k {
        BitShr(y, k, i - k);
        if i >= w {
          BitAbove(y, w, i);
        }
      }
    }
    SameBitsEqual(l, r);
  }

  lemma ShlNothing(x: nat)
    ensures Shl(x, 0) == x
  {
  }

  lemma ShrNothing(x: nat)
    ensures Shr(x, 0) == x
  {
  }

  lemma {:induction false} ShlOfPow2(n: nat, d: nat)
    ensures Shl(Pow2(n), d) == Pow2(n + d)
  {
    if d > 0 {
      ShlOfPow2(n, d - 1);
    }
  }
}
