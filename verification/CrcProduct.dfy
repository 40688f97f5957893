/**
 lib/crc32.c: what gf2_multiply() computes.  The lowest bit of a word is the highest power of X; read the other way
 round, the words are polynomials in the sense of `Gf2`, and the modulus of a check of `w` bits is X^w plus its polynomial.
 */
module CrcProduct {
  import opened Bits
  import opened Gf2
  import opened CrcLsb

  /** The first `n` bits in reverse. */
  function Rev(x: nat, n: nat): nat {
    if n == 0 then 0 else 2 * Rev(x, n - 1) + Low(Bit(x, n - 1))
  }

  /** X^w plus the polynomial of the check. */
  ghost function Modulus(w: nat, poly: nat): nat {
    Xor(Pow2(w), Rev(poly, w))
  }

  lemma {:induction false} BitRev(x: nat, n: nat, i: nat)
    ensures Bit(Rev(x, n), i) == (i < n && Bit(x, n - 1 - i))
  {
    if n == 0 {
      BitZero(i);
    } else {
      RevNext(x, n);
      hide Rev;
      if i > 0 {
        BitRev(x, n - 1, i - 1);
      }
    }
  }

  lemma RevNext(x: nat, n: nat)
    requires n > 0
    ensures Rev(x, n) / 2 == Rev(x, n - 1) && (Rev(x, n) % 2 == 1 <==> Bit(x, n - 1))
  {
    hide Bit;
  }

  lemma RevBelow(x: nat, n: nat)
    ensures Rev(x, n) < Pow2(n)
  {
    hide Rev, Pow2;
    forall i: nat | n <= i
      ensures !Bit(Rev(x, n), i)
    {
      BitRev(x, n, i);
    }
    NoBitAbove(Rev(x, n), n);
  }

  lemma RevRev(x: nat, n: nat)
    requires x < Pow2(n)
    ensures Rev(Rev(x, n), n) == x
  {
    hide Rev, Pow2, Bit;
    forall i: nat
      ensures Bit(Rev(Rev(x, n), n), i) == Bit(x, i)
    {
      BitRev(Rev(x, n), n, i);
      if i < n {
        BitRev(x, n, n - 1 - i);
      } else {
        BitAbove(x, n, i);
      }
    }
    SameBitsEqual(Rev(Rev(x, n), n), x);
  }

  lemma RevXor(a: nat, b: nat, n: nat)
    ensures Rev(Xor(a, b), n) == Xor(Rev(a, n), Rev(b, n))
  {
    hide Rev, Xor, Bit;
    var r := Xor(Rev(a, n), Rev(b, n));
    forall i: nat
      ensures Bit(Rev(Xor(a, b), n), i) == Bit(r, i)
    {
      BitRev(Xor(a, b), n, i);
      BitRev(a, n, i);
      BitRev(b, n, i);
      BitXor(Rev(a, n), Rev(b, n), i);
      if i < n {
        BitXor(a, b, n - 1 - i);
      }
    }
    SameBitsEqual(Rev(Xor(a, b), n), r);
  }

  /** Halving doubles the reverse, up to the bit that leaves. */
  lemma RevHalf(c: nat, n: nat)
    requires c < Pow2(n) && n > 0
    ensures Rev(c / 2, n) == Xor(2 * Rev(c, n), if c % 2 == 1 then Pow2(n) else 0)
  {
    hide Rev, Xor, Pow2, Bit;
    var e := if c % 2 == 1 then Pow2(n) else 0;
    var r := Xor(2 * Rev(c, n), e);
    BitTwice(c, 0);
    forall i: nat
      ensures Bit(Rev(c / 2, n), i) == Bit(r, i)
    {
      BitRev(c / 2, n, i);
      BitXor(2 * Rev(c, n), e, i);
      BitZero(i);
      BitPow2(n, i);
      BitTwice(Rev(c, n), i);
      if i > 0 {
        BitRev(c, n, i - 1);
      }
      if i < n {
        BitTwice(c, n - 1 - i);
        BitAbove(c, n, n);
      }
    }
    SameBitsEqual(Rev(c / 2, n), r);
  }

  lemma BitTwice(x: nat, i: nat)
    ensures Bit(2 * x, i) == (i > 0 && Bit(x, i - 1)) && Bit(x / 2, i) == Bit(x, i + 1) && (Bit(x, 0) <==> x % 2 == 1)
  {
  }

  /** One step multiplies by X. */
  lemma StepDoubles(w: nat, poly: nat, c: nat)
    requires c < Pow2(w) && w >= 1
    ensures Cong(Modulus(w, poly), Rev(Step(poly, c), w), 2 * Rev(c, w))
  {
    hide Rev, Xor, Pow2, Cong;
    var p, r := Rev(poly, w), 2 * Rev(c, w);
    RevHalf(c, w);
    RevXor(c / 2, if c % 2 == 1 then poly else 0, w);
    if c % 2 == 1 {
      XorAssoc(r, Pow2(w), p);
      CongOnce(Modulus(w, poly), r);
    } else {
      RevZero(w);
      XorSelf(r);
      CongSame(Modulus(w, poly), r);
    }
  }

  lemma {:induction false} RevZero(n: nat)
    ensures Rev(0, n) == 0
  {
    if n > 0 {
      BitZero(n - 1);
      RevZero(n - 1);
    }
  }

  lemma CongOnce(g: nat, x: nat)
    ensures Cong(g, Xor(x, g), x)
  {
    hide Cong, Xor;
    CongStep(g, x, 0);
    CongSym(g, x, Xor(x, Shl(g, 0)));
  }

  lemma ClMulNext(a: nat, b: nat, low: bool)
    ensures ClMul(a, 2 * b + Low(low)) == Xor(2 * ClMul(a, b), if low then a else 0)
  {
    MulDouble(a, b);
    XorComm(2 * ClMul(a, b), if low then a else 0);
    XorSelf(2 * ClMul(a, b));
    assert (2 * b + Low(low)) / 2 == b;
  }

  lemma {:induction false} ProductBelow(poly: nat, x: nat, y: nat, n: nat)
    requires poly < Pow2(32) && y < Pow2(32)
    ensures Product(poly, x, y, n) < Pow2(32)
  {
    hide Step, Xor, Pow2, Bit;
    assert 0 < Pow2(32);
    if n > 0 {
      ProductBelow(poly, x, y, n - 1);
      StepBelow(poly, Product(poly, x, y, n - 1), 32);
      XorBelow(Step(poly, Product(poly, x, y, n - 1)), if Bit(x, n - 1) then y else 0, 32);
    }
  }

  lemma {:induction false} ProductCong(poly: nat, x: nat, y: nat, n: nat)
    requires poly < Pow2(32) && y < Pow2(32)
    ensures Cong(Modulus(32, poly), Rev(Product(poly, x, y, n), 32), ClMul(Rev(y, 32), Rev(x, n)))
  {
    hide Step, Xor, Pow2, Bit, Cong, Modulus, ClMul;
    var g, ry := Modulus(32, poly), Rev(y, 32);
    if n == 0 {
      ProductNone(poly, y, x);
      CongSame(g, 0);
    } else {
      var p, b := Product(poly, x, y, n - 1), Bit(x, n - 1);
      var e := if b then y else 0;
      ProductCong(poly, x, y, n - 1);
      ProductBelow(poly, x, y, n - 1);
      StepDoubles(32, poly, p);
      CongDouble(g, Rev(p, 32), ClMul(ry, Rev(x, n - 1)));
      CongTrans(g, Rev(Step(poly, p), 32), 2 * Rev(p, 32), 2 * ClMul(ry, Rev(x, n - 1)));
      RevXor(Step(poly, p), e, 32);
      RevZero(32);
      CongSame(g, Rev(e, 32));
      CongXor(g, Rev(Step(poly, p), 32), Rev(e, 32), 2 * ClMul(ry, Rev(x, n - 1)), Rev(e, 32));
      ClMulNext(ry, Rev(x, n - 1), b);
    }
  }

  lemma ProductNone(poly: nat, y: nat, x: nat)
    ensures Rev(Product(poly, x, y, 0), 32) == 0 && ClMul(Rev(y, 32), Rev(x, 0)) == 0
  {
    RevZero(32);
  }

  /** The product is the only word that is congruent to the carry-less product. */
  lemma ProductExactly(poly: nat, x: nat, y: nat, z: nat)
    requires poly < Pow2(32) && y < Pow2(32) && z < Pow2(32)
    ensures z == Product(poly, x, y, 32) <==> Cong(Modulus(32, poly), Rev(z, 32), ClMul(Rev(y, 32), Rev(x, 32)))
  {
    hide Rev, Xor, Pow2, Cong, ClMul, Product;
    var g, p, m := Modulus(32, poly), Product(poly, x, y, 32), ClMul(Rev(y, 32), Rev(x, 32));
    ProductCong(poly, x, y, 32);
    if Cong(g, Rev(z, 32), m) {
      CongSym(g, Rev(p, 32), m);
      CongTrans(g, Rev(z, 32), m, Rev(p, 32));
      ModulusDegree(poly);
      RevBelow(z, 32);
      RevBelow(p, 32);
      RemainderUnique(g, 32, Rev(z, 32), Rev(p, 32));
      ProductBelow(poly, x, y, 32);
      RevRev(z, 32);
      RevRev(p, 32);
    }
  }

  lemma ModulusDegree(poly: nat)
    ensures Pow2(32) <= Modulus(32, poly) < Pow2(33)
  {
    hide Rev, Xor;
    RevBelow(poly, 32);
    assert Pow2(33) == 2 * Pow2(32);
    hide Pow2;
    XorLead(Pow2(32), Rev(poly, 32), 32);
  }
}
