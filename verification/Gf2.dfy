/**
 Polynomials over GF(2): bit `i` of a number is the coefficient of X^i.  Addition is `Xor`,
 `ClMul` is the carry-less product, and two polynomials are congruent modulo `g` when their
 sum is a multiple of `g`.
 */
module Gf2 {
  import opened Bits

  function ClMul(a: nat, b: nat): nat
    decreases b
  {
    if b == 0 then 0 else Xor(if b % 2 == 1 then a else 0, ClMul(2 * a, b / 2))
  }

  ghost predicate Multiple(g: nat, x: nat) {
    exists q: nat :: ClMul(g, q) == x
  }

  ghost predicate Cong(g: nat, x: nat, y: nat) {
    Multiple(g, Xor(x, y))
  }

  // --- the product is linear in both arguments ---

  lemma {:induction false} MulXorRight(a: nat, b: nat, c: nat)
    ensures ClMul(a, Xor(b, c)) == Xor(ClMul(a, b), ClMul(a, c))
    decreases b + c
  {
    if b == 0 || c == 0 {
      XorSelf(b);
      XorSelf(c);
      XorSelf(ClMul(a, b));
      XorSelf(ClMul(a, c));
    } else {
      XorHalf(b, c);
      MulXorRight(2 * a, b / 2, c / 2);
      var s, t := if b % 2 == 1 then a else 0, if c % 2 == 1 then a else 0;
      var u, v := ClMul(2 * a, b / 2), ClMul(2 * a, c / 2);
      SelXor(b % 2 == 1, c % 2 == 1, a);
      XorSwap(s, u, t, v);
      if Xor(b, c) == 0 {
        XorSelf(Xor(u, v));
      }
    }
  }

  lemma SelXor(p: bool, q: bool, a: nat)
    ensures Xor(if p then a else 0, if q then a else 0) == if p != q then a else 0
  {
    XorSelf(a);
  }

  lemma {:induction false} MulXorLeft(a: nat, b: nat, c: nat)
    ensures ClMul(Xor(a, b), c) == Xor(ClMul(a, c), ClMul(b, c))
    decreases c
  {
    if c != 0 {
      XorDouble(a, b);
      MulXorLeft(2 * a, 2 * b, c / 2);
      var u, v := ClMul(2 * a, c / 2), ClMul(2 * b, c / 2);
      XorSwap(if c % 2 == 1 then a else 0, u, if c % 2 == 1 then b else 0, v);
    }
  }

  lemma {:induction false} MulDouble(a: nat, b: nat)
    ensures ClMul(2 * a, b) == 2 * ClMul(a, b)
    decreases b
  {
    if b != 0 {
      MulDouble(2 * a, b / 2);
      XorDouble(if b % 2 == 1 then a else 0, ClMul(2 * a, b / 2));
    }
  }

  // --- congruence ---

  lemma MultipleXor(g: nat, x: nat, y: nat)
    requires Multiple(g, x) && Multiple(g, y)
    ensures Multiple(g, Xor(x, y))
  {
    var p: nat :| ClMul(g, p) == x;
    var q: nat :| ClMul(g, q) == y;
    MulXorRight(g, p, q);
  }

  lemma MultipleDouble(g: nat, x: nat)
    requires Multiple(g, x)
    ensures Multiple(g, 2 * x)
  {
    var q: nat :| ClMul(g, q) == x;
    MulDouble(g, q);
    assert ClMul(g, 2 * q) == 2 * x;
  }

  lemma CongSame(g: nat, x: nat)
    ensures Cong(g, x, x)
  {
    XorSelf(x);
    assert ClMul(g, 0) == 0;
  }

  lemma CongSym(g: nat, x: nat, y: nat)
    requires Cong(g, x, y)
    ensures Cong(g, y, x)
  {
    XorComm(x, y);
  }

  lemma CongTrans(g: nat, x: nat, y: nat, z: nat)
    requires Cong(g, x, y) && Cong(g, y, z)
    ensures Cong(g, x, z)
  {
    hide Xor;
    MultipleXor(g, Xor(x, y), Xor(y, z));
    XorAssoc(x, y, Xor(y, z));
    XorCancel(y, z);
  }

  lemma CongXor(g: nat, x: nat, y: nat, x': nat, y': nat)
    requires Cong(g, x, x') && Cong(g, y, y')
    ensures Cong(g, Xor(x, y), Xor(x', y'))
  {
    hide Xor;
    MultipleXor(g, Xor(x, x'), Xor(y, y'));
    XorSwap(x, x', y, y');
  }

  lemma CongDouble(g: nat, x: nat, y: nat)
    requires Cong(g, x, y)
    ensures Cong(g, 2 * x, 2 * y)
  {
    MultipleDouble(g, Xor(x, y));
    XorDouble(x, y);
  }

  lemma {:induction false} CongShl(g: nat, x: nat, y: nat, k: nat)
    requires Cong(g, x, y)
    ensures Cong(g, Shl(x, k), Shl(y, k))
  {
    if k > 0 {
      CongShl(g, x, y, k - 1);
      CongDouble(g, Shl(x, k - 1), Shl(y, k - 1));
    }
  }

  /** Adding a multiple changes nothing. */
  lemma CongAdd(g: nat, x: nat, q: nat)
    ensures Cong(g, x, Xor(x, ClMul(g, q)))
  {
    XorCancel(x, ClMul(g, q));
  }

  lemma CongStep(g: nat, x: nat, k: nat)
    ensures Cong(g, x, Xor(x, Shl(g, k)))
  {
    MulPow2(g, k);
    CongAdd(g, x, Pow2(k));
  }

  lemma {:induction false} MulPow2(g: nat, k: nat)
    ensures ClMul(g, Pow2(k)) == Shl(g, k)
  {
    if k == 0 {
      assert ClMul(2 * g, 0) == 0;
      XorSelf(g);
    } else {
      assert Pow2(k) / 2 == Pow2(k - 1);
      MulDouble(g, Pow2(k - 1));
      MulPow2(g, k - 1);
      XorSelf(ClMul(2 * g, Pow2(k - 1)));
    }
  }

  // --- degrees: remainders are unique ---

  lemma XorLead(x: nat, y: nat, k: nat)
    requires Pow2(k) <= x < Pow2(k + 1) && y < Pow2(k)
    ensures Pow2(k) <= Xor(x, y) < Pow2(k + 1)
  {
    XorBelow(x, y, k + 1);
    BitLead(x, k);
    BitAbove(y, k, k);
    BitXor(x, y, k);
    if Xor(x, y) < Pow2(k) {
      BitAbove(Xor(x, y), k, k);
    }
  }

  lemma {:induction false} MulDegree(g: nat, q: nat, m: nat, k: nat)
    requires Pow2(m) <= g < Pow2(m + 1) && Pow2(k) <= q < Pow2(k + 1)
    ensures Pow2(m + k) <= ClMul(g, q) < Pow2(m + k + 1)
    decreases k
  {
    if k == 0 {
      assert q == 1 && ClMul(2 * g, 0) == 0;
      XorSelf(g);
    } else {
      MulDegree(2 * g, q / 2, m + 1, k - 1);
      var r := ClMul(2 * g, q / 2);
      if q % 2 == 1 {
        Pow2Mono(m + 1, m + k);
        XorLead(r, g, m + k);
        XorComm(r, g);
      } else {
        XorSelf(r);
      }
    }
  }

  lemma {:induction false} Degree(x: nat) returns (k: nat)
    requires x > 0
    ensures Pow2(k) <= x < Pow2(k + 1)
  {
    if x == 1 {
      k := 0;
    } else {
      k := Degree(x / 2);
      k := k + 1;
    }
  }

  /** Below the degree of `g` only zero is a multiple of `g`. */
  lemma MultipleLow(g: nat, m: nat, x: nat)
    requires Pow2(m) <= g < Pow2(m + 1) && Multiple(g, x) && x < Pow2(m)
    ensures x == 0
  {
    var q: nat :| ClMul(g, q) == x;
    if q != 0 {
      var k := Degree(q);
      MulDegree(g, q, m, k);
      Pow2Mono(m, m + k);
    }
  }

  lemma RemainderUnique(g: nat, m: nat, x: nat, y: nat)
    requires Pow2(m) <= g < Pow2(m + 1) && Cong(g, x, y) && x < Pow2(m) && y < Pow2(m)
    ensures x == y
  {
    XorBelow(x, y, m);
    MultipleLow(g, m, Xor(x, y));
    XorZeroEqual(x, y);
  }
}
