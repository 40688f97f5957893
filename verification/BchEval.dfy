/** Polynomials over GF(2^m): their values, division by a linear factor, and how many roots they can have. */
module BchEval {
  import opened Bits
  import opened Galois
  import opened BchAffine

  /** The value of the polynomial with coefficients `c`, lowest degree first. */
  function Eval(f: Field, c: seq<nat>, x: nat): nat {
    if c == [] then 0 else Xor(c[0], Mul(f, x, Eval(f, c[1..], x)))
  }

  ghost predicate Coeffs(f: Field, c: seq<nat>) {
    forall i :: 0 <= i < |c| ==> c[i] <= N(f)
  }

  // --- products and sums ---

  /** Products of field elements are field elements. */
  lemma In(f: Field, x: nat, y: nat)
    requires Primitive(f) && x <= N(f) && y <= N(f)
    ensures Mul(f, x, y) <= N(f) && Xor(x, y) <= N(f)
  {
    hide Mul, Xor;
    MulBelow(f, x, y);
    XorBelow(x, y, f.m);
  }

  lemma MulSwap(f: Field, x: nat, y: nat, z: nat)
    requires Primitive(f) && x <= N(f) && y <= N(f) && z <= N(f)
    ensures Mul(f, x, Mul(f, y, z)) == Mul(f, y, Mul(f, x, z))
  {
    hide Mul;
    MulAssoc(f, x, y, z);
    MulAssoc(f, y, x, z);
    MulComm(f, x, y);
  }

  lemma SqMul(f: Field, x: nat, y: nat)
    requires Primitive(f) && x <= N(f) && y <= N(f)
    ensures Sq(f, Mul(f, x, y)) == Mul(f, Sq(f, x), Sq(f, y))
  {
    hide Mul;
    In(f, x, y);
    In(f, y, y);
    MulAssoc(f, x, y, Mul(f, x, y));
    MulSwap(f, y, x, y);
    MulAssoc(f, x, x, Sq(f, y));
  }

  lemma MulRight1(f: Field, x: nat)
    requires Primitive(f) && x <= N(f)
    ensures Mul(f, x, 1) == x && 1 <= N(f)
  {
    AlphaPeriod(f);
    MulComm(f, x, 1);
    MulOne(f, x);
  }

  lemma MulCancel(f: Field, a: nat, x: nat, y: nat)
    requires Primitive(f) && 1 <= a <= N(f) && x <= N(f) && y <= N(f) && Mul(f, a, x) == Mul(f, a, y)
    ensures x == y
  {
    hide Mul, Xor;
    In(f, x, y);
    MulXorR(f, a, x, y);
    XorSelf(Mul(f, a, x));
    MulNonzero(f, a, Xor(x, y));
    XorZeroEqual(x, y);
  }

  lemma {:induction false} EvalBelow(f: Field, c: seq<nat>, x: nat)
    requires Primitive(f) && Coeffs(f, c) && x <= N(f)
    ensures Eval(f, c, x) <= N(f)
  {
    if c != [] {
      hide Mul, Xor, Primitive;
      EvalBelow(f, c[1..], x);
      In(f, x, Eval(f, c[1..], x));
      In(f, c[0], Mul(f, x, Eval(f, c[1..], x)));
    }
  }

  ghost predicate Scaled(f: Field, e: nat, c: seq<nat>, c': seq<nat>) {
    |c| == |c'| && forall i :: 0 <= i < |c| ==> c[i] == Mul(f, e, c'[i])
  }

  /** Dividing by the leading coefficient keeps the roots. */
  lemma {:induction false} EvalScaled(f: Field, e: nat, c: seq<nat>, c': seq<nat>, x: nat)
    requires Primitive(f) && e <= N(f) && Coeffs(f, c') && Scaled(f, e, c, c') && x <= N(f)
    ensures Eval(f, c, x) == Mul(f, e, Eval(f, c', x))
  {
    if c == [] {
      assert Mul(f, e, 0) == 0;
    } else {
      hide Mul, Xor, Primitive;
      var v := Eval(f, c'[1..], x);
      EvalScaled(f, e, c[1..], c'[1..], x);
      EvalBelow(f, c'[1..], x);
      In(f, x, v);
      MulSwap(f, x, e, v);
      MulXorR(f, e, c'[0], Mul(f, x, v));
    }
  }

  lemma EvalLinear(f: Field, c: seq<nat>, x: nat)
    requires |c| == 2
    ensures Eval(f, c, x) == Xor(c[0], Mul(f, x, c[1]))
  {
    assert c[1..] == [c[1]] && c[1..][1..] == [];
    assert Eval(f, [], x) == 0;
    assert Mul(f, x, 0) == 0;
    XorSelf(c[1]);
    assert Eval(f, [c[1]], x) == Xor(c[1], Mul(f, x, Eval(f, [], x)));
  }

  lemma EvalQuadratic(f: Field, c: seq<nat>, x: nat)
    requires |c| == 3
    ensures Eval(f, c, x) == Xor(c[0], Mul(f, x, Xor(c[1], Mul(f, x, c[2]))))
  {
    hide Mul, Xor;
    assert c[1..] == [c[1], c[2]];
    EvalLinear(f, c[1..], x);
  }

  // --- dividing by X + r ---

  /** The quotient of a polynomial by X + r. */
  ghost function Quot(f: Field, c: seq<nat>, r: nat): (q: seq<nat>)
    ensures |q| == if c == [] then 0 else |c| - 1
  {
    if |c| <= 1 then [] else [Eval(f, c[1..], r)] + Quot(f, c[1..], r)
  }

  lemma {:induction false} QuotCoeffs(f: Field, c: seq<nat>, r: nat)
    requires Primitive(f) && Coeffs(f, c) && r <= N(f)
    ensures Coeffs(f, Quot(f, c, r))
    ensures |c| >= 2 ==> Quot(f, c, r)[|c| - 2] == c[|c| - 1]
  {
    hide Primitive, N;
    if |c| >= 2 {
      QuotCoeffs(f, c[1..], r);
      EvalBelow(f, c[1..], r);
      if |c| == 2 {
        EvalConst(f, c[1..], r);
      }
    }
  }

  lemma EvalConst(f: Field, c: seq<nat>, x: nat)
    requires |c| == 1
    ensures Eval(f, c, x) == c[0]
  {
    assert c[1..] == [] && Eval(f, [], x) == 0;
    assert Mul(f, x, 0) == 0;
    XorSelf(c[0]);
  }

  lemma FactorSum(c: nat, a: nat, b: nat, d: nat)
    ensures Xor(c, Xor(a, b)) == Xor(Xor(Xor(b, d), a), Xor(c, d))
  {
    XorEverywhere();
    hide Xor, Bit;
    SameBitsEqual(Xor(c, Xor(a, b)), Xor(Xor(Xor(b, d), a), Xor(c, d)));
  }

  /** p(x) = (x + r) q(x) + p(r) */
  lemma {:induction false} Factor(f: Field, c: seq<nat>, r: nat, x: nat)
    requires Primitive(f) && Coeffs(f, c) && r <= N(f) && x <= N(f)
    ensures Eval(f, c, x) == Xor(Mul(f, Xor(x, r), Eval(f, Quot(f, c, r), x)), Eval(f, c, r))
  {
    hide Primitive, N, Mul, Xor;
    var s := Xor(x, r);
    In(f, x, r);
    if |c| <= 1 {
      assert Eval(f, [], x) == 0 && Eval(f, [], r) == 0;
      MulZeroR(f, s);
      if |c| == 1 {
        EvalConst(f, c, x);
        EvalConst(f, c, r);
      }
      XorSelf(Eval(f, c, r));
    } else {
      var d := c[1..];
      var e, q := Eval(f, d, r), Eval(f, Quot(f, d, r), x);
      Factor(f, d, r, x);
      QuotCoeffs(f, d, r);
      EvalBelow(f, d, r);
      EvalBelow(f, Quot(f, d, r), x);
      EvalCons(f, e, Quot(f, d, r), x);
      In(f, s, q);
      In(f, x, q);
      MulXorR(f, x, Mul(f, s, q), e);
      MulSwap(f, x, s, q);
      MulXorR(f, s, e, Mul(f, x, q));
      MulXorL(f, x, r, e);
      FactorSum(c[0], Mul(f, x, Mul(f, s, q)), Mul(f, x, e), Mul(f, r, e));
    }
  }

  lemma EvalCons(f: Field, e: nat, q: seq<nat>, x: nat)
    ensures Eval(f, [e] + q, x) == Xor(e, Mul(f, x, Eval(f, q, x)))
  {
    assert ([e] + q)[1..] == q;
  }

  lemma MulZeroR(f: Field, x: nat)
    ensures Mul(f, x, 0) == 0
  {
  }

  // --- the number of roots ---

  ghost predicate DistinctRoots(f: Field, c: seq<nat>, xs: seq<nat>) {
    && (forall i :: 0 <= i < |xs| ==> xs[i] <= N(f) && Eval(f, c, xs[i]) == 0)
    && (forall i, j :: 0 <= i < j < |xs| ==> xs[i] != xs[j])
  }

  /** The polynomial has (at least) k roots. */
  ghost predicate HasRoots(f: Field, c: seq<nat>, k: nat) {
    exists xs :: |xs| == k && DistinctRoots(f, c, xs)
  }

  /** A polynomial has at most as many roots as its degree. */
  lemma {:induction false} RootBound(f: Field, c: seq<nat>, xs: seq<nat>)
    requires Primitive(f) && c != [] && Coeffs(f, c) && c[|c| - 1] != 0 && DistinctRoots(f, c, xs)
    ensures |xs| < |c|
    decreases |c|
  {
    hide Primitive, N, Mul, Xor, Eval;
    if xs != [] {
      var r := xs[0];
      if |c| == 1 {
        EvalConst(f, c, r);
      } else {
        var q := Quot(f, c, r);
        QuotCoeffs(f, c, r);
        forall i | 1 <= i < |xs|
          ensures Eval(f, q, xs[i]) == 0
        {
          Factor(f, c, r, xs[i]);
          XorSelf(Mul(f, Xor(xs[i], r), Eval(f, q, xs[i])));
          XorZeroEqual(xs[i], r);
          In(f, xs[i], r);
          EvalBelow(f, q, xs[i]);
          MulNonzero(f, Xor(xs[i], r), Eval(f, q, xs[i]));
        }
        RootBound(f, q, xs[1..]);
      }
    }
  }
}
