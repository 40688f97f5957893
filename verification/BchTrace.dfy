/** The trace of GF(2^m), and the equation z^2 + z = u that it decides. */
module BchTrace {
  import opened Bits
  import opened Galois
  import opened BchSolver
  import opened BchAffine
  import opened BchEval

  /** x^2 + x, which is linear over GF(2). */
  function Hilbert(f: Field, x: nat): nat {
    Xor(Sq(f, x), x)
  }

  lemma HilbertXor(f: Field, x: nat, y: nat)
    requires Primitive(f) && x <= N(f) && y <= N(f)
    ensures Hilbert(f, Xor(x, y)) == Xor(Hilbert(f, x), Hilbert(f, y)) && Hilbert(f, x) <= N(f)
  {
    hide Mul, Xor, Primitive;
    In(f, x, x);
    In(f, Sq(f, x), x);
    SquareXor(f, x, y);
    XorSwap(Sq(f, x), Sq(f, y), x, y);
  }

  // --- the trace ---

  /** x^(2^j) */
  ghost function Frob(f: Field, x: nat, j: nat): nat {
    if j == 0 then x else Sq(f, Frob(f, x, j - 1))
  }

  /** The sum of the first n of these; for n = m, the trace. */
  ghost function Trace(f: Field, x: nat, n: nat): nat {
    if n == 0 then 0 else Xor(Trace(f, x, n - 1), Frob(f, x, n - 1))
  }

  lemma {:induction false} FrobBelow(f: Field, x: nat, j: nat)
    requires Primitive(f) && x <= N(f)
    ensures Frob(f, x, j) <= N(f)
  {
    hide Mul, Primitive, N;
    if j > 0 {
      FrobBelow(f, x, j - 1);
      In(f, Frob(f, x, j - 1), Frob(f, x, j - 1));
    }
  }

  lemma {:induction false} FrobXor(f: Field, x: nat, y: nat, j: nat)
    requires Primitive(f) && x <= N(f) && y <= N(f)
    ensures Frob(f, Xor(x, y), j) == Xor(Frob(f, x, j), Frob(f, y, j))
  {
    hide Mul, Xor, Primitive, N;
    if j > 0 {
      FrobXor(f, x, y, j - 1);
      FrobBelow(f, x, j - 1);
      FrobBelow(f, y, j - 1);
      SquareXor(f, Frob(f, x, j - 1), Frob(f, y, j - 1));
    }
  }

  lemma {:induction false} FrobSq(f: Field, x: nat, j: nat)
    ensures Frob(f, Sq(f, x), j) == Frob(f, x, j + 1)
  {
    hide Mul;
    if j > 0 {
      FrobSq(f, x, j - 1);
    }
  }

  lemma {:induction false} FrobAlpha(f: Field, i: nat, j: nat)
    requires Primitive(f)
    ensures Frob(f, Alpha(f, i), j) == Alpha(f, i * Pow2(j))
  {
    hide Mul, Alpha, Primitive, Pow2;
    if j == 0 {
      assert Pow2(0) == 1 by { Pow2Zero(); }
    } else {
      FrobAlpha(f, i, j - 1);
      var k := i * Pow2(j - 1);
      PrimitiveOk(f);
      AlphaMul(f, k, k);
      assert i * Pow2(j) == k + k by { Twice(i, j); }
    }
  }

  lemma Pow2Zero()
    ensures Pow2(0) == 1
  {
  }

  lemma Twice(i: nat, j: nat)
    requires j > 0
    ensures i * Pow2(j) == i * Pow2(j - 1) + i * Pow2(j - 1)
  {
  }

  lemma {:induction false} AlphaTurns(f: Field, i: nat, k: nat)
    requires Primitive(f)
    ensures Alpha(f, i + k * N(f)) == Alpha(f, i)
  {
    hide Alpha, Primitive, N;
    if k > 0 {
      AlphaTurns(f, i, k - 1);
      assert i + k * N(f) == (i + (k - 1) * N(f)) + N(f);
      AlphaCycle(f, i + (k - 1) * N(f));
    }
  }

  /** x^(2^m) = x */
  lemma FrobTurn(f: Field, x: nat)
    requires Primitive(f) && x <= N(f)
    ensures Frob(f, x, f.m) == x
  {
    if x == 0 {
      FrobZero(f, f.m);
    } else {
      var i := Log(f, x);
      FrobAlpha(f, i, f.m);
      assert i * Pow2(f.m) == i + i * N(f) by { OneMore(i, Pow2(f.m)); }
      AlphaTurns(f, i, i);
    }
  }

  lemma OneMore(i: nat, p: nat)
    requires p >= 1
    ensures i * p == i + i * (p - 1)
  {
  }

  lemma {:induction false} FrobZero(f: Field, j: nat)
    ensures Frob(f, 0, j) == 0
  {
    if j > 0 {
      FrobZero(f, j - 1);
    }
  }

  lemma TraceSum(t: nat, x: nat, a: nat, b: nat)
    requires t == Xor(a, x)
    ensures Xor(t, Xor(b, a)) == Xor(b, x)
  {
    XorEverywhere();
    hide Xor, Bit;
    SameBitsEqual(Xor(Xor(a, x), Xor(b, a)), Xor(b, x));
  }

  lemma {:induction false} TraceHilbert(f: Field, x: nat, n: nat)
    requires Primitive(f) && x <= N(f)
    ensures Trace(f, Hilbert(f, x), n) == Xor(Frob(f, x, n), x)
  {
    hide Mul, Xor, Primitive;
    if n == 0 {
      XorSelf(x);
    } else {
      TraceHilbert(f, x, n - 1);
      In(f, x, x);
      FrobXor(f, Sq(f, x), x, n - 1);
      FrobSq(f, x, n - 1);
      TraceSum(Trace(f, Hilbert(f, x), n - 1), x, Frob(f, x, n - 1), Frob(f, x, n));
    }
  }

  /** An element with trace other than zero is not x^2 + x. */
  lemma OutOfReach(f: Field, ak: nat)
    requires Primitive(f) && Trace(f, ak, f.m) != 0
    ensures forall r: nat :: r <= N(f) ==> Hilbert(f, r) != ak
  {
    hide Hilbert, Trace, Primitive, Frob;
    forall r: nat | r <= N(f)
      ensures Hilbert(f, r) != ak
    {
      TraceHilbert(f, r, f.m);
      FrobTurn(f, r);
      XorSelf(r);
    }
  }

  // --- the trace is 0 or 1, and not always 0 ---

  lemma {:induction false} TraceBelow(f: Field, x: nat, n: nat)
    requires Primitive(f) && x <= N(f)
    ensures Trace(f, x, n) <= N(f)
  {
    hide Mul, Xor, Primitive, Frob;
    if n > 0 {
      TraceBelow(f, x, n - 1);
      FrobBelow(f, x, n - 1);
      In(f, Trace(f, x, n - 1), Frob(f, x, n - 1));
    }
  }

  lemma {:induction false} TraceXor(f: Field, x: nat, y: nat, n: nat)
    requires Primitive(f) && x <= N(f) && y <= N(f)
    ensures Trace(f, Xor(x, y), n) == Xor(Trace(f, x, n), Trace(f, y, n))
  {
    hide Mul, Xor, Primitive, Frob, N;
    if n == 0 {
      XorSelf(0);
    } else {
      TraceXor(f, x, y, n - 1);
      FrobXor(f, x, y, n - 1);
      XorSwap(Trace(f, x, n - 1), Trace(f, y, n - 1), Frob(f, x, n - 1), Frob(f, y, n - 1));
    }
  }

  /** The square of a sum of conjugates is the sum of the next ones. */
  lemma {:induction false} TraceSq(f: Field, x: nat, n: nat)
    requires Primitive(f) && x <= N(f)
    ensures Sq(f, Trace(f, x, n)) == Xor(Trace(f, x, n + 1), x)
  {
    hide Mul, Xor, Primitive, Frob;
    if n == 0 {
      SqZero(f);
      FrobFirst(f, x);
      XorSelf(x);
    } else {
      TraceSq(f, x, n - 1);
      TraceBelow(f, x, n - 1);
      FrobBelow(f, x, n - 1);
      SquareXor(f, Trace(f, x, n - 1), Frob(f, x, n - 1));
      FrobNext(f, x, n - 1);
      XorAssoc(Trace(f, x, n), x, Frob(f, x, n));
      XorComm(x, Frob(f, x, n));
      XorAssoc(Trace(f, x, n), Frob(f, x, n), x);
    }
  }

  lemma SqZero(f: Field)
    ensures Sq(f, 0) == 0
  {
  }

  lemma FrobFirst(f: Field, x: nat)
    ensures Frob(f, x, 0) == x
  {
  }

  lemma FrobNext(f: Field, x: nat, j: nat)
    ensures Frob(f, x, j + 1) == Sq(f, Frob(f, x, j))
  {
  }

  lemma TraceBit(f: Field, x: nat)
    requires Primitive(f) && x <= N(f)
    ensures Trace(f, x, f.m) == 0 || Trace(f, x, f.m) == 1
  {
    hide Mul, Xor, Primitive, Frob, Trace;
    var t := Trace(f, x, f.m);
    TraceBelow(f, x, f.m);
    TraceSq(f, x, f.m);
    TraceNext(f, x, f.m);
    FrobTurn(f, x);
    XorAssoc(t, x, x);
    XorSelf(x);
    XorSelf(t);
    MulRight1(f, t);
    In(f, t, 1);
    MulXorR(f, t, t, 1);
    MulNonzero(f, t, Xor(t, 1));
    XorZeroEqual(t, 1);
  }

  lemma TraceNext(f: Field, x: nat, n: nat)
    ensures Trace(f, x, n + 1) == Xor(Trace(f, x, n), Frob(f, x, n))
  {
  }

  /** x^k */
  ghost function Power(f: Field, x: nat, k: nat): nat {
    if k == 0 then 1 else Mul(f, x, Power(f, x, k - 1))
  }

  lemma {:induction false} PowerBelow(f: Field, x: nat, k: nat)
    requires Primitive(f) && x <= N(f)
    ensures Power(f, x, k) <= N(f)
  {
    hide Mul, Primitive;
    AlphaPeriod(f);
    if k > 0 {
      PowerBelow(f, x, k - 1);
      In(f, x, Power(f, x, k - 1));
    }
  }

  lemma {:induction false} PowerAdd(f: Field, x: nat, j: nat, k: nat)
    requires Primitive(f) && x <= N(f)
    ensures Power(f, x, j + k) == Mul(f, Power(f, x, j), Power(f, x, k))
  {
    hide Mul, Primitive;
    PowerBelow(f, x, k);
    if j == 0 {
      PrimitiveOk(f);
      MulOne(f, Power(f, x, k));
    } else {
      PowerAdd(f, x, j - 1, k);
      PowerBelow(f, x, j - 1);
      MulAssoc(f, x, Power(f, x, j - 1), Power(f, x, k));
    }
  }

  lemma {:induction false} FrobPower(f: Field, x: nat, j: nat)
    requires Primitive(f) && x <= N(f)
    ensures Frob(f, x, j) == Power(f, x, Pow2(j))
  {
    hide Mul, Primitive, N, Pow2;
    if j == 0 {
      Pow2Zero();
      assert Power(f, x, 0) == 1;
      MulRight1(f, x);
    } else {
      FrobPower(f, x, j - 1);
      PowerAdd(f, x, Pow2(j - 1), Pow2(j - 1));
      assert Pow2(j) == Pow2(j - 1) + Pow2(j - 1) by { Twice(1, j); }
    }
  }

  lemma {:induction false} EvalAppend(f: Field, a: seq<nat>, b: seq<nat>, x: nat)
    requires Primitive(f) && Coeffs(f, a) && Coeffs(f, b) && x <= N(f)
    ensures Eval(f, a + b, x) == Xor(Eval(f, a, x), Mul(f, Power(f, x, |a|), Eval(f, b, x)))
  {
    hide Mul, Xor, Primitive, N;
    var e := Eval(f, b, x);
    EvalBelow(f, b, x);
    if a == [] {
      assert a + b == b;
      PrimitiveOk(f);
      MulOne(f, e);
      XorSelf(e);
    } else {
      var p := Power(f, x, |a| - 1);
      assert (a + b)[1..] == a[1..] + b;
      EvalAppend(f, a[1..], b, x);
      EvalBelow(f, a[1..], x);
      PowerBelow(f, x, |a| - 1);
      In(f, p, e);
      MulXorR(f, x, Eval(f, a[1..], x), Mul(f, p, e));
      MulAssoc(f, x, p, e);
      XorAssoc(a[0], Mul(f, x, Eval(f, a[1..], x)), Mul(f, Power(f, x, |a|), e));
    }
  }

  /** X^k */
  ghost function Monomial(k: nat): (c: seq<nat>)
    ensures |c| == k + 1 && c[k] == 1 && forall i :: 0 <= i < k ==> c[i] == 0
  {
    seq(k, _ => 0) + [1]
  }

  lemma {:induction false} EvalMonomial(f: Field, k: nat, x: nat)
    requires Primitive(f) && x <= N(f)
    ensures Coeffs(f, Monomial(k)) && Eval(f, Monomial(k), x) == Power(f, x, k)
  {
    hide Mul, Xor, Primitive;
    AlphaPeriod(f);
    if k == 0 {
      EvalConst(f, Monomial(0), x);
    } else {
      EvalMonomial(f, k - 1, x);
      assert Monomial(k)[1..] == Monomial(k - 1);
      XorSelf(Mul(f, x, Power(f, x, k - 1)));
    }
  }

  /** X + X^2 + X^4 + ..., n terms */
  ghost function TracePoly(n: nat): (c: seq<nat>)
    requires n >= 1
    ensures |c| == Pow2(n - 1) + 1 && c[|c| - 1] == 1
  {
    if n == 1 then [0, 1] else TracePoly(n - 1) + Monomial(Pow2(n - 2) - 1)
  }

  lemma EvalTraceOne(f: Field, x: nat)
    requires Primitive(f) && x <= N(f)
    ensures Coeffs(f, TracePoly(1)) && Eval(f, TracePoly(1), x) == Trace(f, x, 1)
  {
    hide Mul, Xor, Primitive, Frob, Eval, Pow2, N;
    AlphaPeriod(f);
    assert TracePoly(1) == [0, 1];
    EvalLinear(f, [0, 1], x);
    MulRight1(f, x);
    XorSelf(x);
    FrobFirst(f, x);
    assert Trace(f, x, 1) == Xor(Trace(f, x, 0), Frob(f, x, 0));
  }

  /** The next term of the trace is the polynomial's next monomial. */
  lemma EvalTraceStep(f: Field, n: nat, x: nat)
    requires Primitive(f) && x <= N(f) && n >= 2 && Coeffs(f, TracePoly(n - 1))
    ensures Coeffs(f, TracePoly(n))
    ensures Eval(f, TracePoly(n), x) == Xor(Eval(f, TracePoly(n - 1), x), Frob(f, x, n - 1))
  {
    hide Mul, Xor, Primitive, Frob, Eval, Power, Pow2, N;
    var p := Pow2(n - 2);
    EvalMonomial(f, p - 1, x);
    EvalAppend(f, TracePoly(n - 1), Monomial(p - 1), x);
    PowerAdd(f, x, p + 1, p - 1);
    assert Pow2(n - 1) == p + p by { Twice(1, n - 1); }
    FrobPower(f, x, n - 1);
  }

  lemma {:induction false} EvalTrace(f: Field, n: nat, x: nat)
    requires Primitive(f) && x <= N(f) && n >= 1
    ensures Coeffs(f, TracePoly(n)) && Eval(f, TracePoly(n), x) == Trace(f, x, n)
    decreases n
  {
    hide Xor, Primitive, Frob, Eval, TracePoly, Coeffs, N;
    if n == 1 {
      EvalTraceOne(f, x);
    } else {
      EvalTrace(f, n - 1, x);
      EvalTraceStep(f, n, x);
    }
  }

  ghost function Upto(n: nat): (xs: seq<nat>)
    ensures |xs| == n && forall i :: 0 <= i < n ==> xs[i] == i
  {
    seq(n, i => i)
  }

  /** Some element has trace other than zero: the polynomial has too few roots. */
  lemma TraceNotZero(f: Field) returns (x: nat)
    requires Primitive(f)
    ensures x <= N(f) && Trace(f, x, f.m) != 0
  {
    hide Primitive, Trace, TracePoly, Eval;
    PrimitiveOk(f);
    var c, xs := TracePoly(f.m), Upto(N(f) + 1);
    if forall y: nat :: y <= N(f) ==> Trace(f, y, f.m) == 0 {
      forall i | 0 <= i < |xs|
        ensures xs[i] <= N(f) && Eval(f, c, xs[i]) == 0
      {
        EvalTrace(f, f.m, xs[i]);
      }
      EvalTrace(f, f.m, 0);
      RootBound(f, c, xs);
      assert false;
    }
    x :| x <= N(f) && Trace(f, x, f.m) != 0;
  }

  /** The trace of a sum of powers of X that have trace zero is zero. */
  lemma {:induction false} TraceOfBits(f: Field, x: nat, n: nat)
    requires Primitive(f) && n <= f.m && forall i: nat :: i < n ==> Trace(f, Pow2(i), f.m) == 0
    ensures Trunc(x, n) <= N(f) && Trace(f, Trunc(x, n), f.m) == 0
  {
    hide Primitive, Trace, Xor, Bit, Trunc;
    TruncBelow(x, n);
    Pow2Mono(n, f.m);
    if n == 0 {
      assert Trunc(x, 0) == 0 by { TruncNone(x); }
      PrimitiveOk(f);
      TraceHilbertZero(f);
    } else {
      var t := Trunc(x, n - 1);
      TraceOfBits(f, x, n - 1);
      TruncStep(x, n - 1);
      TruncBelow(x, n - 1);
      AddLead(n - 1, t);
      if Bit(x, n - 1) {
        Pow2Mono(n, f.m);
        TraceXor(f, Pow2(n - 1), t, f.m);
        XorSelf(0);
      }
    }
  }

  lemma TruncNone(x: nat)
    ensures Trunc(x, 0) == 0
  {
  }

  lemma TraceHilbertZero(f: Field)
    requires Primitive(f)
    ensures Trace(f, 0, f.m) == 0
  {
    hide Primitive, Trace, Frob;
    AlphaPeriod(f);
    SqZero(f);
    XorSelf(0);
    TraceHilbert(f, 0, f.m);
    FrobTurn(f, 0);
  }

  /** Among the first m powers of X there is one with trace other than zero. */
  lemma TraceOfPower(f: Field)
    requires Primitive(f)
    ensures exists i: nat :: i < f.m && Trace(f, Alpha(f, i), f.m) != 0
  {
    hide Primitive, Trace, Alpha;
    PrimitiveOk(f);
    if forall i: nat :: i < f.m ==> Trace(f, Alpha(f, i), f.m) == 0 {
      forall i: nat | i < f.m
        ensures Trace(f, Pow2(i), f.m) == 0
      {
        AlphaPow2(f, i);
        assert Trace(f, Alpha(f, i), f.m) == 0;
      }
      var x := TraceNotZero(f);
      TraceOfBits(f, x, f.m);
      TruncBelow(x, f.m);
      assert false;
    }
  }

  // --- with trace zero, z^2 + z = u has a solution ---

  /** The sum over j < n of (u + u^2 + ... + u^(2^(j-1))) th^(2^j) */
  ghost function Solution(f: Field, u: nat, th: nat, n: nat): nat {
    if n == 0 then 0 else Xor(Solution(f, u, th, n - 1), Mul(f, Trace(f, u, n - 1), Frob(f, th, n - 1)))
  }

  lemma {:induction false} SolutionBelow(f: Field, u: nat, th: nat, n: nat)
    requires Primitive(f) && u <= N(f) && th <= N(f)
    ensures Solution(f, u, th, n) <= N(f)
  {
    hide Mul, Xor, Primitive, Frob, Trace;
    if n > 0 {
      SolutionBelow(f, u, th, n - 1);
      TraceBelow(f, u, n - 1);
      FrobBelow(f, th, n - 1);
      In(f, Trace(f, u, n - 1), Frob(f, th, n - 1));
      In(f, Solution(f, u, th, n - 1), Mul(f, Trace(f, u, n - 1), Frob(f, th, n - 1)));
    }
  }

  lemma SolutionSum(p: nat, a: nat, b: nat, c: nat)
    ensures Xor(Xor(p, a), Xor(Xor(b, c), p)) == Xor(b, Xor(a, c))
  {
    XorEverywhere();
    hide Xor, Bit;
    SameBitsEqual(Xor(Xor(p, a), Xor(Xor(b, c), p)), Xor(b, Xor(a, c)));
  }

  lemma {:induction false} SolutionHilbert(f: Field, u: nat, th: nat, n: nat)
    requires Primitive(f) && u <= N(f) && th <= N(f)
    ensures Hilbert(f, Solution(f, u, th, n))
         == Xor(Mul(f, Trace(f, u, n), Frob(f, th, n)), Mul(f, u, Xor(Trace(f, th, n + 1), th)))
  {
    hide Mul, Xor, Primitive, Frob, Trace, Hilbert;
    if n == 0 {
      SolutionStart(f, u, th);
    } else {
      var k := n - 1;
      var s, fr := Trace(f, u, k), Frob(f, th, k);
      var p, tt, fn := Mul(f, s, fr), Xor(Trace(f, th, n), th), Frob(f, th, n);
      SolutionHilbert(f, u, th, k);
      SolutionBelow(f, u, th, k);
      TraceBelow(f, u, k);
      TraceBelow(f, u, n);
      TraceBelow(f, th, n);
      FrobBelow(f, th, k);
      FrobBelow(f, th, n);
      In(f, s, fr);
      In(f, Trace(f, th, n), th);
      HilbertXor(f, Solution(f, u, th, k), p);
      HilbertTerm(f, u, th, k);
      MulXorL(f, Trace(f, u, n), u, fn);
      TraceNext(f, th, n);
      XorAssoc(Trace(f, th, n), fn, th);
      XorComm(fn, th);
      XorAssoc(Trace(f, th, n), th, fn);
      MulXorR(f, u, tt, fn);
      SolutionSum(p, Mul(f, u, tt), Mul(f, Trace(f, u, n), fn), Mul(f, u, fn));
    }
  }

  lemma SolutionStart(f: Field, u: nat, th: nat)
    requires Primitive(f) && u <= N(f) && th <= N(f)
    ensures Hilbert(f, 0) == 0 && Trace(f, u, 0) == 0
    ensures Hilbert(f, Solution(f, u, th, 0))
         == Xor(Mul(f, Trace(f, u, 0), Frob(f, th, 0)), Mul(f, u, Xor(Trace(f, th, 1), th)))
  {
    SqZero(f);
    XorSelf(0);
    XorSelf(th);
    FrobFirst(f, th);
    assert Trace(f, th, 1) == Xor(Trace(f, th, 0), Frob(f, th, 0));
    MulZeroL(f, th);
    MulZeroR(f, u);
  }

  /** (s th')^2 + s th', with s^2 the next sum plus u and th'^2 the next conjugate */
  lemma HilbertTerm(f: Field, u: nat, th: nat, k: nat)
    requires Primitive(f) && u <= N(f) && th <= N(f)
    ensures
      var p := Mul(f, Trace(f, u, k), Frob(f, th, k));
      Hilbert(f, p) == Xor(Mul(f, Xor(Trace(f, u, k + 1), u), Frob(f, th, k + 1)), p)
  {
    hide Mul, Xor, Primitive, Frob, Trace;
    TraceBelow(f, u, k);
    FrobBelow(f, th, k);
    SqMul(f, Trace(f, u, k), Frob(f, th, k));
    TraceSq(f, u, k);
    FrobNext(f, th, k);
  }

  lemma Solvable(f: Field, u: nat, th: nat)
    requires Primitive(f) && u <= N(f) && th <= N(f) && Trace(f, u, f.m) == 0 && Trace(f, th, f.m) == 1
    ensures Solution(f, u, th, f.m) <= N(f) && Hilbert(f, Solution(f, u, th, f.m)) == u
  {
    hide Mul, Xor, Primitive, Frob, Trace, Hilbert, Solution;
    SolutionBelow(f, u, th, f.m);
    SolutionHilbert(f, u, th, f.m);
    FrobTurn(f, th);
    TraceNext(f, th, f.m);
    MulZeroL(f, Frob(f, th, f.m));
    XorAssoc(1, th, th);
    XorSelf(th);
    XorSelf(1);
    MulRight1(f, u);
    XorSelf(u);
  }
}
