/**
 lib/bch.c: closed-form root finding for polynomials of degree 1 to 4 over GF(2^m).  A root x is
 reported as the logarithm of 1/x.
 */
module BchRoots {
  import opened Bits
  import opened Galois
  import opened BchTables
  import opened BchGauss
  import opened BchAffine
  import opened BchEval
  import opened BchTrace
  import opened BchDeg2

  /** `r` is the logarithm of 1/x for a root x. */
  ghost predicate RootLog(f: Field, c: seq<nat>, r: nat) {
    r < N(f) && Eval(f, c, Alpha(f, N(f) - r)) == 0
  }

  /** All entries are logarithms of inverse roots, and no two are the same. */
  ghost predicate RootLogs(f: Field, c: seq<nat>, roots: seq<nat>) {
    && (forall i :: 0 <= i < |roots| ==> RootLog(f, c, roots[i]))
    && (forall i, j :: 0 <= i < j < |roots| ==> roots[i] != roots[j])
  }

  /** The element a root logarithm stands for is the inverse of that power of X. */
  lemma RootLogInverse(f: Field, r: nat)
    requires Primitive(f) && r < N(f)
    ensures Mul(f, Alpha(f, r), Alpha(f, N(f) - r)) == 1
  {
    AlphaMul(f, r, N(f) - r);
    AlphaPeriod(f);
  }

  ghost function Elements(f: Field, roots: seq<nat>): (xs: seq<nat>)
    requires forall i :: 0 <= i < |roots| ==> roots[i] < N(f)
    ensures |xs| == |roots| && forall i :: 0 <= i < |xs| ==> xs[i] == Alpha(f, N(f) - roots[i])
  {
    seq(|roots|, i requires 0 <= i < |roots| => Alpha(f, N(f) - roots[i]))
  }

  lemma DistinctElements(f: Field, c: seq<nat>, roots: seq<nat>)
    requires Primitive(f) && RootLogs(f, c, roots)
    ensures DistinctRoots(f, c, Elements(f, roots))
  {
    hide Alpha, Eval, Primitive, N, Mul;
    PrimitiveOk(f);
    var xs := Elements(f, roots);
    forall i | 0 <= i < |xs|
      ensures 1 <= xs[i] <= N(f) && Eval(f, c, xs[i]) == 0 && Mul(f, Alpha(f, roots[i]), xs[i]) == 1 && Alpha(f, roots[i]) <= N(f)
    {
      assert RootLog(f, c, roots[i]);
      AlphaRange(f, N(f) - roots[i]);
      AlphaRange(f, roots[i]);
      RootLogInverse(f, roots[i]);
    }
    forall i, j | 0 <= i < j < |xs|
      ensures xs[i] != xs[j]
    {
      var p, q := Alpha(f, roots[i]), Alpha(f, roots[j]);
      if xs[i] == xs[j] {
        MulComm(f, p, xs[i]);
        MulComm(f, q, xs[i]);
        MulCancel(f, xs[i], p, q);
        AlphaDistinct(f, roots[i], roots[j]);
      }
    }
  }

  lemma LogsGiveRoots(f: Field, c: seq<nat>, roots: seq<nat>)
    requires Primitive(f) && RootLogs(f, c, roots)
    ensures HasRoots(f, c, |roots|)
  {
    DistinctElements(f, c, roots);
  }

  /** As many root logarithms as the degree are all of them. */
  lemma AllFound(f: Field, c: seq<nat>, roots: seq<nat>, x: nat) returns (i: nat)
    requires Primitive(f) && c != [] && Coeffs(f, c) && c[|c| - 1] != 0 && RootLogs(f, c, roots) && |roots| == |c| - 1
    requires x <= N(f) && Eval(f, c, x) == 0
    ensures i < |roots| && Alpha(f, N(f) - roots[i]) == x
  {
    hide Alpha, Eval, Primitive, N;
    var xs := Elements(f, roots);
    DistinctElements(f, c, roots);
    if x !in xs {
      RootBound(f, c, xs + [x]);
      assert false;
    }
    i :| 0 <= i < |xs| && xs[i] == x;
  }

  // --- degree 1 ---

  method FindPolyDeg1Roots(f: Field, t: Tables, c: seq<nat>) returns (roots: seq<nat>)
    requires Ready(f, t) && |c| == 2 && Coeffs(f, c) && c[1] != 0
    ensures RootLogs(f, c, roots) && |roots| == if c[0] != 0 then 1 else 0
  {
    hide Ready, Primitive, ALog;
    ReadyOk(f, t);
    roots := [];
    if c[0] != 0 {
      Deg1Root(f, t, c);
      roots := roots + [ModS(f, N(f) - ALog(f, t, c[0]) + ALog(f, t, c[1]))];
    }
  }

  lemma Deg1Root(f: Field, t: Tables, c: seq<nat>)
    requires Ready(f, t) && |c| == 2 && Coeffs(f, c) && c[1] != 0 && c[0] != 0
    ensures RootLog(f, c, ModS(f, N(f) - ALog(f, t, c[0]) + ALog(f, t, c[1])))
  {
    hide Ready, Primitive, Mul, Alpha, Xor, N, ALog;
    ReadyOk(f, t);
    var l0, l1 := ALog(f, t, c[0]), ALog(f, t, c[1]);
    var r := ModS(f, N(f) - l0 + l1);
    var x := Alpha(f, N(f) - r);
    AlphaMul(f, N(f) - r, l1);
    AlphaCycle(f, l0);
    AlphaRange(f, N(f) - r);
    EvalLinear(f, c, x);
    XorSelf(c[0]);
  }

  // --- degree 2 ---

  /** The sum of the base elements selected by the bits of `u`, highest first. */
  method BaseSum(f: Field, xi: seq<nat>, u: nat) returns (r: nat)
    requires FieldOk(f) && |xi| == f.m && u <= N(f) && forall i :: 0 <= i < f.m ==> xi[i] <= N(f)
    ensures r <= N(f) && r == Combo(xi, u, f.m)
  {
    hide Xor, Combo;
    r := 0;
    var v: nat := u;
    XorSelf(Combo(xi, u, f.m));
    while v != 0
      invariant v <= u && r <= N(f) && Xor(r, Combo(xi, v, f.m)) == Combo(xi, u, f.m)
      decreases v
    {
      var i := Deg(v);
      if i >= f.m {
        Pow2Mono(f.m, i);
      }
      XorBelow(r, xi[i], f.m);
      ClearTop(v, i);
      BitLead(v, i);
      ComboFlip(xi, v, i, f.m);
      BaseSwap(r, Combo(xi, Xor(v, Pow2(i)), f.m), xi[i]);
      r := Xor(r, xi[i]);
      v := Xor(v, Pow2(i));
    }
    ComboZero(xi, f.m);
    XorSelf(r);
  }

  lemma BaseSwap(r: nat, c: nat, x: nat)
    ensures Xor(r, Xor(c, x)) == Xor(Xor(r, x), c)
  {
    hide Xor;
    XorComm(c, x);
    XorAssoc(r, x, c);
  }

  lemma {:induction false} ComboZero(s: seq<nat>, n: nat)
    requires n <= |s|
    ensures Combo(s, 0, n) == 0
  {
    if n > 0 {
      ComboZero(s, n - 1);
      BitZero(n - 1);
      XorSelf(0);
    }
  }

  lemma ClearTop(v: nat, i: nat)
    requires Pow2(i) <= v < Pow2(i + 1)
    ensures Xor(v, Pow2(i)) < v
  {
    XorComm(v, Pow2(i));
    BitLead(v, i);
    forall b: nat | i <= b
      ensures !Bit(Xor(v, Pow2(i)), b)
    {
      BitXor(v, Pow2(i), b);
      BitPow2(i, b);
      if b > i {
        BitAbove(v, i + 1, b);
      }
    }
    NoBitAbove(Xor(v, Pow2(i)), i);
  }

  method FindPolyDeg2Roots(f: Field, t: Tables, xi: seq<nat>, c: seq<nat>) returns (roots: seq<nat>)
    requires Ready(f, t) && |c| == 3 && Coeffs(f, c) && c[2] != 0
    requires |xi| == f.m && forall i :: 0 <= i < f.m ==> xi[i] <= N(f)
    ensures RootLogs(f, c, roots) && (|roots| == 0 || |roots| == 2)
    ensures Deg2Base(f, xi) ==> (|roots| == 2 <==> c[0] != 0 && HasRoots(f, c, 2))
  {
    hide Ready, Primitive, Mul, Alpha, Xor, ALog, APow, GfSqr, RootLog, HasRoots, Combo, Deg2Base;
    ReadyOk(f, t);
    roots := [];
    if c[1] == 0 {
      OneSquareRoot(f, c);
    }
    if c[0] != 0 && c[1] != 0 {
      var l0, l1, l2 := ALog(f, t, c[0]), ALog(f, t, c[1]), ALog(f, t, c[2]);
      var u := APow(f, t, l0 + l2 + 2 * (N(f) - l1));
      var r := BaseSum(f, xi, u);
      Deg2Exact(f, t, xi, c, u);
      if Xor(GfSqr(f, t, r), r) == u {
        OtherRoot(f, r, u);
        var r0 := Modulo(f.m, 2 * N(f) - l1 - ALog(f, t, r) + l2);
        var r1 := Modulo(f.m, 2 * N(f) - l1 - ALog(f, t, Xor(r, 1)) + l2);
        Deg2Root(f, t, c, u, r);
        Deg2Root(f, t, c, u, Xor(r, 1));
        Deg2Distinct(f, t, c, r, Xor(r, 1));
        roots := [r0, r1];
        LogsGiveRoots(f, c, roots);
      }
    }
  }

  /** Without a linear term there is one root at most. */
  lemma OneSquareRoot(f: Field, c: seq<nat>)
    requires Primitive(f) && |c| == 3 && Coeffs(f, c) && c[2] != 0 && c[1] == 0
    ensures !HasRoots(f, c, 2)
  {
    hide Primitive, Mul, Xor, Eval;
    if HasRoots(f, c, 2) {
      var xs :| |xs| == 2 && DistinctRoots(f, c, xs);
      var x, y, c2 := xs[0], xs[1], c[2];
      SquareTerm(f, c, x);
      SquareTerm(f, c, y);
      In(f, x, x);
      In(f, y, y);
      In(f, x, y);
      MulCancel(f, c2, Sq(f, x), Sq(f, y));
      SquareXor(f, x, y);
      XorSelf(Sq(f, x));
      MulNonzero(f, Xor(x, y), Xor(x, y));
      XorZeroEqual(x, y);
    }
  }

  lemma SquareTerm(f: Field, c: seq<nat>, x: nat)
    requires Primitive(f) && |c| == 3 && Coeffs(f, c) && c[1] == 0 && x <= N(f) && Eval(f, c, x) == 0
    ensures Mul(f, c[2], Sq(f, x)) == c[0]
  {
    hide Primitive, Mul, Xor, Eval;
    EvalQuadratic(f, c, x);
    var w := Mul(f, x, c[2]);
    XorSelf(w);
    XorZeroEqual(c[0], Mul(f, x, w));
    MulComm(f, x, c[2]);
    MulSwap(f, x, c[2], x);
  }

  /** A root of the polynomial gives a solution of z^2 + z = u, so the base finds one. */
  lemma Deg2Exact(f: Field, t: Tables, xi: seq<nat>, c: seq<nat>, u: nat)
    requires Ready(f, t) && |c| == 3 && Coeffs(f, c) && c[2] != 0 && c[0] != 0 && c[1] != 0
    requires u == Alpha(f, ALog(f, t, c[0]) + ALog(f, t, c[2]) + 2 * (N(f) - ALog(f, t, c[1])))
    ensures Deg2Base(f, xi) && HasRoots(f, c, 2) ==> |xi| == f.m && Hilbert(f, Combo(xi, u, f.m)) == u
  {
    hide Ready, Primitive, Mul, Alpha, Xor, ALog, Eval, N, GfDiv, Combo, Hilbert, Deg2Base;
    ReadyOk(f, t);
    AlphaRange(f, ALog(f, t, c[0]) + ALog(f, t, c[2]) + 2 * (N(f) - ALog(f, t, c[1])));
    if Deg2Base(f, xi) && HasRoots(f, c, 2) {
      var xs :| |xs| == 2 && DistinctRoots(f, c, xs);
      var x := xs[0];
      In(f, x, c[2]);
      var z := GfDiv(f, t, Mul(f, x, c[2]), c[1]);
      MulComm(f, z, c[1]);
      Deg2Const(f, t, c, u);
      Deg2Back(f, c, u, z, x);
      BaseSolves(f, xi, u, z);
    }
  }

  lemma Deg2Back(f: Field, c: seq<nat>, u: nat, z: nat, x: nat)
    requires Primitive(f) && |c| == 3 && Coeffs(f, c) && c[1] != 0 && z <= N(f) && x <= N(f) && u <= N(f)
    requires Mul(f, x, c[2]) == Mul(f, c[1], z) && Mul(f, u, Sq(f, c[1])) == Mul(f, c[0], c[2]) && Eval(f, c, x) == 0
    ensures Hilbert(f, z) == u
  {
    hide Mul, Xor, Primitive, Eval;
    var c0, c1, c2 := c[0], c[1], c[2];
    var w, q, h := Mul(f, c1, z), Sq(f, c1), Xor(Sq(f, z), z);
    EvalQuadratic(f, c, x);
    In(f, c1, z);
    In(f, c1, c1);
    In(f, c1, w);
    In(f, z, z);
    In(f, Sq(f, z), z);
    XorZeroEqual(c0, Mul(f, x, Xor(c1, w)));
    // c2 c0 = (c1 z)(c1 + c1 z) = c1^2 (z^2 + z), and it is c1^2 u
    MulComm(f, c2, x);
    MulAssoc(f, c2, x, Xor(c1, w));
    MulXorR(f, w, c1, w);
    MulComm(f, w, c1);
    MulAssoc(f, c1, c1, z);
    SqMul(f, c1, z);
    MulXorR(f, q, Sq(f, z), z);
    XorComm(Mul(f, q, z), Mul(f, q, Sq(f, z)));
    MulComm(f, q, u);
    MulComm(f, c0, c2);
    MulNonzero(f, c1, c1);
    MulCancel(f, q, h, u);
  }

  lemma OtherRoot(f: Field, r: nat, u: nat)
    requires Primitive(f) && r <= N(f) && 1 <= u <= N(f) && Xor(Sq(f, r), r) == u
    ensures 1 <= r && 1 <= Xor(r, 1) <= N(f) && r != Xor(r, 1)
    ensures Xor(Sq(f, Xor(r, 1)), Xor(r, 1)) == u
  {
    hide Xor, Primitive;
    var s := Xor(r, 1);
    AlphaPeriod(f);
    In(f, r, 1);
    SquareXor(f, r, 1);
    MulRight1(f, 1);
    XorSwap(Sq(f, r), 1, r, 1);
    XorSelf(1);
    XorSelf(u);
    XorSelf(0);
    XorZeroEqual(r, 1);
    XorCancel(r, 1);
    XorSelf(r);
  }

  /** The root that belongs to a solution z of z^2 + z = u. */
  lemma Deg2Root(f: Field, t: Tables, c: seq<nat>, u: nat, z: nat)
    requires Ready(f, t) && |c| == 3 && Coeffs(f, c) && c[2] != 0 && c[0] != 0 && c[1] != 0
    requires u == Alpha(f, ALog(f, t, c[0]) + ALog(f, t, c[2]) + 2 * (N(f) - ALog(f, t, c[1])))
    requires 1 <= z <= N(f) && Xor(Sq(f, z), z) == u
    ensures N(f) >= 1
    ensures RootLog(f, c, (2 * N(f) - ALog(f, t, c[1]) - ALog(f, t, z) + ALog(f, t, c[2])) % N(f))
  {
    hide Ready, Primitive, Mul, Alpha, Xor, ALog, Eval, N;
    ReadyOk(f, t);
    AlphaPeriod(f);
    var r := (2 * N(f) - ALog(f, t, c[1]) - ALog(f, t, z) + ALog(f, t, c[2])) % N(f);
    var x := Alpha(f, N(f) - r);
    AlphaRange(f, N(f) - r);
    AlphaRange(f, ALog(f, t, c[0]) + ALog(f, t, c[2]) + 2 * (N(f) - ALog(f, t, c[1])));
    Deg2Link(f, t, c, z);
    Deg2Const(f, t, c, u);
    Deg2Zero(f, c, u, z, x);
  }

  /** x c2 = c1 z */
  lemma Deg2Link(f: Field, t: Tables, c: seq<nat>, z: nat)
    requires Ready(f, t) && |c| == 3 && Coeffs(f, c) && c[2] != 0 && c[1] != 0 && 1 <= z <= N(f)
    ensures N(f) >= 1
    ensures
      var r := (2 * N(f) - ALog(f, t, c[1]) - ALog(f, t, z) + ALog(f, t, c[2])) % N(f);
      Mul(f, Alpha(f, N(f) - r), c[2]) == Mul(f, c[1], z)
  {
    hide Ready, Primitive, Mul, Alpha, ALog, N;
    ReadyOk(f, t);
    AlphaPeriod(f);
    var n, l1, lz, l2 := N(f), ALog(f, t, c[1]), ALog(f, t, z), ALog(f, t, c[2]);
    var v := 2 * n - l1 - lz + l2;
    AlphaMul(f, l1, lz);
    AlphaMod(f, v);
    InverseShift(f, v, v % n, l1 + lz, l2);
  }

  lemma InverseShift(f: Field, v: nat, r: nat, k: nat, l: nat)
    requires Primitive(f) && r < N(f) && Alpha(f, r) == Alpha(f, v) && v + k == 2 * N(f) + l
    ensures Mul(f, Alpha(f, N(f) - r), Alpha(f, l)) == Alpha(f, k)
  {
    hide Primitive, Mul, Alpha, N;
    PrimitiveOk(f);
    var n := N(f);
    // both sides give Alpha(n + l) when multiplied by Alpha(r)
    AlphaMul(f, n - r, l);
    AlphaMul(f, r, n - r + l);
    AlphaMul(f, r, k);
    AlphaMul(f, v, k);
    AlphaCycle(f, n + l);
    AlphaRange(f, r);
    AlphaRange(f, n - r + l);
    AlphaRange(f, k);
    MulCancel(f, Alpha(f, r), Alpha(f, n - r + l), Alpha(f, k));
  }

  /** u c1^2 = c0 c2 */
  lemma Deg2Const(f: Field, t: Tables, c: seq<nat>, u: nat)
    requires Ready(f, t) && |c| == 3 && Coeffs(f, c) && c[2] != 0 && c[0] != 0 && c[1] != 0
    requires u == Alpha(f, ALog(f, t, c[0]) + ALog(f, t, c[2]) + 2 * (N(f) - ALog(f, t, c[1])))
    ensures Mul(f, u, Sq(f, c[1])) == Mul(f, c[0], c[2])
  {
    hide Ready, Primitive, Mul, Alpha, ALog, N;
    ReadyOk(f, t);
    var n, l0, l1, l2 := N(f), ALog(f, t, c[0]), ALog(f, t, c[1]), ALog(f, t, c[2]);
    AlphaMul(f, l1, l1);
    AlphaMul(f, l0 + l2 + 2 * (n - l1), 2 * l1);
    AlphaMul(f, l0, l2);
    AlphaCycle(f, l0 + l2 + n);
    AlphaCycle(f, l0 + l2);
  }

  lemma Deg2Zero(f: Field, c: seq<nat>, u: nat, z: nat, x: nat)
    requires Primitive(f) && |c| == 3 && Coeffs(f, c) && c[2] != 0 && z <= N(f) && x <= N(f) && u <= N(f)
    requires Mul(f, x, c[2]) == Mul(f, c[1], z) && Mul(f, u, Sq(f, c[1])) == Mul(f, c[0], c[2]) && Xor(Sq(f, z), z) == u
    ensures Eval(f, c, x) == 0
  {
    hide Mul, Xor, Primitive;
    var c0, c1, c2 := c[0], c[1], c[2];
    var w, q := Mul(f, c1, z), Sq(f, c1);
    EvalQuadratic(f, c, x);
    In(f, c1, z);
    In(f, c1, c1);
    In(f, c1, w);
    In(f, x, Xor(c1, w));
    In(f, c0, Mul(f, x, Xor(c1, w)));
    // c2 x (c1 + c1 z) = (c1 z)(c1 + c1 z) = c1^2 (z + z^2)
    MulComm(f, c2, x);
    MulAssoc(f, c2, x, Xor(c1, w));
    MulXorR(f, w, c1, w);
    MulComm(f, w, c1);
    MulAssoc(f, c1, c1, z);
    SqMul(f, c1, z);
    In(f, z, z);
    MulXorR(f, q, z, Sq(f, z));
    XorComm(z, Sq(f, z));
    MulComm(f, q, u);
    MulComm(f, c0, c2);
    MulXorR(f, c2, c0, Mul(f, x, Xor(c1, w)));
    XorSelf(Mul(f, c0, c2));
    MulNonzero(f, c2, Xor(c0, Mul(f, x, Xor(c1, w))));
  }

  lemma Deg2Distinct(f: Field, t: Tables, c: seq<nat>, y: nat, z: nat)
    requires Ready(f, t) && |c| == 3 && Coeffs(f, c) && c[2] != 0 && c[1] != 0
    requires 1 <= y <= N(f) && 1 <= z <= N(f) && y != z
    ensures N(f) >= 1
    ensures
      var n, l1, l2 := N(f), ALog(f, t, c[1]), ALog(f, t, c[2]);
      (2 * n - l1 - ALog(f, t, y) + l2) % n != (2 * n - l1 - ALog(f, t, z) + l2) % n
  {
    hide Ready, Primitive, Mul, Alpha, ALog;
    ReadyOk(f, t);
    AlphaPeriod(f);
    Deg2Link(f, t, c, y);
    Deg2Link(f, t, c, z);
    if Mul(f, c[1], y) == Mul(f, c[1], z) {
      MulCancel(f, c[1], y, z);
    }
  }
}
