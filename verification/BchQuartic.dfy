/** lib/bch.c: roots of cubics and quartics, by turning them into X^4 + aX^2 + bX + c. */
module BchQuartic {
  import opened Bits
  import opened Galois
  import opened BchTables
  import opened BchGauss
  import opened BchAffine
  import opened BchEval
  import opened BchRoots

  // --- expanding products ---

  lemma HornerStep(f: Field, y: nat, c: nat, x: nat, q: nat)
    requires Primitive(f) && y <= N(f) && c <= N(f) && x <= N(f) && q <= N(f)
    ensures Mul(f, y, Xor(c, Mul(f, x, q))) == Xor(Mul(f, y, c), Mul(f, Mul(f, y, x), q))
  {
    hide Mul, Xor, Primitive;
    In(f, x, q);
    MulXorR(f, y, c, Mul(f, x, q));
    MulAssoc(f, y, x, q);
  }

  /** c + x(b + x(a + x)), times y */
  lemma CubicTimes(f: Field, y: nat, c: nat, b: nat, a: nat, x: nat)
    requires Primitive(f) && y <= N(f) && c <= N(f) && b <= N(f) && a <= N(f) && x <= N(f)
    ensures
      var y1 := Mul(f, y, x);
      var y2 := Mul(f, y1, x);
      Mul(f, y, Eval(f, [c, b, a, 1], x))
      == Xor(Mul(f, y, c), Xor(Mul(f, y1, b), Xor(Mul(f, y2, a), Mul(f, y2, x))))
  {
    hide Mul, Xor, Primitive, Eval;
    EvalCubic(f, c, b, a, x);
    var y1 := Mul(f, y, x);
    var y2 := Mul(f, y1, x);
    In(f, y, x);
    In(f, y1, x);
    var s := Xor(a, x);
    In(f, a, x);
    In(f, x, s);
    In(f, b, Mul(f, x, s));
    HornerStep(f, y, c, x, Xor(b, Mul(f, x, s)));
    HornerStep(f, y1, b, x, s);
    MulXorR(f, y2, a, x);
  }

  lemma EvalCubic(f: Field, c: nat, b: nat, a: nat, x: nat)
    requires Primitive(f) && x <= N(f)
    ensures Eval(f, [c, b, a, 1], x) == Xor(c, Mul(f, x, Xor(b, Mul(f, x, Xor(a, x)))))
  {
    hide Mul, Xor, Primitive;
    MulRight1(f, x);
    assert [c, b, a, 1][1..] == [b, a, 1];
    EvalQuadratic(f, [b, a, 1], x);
  }

  lemma MulFour(f: Field, p: nat, q: nat, r: nat, s: nat)
    requires Primitive(f) && p <= N(f) && q <= N(f) && r <= N(f) && s <= N(f)
    ensures Mul(f, Mul(f, p, q), Mul(f, r, s)) == Mul(f, Mul(f, p, r), Mul(f, q, s))
  {
    hide Mul, Primitive;
    In(f, r, s);
    In(f, q, s);
    MulAssoc(f, p, q, Mul(f, r, s));
    MulSwap(f, q, r, s);
    MulAssoc(f, p, r, Mul(f, q, s));
  }

  // --- degree 3 ---

  lemma CubicSum(t1: nat, t2: nat, t3: nat, t4: nat, t5: nat, t6: nat, t7: nat)
    ensures Xor(Xor(t1, Xor(t2, Xor(t3, t4))), Xor(t5, Xor(t6, Xor(t7, t3))))
         == Xor(Xor(Xor(t4, Xor(t7, t2)), Xor(t6, t1)), t5)
  {
    XorEverywhere();
    hide Xor, Bit;
    SameBitsEqual(Xor(Xor(t1, Xor(t2, Xor(t3, t4))), Xor(t5, Xor(t6, Xor(t7, t3)))),
                  Xor(Xor(Xor(t4, Xor(t7, t2)), Xor(t6, t1)), t5));
  }

  /** (X + a)(X^3 + aX^2 + bX + c) = X^4 + (a^2 + b)X^2 + (ab + c)X + ac */
  lemma CubicFactor(f: Field, a: nat, b: nat, c: nat, x: nat)
    requires Primitive(f) && a <= N(f) && b <= N(f) && c <= N(f) && x <= N(f)
    ensures
      Affine(f, Xor(Sq(f, a), b), Xor(Mul(f, a, b), c), Mul(f, a, c), x)
      == Mul(f, Xor(x, a), Eval(f, [c, b, a, 1], x))
  {
    hide Mul, Xor, Primitive, Eval;
    var x2, ax := Sq(f, x), Mul(f, a, x);
    In(f, x, x);
    In(f, a, x);
    In(f, a, a);
    In(f, a, b);
    CubicTimes(f, x, c, b, a, x);
    CubicTimes(f, a, c, b, a, x);
    MulXorL(f, x, a, Eval(f, [c, b, a, 1], x));
    var t1, t2, t3 := Mul(f, x, c), Mul(f, x2, b), Mul(f, Mul(f, x2, x), a);
    var t5, t6 := Mul(f, a, c), Mul(f, ax, b);
    CubicTerms(f, a, b, c, x);
    MulXorL(f, Sq(f, a), b, x2);
    MulXorL(f, Mul(f, a, b), c, x);
    CubicSum(t1, t2, t3, Sq(f, x2), t5, t6, Mul(f, Sq(f, a), x2));
  }

  lemma CubicTerms(f: Field, a: nat, b: nat, c: nat, x: nat)
    requires Primitive(f) && a <= N(f) && b <= N(f) && c <= N(f) && x <= N(f)
    ensures
      var x2, ax := Sq(f, x), Mul(f, a, x);
      && Mul(f, Mul(f, x2, x), x) == Sq(f, x2)
      && Mul(f, Mul(f, ax, x), a) == Mul(f, Sq(f, a), x2)
      && Mul(f, Mul(f, ax, x), x) == Mul(f, Mul(f, x2, x), a)
      && Mul(f, Mul(f, a, b), x) == Mul(f, ax, b)
      && Mul(f, b, x2) == Mul(f, x2, b) && Mul(f, c, x) == Mul(f, x, c)
  {
    hide Mul, Primitive;
    var x2, ax := Sq(f, x), Mul(f, a, x);
    In(f, x, x);
    In(f, a, x);
    In(f, a, x2);
    MulAssoc(f, x2, x, x);
    MulAssoc(f, a, x, x);
    MulComm(f, Mul(f, a, x2), a);
    MulAssoc(f, a, a, x2);
    MulAssoc(f, a, x2, x);
    In(f, x2, x);
    MulComm(f, Mul(f, x2, x), a);
    MulAssoc(f, a, b, x);
    MulComm(f, b, x);
    MulAssoc(f, a, x, b);
    MulComm(f, b, x2);
    MulComm(f, c, x);
  }

  lemma CubicRoot(f: Field, c: seq<nat>, e: nat, c2: nat, b2: nat, a2: nat, x: nat)
    requires Primitive(f) && |c| == 4 && 1 <= e <= N(f) && c[3] == e
    requires c2 <= N(f) && b2 <= N(f) && a2 <= N(f) && x <= N(f) && x != a2
    requires c[0] == Mul(f, c2, e) && c[1] == Mul(f, b2, e) && c[2] == Mul(f, a2, e)
    requires Affine(f, Xor(Sq(f, a2), b2), Xor(Mul(f, a2, b2), c2), Mul(f, a2, c2), x) == 0
    ensures Eval(f, c, x) == 0
  {
    hide Mul, Xor, Primitive, Eval, Affine;
    var d := [c2, b2, a2, 1];
    MulRight1(f, e);
    MulComm(f, c2, e);
    MulComm(f, b2, e);
    MulComm(f, a2, e);
    assert Scaled(f, e, c, d);
    EvalScaled(f, e, c, d, x);
    EvalBelow(f, d, x);
    CubicFactor(f, a2, b2, c2, x);
    In(f, x, a2);
    XorZeroEqual(x, a2);
    MulNonzero(f, Xor(x, a2), Eval(f, d, x));
    MulNonzero(f, e, 0);
  }

  method FindPolyDeg3Roots(f: Field, t: Tables, c: seq<nat>) returns (roots: seq<nat>)
    requires Ready(f, t) && 5 <= f.m <= MAX_M && |c| == 4 && Coeffs(f, c) && c[3] != 0
    ensures RootLogs(f, c, roots) && (|roots| == 0 || |roots| == 3)
    ensures |roots| == 3 <==> c[0] != 0 && HasRoots(f, c, 3)
  {
    hide Mul, Alpha, Xor, Primitive, Ready, N, AIlog, GfDiv, GfMul, GfSqr, AffineRoots, RootLog, Affine, HasRoots;
    ReadyOk(f, t);
    roots := [];
    if c[0] != 0 {
      var e3 := c[3];
      var c2, b2, a2 := GfDiv(f, t, c[0], e3), GfDiv(f, t, c[1], e3), GfDiv(f, t, c[2], e3);
      var cc := GfMul(f, t, a2, c2);
      var b := Xor(GfMul(f, t, a2, b2), c2);
      var a := Xor(GfSqr(f, t, a2), b2);
      In(f, GfMul(f, t, a2, b2), c2);
      In(f, GfSqr(f, t, a2), b2);
      var tmp := new nat[4];
      var n := FindAffine4Roots(f, t, a, b, cc, tmp);
      CubicSplits(f, c, e3, c2, b2, a2);
      if n == 4 {
        var i := 0;
        ghost var from: seq<nat> := [];
        ghost var at := ExtraRoot(f, a2, b2, c2, tmp[..4]);
        while i < 4
          invariant 0 <= i <= 4 && Lists(tmp[..4], AffineRoots(f, a, b, cc))
          invariant at < 4 && tmp[at] == a2 && |roots| == if i <= at then i else i - 1
          invariant Collected(f, c, tmp[..4], i, roots, from)
        {
          ListedRoot(f, a, b, cc, tmp[..4], i);
          if tmp[i] != a2 {
            CubicRoot(f, c, e3, c2, b2, a2, tmp[i]);
            RootNotZero(f, c, tmp[i]);
            Collect(f, c, tmp[..4], i, roots, from, AIlog(f, t, tmp[i]));
            from := from + [i];
            roots := roots + [AIlog(f, t, tmp[i])];
          } else {
            CollectSkip(f, c, tmp[..4], i, roots, from);
          }
          i := i + 1;
        }
        LogsGiveRoots(f, c, roots);
      }
    }
  }

  lemma XorThree(x: nat, y: nat, z: nat)
    ensures Xor(Xor(x, y), z) == x ==> y == z
    ensures Xor(Xor(x, y), z) == y ==> x == z
    ensures Xor(Xor(x, y), z) == z ==> x == y
  {
    hide Xor;
    XorAssoc(x, y, z);
    XorCancel(x, Xor(y, z));
    XorSelf(x);
    XorZeroEqual(y, z);
    XorComm(x, y);
    XorAssoc(y, x, z);
    XorCancel(y, Xor(x, z));
    XorSelf(y);
    XorZeroEqual(x, z);
    XorCancel(z, Xor(x, y));
    XorComm(Xor(x, y), z);
    XorSelf(z);
    XorZeroEqual(x, y);
  }

  /** The sum of three roots of an affine polynomial is a root. */
  lemma FourthRoot(f: Field, a: nat, b: nat, c: nat, x: nat, y: nat, z: nat)
    requires Primitive(f) && a <= N(f) && b <= N(f) && c <= N(f) && x <= N(f) && y <= N(f) && z <= N(f)
    requires Affine(f, a, b, c, x) == 0 && Affine(f, a, b, c, y) == 0 && Affine(f, a, b, c, z) == 0
    ensures Affine(f, a, b, c, Xor(Xor(x, y), z)) == 0 && Xor(Xor(x, y), z) <= N(f)
  {
    hide Mul, Xor, Primitive, Linear;
    In(f, x, y);
    In(f, Xor(x, y), z);
    LinearXor(f, a, b, Xor(x, y), z);
    LinearXor(f, a, b, x, y);
    XorZeroEqual(Linear(f, a, b, x), c);
    XorZeroEqual(Linear(f, a, b, y), c);
    XorZeroEqual(Linear(f, a, b, z), c);
    XorSelf(c);
  }

  /** Four roots of an affine quartic are all its roots. */
  lemma FourListed(f: Field, a: nat, b: nat, c: nat, xs: seq<nat>)
    requires Primitive(f) && a <= N(f) && b <= N(f) && c <= N(f) && |xs| == 4
    requires forall i :: 0 <= i < 4 ==> xs[i] <= N(f) && Affine(f, a, b, c, xs[i]) == 0
    requires forall i, j :: 0 <= i < j < 4 ==> xs[i] != xs[j]
    ensures |AffineRoots(f, a, b, c)| == 4
  {
    hide Mul, Xor, Primitive, Affine, Eval, N;
    var p := [c, b, a, 0, 1];
    AlphaPeriod(f);
    forall x: nat | x <= N(f)
      ensures Eval(f, p, x) == Affine(f, a, b, c, x)
    {
      QuarticAffine(f, a, b, c, x);
    }
    forall x: nat | x in AffineRoots(f, a, b, c)
      ensures x in xs
    {
      if x !in xs {
        RootBound(f, p, xs + [x]);
      }
    }
    assert Lists(xs, AffineRoots(f, a, b, c)) by {
      forall x | x in xs
        ensures x in AffineRoots(f, a, b, c)
      {
        var i :| 0 <= i < 4 && xs[i] == x;
      }
    }
    ListsSize(xs, AffineRoots(f, a, b, c));
  }

  /** A cubic with three roots gives a quartic with four. */
  lemma CubicSplits(f: Field, c: seq<nat>, e: nat, c2: nat, b2: nat, a2: nat)
    requires Primitive(f) && |c| == 4 && 1 <= e <= N(f) && c[3] == e
    requires c2 <= N(f) && b2 <= N(f) && a2 <= N(f)
    requires c[0] == Mul(f, c2, e) && c[1] == Mul(f, b2, e) && c[2] == Mul(f, a2, e)
    ensures HasRoots(f, c, 3) ==> |AffineRoots(f, Xor(Sq(f, a2), b2), Xor(Mul(f, a2, b2), c2), Mul(f, a2, c2))| == 4
  {
    hide Mul, Xor, Primitive, Eval, Affine, AffineRoots, N;
    if HasRoots(f, c, 3) {
      var xs :| |xs| == 3 && DistinctRoots(f, c, xs);
      var a, b, k := Xor(Sq(f, a2), b2), Xor(Mul(f, a2, b2), c2), Mul(f, a2, c2);
      In(f, a2, a2);
      In(f, Sq(f, a2), b2);
      In(f, a2, b2);
      In(f, Mul(f, a2, b2), c2);
      In(f, a2, c2);
      forall i | 0 <= i < 3
        ensures Affine(f, a, b, k, xs[i]) == 0
      {
        CubicGives(f, c, e, c2, b2, a2, xs[i]);
      }
      FourthRoot(f, a, b, k, xs[0], xs[1], xs[2]);
      XorThree(xs[0], xs[1], xs[2]);
      FourListed(f, a, b, k, xs + [Xor(Xor(xs[0], xs[1]), xs[2])]);
    }
  }

  lemma CubicGives(f: Field, c: seq<nat>, e: nat, c2: nat, b2: nat, a2: nat, x: nat)
    requires Primitive(f) && |c| == 4 && 1 <= e <= N(f) && c[3] == e
    requires c2 <= N(f) && b2 <= N(f) && a2 <= N(f) && x <= N(f) && Eval(f, c, x) == 0
    requires c[0] == Mul(f, c2, e) && c[1] == Mul(f, b2, e) && c[2] == Mul(f, a2, e)
    ensures Affine(f, Xor(Sq(f, a2), b2), Xor(Mul(f, a2, b2), c2), Mul(f, a2, c2), x) == 0
  {
    hide Mul, Xor, Primitive, Eval, Affine;
    var d := [c2, b2, a2, 1];
    MulRight1(f, e);
    MulComm(f, c2, e);
    MulComm(f, b2, e);
    MulComm(f, a2, e);
    assert Scaled(f, e, c, d);
    EvalScaled(f, e, c, d, x);
    EvalBelow(f, d, x);
    MulNonzero(f, e, Eval(f, d, x));
    CubicFactor(f, a2, b2, c2, x);
    MulZeroR(f, Xor(x, a2));
  }

  /** The quartic always has the root that was multiplied in. */
  lemma ExtraRoot(f: Field, a: nat, b: nat, c: nat, tmp: seq<nat>) returns (at: nat)
    requires Primitive(f) && a <= N(f) && b <= N(f) && c <= N(f)
    requires Lists(tmp, AffineRoots(f, Xor(Sq(f, a), b), Xor(Mul(f, a, b), c), Mul(f, a, c)))
    ensures at < |tmp| && tmp[at] == a
  {
    hide Mul, Xor, Primitive, Affine, Eval;
    CubicFactor(f, a, b, c, a);
    XorSelf(a);
    MulZeroL(f, Eval(f, [c, b, a, 1], a));
    assert a in AffineRoots(f, Xor(Sq(f, a), b), Xor(Mul(f, a, b), c), Mul(f, a, c));
    at :| 0 <= at < |tmp| && tmp[at] == a;
  }

  /** The entries of `roots` come from different elements of `tmp` before position `n`. */
  ghost predicate Collected(f: Field, c: seq<nat>, tmp: seq<nat>, n: nat, roots: seq<nat>, from: seq<nat>) {
    && |from| == |roots| && RootLogs(f, c, roots)
    && forall k :: 0 <= k < |from| ==> from[k] < n && from[k] < |tmp| && roots[k] < N(f) && Alpha(f, N(f) - roots[k]) == tmp[from[k]]
  }

  lemma Collect(f: Field, c: seq<nat>, tmp: seq<nat>, n: nat, roots: seq<nat>, from: seq<nat>, r: nat)
    requires Collected(f, c, tmp, n, roots, from) && n < |tmp|
    requires forall i, j :: 0 <= i < j < |tmp| ==> tmp[i] != tmp[j]
    requires r < N(f) && Alpha(f, N(f) - r) == tmp[n] && Eval(f, c, tmp[n]) == 0
    ensures Collected(f, c, tmp, n + 1, roots + [r], from + [n])
  {
    hide Alpha, Eval, N;
    forall k | 0 <= k < |roots|
      ensures roots[k] != r
    {
      assert Alpha(f, N(f) - roots[k]) == tmp[from[k]] && from[k] < n;
    }
  }

  lemma CollectSkip(f: Field, c: seq<nat>, tmp: seq<nat>, n: nat, roots: seq<nat>, from: seq<nat>)
    requires Collected(f, c, tmp, n, roots, from)
    ensures Collected(f, c, tmp, n + 1, roots, from)
  {
  }

  lemma ListedRoot(f: Field, a: nat, b: nat, c: nat, tmp: seq<nat>, i: nat)
    requires Lists(tmp, AffineRoots(f, a, b, c)) && i < |tmp|
    ensures tmp[i] <= N(f) && Affine(f, a, b, c, tmp[i]) == 0
    ensures forall i, j :: 0 <= i < j < |tmp| ==> tmp[i] != tmp[j]
  {
    hide Affine;
    assert tmp[i] in AffineRoots(f, a, b, c);
  }

  /** A polynomial with a constant term does not vanish at zero. */
  lemma RootNotZero(f: Field, c: seq<nat>, x: nat)
    requires c != [] && c[0] != 0 && Eval(f, c, x) == 0
    ensures x != 0
  {
    MulZeroL(f, Eval(f, c[1..], x));
    XorSelf(c[0]);
  }

  // --- degree 4 ---

  lemma EvalQuartic(f: Field, c: seq<nat>, x: nat)
    requires Primitive(f) && |c| == 5 && c[4] == 1 && Coeffs(f, c) && x <= N(f)
    ensures
      var x2 := Sq(f, x);
      Eval(f, c, x)
      == Xor(c[0], Xor(Mul(f, x, c[1]), Xor(Mul(f, x2, c[2]), Xor(Mul(f, Mul(f, x2, x), c[3]), Sq(f, x2)))))
  {
    hide Mul, Xor, Primitive;
    var d := [c[1], c[2], c[3], 1];
    assert c[1..] == d;
    CubicTimes(f, x, c[1], c[2], c[3], x);
    CubicTerms(f, 0, 0, 0, x);
  }

  lemma QuarticSum(d: nat, zc: nat, ec: nat, zb: nat, eb: nat, z3: nat, ze: nat, z4: nat, e4: nat)
    ensures
      Xor(d, Xor(Xor(zc, ec), Xor(Xor(zb, eb), Xor(Xor(Xor(z3, ze), Xor(zc, ec)), Xor(z4, e4)))))
      == Xor(Xor(Xor(e4, eb), d), Xor(0, Xor(Xor(ze, zb), Xor(z3, z4))))
  {
    hide Xor;
    QuarticCancel(d, Xor(zc, ec), zb, eb, Xor(z3, ze), z4, e4);
    XorSelf(Xor(Xor(ze, zb), Xor(z3, z4)));
    QuarticRegroup(zb, z3, ze, z4);
  }

  lemma QuarticCancel(d: nat, x: nat, zb: nat, eb: nat, y: nat, z4: nat, e4: nat)
    ensures Xor(d, Xor(x, Xor(Xor(zb, eb), Xor(Xor(y, x), Xor(z4, e4)))))
         == Xor(Xor(Xor(e4, eb), d), Xor(zb, Xor(y, z4)))
  {
    XorEverywhere();
    hide Xor, Bit;
    SameBitsEqual(Xor(d, Xor(x, Xor(Xor(zb, eb), Xor(Xor(y, x), Xor(z4, e4))))),
                  Xor(Xor(Xor(e4, eb), d), Xor(zb, Xor(y, z4))));
  }

  lemma QuarticRegroup(zb: nat, z3: nat, ze: nat, z4: nat)
    ensures Xor(zb, Xor(Xor(z3, ze), z4)) == Xor(Xor(ze, zb), Xor(z3, z4))
  {
    XorEverywhere();
    hide Xor, Bit;
    SameBitsEqual(Xor(zb, Xor(Xor(z3, ze), z4)), Xor(Xor(ze, zb), Xor(z3, z4)));
  }

  /** X = z + e with ae^2 = c removes the linear term. */
  lemma QuarticShift(f: Field, a: nat, b: nat, c: nat, d: nat, e: nat, z: nat)
    requires Primitive(f) && a <= N(f) && b <= N(f) && c <= N(f) && d <= N(f) && e <= N(f) && z <= N(f)
    requires Mul(f, a, Sq(f, e)) == c
    ensures
      var e2 := Sq(f, e);
      Eval(f, [d, c, b, a, 1], Xor(z, e))
      == Eval(f, [Xor(Xor(Sq(f, e2), Mul(f, b, e2)), d), 0, Xor(Mul(f, a, e), b), a, 1], z)
  {
    hide Mul, Xor, Primitive, Eval;
    var z2, e2, x := Sq(f, z), Sq(f, e), Xor(z, e);
    var d', b' := Xor(Xor(Sq(f, e2), Mul(f, b, e2)), d), Xor(Mul(f, a, e), b);
    ShiftBounds(f, a, b, d, e, z);
    AlphaPeriod(f);
    EvalQuartic(f, [d, c, b, a, 1], x);
    EvalQuartic(f, [d', 0, b', a, 1], z);
    SquareXor(f, z, e);
    SquareXor(f, z2, e2);
    MulXorL(f, z, e, c);
    MulXorL(f, z2, e2, b);
    ShiftCube(f, a, e, z);
    MulXorR(f, z2, Mul(f, a, e), b);
    MulComm(f, b, e2);
    MulZeroR(f, z);
    QuarticSum(d, Mul(f, z, c), Mul(f, e, c), Mul(f, z2, b), Mul(f, e2, b), Mul(f, Mul(f, z2, z), a),
               Mul(f, z2, Mul(f, a, e)), Sq(f, z2), Sq(f, e2));
  }

  lemma ShiftBounds(f: Field, a: nat, b: nat, d: nat, e: nat, z: nat)
    requires Primitive(f) && a <= N(f) && b <= N(f) && d <= N(f) && e <= N(f) && z <= N(f)
    ensures
      var z2, e2 := Sq(f, z), Sq(f, e);
      && z2 <= N(f) && e2 <= N(f) && Xor(z, e) <= N(f) && Mul(f, a, e) <= N(f)
      && Xor(Xor(Sq(f, e2), Mul(f, b, e2)), d) <= N(f) && Xor(Mul(f, a, e), b) <= N(f)
  {
    hide Mul, Xor, Primitive;
    var e2 := Sq(f, e);
    In(f, z, z);
    In(f, e, e);
    In(f, z, e);
    In(f, a, e);
    In(f, e2, e2);
    In(f, b, e2);
    In(f, Sq(f, e2), Mul(f, b, e2));
    In(f, Xor(Sq(f, e2), Mul(f, b, e2)), d);
    In(f, Mul(f, a, e), b);
  }

  /** a(z + e)^3, when ae^2 = c */
  lemma ShiftCube(f: Field, a: nat, e: nat, z: nat)
    requires Primitive(f) && a <= N(f) && e <= N(f) && z <= N(f)
    ensures
      var z2, e2 := Sq(f, z), Sq(f, e);
      var c := Mul(f, a, e2);
      Mul(f, Mul(f, Xor(z2, e2), Xor(z, e)), a)
      == Xor(Xor(Mul(f, Mul(f, z2, z), a), Mul(f, z2, Mul(f, a, e))), Xor(Mul(f, z, c), Mul(f, e, c)))
  {
    hide Mul, Xor, Primitive;
    var z2, e2 := Sq(f, z), Sq(f, e);
    In(f, z, z);
    In(f, e, e);
    In(f, z, e);
    In(f, z2, z);
    In(f, z2, e);
    In(f, e2, z);
    In(f, e2, e);
    MulXorL(f, z2, e2, Xor(z, e));
    MulXorR(f, z2, z, e);
    MulXorR(f, e2, z, e);
    MulXorL(f, Mul(f, z2, Xor(z, e)), Mul(f, e2, Xor(z, e)), a);
    MulXorL(f, Mul(f, z2, z), Mul(f, z2, e), a);
    MulXorL(f, Mul(f, e2, z), Mul(f, e2, e), a);
    MulAssoc(f, z2, e, a);
    MulComm(f, e, a);
    CubeTerm(f, a, e2, z);
    CubeTerm(f, a, e2, e);
  }

  lemma CubeTerm(f: Field, a: nat, e2: nat, z: nat)
    requires Primitive(f) && a <= N(f) && e2 <= N(f) && z <= N(f)
    ensures Mul(f, Mul(f, e2, z), a) == Mul(f, z, Mul(f, a, e2))
  {
    hide Mul, Primitive;
    MulComm(f, e2, z);
    MulAssoc(f, z, e2, a);
    MulComm(f, e2, a);
  }

  /** Y = 1/z turns a quartic without linear term into X^4 + aX^2 + bX + c, up to the factor dz^4. */
  lemma Reciprocal(f: Field, a: nat, b: nat, d: nat, a2: nat, b2: nat, c2: nat, y: nat, z: nat)
    requires Primitive(f) && a <= N(f) && b <= N(f) && d <= N(f) && y <= N(f) && z <= N(f)
    requires a2 <= N(f) && b2 <= N(f) && c2 <= N(f)
    requires Mul(f, a2, d) == b && Mul(f, b2, d) == a && Mul(f, c2, d) == 1 && Mul(f, z, y) == 1
    ensures Eval(f, [d, 0, b, a, 1], z) == Mul(f, Mul(f, d, Sq(f, Sq(f, z))), Affine(f, a2, b2, c2, y))
  {
    hide Mul, Xor, Primitive, Eval;
    var z2, y2 := Sq(f, z), Sq(f, y);
    var z4, y4 := Sq(f, z2), Sq(f, y2);
    AlphaPeriod(f);
    RecipBounds(f, y, z, d, a2, b2);
    EvalQuartic(f, [d, 0, b, a, 1], z);
    MulZeroR(f, z);
    var w := Mul(f, d, z4);
    LinearBelow(f, a2, b2, y);
    MulXorR(f, w, Linear(f, a2, b2, y), c2);
    In(f, y4, Mul(f, a2, y2));
    MulXorR(f, w, Xor(y4, Mul(f, a2, y2)), Mul(f, b2, y));
    MulXorR(f, w, y4, Mul(f, a2, y2));
    RecipTerms(f, a, b, d, a2, b2, c2, y, z);
    RecipSum(d, Mul(f, z2, b), Mul(f, Mul(f, z2, z), a), z4);
  }

  lemma RecipSum(d: nat, zb: nat, za: nat, z4: nat)
    ensures Xor(d, Xor(0, Xor(zb, Xor(za, z4)))) == Xor(Xor(Xor(d, zb), za), z4)
  {
    hide Xor;
    XorSelf(Xor(zb, Xor(za, z4)));
    XorAssoc(d, zb, Xor(za, z4));
    XorAssoc(Xor(d, zb), za, z4);
  }

  lemma RecipBounds(f: Field, y: nat, z: nat, d: nat, a2: nat, b2: nat)
    requires Primitive(f) && y <= N(f) && z <= N(f) && d <= N(f) && a2 <= N(f) && b2 <= N(f)
    ensures
      var z2, y2 := Sq(f, z), Sq(f, y);
      && z2 <= N(f) && y2 <= N(f) && Sq(f, z2) <= N(f) && Sq(f, y2) <= N(f) && Mul(f, d, Sq(f, z2)) <= N(f)
      && Mul(f, a2, y2) <= N(f) && Mul(f, b2, y) <= N(f) && Mul(f, z2, z) <= N(f)
  {
    hide Mul, Xor, Primitive;
    In(f, z, z);
    In(f, y, y);
    In(f, Sq(f, z), Sq(f, z));
    In(f, Sq(f, y), Sq(f, y));
    In(f, d, Sq(f, Sq(f, z)));
    In(f, a2, Sq(f, y));
    In(f, b2, y);
    In(f, Sq(f, z), z);
  }

  lemma InversePowers(f: Field, y: nat, z: nat)
    requires Primitive(f) && y <= N(f) && z <= N(f) && Mul(f, z, y) == 1
    ensures
      var z2, y2 := Sq(f, z), Sq(f, y);
      var z4 := Sq(f, z2);
      Mul(f, z4, Sq(f, y2)) == 1 && Mul(f, z4, y2) == z2 && Mul(f, z4, y) == Mul(f, z2, z)
  {
    hide Mul, Primitive;
    var z2, y2 := Sq(f, z), Sq(f, y);
    RecipBounds(f, y, z, 0, 0, 0);
    SqMul(f, z, y);
    SqMul(f, z2, y2);
    MulRight1(f, 1);
    MulAssoc(f, z2, z2, y2);
    MulRight1(f, z2);
    MulAssoc(f, z, z, y);
    MulRight1(f, z);
    MulAssoc(f, z2, z2, y);
  }

  lemma RecipTerms(f: Field, a: nat, b: nat, d: nat, a2: nat, b2: nat, c2: nat, y: nat, z: nat)
    requires Primitive(f) && a <= N(f) && b <= N(f) && d <= N(f) && y <= N(f) && z <= N(f)
    requires a2 <= N(f) && b2 <= N(f) && c2 <= N(f)
    requires Mul(f, a2, d) == b && Mul(f, b2, d) == a && Mul(f, c2, d) == 1 && Mul(f, z, y) == 1
    ensures
      var z2, y2 := Sq(f, z), Sq(f, y);
      var w := Mul(f, d, Sq(f, z2));
      && Mul(f, w, Sq(f, y2)) == d && Mul(f, w, Mul(f, a2, y2)) == Mul(f, z2, b)
      && Mul(f, w, Mul(f, b2, y)) == Mul(f, Mul(f, z2, z), a) && Mul(f, w, c2) == Sq(f, z2)
  {
    hide Mul, Primitive;
    var z2, y2 := Sq(f, z), Sq(f, y);
    var z4, y4 := Sq(f, z2), Sq(f, y2);
    RecipBounds(f, y, z, d, a2, b2);
    InversePowers(f, y, z);
    MulAssoc(f, d, z4, y4);
    MulRight1(f, d);
    MulFour(f, d, z4, a2, y2);
    MulFour(f, d, z4, b2, y);
    MulComm(f, d, a2);
    MulComm(f, d, b2);
    MulComm(f, d, c2);
    MulComm(f, b, z2);
    MulComm(f, a, Mul(f, z2, z));
    MulAssoc(f, d, z4, c2);
    MulSwap(f, d, z4, c2);
    MulRight1(f, z4);
  }

  /** What the two substitutions do to a root of the transformed polynomial. */
  lemma QuarticRoot(f: Field, a: nat, b: nat, c: nat, d: nat, e: nat, a2: nat, b2: nat, c2: nat, y: nat, z: nat)
    requires Primitive(f) && a <= N(f) && b <= N(f) && c <= N(f) && d <= N(f) && e <= N(f) && y <= N(f) && z <= N(f)
    requires a2 <= N(f) && b2 <= N(f) && c2 <= N(f) && Mul(f, a, Sq(f, e)) == c
    requires
      var d', b' := Xor(Xor(Sq(f, Sq(f, e)), Mul(f, b, Sq(f, e))), d), Xor(Mul(f, a, e), b);
      Mul(f, a2, d') == b' && Mul(f, b2, d') == a && Mul(f, c2, d') == 1
    requires Mul(f, z, y) == 1 && Affine(f, a2, b2, c2, y) == 0
    ensures Eval(f, [d, c, b, a, 1], Xor(z, e)) == 0 && Xor(z, e) <= N(f)
  {
    hide Mul, Xor, Primitive, Eval, Affine;
    var d', b' := Xor(Xor(Sq(f, Sq(f, e)), Mul(f, b, Sq(f, e))), d), Xor(Mul(f, a, e), b);
    ShiftBounds(f, a, b, d, e, z);
    QuarticShift(f, a, b, c, d, e, z);
    Reciprocal(f, a, b', d', a2, b2, c2, y, z);
    MulZeroR(f, Mul(f, d', Sq(f, Sq(f, z))));
  }

  /** Without a cubic term the monic polynomial is X^4 + bX^2 + cX + d already. */
  lemma QuarticAffine(f: Field, b: nat, c: nat, d: nat, x: nat)
    requires Primitive(f) && b <= N(f) && c <= N(f) && d <= N(f) && x <= N(f)
    ensures Eval(f, [d, c, b, 0, 1], x) == Affine(f, b, c, d, x)
  {
    hide Mul, Xor, Primitive, Eval;
    AlphaPeriod(f);
    var x2 := Sq(f, x);
    In(f, x, x);
    EvalQuartic(f, [d, c, b, 0, 1], x);
    MulZeroR(f, Mul(f, x2, x));
    XorSelf(Sq(f, x2));
    MulComm(f, c, x);
    MulComm(f, b, x2);
    QuarticOrder(d, Mul(f, x, c), Mul(f, x2, b), Sq(f, x2));
  }

  lemma QuarticOrder(d: nat, xc: nat, xb: nat, x4: nat)
    ensures Xor(d, Xor(xc, Xor(xb, x4))) == Xor(Xor(Xor(x4, xb), xc), d)
  {
    XorEverywhere();
    hide Xor, Bit;
    SameBitsEqual(Xor(d, Xor(xc, Xor(xb, x4))), Xor(Xor(Xor(x4, xb), xc), d));
  }

  lemma AffineAtZero(f: Field, a: nat, b: nat, c: nat, y: nat)
    requires Primitive(f) && a <= N(f) && b <= N(f) && c != 0 && Affine(f, a, b, c, y) == 0
    ensures y != 0
  {
    LinearZero(f, a, b);
    XorSelf(c);
  }

  /** The element f has the square root e. */
  lemma SquareRoot(f: Field, t: Tables, x: nat)
    requires Ready(f, t) && 1 <= x <= N(f)
    ensures
      var l := ALog(f, t, x);
      var k := if l % 2 == 1 then l + N(f) else l;
      k % 2 == 0 && Sq(f, Alpha(f, k / 2)) == x && Alpha(f, 2 * k) == Sq(f, x)
  {
    hide Mul, Alpha, Ready, Primitive, ALog;
    ReadyOk(f, t);
    var l := ALog(f, t, x);
    var k := if l % 2 == 1 then l + N(f) else l;
    Pow2Even(f.m);
    AlphaCycle(f, l);
    AlphaMul(f, k / 2, k / 2);
    AlphaMul(f, k, k);
  }

  lemma MonicScaled(f: Field, c: seq<nat>, d: seq<nat>, x: nat)
    requires Primitive(f) && |c| == |d| == 5 && 1 <= c[4] <= N(f) && Coeffs(f, d) && d[4] == 1 && x <= N(f)
    requires forall i :: 0 <= i < 4 ==> c[i] == Mul(f, d[i], c[4])
    requires Eval(f, d, x) == 0
    ensures Eval(f, c, x) == 0
  {
    hide Mul, Primitive, Eval;
    var e := c[4];
    MulRight1(f, e);
    forall i | 0 <= i < 5
      ensures c[i] == Mul(f, e, d[i])
    {
      MulComm(f, d[i], e);
    }
    EvalScaled(f, e, c, d, x);
    MulZeroR(f, e);
  }

  /** The coefficients of the affine polynomial, and the shift `e` that leads there. */
  ghost predicate Prepared(f: Field, a: nat, b: nat, c: nat, d: nat, e: nat, a2: nat, b2: nat, c2: nat) {
    && e <= N(f) && a2 <= N(f) && b2 <= N(f) && 1 <= c2 <= N(f)
    && (a == 0 ==> e == 0 && a2 == b && b2 == c && c2 == d)
    && (a != 0 ==>
          var d', b' := Xor(Xor(Sq(f, Sq(f, e)), Mul(f, b, Sq(f, e))), d), Xor(Mul(f, a, e), b);
          Mul(f, a, Sq(f, e)) == c && Mul(f, a2, d') == b' && Mul(f, b2, d') == a && Mul(f, c2, d') == 1)
  }

  /** The shifted polynomial has a double root at zero. */
  ghost predicate Repeated(f: Field, a: nat, b: nat, c: nat, d: nat, e: nat) {
    && e <= N(f) && Mul(f, a, Sq(f, e)) == c
    && Xor(Xor(Sq(f, Sq(f, e)), Mul(f, b, Sq(f, e))), d) == 0
  }

  /** The transformations up to the affine polynomial; fails when a multiple root shows. */
  method Prepare(f: Field, t: Tables, a: nat, b: nat, c: nat, d: nat)
      returns (ok: bool, e: nat, a2: nat, b2: nat, c2: nat)
    requires Ready(f, t) && a <= N(f) && b <= N(f) && c <= N(f) && 1 <= d <= N(f)
    ensures ok ==> Prepared(f, a, b, c, d, e, a2, b2, c2)
    ensures !ok ==> Repeated(f, a, b, c, d, e)
  {
    hide Mul, Alpha, Xor, Ready, Primitive, ALog, APow, GfDiv, GfMul, GfInv;
    ReadyOk(f, t);
    ok, e, a2, b2, c2 := true, 0, b, c, d;
    if a != 0 {
      var d', b' := d, b;
      ShiftZero(f, a, b, d);
      if c != 0 {
        var q := GfDiv(f, t, c, a);
        MulZeroL(f, a);
        MulComm(f, q, a);
        var l := ALog(f, t, q);
        l := l + if l % 2 == 1 then N(f) else 0;
        SquareRoot(f, t, q);
        e := APow(f, t, l / 2);
        d' := Xor(Xor(APow(f, t, 2 * l), GfMul(f, t, b, q)), d);
        b' := Xor(GfMul(f, t, a, e), b);
      }
      ShiftBounds(f, a, b, d, e, 0);
      if d' == 0 {
        return false, e, 0, 0, 0;
      }
      c2 := GfInv(f, t, d');
      b2 := GfDiv(f, t, a, d');
      a2 := GfDiv(f, t, b', d');
    }
  }

  lemma ShiftZero(f: Field, a: nat, b: nat, d: nat)
    ensures
      var z := Sq(f, 0);
      Mul(f, a, z) == 0 && Xor(Xor(Sq(f, z), Mul(f, b, z)), d) == d && Xor(Mul(f, a, 0), b) == b
  {
    MulZeroR(f, 0);
    MulZeroR(f, a);
    MulZeroR(f, b);
    XorSelf(d);
    XorSelf(b);
  }

  lemma PreparedMonic(f: Field, a: nat, b: nat, k: nat, d: nat, e: nat, a2: nat, b2: nat, c2: nat, y: nat, z: nat)
    requires Primitive(f) && a <= N(f) && b <= N(f) && k <= N(f) && d <= N(f) && y <= N(f) && z <= N(f)
    requires Prepared(f, a, b, k, d, e, a2, b2, c2) && Affine(f, a2, b2, c2, y) == 0
    requires if a != 0 then Mul(f, z, y) == 1 else z == y
    ensures Eval(f, [d, k, b, a, 1], Xor(z, e)) == 0 && Xor(z, e) <= N(f)
  {
    hide Mul, Xor, Primitive, Eval, Affine, N;
    if a != 0 {
      QuarticRoot(f, a, b, k, d, e, a2, b2, c2, y, z);
    } else {
      QuarticAffine(f, b, k, d, y);
      XorSelf(y);
    }
  }

  /** The root of the original polynomial that a root of the affine one gives. */
  lemma QuarticScaled(f: Field, c: seq<nat>, a: nat, b: nat, k: nat, d: nat, x: nat)
    requires Primitive(f) && |c| == 5 && 1 <= c[4] <= N(f) && x <= N(f)
    requires a <= N(f) && b <= N(f) && k <= N(f) && d <= N(f)
    requires c[0] == Mul(f, d, c[4]) && c[1] == Mul(f, k, c[4]) && c[2] == Mul(f, b, c[4]) && c[3] == Mul(f, a, c[4])
    requires Eval(f, [d, k, b, a, 1], x) == 0
    ensures Eval(f, c, x) == 0
  {
    hide Mul, Primitive, Eval, N;
    AlphaPeriod(f);
    MonicScaled(f, c, [d, k, b, a, 1], x);
  }

  lemma PreparedRoot(f: Field, c: seq<nat>, a: nat, b: nat, k: nat, d: nat, e: nat, a2: nat, b2: nat, c2: nat, y: nat, z: nat)
    requires Primitive(f) && |c| == 5 && Coeffs(f, c) && c[0] != 0 && c[4] != 0
    requires a <= N(f) && b <= N(f) && k <= N(f) && d <= N(f) && y <= N(f) && z <= N(f)
    requires c[0] == Mul(f, d, c[4]) && c[1] == Mul(f, k, c[4]) && c[2] == Mul(f, b, c[4]) && c[3] == Mul(f, a, c[4])
    requires Prepared(f, a, b, k, d, e, a2, b2, c2) && Affine(f, a2, b2, c2, y) == 0
    requires if a != 0 then Mul(f, z, y) == 1 else z == y
    ensures Eval(f, c, Xor(z, e)) == 0 && 1 <= Xor(z, e) <= N(f)
  {
    hide Mul, Xor, Primitive, Eval, Affine, Prepared, N;
    PreparedMonic(f, a, b, k, d, e, a2, b2, c2, y, z);
    QuarticScaled(f, c, a, b, k, d, Xor(z, e));
    RootNotZero(f, c, Xor(z, e));
  }

  method FindPolyDeg4Roots(f: Field, t: Tables, c: seq<nat>) returns (roots: seq<nat>)
    requires Ready(f, t) && 5 <= f.m <= MAX_M && |c| == 5 && Coeffs(f, c) && c[4] != 0
    ensures RootLogs(f, c, roots) && (|roots| == 0 || |roots| == 4)
    ensures |roots| == 4 <==> c[0] != 0 && HasRoots(f, c, 4)
  {
    hide Mul, Alpha, Xor, Primitive, Ready, N, AIlog, GfDiv, GfInv, AffineRoots, RootLogs, Affine, Eval, Prepared, HasRoots, Repeated;
    ReadyOk(f, t);
    roots := [];
    NoRoots(f, c);
    if c[0] == 0 {
      return;
    }
    var e4 := c[4];
    var d, k, b, a := GfDiv(f, t, c[0], e4), GfDiv(f, t, c[1], e4), GfDiv(f, t, c[2], e4), GfDiv(f, t, c[3], e4);
    MulZeroL(f, e4);
    var ok, e, a2, b2, c2 := Prepare(f, t, a, b, k, d);
    if !ok {
      RepeatedShort(f, c, a, b, k, d, e);
      return;
    }
    PreparedBounds(f, a, b, k, d, e, a2, b2, c2);
    PreparedSplits(f, c, a, b, k, d, e, a2, b2, c2);
    var tmp := new nat[4];
    var n := FindAffine4Roots(f, t, a2, b2, c2, tmp);
    if n == 4 {
      ghost var ys := tmp[..4];
      ghost var zs: seq<nat> := [];
      var i := 0;
      while i < 4
        invariant 0 <= i <= 4 == |ys| && tmp[..4] == ys && |roots| == |zs| == i
        invariant forall j :: 0 <= j < i ==> Inverted(f, a, ys[j], zs[j]) && FoundRoot(f, c, e, zs[j], roots[j])
      {
        ListedRoot(f, a2, b2, c2, ys, i);
        AffineAtZero(f, a2, b2, c2, ys[i]);
        var z := if a != 0 then GfInv(f, t, tmp[i]) else tmp[i];
        PreparedRoot(f, c, a, b, k, d, e, a2, b2, c2, ys[i], z);
        zs := zs + [z];
        roots := roots + [AIlog(f, t, Xor(z, e))];
        i := i + 1;
      }
      ListedRoot(f, a2, b2, c2, ys, 0);
      FourRoots(f, c, a, e, ys, zs, roots);
      LogsGiveRoots(f, c, roots);
    }
  }

  lemma MonicGives(f: Field, c: seq<nat>, a: nat, b: nat, k: nat, d: nat, x: nat)
    requires Primitive(f) && |c| == 5 && 1 <= c[4] <= N(f) && x <= N(f) && Eval(f, c, x) == 0
    requires a <= N(f) && b <= N(f) && k <= N(f) && d <= N(f)
    requires c[0] == Mul(f, d, c[4]) && c[1] == Mul(f, k, c[4]) && c[2] == Mul(f, b, c[4]) && c[3] == Mul(f, a, c[4])
    ensures Eval(f, [d, k, b, a, 1], x) == 0
  {
    hide Mul, Primitive, Eval;
    var e, m := c[4], [d, k, b, a, 1];
    MulRight1(f, e);
    MulComm(f, d, e);
    MulComm(f, k, e);
    MulComm(f, b, e);
    MulComm(f, a, e);
    assert Scaled(f, e, c, m);
    EvalScaled(f, e, c, m, x);
    EvalBelow(f, m, x);
    MulNonzero(f, e, Eval(f, m, x));
  }

  /** The shifted polynomial has the shifted roots. */
  lemma ShiftGives(f: Field, c: seq<nat>, a: nat, b: nat, k: nat, d: nat, e: nat, x: nat)
    requires Primitive(f) && |c| == 5 && 1 <= c[4] <= N(f) && x <= N(f) && Eval(f, c, x) == 0
    requires a <= N(f) && b <= N(f) && k <= N(f) && d <= N(f) && e <= N(f) && Mul(f, a, Sq(f, e)) == k
    requires c[0] == Mul(f, d, c[4]) && c[1] == Mul(f, k, c[4]) && c[2] == Mul(f, b, c[4]) && c[3] == Mul(f, a, c[4])
    ensures
      var d', b' := Xor(Xor(Sq(f, Sq(f, e)), Mul(f, b, Sq(f, e))), d), Xor(Mul(f, a, e), b);
      Eval(f, [d', 0, b', a, 1], Xor(x, e)) == 0
  {
    hide Mul, Xor, Primitive, Eval;
    MonicGives(f, c, a, b, k, d, x);
    In(f, x, e);
    QuarticShift(f, a, b, k, d, e, Xor(x, e));
    XorCancel(e, x);
  }

  ghost function Shifted(xs: seq<nat>, e: nat): (zs: seq<nat>)
    ensures |zs| == |xs| && forall i :: 0 <= i < |xs| ==> zs[i] == Xor(xs[i], e)
  {
    seq(|xs|, i requires 0 <= i < |xs| => Xor(xs[i], e))
  }

  lemma ShiftedRoots(f: Field, c: seq<nat>, a: nat, b: nat, k: nat, d: nat, e: nat, xs: seq<nat>)
    requires Primitive(f) && |c| == 5 && 1 <= c[4] <= N(f) && DistinctRoots(f, c, xs)
    requires a <= N(f) && b <= N(f) && k <= N(f) && d <= N(f) && e <= N(f) && Mul(f, a, Sq(f, e)) == k
    requires c[0] == Mul(f, d, c[4]) && c[1] == Mul(f, k, c[4]) && c[2] == Mul(f, b, c[4]) && c[3] == Mul(f, a, c[4])
    ensures
      var d', b' := Xor(Xor(Sq(f, Sq(f, e)), Mul(f, b, Sq(f, e))), d), Xor(Mul(f, a, e), b);
      DistinctRoots(f, [d', 0, b', a, 1], Shifted(xs, e))
  {
    hide Mul, Xor, Primitive, Eval, Shifted;
    var zs := Shifted(xs, e);
    var p := [Xor(Xor(Sq(f, Sq(f, e)), Mul(f, b, Sq(f, e))), d), 0, Xor(Mul(f, a, e), b), a, 1];
    forall i | 0 <= i < |xs|
      ensures Xor(zs[i], e) == xs[i] && zs[i] <= N(f) && Eval(f, p, zs[i]) == 0
    {
      ShiftGives(f, c, a, b, k, d, e, xs[i]);
      In(f, xs[i], e);
      XorCancel(e, xs[i]);
    }
  }

  lemma EvalDouble(f: Field, b: nat, a: nat, z: nat)
    requires Primitive(f) && b <= N(f) && a <= N(f) && 1 <= z <= N(f) && Eval(f, [0, 0, b, a, 1], z) == 0
    ensures Eval(f, [b, a, 1], z) == 0
  {
    hide Mul, Xor, Primitive, Eval;
    var p := [b, a, 1];
    AlphaPeriod(f);
    EvalBelow(f, p, z);
    EvalCons(f, 0, p, z);
    EvalCons(f, 0, [0] + p, z);
    assert [0] + p == [0, b, a, 1] && [0] + ([0] + p) == [0, 0, b, a, 1];
    XorSelf(Mul(f, z, Eval(f, p, z)));
    XorSelf(Mul(f, z, Eval(f, [0] + p, z)));
    In(f, z, Eval(f, p, z));
    MulNonzero(f, z, Eval(f, [0] + p, z));
    MulNonzero(f, z, Eval(f, p, z));
  }

  /** With a double root there are fewer than four roots. */
  lemma RepeatedShort(f: Field, c: seq<nat>, a: nat, b: nat, k: nat, d: nat, e: nat)
    requires Primitive(f) && |c| == 5 && 1 <= c[4] <= N(f) && Repeated(f, a, b, k, d, e)
    requires a <= N(f) && b <= N(f) && k <= N(f) && d <= N(f)
    requires c[0] == Mul(f, d, c[4]) && c[1] == Mul(f, k, c[4]) && c[2] == Mul(f, b, c[4]) && c[3] == Mul(f, a, c[4])
    ensures !HasRoots(f, c, 4)
  {
    hide Mul, Xor, Primitive, Eval, Shifted;
    if HasRoots(f, c, 4) {
      var xs :| |xs| == 4 && DistinctRoots(f, c, xs);
      var zs := Shifted(xs, e);
      ShiftedRoots(f, c, a, b, k, d, e, xs);
      ShiftBounds(f, a, b, d, e, 0);
      ThreeLeft(f, Xor(Mul(f, a, e), b), a, zs);
    }
  }

  lemma ThreeLeft(f: Field, b: nat, a: nat, zs: seq<nat>)
    requires Primitive(f) && b <= N(f) && a <= N(f) && DistinctRoots(f, [0, 0, b, a, 1], zs)
    ensures |zs| < 4
  {
    hide Primitive, Eval;
    if |zs| >= 4 {
      var at := if zs[0] == 0 then 0 else if zs[1] == 0 then 1 else if zs[2] == 0 then 2 else 3;
      var ws := (zs[..at] + zs[at + 1..])[..3];
      forall i | 0 <= i < 3
        ensures ws[i] <= N(f) && Eval(f, [b, a, 1], ws[i]) == 0
      {
        var k := if i < at then i else i + 1;
        assert ws[i] == zs[k] && zs[k] != 0;
        EvalDouble(f, b, a, ws[i]);
      }
      forall i, j | 0 <= i < j < 3
        ensures ws[i] != ws[j]
      {
        assert ws[i] == zs[if i < at then i else i + 1] && ws[j] == zs[if j < at then j else j + 1];
      }
      AlphaPeriod(f);
      RootBound(f, [b, a, 1], ws);
    }
  }

  ghost function Inverse(f: Field, z: nat): (y: nat)
    requires Primitive(f) && 1 <= z <= N(f)
    ensures y <= N(f) && Mul(f, z, y) == 1
  {
    var l := Log(f, z);
    RootLogInverse(f, l);
    AlphaRange(f, N(f) - l);
    Alpha(f, N(f) - l)
  }

  /** The reciprocals of the shifted roots solve the affine polynomial. */
  lemma InverseRoot(f: Field, a: nat, b: nat, k: nat, d: nat, e: nat, a2: nat, b2: nat, c2: nat, z: nat)
    requires Primitive(f) && a <= N(f) && b <= N(f) && k <= N(f) && d <= N(f) && z <= N(f)
    requires a != 0 && Prepared(f, a, b, k, d, e, a2, b2, c2)
    requires
      var d', b' := Xor(Xor(Sq(f, Sq(f, e)), Mul(f, b, Sq(f, e))), d), Xor(Mul(f, a, e), b);
      Eval(f, [d', 0, b', a, 1], z) == 0
    ensures z != 0 && Affine(f, a2, b2, c2, Inverse(f, z)) == 0
  {
    hide Mul, Xor, Primitive, Eval, Affine, Inverse;
    var d', b' := Xor(Xor(Sq(f, Sq(f, e)), Mul(f, b, Sq(f, e))), d), Xor(Mul(f, a, e), b);
    ShiftBounds(f, a, b, d, e, z);
    MulZeroR(f, c2);
    RootNotZero(f, [d', 0, b', a, 1], z);
    var y := Inverse(f, z);
    Reciprocal(f, a, b', d', a2, b2, c2, y, z);
    MulNonzero(f, z, z);
    In(f, Sq(f, z), Sq(f, z));
    MulNonzero(f, Sq(f, z), Sq(f, z));
    MulNonzero(f, d', Sq(f, Sq(f, z)));
    AffineBelow(f, a2, b2, c2, y);
    In(f, d', Sq(f, Sq(f, z)));
    MulNonzero(f, Mul(f, d', Sq(f, Sq(f, z))), Affine(f, a2, b2, c2, y));
  }

  lemma AffineBelow(f: Field, a: nat, b: nat, c: nat, y: nat)
    requires Primitive(f) && a <= N(f) && b <= N(f) && c <= N(f) && y <= N(f)
    ensures Affine(f, a, b, c, y) <= N(f)
  {
    hide Linear, Xor, Primitive;
    LinearBelow(f, a, b, y);
    In(f, Linear(f, a, b, y), c);
  }

  /** A quartic with four roots gives an affine one with four. */
  lemma PreparedSplits(f: Field, c: seq<nat>, a: nat, b: nat, k: nat, d: nat, e: nat, a2: nat, b2: nat, c2: nat)
    requires Primitive(f) && |c| == 5 && 1 <= c[4] <= N(f) && Prepared(f, a, b, k, d, e, a2, b2, c2)
    requires a <= N(f) && b <= N(f) && k <= N(f) && d <= N(f)
    requires c[0] == Mul(f, d, c[4]) && c[1] == Mul(f, k, c[4]) && c[2] == Mul(f, b, c[4]) && c[3] == Mul(f, a, c[4])
    ensures HasRoots(f, c, 4) ==> |AffineRoots(f, a2, b2, c2)| == 4
  {
    hide Mul, Xor, Primitive, Eval, Affine, AffineRoots, Inverse, Shifted;
    if HasRoots(f, c, 4) {
      var xs :| |xs| == 4 && DistinctRoots(f, c, xs);
      if a == 0 {
        forall i | 0 <= i < 4
          ensures Affine(f, a2, b2, c2, xs[i]) == 0
        {
          MonicGives(f, c, a, b, k, d, xs[i]);
          QuarticAffine(f, b, k, d, xs[i]);
        }
        FourListed(f, a2, b2, c2, xs);
      } else {
        ShiftedRoots(f, c, a, b, k, d, e, xs);
        InverseRoots(f, a, b, k, d, e, a2, b2, c2, Shifted(xs, e));
      }
    }
  }

  lemma InverseRoots(f: Field, a: nat, b: nat, k: nat, d: nat, e: nat, a2: nat, b2: nat, c2: nat, zs: seq<nat>)
    requires Primitive(f) && a <= N(f) && b <= N(f) && k <= N(f) && d <= N(f)
    requires a != 0 && Prepared(f, a, b, k, d, e, a2, b2, c2) && |zs| == 4
    requires
      var d', b' := Xor(Xor(Sq(f, Sq(f, e)), Mul(f, b, Sq(f, e))), d), Xor(Mul(f, a, e), b);
      DistinctRoots(f, [d', 0, b', a, 1], zs)
    ensures |AffineRoots(f, a2, b2, c2)| == 4
  {
    hide Mul, Xor, Primitive, Eval, Affine, AffineRoots, Inverse;
    PreparedBounds(f, a, b, k, d, e, a2, b2, c2);
    forall i | 0 <= i < 4
      ensures 1 <= zs[i] <= N(f) && Affine(f, a2, b2, c2, Inverse(f, zs[i])) == 0
    {
      InverseRoot(f, a, b, k, d, e, a2, b2, c2, zs[i]);
    }
    var ys := [Inverse(f, zs[0]), Inverse(f, zs[1]), Inverse(f, zs[2]), Inverse(f, zs[3])];
    forall i, j | 0 <= i < j < 4
      ensures ys[i] != ys[j]
    {
      InverseDistinct(f, zs[i], zs[j]);
    }
    FourListed(f, a2, b2, c2, ys);
  }

  lemma InverseDistinct(f: Field, y: nat, z: nat)
    requires Primitive(f) && 1 <= y <= N(f) && 1 <= z <= N(f) && y != z
    ensures Inverse(f, y) != Inverse(f, z)
  {
    hide Mul, Primitive, Inverse;
    var w := Inverse(f, y);
    if w == Inverse(f, z) {
      MulZeroR(f, y);
      MulComm(f, y, w);
      MulComm(f, z, w);
      MulCancel(f, w, y, z);
    }
  }

  lemma NoRoots(f: Field, c: seq<nat>)
    ensures RootLogs(f, c, [])
  {
  }

  lemma PreparedBounds(f: Field, a: nat, b: nat, c: nat, d: nat, e: nat, a2: nat, b2: nat, c2: nat)
    requires Prepared(f, a, b, c, d, e, a2, b2, c2)
    ensures e <= N(f) && a2 <= N(f) && b2 <= N(f) && 1 <= c2 <= N(f)
  {
  }

  ghost predicate Inverted(f: Field, a: nat, y: nat, z: nat) {
    y <= N(f) && 1 <= z <= N(f) && if a != 0 then Mul(f, z, y) == 1 else z == y
  }

  ghost predicate FoundRoot(f: Field, c: seq<nat>, e: nat, z: nat, r: nat) {
    r < N(f) && Alpha(f, N(f) - r) == Xor(z, e) && Eval(f, c, Xor(z, e)) == 0
  }

  lemma FourRoots(f: Field, c: seq<nat>, a: nat, e: nat, ys: seq<nat>, zs: seq<nat>, roots: seq<nat>)
    requires Primitive(f) && |ys| == |zs| == |roots|
    requires forall i, j :: 0 <= i < j < |ys| ==> ys[i] != ys[j]
    requires forall j :: 0 <= j < |ys| ==> Inverted(f, a, ys[j], zs[j]) && FoundRoot(f, c, e, zs[j], roots[j])
    ensures RootLogs(f, c, roots)
  {
    hide Mul, Alpha, Xor, Primitive, N, Eval;
    forall i, j | 0 <= i < j < |roots|
      ensures roots[i] != roots[j]
    {
      if roots[i] == roots[j] {
        XorCancel(e, zs[i]);
        XorCancel(e, zs[j]);
        if a != 0 {
          MulCancel(f, zs[i], ys[i], ys[j]);
        }
      }
    }
    forall i | 0 <= i < |roots|
      ensures RootLog(f, c, roots[i])
    {
      assert FoundRoot(f, c, e, zs[i], roots[i]);
    }
  }
}
