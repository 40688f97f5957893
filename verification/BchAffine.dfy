/** lib/bch.c: the roots of X^4 + aX^2 + bX + c, found by solving a linear system over GF(2). */
module BchAffine {
  import opened Bits
  import opened Galois
  import opened BchTables
  import opened BchSolver
  import opened BchGauss
  import opened BchTranspose

  function Sq(f: Field, x: nat): nat {
    Mul(f, x, x)
  }

  /** X^4 + aX^2 + bX, which is linear over GF(2). */
  function Linear(f: Field, a: nat, b: nat, x: nat): nat {
    Xor(Xor(Sq(f, Sq(f, x)), Mul(f, a, Sq(f, x))), Mul(f, b, x))
  }

  function Affine(f: Field, a: nat, b: nat, c: nat, x: nat): nat {
    Xor(Linear(f, a, b, x), c)
  }

  ghost function AffineRoots(f: Field, a: nat, b: nat, c: nat): set<nat> {
    set x | 0 <= x <= N(f) && Affine(f, a, b, c, x) == 0
  }

  lemma LinearBelow(f: Field, a: nat, b: nat, x: nat)
    requires Primitive(f) && a <= N(f) && b <= N(f) && x <= N(f)
    ensures Linear(f, a, b, x) <= N(f) && Sq(f, x) <= N(f)
  {
    hide Mul, Xor;
    MulBelow(f, x, x);
    MulBelow(f, Sq(f, x), Sq(f, x));
    MulBelow(f, a, Sq(f, x));
    MulBelow(f, b, x);
    XorBelow(Sq(f, Sq(f, x)), Mul(f, a, Sq(f, x)), f.m);
    XorBelow(Xor(Sq(f, Sq(f, x)), Mul(f, a, Sq(f, x))), Mul(f, b, x), f.m);
  }

  lemma LinearXor(f: Field, a: nat, b: nat, x: nat, y: nat)
    requires Primitive(f) && a <= N(f) && b <= N(f) && x <= N(f) && y <= N(f)
    ensures Linear(f, a, b, Xor(x, y)) == Xor(Linear(f, a, b, x), Linear(f, a, b, y))
  {
    hide Mul, Xor;
    var p, q := Sq(f, x), Sq(f, y);
    MulBelow(f, x, x);
    MulBelow(f, y, y);
    SquareXor(f, x, y);
    SquareXor(f, p, q);
    MulXorR(f, a, p, q);
    MulXorR(f, b, x, y);
    XorSwap(Sq(f, p), Sq(f, q), Mul(f, a, p), Mul(f, a, q));
    XorSwap(Xor(Sq(f, p), Mul(f, a, p)), Xor(Sq(f, q), Mul(f, a, q)), Mul(f, b, x), Mul(f, b, y));
  }

  lemma LinearZero(f: Field, a: nat, b: nat)
    requires Primitive(f) && a <= N(f) && b <= N(f)
    ensures Linear(f, a, b, 0) == 0
  {
    assert Mul(f, 0, 0) == 0 && Mul(f, a, 0) == 0 && Mul(f, b, 0) == 0;
  }

  // --- the matrix ---

  lemma {:induction false} AlphaPow2(f: Field, i: nat)
    requires HasDegree(f) && i < f.m
    ensures Alpha(f, i) == Pow2(i)
  {
    if i > 0 {
      AlphaPow2(f, i - 1);
      BitPow2(i, f.m);
    }
  }

  /** Row 0 is the constant, row i + 1 the value at X^i. */
  ghost function Matrix(f: Field, a: nat, b: nat, c: nat): (s: seq<nat>)
    ensures |s| == 16
  {
    seq(16, i requires 0 <= i < 16 =>
      if i == 0 then c else if i <= f.m then Linear(f, a, b, Alpha(f, i - 1)) else 0)
  }

  /** The sum of the rows selected by the first `n` bits of `z`. */
  ghost function Combo(s: seq<nat>, z: nat, n: nat): nat
    requires n <= |s|
  {
    if n == 0 then 0 else Xor(Combo(s, z, n - 1), if Bit(z, n - 1) then s[n - 1] else 0)
  }

  lemma DotComm(x: nat, y: nat)
    ensures Dot(x, y) == Dot(y, x)
  {
    forall i: nat
      ensures Bit(And(x, y), i) == Bit(And(y, x), i)
    {
      BitAnd(x, y, i);
      BitAnd(y, x, i);
    }
    SameBitsEqual(And(x, y), And(y, x));
  }

  lemma DotBit(row: nat, z: nat, n: nat)
    requires z < Pow2(n)
    ensures Dot(row, z + Pow2(n)) == (Dot(row, z) != Bit(row, n))
  {
    hide Dot, Xor;
    AddLead(n, z);
    DotComm(row, Xor(Pow2(n), z));
    DotXor(Pow2(n), z, row);
    DotPow2(n, row);
    DotComm(z, row);
  }

  /** A row of the transposed matrix, applied to `z`, is one bit of the combination of the rows. */
  lemma {:induction false} DotTransposed(s: seq<nat>, t: seq<nat>, r: nat, z: nat, n: nat)
    requires Transposed(s, t) && r < 16 && n <= 16
    ensures Dot(t[r], Trunc(z, n)) == Bit(Combo(s, z, n), r)
  {
    hide Dot, Xor, Bit;
    if n == 0 {
      DotComm(t[r], 0);
      DotConst(t[r]);
      BitZero(r);
    } else {
      DotTransposed(s, t, r, z, n - 1);
      TruncStep(z, n - 1);
      TruncBelow(z, n - 1);
      DotBit(t[r], Trunc(z, n - 1), n - 1);
      BitXor(Combo(s, z, n - 1), if Bit(z, n - 1) then s[n - 1] else 0, r);
      BitZero(r);
    }
  }

  /** The combination that 2x + 1 selects is the value of the polynomial at x. */
  lemma {:induction false} ComboAffine(f: Field, a: nat, b: nat, c: nat, x: nat, n: nat)
    requires Primitive(f) && f.m <= MAX_M && a <= N(f) && b <= N(f) && n <= f.m
    ensures Trunc(x, n) <= N(f)
    ensures Combo(Matrix(f, a, b, c), 2 * x + 1, n + 1) == Affine(f, a, b, c, Trunc(x, n))
  {
    hide Xor, Mul, Linear, Alpha, Primitive, Affine, Bit, Trunc;
    PrimitiveOk(f);
    var s, z := Matrix(f, a, b, c), 2 * x + 1;
    TruncBelow(x, n);
    Pow2Mono(n, f.m);
    if n == 0 {
      AffineZero(f, a, b, c, x);
      XorSelf(c);
      assert Combo(s, z, 1) == Xor(Combo(s, z, 0), c) == c;
    } else {
      ComboAffine(f, a, b, c, x, n - 1);
      OddBits(x, n);
      AlphaPow2(f, n - 1);
      AffineStep(f, a, b, c, x, n - 1);
    }
  }

  lemma AffineZero(f: Field, a: nat, b: nat, c: nat, x: nat)
    requires Primitive(f) && a <= N(f) && b <= N(f)
    ensures Affine(f, a, b, c, Trunc(x, 0)) == c && Bit(2 * x + 1, 0)
  {
    LinearZero(f, a, b);
    XorSelf(c);
  }

  lemma AffineStep(f: Field, a: nat, b: nat, c: nat, x: nat, n: nat)
    requires Primitive(f) && a <= N(f) && b <= N(f) && n < f.m
    ensures
      Affine(f, a, b, c, Trunc(x, n + 1))
      == Xor(Affine(f, a, b, c, Trunc(x, n)), if Bit(x, n) then Linear(f, a, b, Pow2(n)) else 0)
  {
    hide Xor, Linear, Bit, Trunc, Affine;
    var t := Trunc(x, n);
    TruncStep(x, n);
    TruncBelow(x, n);
    XorSelf(Affine(f, a, b, c, t));
    Pow2Mono(n + 1, f.m);
    AddLead(n, t);
    AffineAdd(f, a, b, c, t, Pow2(n));
    XorComm(t, Pow2(n));
  }

  lemma AffineAdd(f: Field, a: nat, b: nat, c: nat, x: nat, y: nat)
    requires Primitive(f) && a <= N(f) && b <= N(f) && x <= N(f) && y <= N(f)
    ensures Affine(f, a, b, c, Xor(x, y)) == Xor(Affine(f, a, b, c, x), Linear(f, a, b, y))
  {
    hide Xor, Linear;
    LinearXor(f, a, b, x, y);
    var u, v := Linear(f, a, b, x), Linear(f, a, b, y);
    XorAssoc(u, v, c);
    XorComm(v, c);
    XorAssoc(u, c, v);
  }

  /** Rows beyond the unknowns add nothing. */
  lemma {:induction false} ComboRest(f: Field, a: nat, b: nat, c: nat, z: nat, n: nat)
    requires f.m < n <= 16
    ensures Combo(Matrix(f, a, b, c), z, n) == Combo(Matrix(f, a, b, c), z, f.m + 1)
  {
    if n > f.m + 1 {
      ComboRest(f, a, b, c, z, n - 1);
      XorSelf(Combo(Matrix(f, a, b, c), z, n - 1));
    }
  }

  ghost predicate NoBits(y: nat, m: nat) {
    forall r: nat :: r < m ==> !Bit(y, r)
  }

  /** A number below 2^m is zero when its first m bits are. */
  lemma ZeroBits(y: nat, m: nat)
    requires y < Pow2(m)
    ensures y == 0 <==> NoBits(y, m)
  {
    if y == 0 {
      forall r: nat | r < m
        ensures !Bit(y, r)
      {
        BitZero(r);
      }
    }
    if NoBits(y, m) {
      forall r: nat
        ensures Bit(y, r) == Bit(0, r)
      {
        BitZero(r);
        if r >= m {
          BitAbove(y, m, r);
        }
      }
      SameBitsEqual(y, 0);
    }
  }

  lemma RowIsBit(f: Field, a: nat, b: nat, c: nat, t: seq<nat>, x: nat, r: nat)
    requires Primitive(f) && f.m <= MAX_M && a <= N(f) && b <= N(f) && Transposed(Matrix(f, a, b, c), t)
    requires x <= N(f) && r < f.m
    ensures Dot(t[r], 2 * x + 1) == Bit(Affine(f, a, b, c, x), r)
  {
    hide Dot, Bit, Affine, Combo, Transposed, Primitive, Matrix;
    var s, z := Matrix(f, a, b, c), 2 * x + 1;
    PrimitiveOk(f);
    Pow2Mono(f.m + 1, 16);
    TruncBelow(z, 16);
    TruncBelow(x, f.m);
    DotTransposed(s, t, r, z, 16);
    ComboRest(f, a, b, c, z, 16);
    ComboAffine(f, a, b, c, x, f.m);
    assert |t| == 16 by {
      TransposedSize(s, t);
    }
  }

  lemma TransposedSize(s: seq<nat>, t: seq<nat>)
    requires Transposed(s, t)
    ensures |t| == 16
  {
  }

  lemma RootIffSat(f: Field, a: nat, b: nat, c: nat, t: seq<nat>, x: nat)
    requires Primitive(f) && f.m <= MAX_M && a <= N(f) && b <= N(f) && c <= N(f) && x <= N(f)
    requires Transposed(Matrix(f, a, b, c), t)
    ensures AllSat(t[..f.m], x) <==> Affine(f, a, b, c, x) == 0
  {
    hide Dot, Bit, Linear, Xor, Matrix, Primitive, Transposed;
    TransposedSize(Matrix(f, a, b, c), t);
    LinearBelow(f, a, b, x);
    XorBelow(Linear(f, a, b, x), c, f.m);
    var y, rows := Affine(f, a, b, c, x), t[..f.m];
    ZeroBits(y, f.m);
    forall r: nat | r < f.m
      ensures Sat(rows[r], x) == !Bit(y, r)
    {
      RowIsBit(f, a, b, c, t, x, r);
    }
    if NoBits(y, f.m) {
      forall r | 0 <= r < |rows|
        ensures Sat(rows[r], x)
      {
        assert !Bit(y, r);
      }
    }
    if AllSat(rows, x) {
      forall r: nat | r < f.m
        ensures !Bit(y, r)
      {
        assert Sat(rows[r], x);
      }
    }
  }

  lemma SystemRoots(f: Field, a: nat, b: nat, c: nat, t: seq<nat>)
    requires Primitive(f) && f.m <= MAX_M && a <= N(f) && b <= N(f) && c <= N(f)
    requires Transposed(Matrix(f, a, b, c), t)
    ensures |t| == 16 && Solutions(f.m, t[..f.m]) == AffineRoots(f, a, b, c)
  {
    hide AllSat, Affine, Matrix, Primitive, Transposed;
    TransposedSize(Matrix(f, a, b, c), t);
    forall x: nat
      ensures x in Solutions(f.m, t[..f.m]) <==> x in AffineRoots(f, a, b, c)
    {
      if x <= N(f) {
        RootIffSat(f, a, b, c, t, x);
      }
    }
  }

  lemma MatrixBelow(f: Field, a: nat, b: nat, c: nat, i: nat)
    requires Primitive(f) && f.m <= MAX_M && a <= N(f) && b <= N(f) && c <= N(f) && i < 16
    ensures Matrix(f, a, b, c)[i] < Pow2(f.m) && Pow2(f.m) < Pow2(16)
  {
    hide Linear, Alpha, Primitive, Pow2;
    PrimitiveOk(f);
    Pow2Mono(f.m + 1, 16);
    if 0 < i <= f.m {
      AlphaRange(f, i - 1);
      LinearBelow(f, a, b, Alpha(f, i - 1));
    }
  }

  lemma TransposedBelow(f: Field, a: nat, b: nat, c: nat, t: seq<nat>, r: nat)
    requires f.m <= MAX_M && r < f.m && Transposed(Matrix(f, a, b, c), t) && t[r] < Pow2(16)
    ensures t[r] < Pow2(f.m + 1)
  {
    hide Linear, Bit, Alpha, Pow2;
    forall i: nat | f.m + 1 <= i
      ensures !Bit(t[r], i)
    {
      if i < 16 {
        BitZero(r);
        assert Bit(t[r], i) == Bit(Matrix(f, a, b, c)[i], r);
      } else {
        BitAbove(t[r], 16, i);
      }
    }
    NoBitAbove(t[r], f.m + 1);
  }

  // --- the procedure ---

  lemma RowValue(f: Field, t: Tables, a: nat, b: nat, i: nat)
    requires Ready(f, t) && 5 <= f.m <= MAX_M && a <= N(f) && b <= N(f) && i < f.m
    ensures
      var j, k := ALog(f, t, b) + i, ALog(f, t, a) + 2 * i;
      && 4 * i <= N(f) && ModS(f, j) <= N(f) && ModS(f, k) <= N(f)
      && Xor(Xor(t.pow[4 * i], if a != 0 then t.pow[ModS(f, k)] else 0), if b != 0 then t.pow[ModS(f, j)] else 0)
         == Linear(f, a, b, Alpha(f, i))
  {
    hide Mul, Alpha, Xor, N, ALog, Primitive, Ready;
    FourBelow(f);
    ReadyOk(f, t);
    AlphaMul(f, i, i);
    AlphaMul(f, 2 * i, 2 * i);
    PowIs(f, t, 4 * i);
    TermValue(f, t, a, 2 * i);
    TermValue(f, t, b, i);
  }

  lemma TermValue(f: Field, t: Tables, a: nat, i: nat)
    requires Ready(f, t) && a <= N(f) && i <= N(f)
    ensures
      var k := ModS(f, ALog(f, t, a) + i);
      k < N(f) && (if a != 0 then t.pow[k] else 0) == Mul(f, a, Alpha(f, i))
  {
    hide Mul, Alpha, N, Primitive, Ready, ALog;
    ReadyOk(f, t);
    var k := ALog(f, t, a) + i;
    ModSAlpha(f, k);
    PowIs(f, t, ModS(f, k));
    AlphaMul(f, ALog(f, t, a), i);
    MulZeroL(f, Alpha(f, i));
  }

  lemma FourBelow(f: Field)
    requires 5 <= f.m
    ensures 4 * f.m <= N(f)
  {
    Grows(f.m);
  }

  lemma {:induction false} Grows(m: nat)
    requires 5 <= m
    ensures 4 * m < Pow2(m)
  {
    if m == 5 {
      assert Pow2(5) == 32 by {
        assert Pow2(2) == 4;
      }
    } else {
      Grows(m - 1);
    }
  }

  /** find_affine4_roots(): all the roots when there are exactly four, otherwise none. */
  method FindAffine4Roots(f: Field, t: Tables, a: nat, b: nat, c: nat, roots: array<nat>) returns (n: nat)
    requires Ready(f, t) && 5 <= f.m <= MAX_M && a <= N(f) && b <= N(f) && c <= N(f) && roots.Length >= 4
    modifies roots
    ensures n == if |AffineRoots(f, a, b, c)| == 4 then 4 else 0
    ensures n == 4 ==> Lists(roots[..4], AffineRoots(f, a, b, c))
  {
    hide Mul, Linear, Alpha, AffineRoots, Xor, Solutions, Lists, Ready, Primitive, N, ALog, Pow2, Transposed, ModS;
    ReadyOk(f, t);
    var rows := new nat[16](_ => 0);
    var j, k := ALog(f, t, b), ALog(f, t, a);
    rows[0] := c;
    ghost var want := Matrix(f, a, b, c);
    var i := 0;
    while i < f.m
      invariant 0 <= i <= f.m && j == ALog(f, t, b) + i && k == ALog(f, t, a) + 2 * i
      invariant forall r :: 0 <= r < 16 ==> rows[r] == if r <= i then want[r] else 0
    {
      RowValue(f, t, a, b, i);
      var u := if a != 0 then t.pow[ModS(f, k)] else 0;
      var v := if b != 0 then t.pow[ModS(f, j)] else 0;
      rows[i + 1] := Xor(Xor(t.pow[4 * i], u), v);
      j := j + 1;
      k := k + 2;
      i := i + 1;
    }
    assert rows[..] == want;
    forall r | 0 <= r < 16
      ensures rows[r] < Pow2(16)
    {
      MatrixBelow(f, a, b, c, r);
    }
    Transpose(rows);
    SystemRoots(f, a, b, c, rows[..]);
    forall r | 0 <= r < f.m
      ensures rows[r] < Pow2(f.m + 1)
    {
      TransposedBelow(f, a, b, c, rows[..], r);
    }
    assert rows[..][..f.m] == rows[..f.m];
    n := SolveLinearSystem(f.m, rows, roots, 4);
  }
}
