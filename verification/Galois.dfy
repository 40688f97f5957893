/**
 lib/bch.c: the field GF(2^m) as the powers of X modulo a polynomial of degree m, the
 logarithm tables built for it, and the table-driven operations against multiplication
 of polynomials modulo that polynomial.
 */
module Galois {
  import opened Bits
  import opened Gf2

  datatype Field = Field(m: nat, poly: nat)

  ghost predicate HasDegree(f: Field) {
    f.m >= 1 && Pow2(f.m) <= f.poly < Pow2(f.m + 1)
  }

  /** The polynomial has degree `m` and a constant term. */
  ghost predicate FieldOk(f: Field) {
    HasDegree(f) && f.poly % 2 == 1
  }

  /** 2^m - 1, the number of non-zero elements. */
  function N(f: Field): nat {
    Pow2(f.m) - 1
  }

  /** Multiplication by X: a shift, and a reduction when bit m comes up. */
  function Step(f: Field, x: nat): nat {
    if Bit(2 * x, f.m) then Xor(2 * x, f.poly) else 2 * x
  }

  function Alpha(f: Field, i: nat): nat {
    if i == 0 then 1 else Step(f, Alpha(f, i - 1))
  }

  /** Shift-and-add multiplication with a reduction at every shift. */
  function Mul(f: Field, a: nat, b: nat): nat
    decreases b
  {
    if b == 0 then 0 else Xor(if b % 2 == 1 then a else 0, Mul(f, Step(f, a), b / 2))
  }

  // --- multiplication by X ---

  lemma StepBelow(f: Field, x: nat)
    requires HasDegree(f) && x <= N(f)
    ensures Step(f, x) <= N(f)
  {
    var y := 2 * x;
    if Bit(y, f.m) {
      forall i: nat | f.m <= i
        ensures !Bit(Xor(y, f.poly), i)
      {
        BitXor(y, f.poly, i);
        BitLead(f.poly, f.m);
        if i > f.m {
          BitAbove(y, f.m + 1, i);
          BitAbove(f.poly, f.m + 1, i);
        }
      }
      NoBitAbove(Xor(y, f.poly), f.m);
    } else if y >= Pow2(f.m) {
      BitLead(y, f.m);
    }
  }

  lemma StepXor(f: Field, x: nat, y: nat)
    ensures Step(f, Xor(x, y)) == Xor(Step(f, x), Step(f, y))
  {
    hide Xor, Bit;
    XorDouble(x, y);
    BitXor(2 * x, 2 * y, f.m);
    var p, q := Bit(2 * x, f.m), Bit(2 * y, f.m);
    var s, t := if p then f.poly else 0, if q then f.poly else 0;
    SelXor(p, q, f.poly);
    XorSelf(2 * x);
    XorSelf(2 * y);
    XorSelf(Xor(2 * x, 2 * y));
    XorSwap(2 * x, s, 2 * y, t);
  }

  lemma StepNonzero(f: Field, x: nat)
    requires FieldOk(f) && x != 0
    ensures Step(f, x) != 0
  {
    XorZeroEqual(2 * x, f.poly);
  }

  lemma StepInjective(f: Field, x: nat, y: nat)
    requires FieldOk(f) && Step(f, x) == Step(f, y)
    ensures x == y
  {
    StepXor(f, x, y);
    XorSelf(Step(f, x));
    if Xor(x, y) != 0 {
      StepNonzero(f, Xor(x, y));
    }
    XorZeroEqual(x, y);
  }

  /** The step is multiplication by X modulo the polynomial. */
  lemma StepCong(f: Field, x: nat)
    ensures Cong(f.poly, 2 * x, Step(f, x))
  {
    if Bit(2 * x, f.m) {
      CongStep(f.poly, 2 * x, 0);
    } else {
      CongSame(f.poly, 2 * x);
    }
  }

  // --- the product ---

  lemma {:induction false} MulBelow(f: Field, a: nat, b: nat)
    requires FieldOk(f) && a <= N(f)
    ensures Mul(f, a, b) <= N(f)
    decreases b
  {
    if b != 0 {
      StepBelow(f, a);
      MulBelow(f, Step(f, a), b / 2);
      XorBelow(if b % 2 == 1 then a else 0, Mul(f, Step(f, a), b / 2), f.m);
    }
  }

  /** The product is the carry-less product reduced modulo the polynomial. */
  lemma {:induction false} MulIsProduct(f: Field, a: nat, b: nat)
    requires FieldOk(f) && a <= N(f)
    ensures Mul(f, a, b) <= N(f) && Cong(f.poly, ClMul(a, b), Mul(f, a, b))
    decreases b
  {
    hide Xor, Step;
    MulBelow(f, a, b);
    if b == 0 {
      CongSame(f.poly, 0);
    } else {
      var g, s, h := f.poly, Step(f, a), b / 2;
      StepBelow(f, a);
      MulIsProduct(f, s, h);
      assert Cong(g, ClMul(2 * a, h), ClMul(s, h)) by {
        StepCong(f, a);
        CongMulLeft(g, 2 * a, s, h);
      }
      CongTrans(g, ClMul(2 * a, h), ClMul(s, h), Mul(f, s, h));
      var e := if b % 2 == 1 then a else 0;
      CongSame(g, e);
      CongXor(g, e, ClMul(2 * a, h), e, Mul(f, s, h));
    }
  }

  lemma CongMulLeft(g: nat, x: nat, y: nat, c: nat)
    requires Cong(g, x, y)
    ensures Cong(g, ClMul(x, c), ClMul(y, c))
  {
    MulXorLeft(x, y, c);
    MultipleMul(g, Xor(x, y), c);
  }

  lemma {:induction false} MultipleMul(g: nat, x: nat, c: nat)
    requires Multiple(g, x)
    ensures Multiple(g, ClMul(x, c))
    decreases c
  {
    if c == 0 {
      assert ClMul(g, 0) == 0;
    } else {
      MultipleDouble(g, x);
      MultipleMul(g, 2 * x, c / 2);
      if c % 2 == 1 {
        MultipleXor(g, x, ClMul(2 * x, c / 2));
      } else {
        XorSelf(ClMul(2 * x, c / 2));
      }
    }
  }

  lemma {:induction false} MulXorL(f: Field, a: nat, b: nat, c: nat)
    ensures Mul(f, Xor(a, b), c) == Xor(Mul(f, a, c), Mul(f, b, c))
    decreases c
  {
    if c != 0 {
      hide Xor, Step;
      StepXor(f, a, b);
      MulXorL(f, Step(f, a), Step(f, b), c / 2);
      XorSwap(if c % 2 == 1 then a else 0, Mul(f, Step(f, a), c / 2),
              if c % 2 == 1 then b else 0, Mul(f, Step(f, b), c / 2));
      XorSelf(0);
    }
  }

  lemma {:induction false} MulStep(f: Field, a: nat, b: nat)
    ensures Mul(f, Step(f, a), b) == Step(f, Mul(f, a, b))
    decreases b
  {
    if b == 0 {
      BitZero(f.m);
    } else {
      var s := Step(f, a);
      MulStep(f, s, b / 2);
      StepXor(f, if b % 2 == 1 then a else 0, Mul(f, s, b / 2));
      BitZero(f.m);
    }
  }

  lemma {:induction false} MulPow2(f: Field, j: nat, b: nat)
    requires FieldOk(f) && j < f.m && b < Pow2(f.m - j)
    ensures Mul(f, Pow2(j), b) == Shl(b, j)
    decreases b
  {
    if b == 0 {
      ShlZero(j);
    } else {
      BitPow2(j + 1, f.m);
      if b == 1 {
        assert b / 2 == 0;
        XorSelf(Pow2(j));
        ShlPow2(1, j);
      } else {
        assert j + 1 < f.m;
        MulPow2(f, j + 1, b / 2);
        var e := if b % 2 == 1 then Pow2(j) else 0;
        ShlDouble(b / 2, j);
        ShlPow2(b % 2, j);
        XorDisjoint(b, j);
      }
    }
  }

  lemma {:induction false} ShlZero(k: nat)
    ensures Shl(0, k) == 0
  {
    if k > 0 {
      ShlZero(k - 1);
    }
  }

  lemma {:induction false} ShlDouble(x: nat, k: nat)
    ensures Shl(2 * x, k) == Shl(x, k + 1)
  {
    if k > 0 {
      ShlDouble(x, k - 1);
    }
  }

  lemma XorDisjoint(b: nat, j: nat)
    ensures Xor(Shl(b % 2, j), Shl(2 * (b / 2), j)) == Shl(b, j)
  {
    XorShl(b % 2, 2 * (b / 2), j);
    if b % 2 == 1 {
      XorOne(b / 2);
    } else {
      XorSelf(b);
    }
  }

  lemma XorOne(x: nat)
    ensures Xor(1, 2 * x) == 2 * x + 1
  {
    XorHalf(1, 2 * x);
    XorSelf(x);
  }

  lemma MulOne(f: Field, b: nat)
    requires FieldOk(f) && b <= N(f)
    ensures Mul(f, 1, b) == b
  {
    MulPow2(f, 0, b);
  }

  // --- powers of X ---

  lemma {:induction false} AlphaRange(f: Field, i: nat)
    requires FieldOk(f)
    ensures 1 <= Alpha(f, i) <= N(f)
  {
    if i == 0 {
      assert Pow2(f.m) == 2 * Pow2(f.m - 1);
    } else {
      AlphaRange(f, i - 1);
      StepBelow(f, Alpha(f, i - 1));
      StepNonzero(f, Alpha(f, i - 1));
    }
  }

  lemma {:induction false} AlphaMul(f: Field, i: nat, j: nat)
    requires FieldOk(f)
    ensures Mul(f, Alpha(f, i), Alpha(f, j)) == Alpha(f, i + j)
  {
    if i == 0 {
      AlphaRange(f, j);
      MulOne(f, Alpha(f, j));
    } else {
      hide Mul, Step;
      AlphaMul(f, i - 1, j);
      MulStep(f, Alpha(f, i - 1), Alpha(f, j));
      assert Alpha(f, i + j) == Step(f, Alpha(f, i - 1 + j));
    }
  }

  /** The polynomial is primitive: no smaller power of X is 1. */
  ghost predicate Primitive(f: Field) {
    FieldOk(f) && forall i :: 0 < i < N(f) ==> Alpha(f, i) != 1
  }

  lemma PrimitiveOk(f: Field)
    requires Primitive(f)
    ensures FieldOk(f)
  {
  }

  lemma {:induction false} AlphaPeel(f: Field, i: nat, j: nat)
    requires FieldOk(f) && i <= j && Alpha(f, i) == Alpha(f, j)
    ensures Alpha(f, j - i) == 1
  {
    if i > 0 {
      StepInjective(f, Alpha(f, i - 1), Alpha(f, j - 1));
      AlphaPeel(f, i - 1, j - 1);
    }
  }

  lemma AlphaDistinct(f: Field, i: nat, j: nat)
    requires Primitive(f) && i < N(f) && j < N(f) && Alpha(f, i) == Alpha(f, j)
    ensures i == j
  {
    if i < j {
      AlphaPeel(f, i, j);
    } else if j < i {
      AlphaPeel(f, j, i);
    }
  }

  ghost function Powers(f: Field, k: nat): set<nat> {
    set i | 0 <= i < k :: Alpha(f, i)
  }

  lemma {:induction false} PowersSize(f: Field, k: nat)
    requires Primitive(f) && k <= N(f)
    ensures |Powers(f, k)| == k
  {
    if k > 0 {
      PowersSize(f, k - 1);
      forall i | 0 <= i < k - 1
        ensures Alpha(f, i) != Alpha(f, k - 1)
      {
        if Alpha(f, i) == Alpha(f, k - 1) {
          AlphaDistinct(f, i, k - 1);
        }
      }
      assert Powers(f, k) == Powers(f, k - 1) + {Alpha(f, k - 1)};
    }
  }

  ghost function UpTo(k: nat): (s: set<nat>)
    ensures |s| == k && forall x: nat :: x in s <==> 1 <= x <= k
  {
    if k == 0 then {} else UpTo(k - 1) + {k}
  }

  lemma SubsetSame(s: set<nat>, t: set<nat>)
    requires s <= t && |s| == |t|
    ensures s == t
  {
    assert t == s + (t - s);
  }

  /** The powers of X are all the non-zero elements. */
  lemma AlphaOnto(f: Field, x: nat) returns (i: nat)
    requires Primitive(f) && 1 <= x <= N(f)
    ensures i < N(f) && Alpha(f, i) == x
  {
    var s, t := Powers(f, N(f)), UpTo(N(f));
    forall i | 0 <= i < N(f)
      ensures Alpha(f, i) in t
    {
      AlphaRange(f, i);
    }
    PowersSize(f, N(f));
    SubsetSame(s, t);
    assert x in s;
    i :| 0 <= i < N(f) && Alpha(f, i) == x;
  }

  lemma AlphaPeriod(f: Field)
    requires Primitive(f)
    ensures Alpha(f, N(f)) == 1 && N(f) >= 1
  {
    assert Pow2(f.m) == 2 * Pow2(f.m - 1);
    AlphaRange(f, N(f));
    var i := AlphaOnto(f, Alpha(f, N(f)));
    AlphaPeel(f, i, N(f));
  }

  lemma {:induction false} AlphaCycle(f: Field, i: nat)
    requires Primitive(f)
    ensures Alpha(f, i + N(f)) == Alpha(f, i)
  {
    if i == 0 {
      AlphaPeriod(f);
    } else {
      AlphaCycle(f, i - 1);
    }
  }

  lemma {:induction false} AlphaMod(f: Field, i: nat)
    requires Primitive(f)
    ensures N(f) >= 1 && Alpha(f, i % N(f)) == Alpha(f, i)
  {
    hide Alpha, Primitive, N;
    AlphaPeriod(f);
    ModDown(i, N(f));
    if i >= N(f) {
      AlphaMod(f, i - N(f));
      AlphaCycle(f, i - N(f));
    }
  }

  lemma ModDown(i: nat, n: nat)
    requires n >= 1
    ensures i % n == if i < n then i else (i - n) % n
  {
    if i < n {
      ModUnique(i, n, 0, i);
    } else {
      var q, r := (i - n) / n, (i - n) % n;
      assert i == q * n + r + n == (q + 1) * n + r;
      ModUnique(i, n, q + 1, r);
    }
  }

  ghost function Log(f: Field, x: nat): (i: nat)
    requires Primitive(f) && 1 <= x <= N(f)
    ensures i < N(f) && Alpha(f, i) == x
  {
    LogExists(f, x);
    var i: nat :| i < N(f) && Alpha(f, i) == x;
    i
  }

  lemma LogExists(f: Field, x: nat)
    requires Primitive(f) && 1 <= x <= N(f)
    ensures exists i: nat :: i < N(f) && Alpha(f, i) == x
  {
    var i := AlphaOnto(f, x);
  }

  // --- the field laws ---

  lemma MulByLog(f: Field, x: nat, y: nat)
    requires Primitive(f) && 1 <= x <= N(f) && 1 <= y <= N(f)
    ensures Mul(f, x, y) == Alpha(f, Log(f, x) + Log(f, y))
    ensures 1 <= Mul(f, x, y) <= N(f)
  {
    hide Mul, Alpha, Log, N;
    AlphaMul(f, Log(f, x), Log(f, y));
    AlphaRange(f, Log(f, x) + Log(f, y));
  }

  lemma {:induction false} MulZeroL(f: Field, b: nat)
    ensures Mul(f, 0, b) == 0
    decreases b
  {
    if b != 0 {
      BitZero(f.m);
      MulZeroL(f, b / 2);
    }
  }

  lemma MulComm(f: Field, x: nat, y: nat)
    requires Primitive(f) && x <= N(f) && y <= N(f)
    ensures Mul(f, x, y) == Mul(f, y, x)
  {
    if x == 0 || y == 0 {
      MulZeroL(f, x);
      MulZeroL(f, y);
    } else {
      hide Mul, Alpha;
      MulByLog(f, x, y);
      MulByLog(f, y, x);
    }
  }

  lemma MulAssoc(f: Field, x: nat, y: nat, z: nat)
    requires Primitive(f) && x <= N(f) && y <= N(f) && z <= N(f)
    ensures Mul(f, Mul(f, x, y), z) == Mul(f, x, Mul(f, y, z))
  {
    if x == 0 || y == 0 || z == 0 {
      MulZeroL(f, y);
      MulZeroL(f, z);
      MulZeroL(f, Mul(f, y, z));
    } else {
      AlphaAssoc(f, Log(f, x), Log(f, y), Log(f, z));
    }
  }

  lemma AlphaAssoc(f: Field, i: nat, j: nat, k: nat)
    requires FieldOk(f)
    ensures
      var x, y, z := Alpha(f, i), Alpha(f, j), Alpha(f, k);
      Mul(f, Mul(f, x, y), z) == Mul(f, x, Mul(f, y, z))
  {
    hide Mul, Alpha;
    AlphaMul(f, i, j);
    AlphaMul(f, j, k);
    AlphaMul(f, i + j, k);
    AlphaMul(f, i, j + k);
    assert i + j + k == i + (j + k);
  }

  lemma MulXorR(f: Field, a: nat, b: nat, c: nat)
    requires Primitive(f) && a <= N(f) && b <= N(f) && c <= N(f)
    ensures Mul(f, a, Xor(b, c)) == Xor(Mul(f, a, b), Mul(f, a, c))
  {
    hide Mul, Xor;
    XorBelow(b, c, f.m);
    MulComm(f, a, Xor(b, c));
    MulComm(f, a, b);
    MulComm(f, a, c);
    MulXorL(f, b, c, a);
  }

  lemma MulNonzero(f: Field, x: nat, y: nat)
    requires Primitive(f) && x <= N(f) && y <= N(f)
    ensures Mul(f, x, y) == 0 <==> x == 0 || y == 0
  {
    if x != 0 && y != 0 {
      MulByLog(f, x, y);
    } else {
      MulZeroL(f, y);
    }
  }

  /** Squaring is additive. */
  lemma SquareXor(f: Field, x: nat, y: nat)
    requires Primitive(f) && x <= N(f) && y <= N(f)
    ensures var s := Xor(x, y); Mul(f, s, s) == Xor(Mul(f, x, x), Mul(f, y, y))
  {
    hide Mul, Xor;
    var s := Xor(x, y);
    XorBelow(x, y, f.m);
    MulXorL(f, x, y, s);
    MulXorR(f, x, x, y);
    MulXorR(f, y, x, y);
    MulComm(f, x, y);
    var p := Mul(f, x, y);
    XorComm(p, Mul(f, y, y));
    XorSwap(Mul(f, x, x), p, Mul(f, y, y), p);
    XorSelf(p);
    XorSelf(Xor(Mul(f, x, x), Mul(f, y, y)));
  }
}
