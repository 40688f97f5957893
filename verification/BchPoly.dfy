/**
 lib/bch.c: Euclidean division of polynomials over GF(2^m).  Coefficients are stored lowest degree
 first; the divisor is made monic by dividing by its leading coefficient.
 */
module BchPoly {
  import opened Bits
  import opened Galois
  import opened BchTables
  import opened BchEval
  import opened BchRoots

  function At(b: seq<nat>, i: int): nat {
    if 0 <= i < |b| then b[i] else 0
  }

  /** Coefficient `k` of the product of q, from its coefficient `t` on, and b. */
  function ProductFrom(f: Field, q: seq<nat>, b: seq<nat>, k: nat, t: nat): nat
    decreases |q| - t
  {
    if t >= |q| then 0 else Xor(Mul(f, q[t], At(b, k - t)), ProductFrom(f, q, b, k, t + 1))
  }

  /** Coefficient `k` of qb + r. */
  function ProductPlus(f: Field, q: seq<nat>, b: seq<nat>, r: seq<nat>, k: nat): nat {
    Xor(ProductFrom(f, q, b, k, 0), At(r, k))
  }

  /** b divided by its leading coefficient. */
  ghost predicate Monic(f: Field, b: seq<nat>, u: seq<nat>) {
    && |u| == |b| >= 1 && u[|u| - 1] == 1 && Coeffs(f, u)
    && forall i :: 0 <= i < |b| ==> Mul(f, u[i], b[|b| - 1]) == b[i]
  }

  // --- logarithms of the divisor ---

  /** gf_poly_logrep(): the logarithms of the monic coefficients below the leading one, -1 for zero. */
  ghost predicate LogRep(f: Field, u: seq<nat>, rep: seq<int>) {
    && |rep| + 1 == |u|
    && forall i :: 0 <= i < |rep| ==>
         -1 <= rep[i] < N(f) && if rep[i] < 0 then u[i] == 0 else u[i] == Alpha(f, rep[i])
  }

  method PolyLogRep(f: Field, t: Tables, b: seq<nat>) returns (rep: seq<int>, ghost u: seq<nat>)
    requires Ready(f, t) && |b| >= 1 && Coeffs(f, b) && b[|b| - 1] != 0
    ensures Monic(f, b, u) && LogRep(f, u, rep)
  {
    hide Ready, Primitive, Mul, Alpha, N, ALog, GfDiv, ModS;
    ReadyOk(f, t);
    var d := |b| - 1;
    var l := N(f) - ALog(f, t, b[d]);
    rep, u := [], [];
    var i := 0;
    while i < d
      invariant 0 <= i <= d && |rep| == |u| == i
      invariant forall k :: 0 <= k < i ==> u[k] <= N(f) && Mul(f, u[k], b[d]) == b[k]
      invariant forall k :: 0 <= k < i ==>
        -1 <= rep[k] < N(f) && if rep[k] < 0 then u[k] == 0 else u[k] == Alpha(f, rep[k])
    {
      QuotientLog(f, t, b[i], b[d]);
      u := u + [GfDiv(f, t, b[i], b[d])];
      rep := rep + [if b[i] != 0 then ModS(f, ALog(f, t, b[i]) + l) else -1];
      i := i + 1;
    }
    u := u + [1];
    AlphaPeriod(f);
    MulOne(f, b[d]);
  }

  lemma QuotientLog(f: Field, t: Tables, a: nat, b: nat)
    requires Ready(f, t) && a <= N(f) && 1 <= b <= N(f)
    ensures a == 0 ==> GfDiv(f, t, a, b) == 0
    ensures
      var k := ModS(f, ALog(f, t, a) + (N(f) - ALog(f, t, b)));
      k < N(f) && (a != 0 ==> GfDiv(f, t, a, b) == Alpha(f, k))
  {
    hide Primitive, Mul, Alpha, N, ALog;
    ModSAlpha(f, ALog(f, t, a) + (N(f) - ALog(f, t, b)));
    PowIs(f, t, ModS(f, ALog(f, t, a) + (N(f) - ALog(f, t, b))));
  }

  // --- one column ---

  /** Coefficient `k` of the multiples of the divisor taken out in the columns from `j` on;
      those columns hold the quotient. */
  function TakenOut(f: Field, c: seq<nat>, u: seq<nat>, d: nat, k: nat, j: nat): nat
    decreases |c| - j
  {
    if j >= |c| then 0 else Xor(Mul(f, c[j], At(u, k - j + d)), TakenOut(f, c, u, d, k, j + 1))
  }

  lemma {:induction false} TakenOutSame(f: Field, c: seq<nat>, c': seq<nat>, u: seq<nat>, d: nat, k: nat, j: nat)
    requires |c| == |c'| && forall i :: j <= i < |c| ==> c[i] == c'[i]
    ensures TakenOut(f, c, u, d, k, j) == TakenOut(f, c', u, d, k, j)
    decreases |c| - j
  {
    if j < |c| {
      TakenOutSame(f, c, c', u, d, k, j + 1);
    }
  }

  /** Columns from `j` on are done. */
  ghost predicate Dividing(f: Field, a: seq<nat>, c: seq<nat>, u: seq<nat>, d: nat, j: nat) {
    && |a| == |c| && d <= j <= |c| && Coeffs(f, c)
    && forall k :: 0 <= k < |a| ==> a[k] == Xor(if k < j then c[k] else 0, TakenOut(f, c, u, d, k, j))
  }

  ghost predicate ColumnDone(f: Field, c: seq<nat>, c': seq<nat>, u: seq<nat>, d: nat, j: nat) {
    && |c| == |c'| && d <= j < |c|
    && forall k :: 0 <= k < |c| ==> c'[k] == if j - d <= k < j then Xor(c[k], Mul(f, c[j], At(u, k - j + d))) else c[k]
  }

  lemma DivideColumn(f: Field, a: seq<nat>, c: seq<nat>, c': seq<nat>, u: seq<nat>, d: nat, j: nat)
    requires Primitive(f) && |u| == d + 1 && u[d] == 1 && Coeffs(f, u)
    requires Dividing(f, a, c, u, d, j + 1) && ColumnDone(f, c, c', u, d, j)
    ensures Dividing(f, a, c', u, d, j)
  {
    hide Mul, Xor, Primitive, TakenOut;
    forall k | 0 <= k < |a|
      ensures a[k] == Xor(if k < j then c'[k] else 0, TakenOut(f, c', u, d, k, j)) && c'[k] <= N(f)
    {
      DivideCoefficient(f, a, c, c', u, d, j, k);
    }
  }

  lemma TakenOutStep(f: Field, c: seq<nat>, u: seq<nat>, d: nat, k: nat, j: nat)
    requires j < |c|
    ensures TakenOut(f, c, u, d, k, j) == Xor(Mul(f, c[j], At(u, k - j + d)), TakenOut(f, c, u, d, k, j + 1))
  {
  }

  lemma DivideCoefficient(f: Field, a: seq<nat>, c: seq<nat>, c': seq<nat>, u: seq<nat>, d: nat, j: nat, k: nat)
    requires Primitive(f) && |u| == d + 1 && u[d] == 1 && Coeffs(f, u) && k < |a|
    requires Dividing(f, a, c, u, d, j + 1) && ColumnDone(f, c, c', u, d, j)
    ensures a[k] == Xor(if k < j then c'[k] else 0, TakenOut(f, c', u, d, k, j)) && c'[k] <= N(f)
  {
    hide Mul, Xor, Primitive, TakenOut;
    var s, e, rest := c[j], At(u, k - j + d), TakenOut(f, c, u, d, k, j + 1);
    TakenOutSame(f, c, c', u, d, k, j + 1);
    TakenOutStep(f, c', u, d, k, j);
    AlphaPeriod(f);
    var p := Mul(f, s, e);
    In(f, s, e);
    In(f, c[k], p);
    XorSelf(Xor(p, rest));
    XorSelf(rest);
    XorSelf(c[k]);
    if k == j {
      MulRight1(f, s);
    } else if k < j - d || k > j {
      assert e == 0;
      MulZeroR(f, s);
    } else {
      XorAssoc(c[k], p, Xor(p, rest));
      XorCancel(p, rest);
    }
  }

  // --- the procedures ---

  datatype MaybeRep = NoRep | Rep(logs: seq<int>)

  /** One column: subtracts the multiple of the divisor that belongs to coefficient `j`. */
  method PolyColumn(f: Field, t: Tables, c: array<nat>, rep: seq<int>, j: nat, ghost u: seq<nat>)
    requires Ready(f, t) && LogRep(f, u, rep) && |rep| <= j < c.Length && Coeffs(f, c[..]) && Coeffs(f, u)
    modifies c
    ensures ColumnDone(f, old(c[..]), c[..], u, |rep|, j)
  {
    hide Ready, Primitive, Mul, Alpha, N, ALog, ModS, Xor;
    ReadyOk(f, t);
    ghost var was := c[..];
    var d := |rep|;
    if c[j] != 0 {
      var la := ALog(f, t, c[j]);
      var p := j - d;
      var i := 0;
      while i < d
        invariant 0 <= i <= d && p == j - d + i
        invariant forall k :: 0 <= k < c.Length ==>
          c[k] == if j - d <= k < p then Xor(was[k], Mul(f, was[j], At(u, k - j + d))) else was[k]
      {
        var m := rep[i];
        ScaledTerm(f, t, was[j], u, rep, i);
        XorSelf(was[p]);
        if m >= 0 {
          c[p] := Xor(c[p], t.pow[ModS(f, m + la)]);
        }
        i := i + 1;
        p := p + 1;
      }
    } else {
      forall k: nat | k < |was|
        ensures Xor(was[k], Mul(f, 0, At(u, k - j + d))) == was[k]
      {
        MulZeroL(f, At(u, k - j + d));
        XorSelf(was[k]);
      }
    }
  }

  lemma ScaledTerm(f: Field, t: Tables, s: nat, u: seq<nat>, rep: seq<int>, i: nat)
    requires Ready(f, t) && 1 <= s <= N(f) && LogRep(f, u, rep) && i < |rep|
    ensures rep[i] < 0 ==> Mul(f, s, u[i]) == 0
    ensures rep[i] >= 0 ==>
      var k := ModS(f, rep[i] + ALog(f, t, s));
      k < |t.pow| && t.pow[k] == Mul(f, s, u[i])
  {
    hide Ready, Primitive, Mul, Alpha, N, ALog;
    ReadyOk(f, t);
    MulZeroR(f, s);
    if rep[i] >= 0 {
      var l := ALog(f, t, s);
      ModSAlpha(f, rep[i] + l);
      AlphaMul(f, l, rep[i]);
      PowIs(f, t, ModS(f, rep[i] + l));
    }
  }

  /** gf_poly_mod(): leaves the remainder in the low coefficients and the quotient above them. */
  method PolyMod(f: Field, t: Tables, c: array<nat>, b: seq<nat>, rep0: MaybeRep, ghost u0: seq<nat>)
      returns (deg: nat, ghost u: seq<nat>)
    requires Ready(f, t) && 2 <= |b| && 1 <= c.Length && Coeffs(f, b) && b[|b| - 1] != 0 && Coeffs(f, c[..])
    requires rep0.Rep? ==> Monic(f, b, u0) && LogRep(f, u0, rep0.logs)
    modifies c
    ensures c.Length < |b| ==> c[..] == old(c[..]) && deg == c.Length - 1
    ensures c.Length >= |b| ==>
      var d, q := |b| - 1, c[|b| - 1..];
      && Monic(f, b, u) && Coeffs(f, c[..])
      && (forall k :: 0 <= k < c.Length ==> old(c[k]) == ProductPlus(f, q, u, c[..d], k))
      && deg < d && (forall k :: deg < k < d ==> c[k] == 0) && (deg != 0 ==> c[deg] != 0)
  {
    hide Ready, Primitive, Mul, N, Xor, TakenOut, ColumnDone, Dividing, Monic, LogRep, ProductFrom;
    ReadyOk(f, t);
    var d := |b| - 1;
    if c.Length < |b| {
      return c.Length - 1, [];
    }
    var rep;
    if rep0.NoRep? {
      rep, u := PolyLogRep(f, t, b);
    } else {
      rep, u := rep0.logs, u0;
    }
    MonicFacts(f, b, u, rep);
    ghost var a := c[..];
    DivideStart(f, a, u, d);
    var j := c.Length;
    while j > d
      invariant d <= j <= c.Length && Dividing(f, a, c[..], u, d, j)
      decreases j
    {
      j := j - 1;
      ghost var was := c[..];
      DividingCoeffs(f, a, was, u, d, j + 1);
      PolyColumn(f, t, c, rep, j, u);
      DivideColumn(f, a, was, c[..], u, d, j);
    }
    DivideEnd(f, a, c[..], u, d);
    deg := d - 1;
    while c[deg] == 0 && deg != 0
      invariant deg < d && forall k :: deg < k < d ==> c[k] == 0
    {
      deg := deg - 1;
    }
  }

  lemma MonicFacts(f: Field, b: seq<nat>, u: seq<nat>, rep: seq<int>)
    requires Monic(f, b, u) && LogRep(f, u, rep)
    ensures |u| == |b| && u[|u| - 1] == 1 && Coeffs(f, u) && |rep| == |b| - 1
  {
  }

  lemma DivideStart(f: Field, a: seq<nat>, u: seq<nat>, d: nat)
    requires d <= |a| && Coeffs(f, a)
    ensures Dividing(f, a, a, u, d, |a|)
  {
    forall k | 0 <= k < |a|
      ensures Xor(a[k], 0) == a[k]
    {
      XorSelf(a[k]);
    }
  }

  lemma DividingCoeffs(f: Field, a: seq<nat>, c: seq<nat>, u: seq<nat>, d: nat, j: nat)
    requires Dividing(f, a, c, u, d, j)
    ensures Coeffs(f, c)
  {
  }

  lemma {:induction false} TakenOutProduct(f: Field, c: seq<nat>, u: seq<nat>, d: nat, k: nat, j: nat)
    requires d <= j && d <= |c|
    ensures TakenOut(f, c, u, d, k, j) == ProductFrom(f, c[d..], u, k, j - d)
    decreases |c| - j
  {
    if j < |c| {
      TakenOutProduct(f, c, u, d, k, j + 1);
    }
  }

  lemma DivideEnd(f: Field, a: seq<nat>, c: seq<nat>, u: seq<nat>, d: nat)
    requires Dividing(f, a, c, u, d, d)
    ensures Coeffs(f, c) && forall k :: 0 <= k < |a| ==> a[k] == ProductPlus(f, c[d..], u, c[..d], k)
  {
    forall k | 0 <= k < |a|
      ensures a[k] == ProductPlus(f, c[d..], u, c[..d], k)
    {
      TakenOutProduct(f, c, u, d, k, d);
      XorComm(At(c[..d], k), ProductFrom(f, c[d..], u, k, 0));
    }
  }

  /** gf_poly_div(): the quotient, 0 when the divisor has the larger degree. */
  method PolyDiv(f: Field, t: Tables, c: array<nat>, b: seq<nat>) returns (q: seq<nat>, ghost u: seq<nat>)
    requires Ready(f, t) && 2 <= |b| && Coeffs(f, b) && b[|b| - 1] != 0 && Coeffs(f, c[..])
    modifies c
    ensures c.Length < |b| ==> q == [0] && c[..] == old(c[..])
    ensures c.Length >= |b| ==>
      && Monic(f, b, u) && |q| + |b| == c.Length + 1
      && forall k :: 0 <= k < c.Length ==> old(c[k]) == ProductPlus(f, q, u, c[..|b| - 1], k)
  {
    if c.Length >= |b| {
      var deg;
      deg, u := PolyMod(f, t, c, b, NoRep, []);
      q := c[|b| - 1..];
    } else {
      q, u := [0], [];
    }
  }
}
