/** lib/bch.c: the table for solving z^2 + z = u. */
module BchDeg2 {
  import opened Bits
  import opened Galois
  import opened BchTables
  import opened BchSolver
  import opened BchAffine
  import opened BchEval
  import opened BchTrace

  /** Entry i solves z^2 + z = X^i, or is off by `ak`, which itself is no z^2 + z. */
  ghost predicate BaseFor(f: Field, xi: seq<nat>, ak: nat) {
    && |xi| == f.m && ak <= N(f)
    && (forall r: nat :: r <= N(f) ==> Hilbert(f, r) != ak)
    && (forall i :: 0 <= i < f.m ==> xi[i] <= N(f) && OffBy(f, xi[i], Pow2(i), ak))
  }

  ghost predicate OffBy(f: Field, x: nat, u: nat, ak: nat) {
    Hilbert(f, x) == u || Hilbert(f, x) == Xor(u, ak)
  }

  ghost predicate Deg2Base(f: Field, xi: seq<nat>) {
    exists ak: nat :: BaseFor(f, xi, ak)
  }

  /** Every power of X is x^2 + x, or is when `ak` is added. */
  lemma Covered(f: Field, r: nat, ak: nat) returns (x: nat)
    requires Primitive(f) && r < f.m && ak <= N(f) && Trace(f, ak, f.m) != 0
    ensures x <= N(f) && OffBy(f, x, Pow2(r), ak)
  {
    hide Mul, Xor, Primitive, Frob, Trace, Hilbert, Solution;
    var u := Pow2(r);
    Pow2Mono(r + 1, f.m);
    TraceBit(f, u);
    TraceBit(f, ak);
    if Trace(f, u, f.m) == 0 {
      Solvable(f, u, ak);
      x := Solution(f, u, ak, f.m);
    } else {
      var v := Xor(u, ak);
      In(f, u, ak);
      TraceXor(f, u, ak, f.m);
      XorSelf(1);
      Solvable(f, v, ak);
      x := Solution(f, v, ak, f.m);
    }
  }

  // --- build_deg2_base() ---

  method TraceOf(f: Field, t: Tables, i: nat) returns (sum: nat)
    requires Ready(f, t)
    ensures sum == Trace(f, Alpha(f, i), f.m)
  {
    hide Ready, Primitive, Alpha, APow, Xor, Frob;
    ReadyOk(f, t);
    sum := 0;
    for j := 0 to f.m
      invariant sum == Trace(f, Alpha(f, i), j)
    {
      FrobAlpha(f, i, j);
      sum := Xor(sum, APow(f, t, i * Pow2(j)));
    }
  }

  /** One of the first m powers of X has trace other than zero. */
  method FindTraceOne(f: Field, t: Tables) returns (ak: nat, ghost k: nat)
    requires Ready(f, t)
    ensures k < f.m && ak == Pow2(k) <= N(f) && Trace(f, ak, f.m) != 0
  {
    hide Ready, Primitive, Alpha, Trace;
    ReadyOk(f, t);
    MBelow(f.m);
    ak, k := 0, 0;
    var i, found := 0, false;
    while i < f.m && !found
      invariant i <= f.m
      invariant !found ==> forall j: nat :: j < i ==> Trace(f, Alpha(f, j), f.m) == 0
      invariant found ==> k < f.m && ak == Alpha(f, k) && Trace(f, ak, f.m) != 0
      decreases f.m - i, !found
    {
      var sum := TraceOf(f, t, i);
      if sum != 0 {
        PowIs(f, t, i);
        ak, k, found := t.pow[i], i, true;
      } else {
        i := i + 1;
      }
    }
    TraceOfPower(f);
    assert found;
    AlphaRange(f, k);
    AlphaPow2(f, k);
  }

  lemma {:induction false} MBelow(m: nat)
    ensures m < Pow2(m)
  {
    if m > 0 {
      MBelow(m - 1);
    }
  }

  /** The entries that are set solve their equation. */
  ghost predicate Filled(f: Field, xi: seq<nat>, set': seq<bool>, ak: nat) {
    && |xi| == |set'| == f.m
    && forall i :: 0 <= i < f.m && set'[i] ==> xi[i] <= N(f) && OffBy(f, xi[i], Pow2(i), ak)
  }

  ghost function Missing(s: seq<bool>): nat {
    if s == [] then 0 else Missing(s[..|s| - 1]) + if s[|s| - 1] then 0 else 1
  }

  lemma {:induction false} MissingSet(s: seq<bool>, i: nat)
    requires i < |s| && !s[i]
    ensures Missing(s[i := true]) == Missing(s) - 1
  {
    var l := |s| - 1;
    if i == l {
      assert s[i := true][..l] == s[..l];
    } else {
      assert s[i := true][..l] == s[..l][i := true];
      MissingSet(s[..l], i);
    }
  }

  lemma {:induction false} NoneMissing(s: seq<bool>, i: nat)
    requires Missing(s) == 0 && i < |s|
    ensures s[i]
  {
    if i < |s| - 1 {
      NoneMissing(s[..|s| - 1], i);
    }
  }

  lemma {:induction false} AllMissing(n: nat)
    ensures Missing(seq(n, _ => false)) == n
  {
    if n > 0 {
      AllMissing(n - 1);
      assert seq(n, _ => false)[..n - 1] == seq(n - 1, _ => false);
    }
  }

  // --- no entry is missed ---

  lemma {:induction false} Pow2Injective(j: nat, k: nat)
    requires Pow2(j) == Pow2(k)
    ensures j == k
  {
    BitPow2(j, j);
    BitPow2(k, j);
  }

  /** Two powers of two do not add up to one. */
  lemma TwoPowers(j: nat, k: nat, r: nat)
    ensures Xor(Pow2(j), Pow2(k)) != Pow2(r)
  {
    hide Xor, Pow2, Bit;
    if j == k {
      XorSelf(Pow2(j));
    } else {
      BitXor(Pow2(j), Pow2(k), j);
      BitXor(Pow2(j), Pow2(k), k);
      BitPow2(j, j);
      BitPow2(j, k);
      BitPow2(k, j);
      BitPow2(k, k);
      BitPow2(r, j);
      BitPow2(r, k);
    }
  }

  /** Entries that `y`, if j is 1 or more, and `y` plus `ak`, if j is 2, would give are set. */
  ghost predicate Caught(m: nat, y: nat, ak: nat, set': seq<bool>, j: nat) {
    && |set'| == m && (j >= 1 ==> OneCaught(y, set')) && (j >= 2 ==> OneCaught(Xor(y, ak), set'))
  }

  ghost predicate OneCaught(y: nat, set': seq<bool>) {
    forall r: nat :: r < |set'| && y == Pow2(r) ==> set'[r]
  }

  /** No entry that an x below `x` would give is missing. */
  ghost predicate Complete(f: Field, ak: nat, set': seq<bool>, x: nat) {
    |set'| == f.m && forall v: nat :: v < x ==> Caught(f.m, Hilbert(f, v), ak, set', 2)
  }

  lemma SetMore(f: Field, ak: nat, set': seq<bool>, x: nat, r: nat)
    requires Complete(f, ak, set', x) && r < f.m
    ensures Complete(f, ak, set'[r := true], x)
  {
    hide Hilbert, Pow2, Xor;
  }

  /** A value that is no use now is no power of X whose entry is missing. */
  lemma Useless(f: Field, t: Tables, y: nat, set': seq<bool>)
    requires Ready(f, t) && y <= N(f) && |set'| == f.m
    requires var r := ALog(f, t, y); y == 0 || r >= f.m || set'[r]
    ensures OneCaught(y, set')
  {
    hide Ready, Primitive, Alpha, Pow2, ALog;
    ReadyOk(f, t);
    MBelow(f.m);
    forall r: nat | r < |set'| && y == Pow2(r)
      ensures set'[r]
    {
      AlphaPow2(f, r);
      AlphaDistinct(f, r, ALog(f, t, y));
    }
  }

  lemma HitCaught(f: Field, y: nat, ak: nat, k: nat, set': seq<bool>, r: nat)
    requires |set'| == f.m && r < f.m && y == Pow2(r) && ak == Pow2(k)
    ensures Caught(f.m, y, ak, set'[r := true], 2)
  {
    hide Xor, Pow2;
    forall q: nat | q < f.m
      ensures (y == Pow2(q) ==> q == r) && Xor(y, ak) != Pow2(q)
    {
      TwoPowers(r, k, q);
      if y == Pow2(q) {
        Pow2Injective(q, r);
      }
    }
  }

  lemma SecondCaught(f: Field, y: nat, ak: nat, set': seq<bool>, r: nat)
    requires Caught(f.m, y, ak, set', 1) && r < f.m && Xor(y, ak) == Pow2(r)
    ensures Caught(f.m, y, ak, set'[r := true], 2)
  {
    hide Xor, Pow2;
    forall q: nat | q < f.m && Xor(y, ak) == Pow2(q)
      ensures q == r
    {
      Pow2Injective(q, r);
    }
  }

  lemma AllCaught(f: Field, ak: nat, set': seq<bool>)
    requires Primitive(f) && ak <= N(f) && Trace(f, ak, f.m) != 0 && Complete(f, ak, set', N(f) + 1)
    ensures forall r :: 0 <= r < f.m ==> set'[r]
  {
    hide Primitive, Trace, Xor, Pow2, Hilbert;
    forall r: nat | r < f.m
      ensures set'[r]
    {
      var x := Covered(f, r, ak);
      assert Caught(f.m, Hilbert(f, x), ak, set', 2);
      XorCancel(ak, Pow2(r));
    }
  }

  /** A table for every primitive field: the check at the end of build_deg2_base() never fails. */
  method BuildDeg2Base(f: Field, t: Tables) returns (ok: bool, xi: seq<nat>)
    requires Ready(f, t)
    ensures ok && Deg2Base(f, xi)
  {
    hide Ready, Primitive, Trace, Missing, GfSqr, ALog, N, Mul, Pow2, Complete, Filled, Caught, OneCaught, Xor, Alpha, Hilbert;
    ReadyOk(f, t);
    var ak;
    ghost var k;
    ak, k := FindTraceOne(f, t);
    var remaining := f.m;
    var set' := seq(f.m, _ => false);
    AllMissing(f.m);
    xi := seq(f.m, _ => 0);
    StartFilled(f, xi, set', ak);
    var x := 0;
    while x <= N(f) && remaining != 0
      invariant Filled(f, xi, set', ak) && remaining == Missing(set') && x <= N(f) + 1
      invariant Complete(f, ak, set', x) && |set'| == |xi| == f.m
      decreases N(f) + 1 - x
    {
      xi, set', remaining := TryValue(f, t, xi, set', remaining, x, ak, k);
      x := x + 1;
    }
    ok := remaining == 0;
    if x == N(f) + 1 {
      AllCaught(f, ak, set');
      NoneLeft(set');
    }
    forall i | 0 <= i < f.m
      ensures set'[i]
    {
      NoneMissing(set', i);
    }
    BaseDone(f, xi, set', ak);
  }

  lemma StartFilled(f: Field, xi: seq<nat>, set': seq<bool>, ak: nat)
    requires |xi| == |set'| == f.m && forall i :: 0 <= i < f.m ==> !set'[i]
    ensures Filled(f, xi, set', ak) && Complete(f, ak, set', 0)
  {
  }

  lemma {:induction false} NoneLeft(s: seq<bool>)
    requires forall i :: 0 <= i < |s| ==> s[i]
    ensures Missing(s) == 0
  {
    if s != [] {
      NoneLeft(s[..|s| - 1]);
    }
  }

  /** The two values x^2 + x and x^2 + x + ak are tried as entries. */
  method TryValue(f: Field, t: Tables, xi0: seq<nat>, set0: seq<bool>, remaining0: nat, x: nat, ak: nat, ghost k: nat)
      returns (xi: seq<nat>, set': seq<bool>, remaining: nat)
    requires Ready(f, t) && |set0| == |xi0| == f.m && Filled(f, xi0, set0, ak) && remaining0 == Missing(set0) && x <= N(f)
    requires Complete(f, ak, set0, x) && ak == Pow2(k) <= N(f)
    ensures |set'| == |xi| == f.m && Filled(f, xi, set', ak) && remaining == Missing(set') && Complete(f, ak, set', x + 1)
  {
    hide Ready, Primitive, Alpha, Xor, Missing, GfSqr, ALog, N, Mul, Pow2, Complete, Filled, Hilbert, Caught, OneCaught;
    ReadyOk(f, t);
    xi, set', remaining := xi0, set0, remaining0;
    ghost var y0 := Hilbert(f, x);
    HilbertIs(f, t, x);
    var y: nat := Xor(GfSqr(f, t, x), x);
    var i := 0;
    NoneCaught(f.m, y0, ak, set');
    while i < 2
      invariant 0 <= i <= 2 && Filled(f, xi, set', ak) && remaining == Missing(set') && y <= N(f)
      invariant |set'| == |xi| == f.m && Complete(f, ak, set', x) && Caught(f.m, y0, ak, set', i)
      invariant i < 2 ==> y == if i == 0 then y0 else Xor(y0, ak)
    {
      var r := ALog(f, t, y);
      if y != 0 && r < f.m && !set'[r] {
        Solves(f, x, y, ak, r);
        MissingSet(set', r);
        MissingSome(set', r);
        FilledMore(f, xi, set', ak, r, x);
        SetMore(f, ak, set', x, r);
        if i == 0 {
          HitCaught(f, y0, ak, k, set', r);
        } else {
          SecondCaught(f, y0, ak, set', r);
        }
        xi := xi[r := x];
        set' := set'[r := true];
        remaining := remaining - 1;
        i := 2;
        break;
      }
      Useless(f, t, y, set');
      NextCaught(f.m, y0, ak, set', i);
      In(f, y, ak);
      y := Xor(y, ak);
      i := i + 1;
    }
    OneMoreComplete(f, ak, set', x);
  }

  lemma HilbertIs(f: Field, t: Tables, x: nat)
    requires Ready(f, t) && x <= N(f)
    ensures Xor(GfSqr(f, t, x), x) == Hilbert(f, x) <= N(f)
  {
    hide Primitive, Xor, Mul;
    In(f, x, x);
    In(f, Sq(f, x), x);
  }

  lemma NoneCaught(m: nat, y: nat, ak: nat, set': seq<bool>)
    requires |set'| == m
    ensures Caught(m, y, ak, set', 0)
  {
  }

  lemma NextCaught(m: nat, y: nat, ak: nat, set': seq<bool>, i: nat)
    requires i < 2 && Caught(m, y, ak, set', i) && OneCaught(if i == 0 then y else Xor(y, ak), set')
    ensures Caught(m, y, ak, set', i + 1)
  {
  }

  lemma OneMoreComplete(f: Field, ak: nat, set': seq<bool>, x: nat)
    requires Complete(f, ak, set', x) && Caught(f.m, Hilbert(f, x), ak, set', 2)
    ensures Complete(f, ak, set', x + 1)
  {
    hide Hilbert, Caught;
  }

  lemma FilledMore(f: Field, xi: seq<nat>, set': seq<bool>, ak: nat, r: nat, x: nat)
    requires Filled(f, xi, set', ak) && r < f.m && x <= N(f) && OffBy(f, x, Pow2(r), ak)
    ensures |xi| == |set'| == f.m && Filled(f, xi[r := x], set'[r := true], ak)
  {
    hide OffBy, Pow2, N;
  }

  lemma {:induction false} MissingSome(s: seq<bool>, i: nat)
    requires i < |s| && !s[i]
    ensures Missing(s) >= 1
  {
    if i < |s| - 1 {
      MissingSome(s[..|s| - 1], i);
    }
  }

  lemma BaseDone(f: Field, xi: seq<nat>, set': seq<bool>, ak: nat)
    requires Primitive(f) && Filled(f, xi, set', ak) && ak <= N(f) && Trace(f, ak, f.m) != 0
    requires forall i :: 0 <= i < f.m ==> set'[i]
    ensures Deg2Base(f, xi)
  {
    hide Primitive, Trace, Hilbert, OffBy, N, Pow2;
    OutOfReach(f, ak);
    assert BaseFor(f, xi, ak);
  }

  lemma Solves(f: Field, x: nat, y: nat, ak: nat, r: nat)
    requires Primitive(f) && r < f.m && Alpha(f, r) == y && (y == Hilbert(f, x) || y == Xor(Hilbert(f, x), ak))
    ensures y == Pow2(r) && OffBy(f, x, Pow2(r), ak)
  {
    hide Primitive, Alpha, Hilbert, Xor;
    PrimitiveOk(f);
    AlphaPow2(f, r);
    XorCancel(ak, Hilbert(f, x));
  }

  // --- sums of entries ---

  lemma {:induction false} ComboSame(s: seq<nat>, v: nat, i: nat, n: nat)
    requires n <= |s| && n <= i
    ensures Combo(s, Xor(v, Pow2(i)), n) == Combo(s, v, n)
  {
    hide Xor, Pow2, Bit;
    if n > 0 {
      ComboSame(s, v, i, n - 1);
      BitXor(v, Pow2(i), n - 1);
      BitPow2(i, n - 1);
    }
  }

  lemma {:induction false} ComboFlip(s: seq<nat>, v: nat, i: nat, n: nat)
    requires i < n <= |s| && Bit(v, i)
    ensures Combo(s, v, n) == Xor(Combo(s, Xor(v, Pow2(i)), n), s[i])
  {
    hide Xor, Pow2, Bit;
    var w := Xor(v, Pow2(i));
    BitXor(v, Pow2(i), n - 1);
    BitPow2(i, n - 1);
    if i == n - 1 {
      ComboSame(s, v, i, n - 1);
      XorSelf(Combo(s, w, n - 1));
    } else {
      ComboFlip(s, v, i, n - 1);
      var e := if Bit(v, n - 1) then s[n - 1] else 0;
      XorAssoc(Combo(s, w, n - 1), s[i], e);
      XorComm(s[i], e);
      XorAssoc(Combo(s, w, n - 1), e, s[i]);
    }
  }

  lemma OffXor(f: Field, x: nat, y: nat, u: nat, v: nat, ak: nat)
    requires Primitive(f) && x <= N(f) && y <= N(f) && OffBy(f, x, u, ak) && OffBy(f, y, v, ak)
    ensures OffBy(f, Xor(x, y), Xor(u, v), ak)
  {
    hide Primitive, Hilbert;
    HilbertXor(f, x, y);
    OffSums(u, v, ak);
    hide Xor;
  }

  lemma OffSums(u: nat, v: nat, ak: nat)
    ensures Xor(Xor(u, ak), v) == Xor(Xor(u, v), ak) && Xor(u, Xor(v, ak)) == Xor(Xor(u, v), ak)
    ensures Xor(Xor(u, ak), Xor(v, ak)) == Xor(u, v)
  {
    hide Xor;
    XorAssoc(u, ak, v);
    XorComm(ak, v);
    XorAssoc(u, v, ak);
    XorSwap(u, ak, v, ak);
    XorSelf(ak);
    XorSelf(Xor(u, v));
  }

  /** The sum of the entries that u selects solves z^2 + z = u, or is off by `ak`. */
  lemma {:induction false} ComboOff(f: Field, xi: seq<nat>, ak: nat, u: nat, n: nat)
    requires Primitive(f) && BaseFor(f, xi, ak) && n <= f.m
    ensures Combo(xi, u, n) <= N(f) && OffBy(f, Combo(xi, u, n), Trunc(u, n), ak)
  {
    hide Primitive, OffBy, Xor, Bit, Trunc;
    if n == 0 {
      TruncNone(u);
      ZeroOff(f, ak);
    } else {
      ComboOff(f, xi, ak, u, n - 1);
      var c, t := Combo(xi, u, n - 1), Trunc(u, n - 1);
      TruncStep(u, n - 1);
      TruncBelow(u, n - 1);
      AddLead(n - 1, t);
      if Bit(u, n - 1) {
        In(f, c, xi[n - 1]);
        OffXor(f, c, xi[n - 1], t, Pow2(n - 1), ak);
        XorComm(t, Pow2(n - 1));
      } else {
        XorSelf(c);
      }
    }
  }

  lemma ZeroOff(f: Field, ak: nat)
    ensures OffBy(f, 0, 0, ak)
  {
    SqZero(f);
    XorSelf(0);
  }

  /** With the table, the sum solves z^2 + z = u whenever there is a solution. */
  lemma BaseSolves(f: Field, xi: seq<nat>, u: nat, z: nat)
    requires Primitive(f) && Deg2Base(f, xi) && u <= N(f) && z <= N(f) && Hilbert(f, z) == u
    ensures |xi| == f.m && Combo(xi, u, f.m) <= N(f) && Hilbert(f, Combo(xi, u, f.m)) == u
  {
    hide Primitive, Xor, Hilbert, Trunc, Combo, Pow2;
    var ak: nat :| BaseFor(f, xi, ak);
    ComboOff(f, xi, ak, u, f.m);
    NBelow(f, u);
    var r := Combo(xi, u, f.m);
    HilbertXor(f, r, z);
    In(f, r, z);
    XorCancel(u, ak);
    XorComm(Xor(u, ak), u);
    assert Hilbert(f, r) == Xor(u, ak) ==> Hilbert(f, Xor(r, z)) == ak;
  }

  lemma NBelow(f: Field, u: nat)
    requires u <= N(f)
    ensures Trunc(u, f.m) == u
  {
    TruncBelow(u, f.m);
  }
}
