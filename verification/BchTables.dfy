/** lib/bch.c: the logarithm tables of GF(2^m) and the field operations that look things up in them. */
module BchTables {
  import opened Bits
  import opened Gf2
  import opened Galois

  /** a_pow_tab and a_log_tab */
  datatype Tables = Tables(m: nat, pow: seq<nat>, log: seq<nat>)

  /** Both tables have 2^m entries; `log` inverts `pow` on the exponents below 2^m - 1. */
  ghost predicate TablesFor(f: Field, t: Tables) {
    && t.m == f.m && |t.pow| == N(f) + 1 && |t.log| == N(f) + 1
    && PowsUpTo(f, t.pow, N(f) + 1)
    && LogsUpTo(f, t.log, N(f))
    && t.log[0] == 0
  }

  ghost predicate PowsUpTo(f: Field, pow: seq<nat>, k: nat) {
    k <= |pow| && forall i :: 0 <= i < k ==> pow[i] == Alpha(f, i)
  }

  ghost predicate LogsUpTo(f: Field, log: seq<nat>, k: nat) {
    forall i {:trigger Alpha(f, i)} :: 0 <= i < k ==> Alpha(f, i) < |log| && log[Alpha(f, i)] == i
  }

  /** deg(): the index of the most significant bit, -1 for zero. */
  function Deg(x: nat): (d: int)
    ensures d >= -1 && (d == -1 <==> x == 0)
    ensures d >= 0 ==> Pow2(d) <= x < Pow2(d + 1)
  {
    if x == 0 then -1 else Deg(x / 2) + 1
  }

  lemma DegUnique(x: nat, m: nat)
    ensures Deg(x) == m <==> Pow2(m) <= x < Pow2(m + 1)
  {
    if Pow2(m) <= x < Pow2(m + 1) {
      var d := Deg(x);
      if d < m {
        Pow2Mono(d + 1, m);
      } else if d > m {
        Pow2Mono(m + 1, d);
      }
    }
  }

  ghost predicate NoEarlyOne(f: Field, k: nat) {
    forall i :: 0 < i < k ==> Alpha(f, i) != 1
  }

  lemma {:induction false} AlphaBelow(f: Field, i: nat)
    requires HasDegree(f)
    ensures Alpha(f, i) <= N(f)
  {
    if i == 0 {
      assert Pow2(f.m) == 2 * Pow2(f.m - 1);
    } else {
      AlphaBelow(f, i - 1);
      StepBelow(f, Alpha(f, i - 1));
    }
  }

  lemma AlphaNew(f: Field, i: nat, j: nat)
    requires FieldOk(f) && NoEarlyOne(f, i + 1) && j < i
    ensures Alpha(f, j) != Alpha(f, i)
  {
    if Alpha(f, j) == Alpha(f, i) {
      AlphaPeel(f, j, i);
    }
  }

  lemma LogsExtend(f: Field, log: seq<nat>, i: nat)
    requires FieldOk(f) && LogsUpTo(f, log, i) && NoEarlyOne(f, i + 1) && Alpha(f, i) < |log|
    ensures LogsUpTo(f, log[Alpha(f, i) := i], i + 1)
  {
    hide Alpha, FieldOk;
    forall j | 0 <= j < i
      ensures Alpha(f, j) != Alpha(f, i)
    {
      AlphaNew(f, i, j);
    }
  }

  /** Fills both tables; fails when the polynomial does not have degree m or X reaches 1 early.
      For an odd polynomial success means that it is primitive and the tables are right; an even one
      of degree m >= 2 always passes, and then `EvenMisses` says what the table lacks. */
  method BuildGfTables(m: nat, poly: nat, pow: array<nat>, log: array<nat>) returns (ok: bool)
    requires m >= 1 && poly > 0 && pow.Length == Pow2(m) && log.Length == Pow2(m) && pow != log
    modifies pow, log
    ensures ok <==> Deg(poly) == m && NoEarlyOne(Field(m, poly), Pow2(m) - 1)
    ensures ok ==> PowsUpTo(Field(m, poly), pow[..], Pow2(m) - 1) && pow[Pow2(m) - 1] == 1 && log[0] == 0
    ensures ok && poly % 2 == 1 ==> Primitive(Field(m, poly)) && TablesFor(Field(m, poly), Tables(m, pow[..], log[..]))
  {
    hide Alpha, Xor, Bit, Pow2, LogsUpTo, PowsUpTo, NoEarlyOne, Primitive, TablesFor, Deg;
    ghost var f := Field(m, poly);
    DegUnique(poly, m);
    if Deg(poly) != m {
      return false;
    }
    var n := Pow2(m) - 1;
    var i: nat, x: nat := 0, 1;
    NothingYet(f, pow[..], log[..]);
    while i < n
      invariant 0 <= i <= n && x == Alpha(f, i) && NoEarlyOne(f, i)
      invariant PowsUpTo(f, pow[..], i)
      invariant poly % 2 == 1 ==> LogsUpTo(f, log[..], i)
    {
      AlphaBelow(f, i);
      AlphaNext(f, i);
      ghost var wasPow, was := pow[..], log[..];
      pow[i] := x;
      log[x] := i;
      assert pow[..] == wasPow[i := x] && log[..] == was[x := i];
      PowsExtend(f, wasPow, i);
      OneNow(f, i, n);
      if i != 0 && x == 1 {
        return false;
      }
      if poly % 2 == 1 {
        LogsExtend(f, was, i);
      }
      x := 2 * x;
      if Bit(x, m) {
        x := Xor(x, poly);
      }
      i := i + 1;
    }
    ghost var wasPow, was := pow[..], log[..];
    pow[n] := 1;
    log[0] := 0;
    ok := true;
    assert pow[..] == wasPow[n := 1] && log[..] == was[0 := 0];
    PowsKeep(f, wasPow, n, 1);
    if poly % 2 == 1 {
      TablesDone(f, wasPow, was);
    }
  }

  lemma PowsKeep(f: Field, pow: seq<nat>, k: nat, x: nat)
    requires PowsUpTo(f, pow, k) && k < |pow|
    ensures PowsUpTo(f, pow[k := x], k)
  {
    hide Alpha;
  }

  lemma OneNow(f: Field, i: nat, k: nat)
    requires NoEarlyOne(f, i) && i < k
    ensures if i != 0 && Alpha(f, i) == 1 then !NoEarlyOne(f, k) else NoEarlyOne(f, i + 1)
  {
    hide Alpha;
  }

  lemma TablesDone(f: Field, pow: seq<nat>, log: seq<nat>)
    requires FieldOk(f) && NoEarlyOne(f, N(f)) && PowsUpTo(f, pow, N(f)) && LogsUpTo(f, log, N(f))
    requires |pow| == |log| == N(f) + 1
    ensures Primitive(f) && TablesFor(f, Tables(f.m, pow[N(f) := 1], log[0 := 0]))
  {
    hide Alpha, LogsUpTo, PowsUpTo, N, FieldOk;
    AlphaPeriod(f);
    PowsExtend(f, pow, N(f));
    LogsKeep(f, log, N(f));
  }

  lemma NothingYet(f: Field, pow: seq<nat>, log: seq<nat>)
    ensures PowsUpTo(f, pow, 0) && LogsUpTo(f, log, 0) && Alpha(f, 0) == 1 && NoEarlyOne(f, 0)
  {
  }

  lemma AlphaNext(f: Field, i: nat)
    ensures Alpha(f, i + 1) == Step(f, Alpha(f, i))
  {
  }

  lemma PowsExtend(f: Field, pow: seq<nat>, i: nat)
    requires PowsUpTo(f, pow, i) && i < |pow|
    ensures PowsUpTo(f, pow[i := Alpha(f, i)], i + 1)
  {
  }

  lemma LogsKeep(f: Field, log: seq<nat>, k: nat)
    requires FieldOk(f) && LogsUpTo(f, log, k) && 0 < |log|
    ensures LogsUpTo(f, log[0 := 0], k)
  {
    forall i | 0 <= i < k
      ensures Alpha(f, i) != 0
    {
      AlphaRange(f, i);
    }
  }

  /** With an even polynomial the powers of X miss the element X + 1, so oddness is what the caller owes. */
  lemma {:induction false} EvenMisses(f: Field, i: nat)
    requires f.poly % 2 == 0
    ensures i > 0 ==> Alpha(f, i) % 2 == 0
    ensures Alpha(f, i) != 3
  {
    hide Xor, Bit;
    if i > 0 {
      EvenMisses(f, i - 1);
      XorHalf(2 * Alpha(f, i - 1), f.poly);
    }
  }

  // --- exponents ---

  /** modulo(): subtracts and folds the high bits in, as 2^m is 1 modulo 2^m - 1. */
  method Modulo(m: nat, v: nat) returns (r: nat)
    requires m >= 1
    ensures Pow2(m) > 1 && r == v % (Pow2(m) - 1)
  {
    hide Trunc, Shr, Pow2;
    Pow2Even(m);
    var n := Pow2(m) - 1;
    r := v;
    while r >= n
      invariant r % n == v % n
      decreases r
    {
      ModDown(r, n);
      r := r - n;
      Fold(m, r);
      r := Trunc(r, m) + Shr(r, m);
    }
    ModDown(r, n);
  }

  lemma Pow2Even(m: nat)
    requires m >= 1
    ensures Pow2(m) == 2 * Pow2(m - 1) && Pow2(m) >= 2
  {
  }

  lemma Fold(m: nat, x: nat)
    requires m >= 1
    ensures Trunc(x, m) + Shr(x, m) <= x
    ensures Pow2(m) >= 2 && (Trunc(x, m) + Shr(x, m)) % (Pow2(m) - 1) == x % (Pow2(m) - 1)
  {
    hide Trunc, Shr, Shl, Pow2;
    Pow2Even(m);
    var lo, hi, n := Trunc(x, m), Shr(x, m), Pow2(m) - 1;
    Split(x, m);
    ShlPow2(hi, m);
    assert hi * Pow2(m) == hi * n + hi;
    ModAdd(lo + hi, n, hi);
    assert hi * n >= 0;
  }

  lemma ModAdd(x: nat, n: nat, k: nat)
    requires n >= 1
    ensures (x + k * n) % n == x % n
  {
    var q, r := x / n, x % n;
    assert x + k * n == (q + k) * n + r;
    ModUnique(x + k * n, n, q + k, r);
  }

  /** mod_s(): enough for a sum of two exponents. */
  function ModS(f: Field, v: nat): nat {
    if v < N(f) then v else v - N(f)
  }

  lemma ModSAlpha(f: Field, v: nat)
    requires Primitive(f) && v < 2 * N(f)
    ensures ModS(f, v) < N(f) && Alpha(f, ModS(f, v)) == Alpha(f, v)
  {
    if v >= N(f) {
      AlphaCycle(f, v - N(f));
    }
  }

  // --- the field operations ---

  ghost predicate Ready(f: Field, t: Tables) {
    Primitive(f) && TablesFor(f, t)
  }

  lemma ReadyOk(f: Field, t: Tables)
    requires Ready(f, t)
    ensures Primitive(f) && FieldOk(f) && |t.pow| == N(f) + 1
  {
  }

  lemma LogIs(f: Field, t: Tables, x: nat)
    requires Ready(f, t) && 1 <= x <= N(f)
    ensures t.log[x] == Log(f, x)
  {
    hide Alpha, Primitive, N;
    assert Alpha(f, Log(f, x)) == x;
  }

  lemma PowIs(f: Field, t: Tables, i: nat)
    requires Ready(f, t) && i <= N(f)
    ensures i < |t.pow| && t.pow[i] == Alpha(f, i)
  {
  }

  function ALog(f: Field, t: Tables, x: nat): (r: nat)
    requires Ready(f, t) && x <= N(f)
    ensures r < N(f) && (x != 0 ==> Alpha(f, r) == x)
  {
    if x != 0 then LogIs(f, t, x); t.log[x] else AlphaPeriod(f); t.log[0]
  }

  function GfMul(f: Field, t: Tables, a: nat, b: nat): (r: nat)
    requires Ready(f, t) && a <= N(f) && b <= N(f)
    ensures r == Mul(f, a, b) && r <= N(f)
  {
    MulNonzero(f, a, b);
    if a != 0 && b != 0 then
      MulAsPow(f, t, a, b);
      t.pow[ModS(f, ALog(f, t, a) + ALog(f, t, b))]
    else 0
  }

  lemma MulAsPow(f: Field, t: Tables, a: nat, b: nat)
    requires Ready(f, t) && 1 <= a <= N(f) && 1 <= b <= N(f)
    ensures
      var i := ModS(f, ALog(f, t, a) + ALog(f, t, b));
      i < N(f) && t.pow[i] == Mul(f, a, b) && 1 <= Mul(f, a, b) <= N(f)
  {
    hide Mul, Alpha, N;
    var i, j := ALog(f, t, a), ALog(f, t, b);
    ModSAlpha(f, i + j);
    AlphaMul(f, i, j);
    AlphaRange(f, i + j);
    PowIs(f, t, ModS(f, i + j));
  }

  function GfSqr(f: Field, t: Tables, a: nat): (r: nat)
    requires Ready(f, t) && a <= N(f)
    ensures r == Mul(f, a, a) && r <= N(f)
  {
    MulNonzero(f, a, a);
    if a != 0 then
      MulAsPow(f, t, a, a);
      t.pow[ModS(f, 2 * ALog(f, t, a))]
    else 0
  }

  /** The quotient: times `b` it gives `a` back. */
  function GfDiv(f: Field, t: Tables, a: nat, b: nat): (r: nat)
    requires Ready(f, t) && a <= N(f) && 1 <= b <= N(f)
    ensures r <= N(f) && Mul(f, r, b) == a
  {
    MulNonzero(f, 0, b);
    if a != 0 then
      DivAsPow(f, t, a, b);
      t.pow[ModS(f, ALog(f, t, a) + N(f) - ALog(f, t, b))]
    else 0
  }

  lemma DivAsPow(f: Field, t: Tables, a: nat, b: nat)
    requires Ready(f, t) && 1 <= a <= N(f) && 1 <= b <= N(f)
    ensures
      var i := ModS(f, ALog(f, t, a) + N(f) - ALog(f, t, b));
      i < N(f) && 1 <= t.pow[i] <= N(f) && Mul(f, t.pow[i], b) == a
  {
    hide Mul, Alpha, N;
    var i, j := ALog(f, t, a), ALog(f, t, b);
    var k := i + N(f) - j;
    ModSAlpha(f, k);
    AlphaRange(f, k);
    AlphaMul(f, k, j);
    AlphaCycle(f, i);
    PowIs(f, t, ModS(f, k));
  }

  function GfInv(f: Field, t: Tables, a: nat): (r: nat)
    requires Ready(f, t) && 1 <= a <= N(f)
    ensures 1 <= r <= N(f) && Mul(f, r, a) == 1
  {
    InvAsPow(f, t, a);
    t.pow[N(f) - ALog(f, t, a)]
  }

  lemma InvAsPow(f: Field, t: Tables, a: nat)
    requires Ready(f, t) && 1 <= a <= N(f)
    ensures
      var i := N(f) - ALog(f, t, a);
      i <= N(f) && 1 <= t.pow[i] <= N(f) && Mul(f, t.pow[i], a) == 1
  {
    hide Mul, Alpha, N;
    var j := ALog(f, t, a);
    AlphaMul(f, N(f) - j, j);
    AlphaRange(f, N(f) - j);
    AlphaPeriod(f);
    PowIs(f, t, N(f) - j);
  }

  /** a_pow(), with the result of modulo() */
  function APow(f: Field, t: Tables, i: nat): (r: nat)
    requires Ready(f, t)
    ensures r == Alpha(f, i) && 1 <= r <= N(f)
  {
    AlphaMod(f, i);
    AlphaRange(f, i);
    t.pow[i % N(f)]
  }

  /** a_ilog(): the logarithm of 1/x */
  function AIlog(f: Field, t: Tables, x: nat): (r: nat)
    requires Ready(f, t) && 1 <= x <= N(f)
    ensures r < N(f) && Mul(f, Alpha(f, r), x) == 1 && Alpha(f, N(f) - r) == x
  {
    IlogAsPow(f, t, x);
    ModS(f, N(f) - ALog(f, t, x))
  }

  lemma IlogAsPow(f: Field, t: Tables, x: nat)
    requires Ready(f, t) && 1 <= x <= N(f)
    ensures
      var r := ModS(f, N(f) - ALog(f, t, x));
      r < N(f) && Mul(f, Alpha(f, r), x) == 1 && Alpha(f, N(f) - r) == x
  {
    hide Mul, Alpha, N;
    var j := ALog(f, t, x);
    AlphaPeriod(f);
    ModSAlpha(f, N(f) - j);
    AlphaMul(f, N(f) - j, j);
  }
}
