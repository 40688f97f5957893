/** lib/bch.c: solve_linear_system(), from elimination to the list of all solutions. */
module BchGauss {
  import opened Bits
  import opened BchSolver
  import opened BchParity

  const MAX_M: nat := 15  // BCH_MAX_M

  // --- row operations keep the solutions ---

  function Swap(rows: seq<nat>, a: nat, b: nat): seq<nat>
    requires a < |rows| && b < |rows|
  {
    rows[a := rows[b]][b := rows[a]]
  }

  lemma SwapSat(rows: seq<nat>, a: nat, b: nat)
    requires a < |rows| && b < |rows|
    ensures SameSols(Swap(rows, a, b), rows)
  {
    hide Sat;
    var s := Swap(rows, a, b);
    forall x: nat
      ensures AllSat(s, x) == AllSat(rows, x)
    {
      if AllSat(s, x) {
        assert Sat(s[a], x) && Sat(s[b], x);
        assert forall r :: 0 <= r < |rows| ==> r == a || r == b || s[r] == rows[r];
      }
    }
  }

  lemma AddSat(rows: seq<nat>, p: nat, r: nat)
    requires p < |rows| && r < |rows| && p != r
    ensures SameSols(rows[r := Xor(rows[r], rows[p])], rows)
  {
    hide Dot, Xor;
    var s := rows[r := Xor(rows[r], rows[p])];
    forall x: nat
      ensures AllSat(s, x) == AllSat(rows, x)
    {
      DotXor(rows[r], rows[p], 2 * x + 1);
      if AllSat(s, x) {
        assert Sat(s[p], x) && Sat(s[r], x);
        assert forall i :: 0 <= i < |rows| ==> i == r || s[i] == rows[i];
      }
    }
  }

  lemma SameSolsTrans(a: seq<nat>, b: seq<nat>, c: seq<nat>)
    requires SameSols(a, b) && SameSols(b, c)
    ensures SameSols(a, c)
  {
    forall x: nat
      ensures AllSat(a, x) == AllSat(c, x)
    {
      assert AllSat(a, x) == AllSat(b, x);
    }
  }

  // --- the shape elimination reaches ---

  /** How many of the first `r` columns have no pivot. */
  function Free(d: seq<bool>, r: nat): (k: nat)
    requires r <= |d|
    ensures k <= r
  {
    if r == 0 then 0 else Free(d, r - 1) + (if d[r - 1] then 1 else 0)
  }

  lemma {:induction false} FreeExtend(d: seq<bool>, b: bool, r: nat)
    requires r <= |d|
    ensures Free(d + [b], r) == Free(d, r)
  {
    if r > 0 {
      FreeExtend(d, b, r - 1);
    }
  }

  lemma {:induction false} FreeMono(d: seq<bool>, r: nat, s: nat)
    requires r <= s <= |d|
    ensures Free(d, r) <= Free(d, s) <= Free(d, r) + (s - r)
    decreases s
  {
    if r < s {
      FreeMono(d, r, s - 1);
    }
  }

  /** Columns 0..|d|-1 are done; `d` marks those without a pivot and `param` lists them. */
  ghost predicate Echelon(m: nat, rows: seq<nat>, d: seq<bool>, param: seq<nat>) {
    && |rows| == m && |d| <= m && |param| == Free(d, |d|)
    && Parameters(d, param) && Pivots(m, rows, d)
    && forall i :: |d| - |param| <= i < m ==> rows[i] < Pow2(m - |d| + 1)
  }

  ghost predicate Parameters(d: seq<bool>, param: seq<nat>) {
    && |param| == Free(d, |d|)
    && forall r :: 0 <= r < |d| && d[r] ==> Free(d, r) < |param| && param[Free(d, r)] == r
  }

  ghost predicate Pivots(m: nat, rows: seq<nat>, d: seq<bool>) {
    && |d| <= m == |rows|
    && forall r :: 0 <= r < |d| && !d[r] ==> Pow2(m - r) <= rows[r - Free(d, r)] < Pow2(m - r + 1)
  }

  lemma PivotBelow(d: seq<bool>, r: nat)
    requires r < |d| && !d[r]
    ensures r - Free(d, r) < |d| - Free(d, |d|)
  {
    FreeMono(d, r + 1, |d|);
  }

  lemma ParametersExtend(d: seq<bool>, param: seq<nat>, b: bool)
    requires Parameters(d, param)
    ensures Parameters(d + [b], if b then param + [|d|] else param)
  {
    var d', param' := d + [b], if b then param + [|d|] else param;
    FreeExtend(d, b, |d|);
    forall r | 0 <= r < |d'| && d'[r]
      ensures Free(d', r) < |param'| && param'[Free(d', r)] == r
    {
      FreeExtend(d, b, r);
      if r < |d| {
        assert d[r];
      }
    }
  }

  lemma PivotsExtend(m: nat, rows: seq<nat>, rows': seq<nat>, d: seq<bool>, b: bool)
    requires Pivots(m, rows, d) && |d| < m && |rows'| == m
    requires forall i :: 0 <= i < |d| - Free(d, |d|) ==> rows'[i] == rows[i]
    requires !b ==> Pow2(m - |d|) <= rows'[|d| - Free(d, |d|)] < Pow2(m - |d| + 1)
    ensures Pivots(m, rows', d + [b])
  {
    hide Pow2, Free;
    var d' := d + [b];
    forall r | 0 <= r < |d'| && !d'[r]
      ensures Pow2(m - r) <= rows'[r - Free(d', r)] < Pow2(m - r + 1)
    {
      FreeExtend(d, b, r);
      if r < |d| {
        assert !d[r];
        PivotBelow(d, r);
      }
    }
  }

  lemma FreeNext(d: seq<bool>, b: bool)
    ensures Free(d + [b], |d| + 1) == Free(d, |d|) + if b then 1 else 0
  {
    FreeExtend(d, b, |d|);
  }

  /** A column with a pivot: rows up to the pivot row are final, the others lose the column's bit. */
  lemma EchelonPivot(m: nat, rows: seq<nat>, rows': seq<nat>, d: seq<bool>, param: seq<nat>)
    requires Echelon(m, rows, d, param) && |d| < m && |rows'| == m
    requires
      var p := |d| - |param|;
      && (forall i :: 0 <= i < p ==> rows'[i] == rows[i])
      && (forall i :: p <= i < m ==> rows'[i] < Pow2(m - |d| + 1))
      && Bit(rows'[p], m - |d|)
      && (forall i :: p < i < m ==> !Bit(rows'[i], m - |d|))
    ensures Echelon(m, rows', d + [false], param)
  {
    hide Bit, Free, Pow2, Parameters, Pivots;
    var c, p := |d|, |d| - |param|;
    ParametersExtend(d, param, false);
    FreeNext(d, false);
    ClearedLead(rows'[p], m - c);
    PivotsExtend(m, rows, rows', d, false);
    forall i | p < i < m
      ensures rows'[i] < Pow2(m - c)
    {
      ClearedLead(rows'[i], m - c);
    }
  }

  lemma EchelonFree(m: nat, rows: seq<nat>, d: seq<bool>, param: seq<nat>)
    requires Echelon(m, rows, d, param) && |d| < m
    requires forall i :: |d| - |param| <= i < m ==> !Bit(rows[i], m - |d|)
    ensures Echelon(m, rows, d + [true], param + [|d|])
  {
    hide Bit, Free, Pow2, Parameters, Pivots;
    var c, p := |d|, |d| - |param|;
    ParametersExtend(d, param, true);
    FreeNext(d, true);
    PivotsExtend(m, rows, rows, d, true);
    forall i | p <= i < m
      ensures rows[i] < Pow2(m - c)
    {
      ClearedLead(rows[i], m - c);
    }
  }

  // --- elimination ---

  /** Looks for a row with bit `bit` from row `p` on and swaps it into place; 0 when there is none. */
  method FindPivot(rows: array<nat>, m: nat, p: nat, bit: nat) returns (rem: nat)
    requires p < m <= rows.Length
    modifies rows
    ensures rem <= m && (rem != 0 ==> p < rem)
    ensures rem == 0 ==> rows[..] == old(rows[..]) && forall i :: p <= i < m ==> !Bit(rows[i], bit)
    ensures rem != 0 ==> rows[..] == Swap(old(rows[..]), p, rem - 1) && Bit(rows[p], bit)
    ensures rem != 0 ==> forall i :: p < i < rem ==> !Bit(rows[i], bit)
  {
    hide Bit;
    rem := 0;
    var r := p;
    while r < m
      invariant p <= r <= m && rows[..] == old(rows[..])
      invariant forall i :: p <= i < r ==> !Bit(rows[i], bit)
    {
      if Bit(rows[r], bit) {
        ghost var was := rows[..];
        if r != p {
          var tmp := rows[r];
          rows[r] := rows[p];
          rows[p] := tmp;
        }
        assert rows[..] == Swap(was, p, r);
        rem := r + 1;
        return;
      }
      r := r + 1;
    }
  }

  /** Clears bit `bit` from the rows `rem`.. by adding row `p`. */
  method Eliminate(rows: array<nat>, m: nat, p: nat, rem: nat, bit: nat)
    requires p < rem <= m <= rows.Length && Bit(rows[p], bit)
    modifies rows
    ensures forall i :: 0 <= i < rem ==> rows[i] == old(rows[i])
    ensures forall i :: rem <= i < m ==> !Bit(rows[i], bit)
    ensures forall i :: rem <= i < m ==> rows[i] == old(rows[i]) || rows[i] == Xor(old(rows[i]), old(rows[p]))
    ensures SameSols(rows[..m], old(rows[..m]))
  {
    hide Bit, Xor, AllSat;
    var tmp := rows[p];
    var r := rem;
    while r < m
      invariant rem <= r <= m && tmp == rows[p]
      invariant forall i :: 0 <= i < rem ==> rows[i] == old(rows[i])
      invariant forall i :: r <= i < m ==> rows[i] == old(rows[i])
      invariant forall i :: rem <= i < r ==> !Bit(rows[i], bit)
      invariant forall i :: rem <= i < r ==> rows[i] == old(rows[i]) || rows[i] == Xor(old(rows[i]), tmp)
      invariant SameSols(rows[..m], old(rows[..m]))
    {
      if Bit(rows[r], bit) {
        BitXor(rows[r], tmp, bit);
        ghost var was := rows[..m];
        AddSat(was, p, r);
        rows[r] := Xor(rows[r], tmp);
        assert rows[..m] == was[r := Xor(was[r], was[p])];
        SameSolsTrans(rows[..m], was, old(rows[..m]));
      }
      r := r + 1;
    }
  }

  method Gauss(m: nat, rows: array<nat>) returns (param: seq<nat>, ghost d: seq<bool>)
    requires m <= rows.Length && forall i :: 0 <= i < m ==> rows[i] < Pow2(m + 1)
    modifies rows
    ensures |d| == m && Echelon(m, rows[..m], d, param)
    ensures SameSols(rows[..m], old(rows[..m]))
  {
    hide AllSat, Echelon, Bit;
    param, d := [], [];
    EchelonStart(m, rows[..m]);
    var c := 0;
    while c < m
      invariant 0 <= c <= m && |d| == c && Echelon(m, rows[..m], d, param)
      invariant SameSols(rows[..m], old(rows[..m]))
    {
      ghost var was := rows[..m];
      EchelonFacts(m, was, d, param);
      var p := c - |param|;
      var rem := FindPivot(rows, m, p, m - c);
      if rem != 0 {
        SwapSat(was, p, rem - 1);
        assert rows[..m] == Swap(was, p, rem - 1);
        ghost var mid := rows[..m];
        Eliminate(rows, m, p, rem, m - c);
        PivotStep(m, was, mid, rows[..m], d, param, p, rem);
        SameSolsTrans(rows[..m], mid, was);
        SameSolsTrans(rows[..m], was, old(rows[..m]));
        d := d + [false];
      } else {
        assert rows[..m] == was;
        EchelonFree(m, was, d, param);
        param := param + [c];
        d := d + [true];
      }
      c := c + 1;
    }
  }

  lemma EchelonStart(m: nat, rows: seq<nat>)
    requires |rows| == m && forall i :: 0 <= i < m ==> rows[i] < Pow2(m + 1)
    ensures Echelon(m, rows, [], []) && SameSols(rows, rows)
  {
  }

  lemma EchelonFacts(m: nat, rows: seq<nat>, d: seq<bool>, param: seq<nat>)
    requires Echelon(m, rows, d, param)
    ensures |param| <= |d| && |rows| == m
    ensures forall i :: |d| - |param| <= i < m ==> rows[i] < Pow2(m - |d| + 1)
  {
  }

  lemma EchelonPivots(m: nat, rows: seq<nat>, d: seq<bool>, param: seq<nat>)
    requires Echelon(m, rows, d, param)
    ensures Pivots(m, rows, d)
  {
  }

  lemma PivotStep(m: nat, was: seq<nat>, mid: seq<nat>, rows: seq<nat>, d: seq<bool>, param: seq<nat>, p: nat, rem: nat)
    requires Echelon(m, was, d, param) && |d| < m == |rows| == |was| && p + |param| == |d|
    requires
      && p < rem <= m && mid == Swap(was, p, rem - 1) && Bit(mid[p], m - |d|)
      && (forall i :: p < i < rem ==> !Bit(mid[i], m - |d|))
      && (forall i :: 0 <= i < rem ==> rows[i] == mid[i])
      && (forall i :: rem <= i < m ==> !Bit(rows[i], m - |d|))
      && (forall i :: rem <= i < m ==> rows[i] == mid[i] || rows[i] == Xor(mid[i], mid[p]))
    ensures Echelon(m, rows, d + [false], param)
  {
    hide Bit, Xor, Pow2, Parameters, Pivots, Free;
    var b := m - |d| + 1;
    forall i | p <= i < m
      ensures mid[i] < Pow2(b) && rows[i] < Pow2(b)
    {
      assert mid[i] == was[i] || mid[i] == was[p] || mid[i] == was[rem - 1];
      assert was[i] < Pow2(b) && was[p] < Pow2(b) && was[rem - 1] < Pow2(b);
      assert mid[p] == was[rem - 1];
      XorBelow(mid[i], mid[p], b);
    }
    EchelonPivot(m, was, rows, d, param);
  }

  // --- one row per unknown, the free ones fixed by the bits of a number ---

  function WithParams(m: nat, rows: seq<nat>, d: seq<bool>, p: nat): (s: seq<nat>)
    requires |rows| == |d| == m
    ensures |s| == m
  {
    seq(m, r requires 0 <= r < m => if d[r] then Pow2(m - r) + Low(Bit(p, Free(d, r))) else rows[r - Free(d, r)])
  }

  lemma ParamsTriangular(m: nat, rows: seq<nat>, d: seq<bool>, p: nat)
    requires |d| == m && Pivots(m, rows, d)
    ensures Triangular(m, WithParams(m, rows, d, p))
  {
    hide Free, Bit;
    var s := WithParams(m, rows, d, p);
    forall r | 0 <= r < m
      ensures Pow2(m - r) <= s[r] < Pow2(m - r + 1)
    {
      assert Pow2(m - r) == 2 * Pow2(m - r - 1);
    }
  }

  /** The row that fixes bit b - 1 of the unknown. */
  lemma FixedSat(b: nat, bit: bool, x: nat)
    requires b >= 1
    ensures Sat(Pow2(b) + Low(bit), x) <==> Bit(x, b - 1) == bit
  {
    hide Dot, Bit, Trunc;
    var z := 2 * x + 1;
    assert Pow2(b) == 2 * Pow2(b - 1);
    OddBits(x, b);
    DotLead(Pow2(b) + Low(bit), z, b);
    DotConst(Trunc(z, b));
  }

  lemma OddBits(x: nat, b: nat)
    requires b >= 1
    ensures Bit(2 * x + 1, b) == Bit(x, b - 1) && Trunc(2 * x + 1, b) % 2 == 1
  {
    assert (2 * x + 1) / 2 == x;
  }

  lemma DotConst(z: nat)
    ensures !Dot(0, z) && (z % 2 == 1 ==> Dot(1, z))
  {
    DotPow2(0, z);
    assert Pow2(0) == 1;
  }

  lemma {:induction false} PivotOf(d: seq<bool>, n: nat, i: nat) returns (r: nat)
    requires n <= |d| && i < n - Free(d, n)
    ensures r < n && !d[r] && r - Free(d, r) == i
  {
    if !d[n - 1] && i == n - 1 - Free(d, n - 1) {
      r := n - 1;
    } else {
      r := PivotOf(d, n - 1, i);
    }
  }

  lemma {:induction false} FreeOf(d: seq<bool>, n: nat, c: nat) returns (r: nat)
    requires n <= |d| && c < Free(d, n)
    ensures r < n && d[r] && Free(d, r) == c
  {
    if d[n - 1] && c == Free(d, n - 1) {
      r := n - 1;
    } else {
      r := FreeOf(d, n - 1, c);
    }
  }

  ghost predicate Chosen(m: nat, d: seq<bool>, p: nat, x: nat)
    requires |d| == m
  {
    forall r :: 0 <= r < m && d[r] ==> Bit(x, m - r - 1) == Bit(p, Free(d, r))
  }

  ghost predicate Consistent(m: nat, rows: seq<nat>, k: nat)
    requires |rows| == m
  {
    forall i :: 0 <= i < m && m - k <= i ==> rows[i] == 0
  }

  lemma PivotsSat(m: nat, rows: seq<nat>, d: seq<bool>, param: seq<nat>, p: nat, x: nat)
    requires |d| == m && Echelon(m, rows, d, param) && Consistent(m, rows, |param|)
    requires AllSat(WithParams(m, rows, d, p), x)
    ensures AllSat(rows, x)
  {
    hide Sat, Bit, Free, Pow2;
    var s := WithParams(m, rows, d, p);
    forall i | 0 <= i < m
      ensures Sat(rows[i], x)
    {
      if i < m - |param| {
        var r := PivotOf(d, m, i);
        assert s[r] == rows[i];
      } else {
        ZeroSat(x);
      }
    }
  }

  lemma ZeroSat(x: nat)
    ensures Sat(0, x) && !Sat(1, x)
  {
    DotConst(2 * x + 1);
  }

  lemma ParamsSat(m: nat, rows: seq<nat>, d: seq<bool>, param: seq<nat>, p: nat, x: nat)
    requires |d| == m && Echelon(m, rows, d, param) && Consistent(m, rows, |param|)
    ensures AllSat(WithParams(m, rows, d, p), x) <==> AllSat(rows, x) && Chosen(m, d, p, x)
  {
    hide Sat, Bit, Free, Pow2, Echelon, Consistent;
    EchelonFacts(m, rows, d, param);
    var s := WithParams(m, rows, d, p);
    forall r | 0 <= r < m && d[r]
      ensures Sat(s[r], x) == (Bit(x, m - r - 1) == Bit(p, Free(d, r)))
    {
      FixedSat(m - r, Bit(p, Free(d, r)), x);
    }
    if AllSat(s, x) {
      PivotsSat(m, rows, d, param, p, x);
    }
    if AllSat(rows, x) && Chosen(m, d, p, x) {
      forall r | 0 <= r < m
        ensures Sat(s[r], x)
      {
        if !d[r] {
          assert s[r] == rows[r - Free(d, r)];
        }
      }
    }
  }

  // --- the list of all solutions ---

  function Solution(m: nat, rows: seq<nat>, d: seq<bool>, p: nat): nat
    requires |rows| == |d| == m
  {
    Back(m, WithParams(m, rows, d, p), 0) / 2
  }

  lemma SolutionIff(m: nat, rows: seq<nat>, d: seq<bool>, param: seq<nat>, p: nat, x: nat)
    requires |d| == m && Echelon(m, rows, d, param) && Consistent(m, rows, |param|) && x < Pow2(m)
    ensures x == Solution(m, rows, d, p) <==> AllSat(rows, x) && Chosen(m, d, p, x)
    ensures Solution(m, rows, d, p) < Pow2(m)
  {
    hide WithParams, AllSat, Back, Chosen, Bit, Consistent;
    ParamsTriangular(m, rows, d, p);
    OneSolution(m, WithParams(m, rows, d, p), x);
    ParamsSat(m, rows, d, param, p, x);
  }

  /** Two choices for the free bits that the same solution makes are the same choice. */
  lemma ChoiceUnique(m: nat, d: seq<bool>, p: nat, q: nat, x: nat)
    requires |d| == m && Chosen(m, d, p, x) && Chosen(m, d, q, x)
    requires p < Pow2(Free(d, m)) && q < Pow2(Free(d, m))
    ensures p == q
  {
    hide Pow2, Free;
    forall i: nat
      ensures Bit(p, i) == Bit(q, i)
    {
      if i < Free(d, m) {
        var r := FreeOf(d, m, i);
        assert Bit(x, m - r - 1) == Bit(p, Free(d, r)) == Bit(q, Free(d, r));
      } else {
        BitAbove(p, Free(d, m), i);
        BitAbove(q, Free(d, m), i);
      }
    }
    SameBitsEqual(p, q);
  }

  /** The choice a solution makes, read off column by column. */
  ghost function Choice(m: nat, d: seq<bool>, x: nat, r: nat): nat
    requires r <= |d| == m
  {
    if r == 0 then 0
    else Choice(m, d, x, r - 1) + if d[r - 1] && Bit(x, m - r) then Pow2(Free(d, r - 1)) else 0
  }

  lemma {:induction false} ChoiceBits(m: nat, d: seq<bool>, x: nat, r: nat)
    requires r <= |d| == m
    ensures Choice(m, d, x, r) < Pow2(Free(d, r))
    ensures forall s :: 0 <= s < r && d[s] ==> Bit(Choice(m, d, x, r), Free(d, s)) == Bit(x, m - s - 1)
  {
    if r > 0 {
      hide Bit;
      ChoiceBits(m, d, x, r - 1);
      var p, b := Choice(m, d, x, r - 1), Free(d, r - 1);
      BitAbove(p, b, b);
      forall s | 0 <= s < r && d[s]
        ensures Bit(Choice(m, d, x, r), Free(d, s)) == Bit(x, m - s - 1)
      {
        BitAddLead(b, p, Free(d, s));
        if s < r - 1 {
          FreeMono(d, s + 1, r - 1);
        }
      }
    }
  }

  lemma ChoiceExists(m: nat, d: seq<bool>, x: nat) returns (p: nat)
    requires |d| == m
    ensures p < Pow2(Free(d, m)) && Chosen(m, d, p, x)
  {
    p := Choice(m, d, x, m);
    ChoiceBits(m, d, x, m);
  }

  ghost predicate Lists(sol: seq<nat>, s: set<nat>) {
    && (forall i, j :: 0 <= i < j < |sol| ==> sol[i] != sol[j])
    && (forall x :: x in s <==> x in sol)
  }

  lemma {:induction false} ListsSize(sol: seq<nat>, s: set<nat>)
    requires Lists(sol, s)
    ensures |s| == |sol|
  {
    if sol == [] {
      assert s == {};
    } else {
      var k := |sol| - 1;
      assert sol[k] in s;
      assert forall x :: x in s - {sol[k]} <==> x in sol[..k];
      ListsSize(sol[..k], s - {sol[k]});
    }
  }

  function AllSolutions(m: nat, rows: seq<nat>, d: seq<bool>, n: nat): (s: seq<nat>)
    requires |rows| == |d| == m
    ensures |s| == n
  {
    seq(n, p requires 0 <= p < n => Solution(m, rows, d, p))
  }

  lemma SolutionsListed(m: nat, rows0: seq<nat>, rows: seq<nat>, d: seq<bool>, param: seq<nat>)
    requires |d| == m && Echelon(m, rows, d, param) && Consistent(m, rows, |param|) && SameSols(rows, rows0)
    ensures Lists(AllSolutions(m, rows, d, Pow2(|param|)), Solutions(m, rows0))
  {
    hide Solution, AllSat, Chosen, Pow2, Consistent;
    var n := Pow2(|param|);
    var sol := AllSolutions(m, rows, d, n);
    assert Free(d, m) == |param|;
    forall i, j | 0 <= i < j < n
      ensures sol[i] != sol[j]
    {
      if sol[i] == sol[j] {
        SolutionIff(m, rows, d, param, i, 0);
        SolutionIff(m, rows, d, param, i, sol[i]);
        SolutionIff(m, rows, d, param, j, sol[i]);
        ChoiceUnique(m, d, i, j, sol[i]);
      }
    }
    forall x: nat
      ensures x in Solutions(m, rows0) <==> x in sol
    {
      assert AllSat(rows, x) == AllSat(rows0, x);
      if x in sol {
        var p: nat :| p < n && sol[p] == x;
        SolutionIff(m, rows, d, param, p, 0);
        SolutionIff(m, rows, d, param, p, x);
      }
      if x in Solutions(m, rows0) {
        var p := ChoiceExists(m, d, x);
        SolutionIff(m, rows, d, param, p, x);
        assert sol[p] == x;
      }
    }
  }

  // --- the rest of the procedure ---

  lemma ParamAt(d: seq<bool>, param: seq<nat>, c: nat)
    requires Parameters(d, param) && c < |param|
    ensures param[c] < |d| && d[param[c]] && Free(d, param[c]) == c
  {
    var r := FreeOf(d, |d|, c);
  }

  /** Moves every pivot row to the row of its column and puts a row for the parameter everywhere else;
      gives up when a row without unknowns has a constant. */
  method Rewrite(m: nat, rows: array<nat>, param: seq<nat>, ghost d: seq<bool>) returns (ok: bool)
    requires m <= rows.Length && |d| == m && Echelon(m, rows[..m], d, param)
    modifies rows
    ensures ok <==> Consistent(m, old(rows[..m]), |param|)
    ensures ok ==> rows[..m] == WithParams(m, old(rows[..m]), d, 0)
  {
    hide Bit, Pow2, Free, Pivots, WithParams;
    ghost var was := rows[..m];
    ghost var want := WithParams(m, was, d, 0);
    var k := |param|;
    var p := k;
    var r := m - 1;
    while r >= 0
      invariant -1 <= r < m && p == Free(d, r + 1)
      invariant forall j :: 0 <= j <= r ==> rows[j] == was[j]
      invariant forall j :: r < j < m ==> rows[j] == want[j]
      invariant forall j :: r < j < m && m - k <= j ==> was[j] == 0
      decreases r
    {
      if r > m - 1 - k && rows[r] != 0 {
        assert was[r] != 0;
        return false;
      }
      RewriteRow(m, was, d, param, r);
      if p != 0 && r == param[p - 1] {
        p := p - 1;
        rows[r] := Shl(1, m - r);
      } else {
        rows[r] := rows[r - p];
      }
      r := r - 1;
    }
    assert rows[..m] == want;
    return true;
  }

  lemma RewriteRow(m: nat, rows: seq<nat>, d: seq<bool>, param: seq<nat>, r: nat)
    requires |d| == m == |rows| && Parameters(d, param) && r < m
    ensures
      var p := Free(d, r + 1);
      && p <= |param|
      && ((p != 0 && r == param[p - 1]) <==> d[r])
      && (d[r] ==> p - 1 == Free(d, r) && WithParams(m, rows, d, 0)[r] == Shl(1, m - r))
      && (!d[r] ==> p == Free(d, r) <= r && WithParams(m, rows, d, 0)[r] == rows[r - p])
  {
    FreeMono(d, r + 1, m);
    var p := Free(d, r + 1);
    if d[r] {
      BitZero(Free(d, r));
      ShlPow2(1, m - r);
    } else if p != 0 {
      ParamAt(d, param, p - 1);
    }
  }

  /** Writes the bits of `p` into the constants of the parameter rows. */
  method SetParams(m: nat, rows: array<nat>, param: seq<nat>, p: nat, ghost want: seq<nat>, ghost d: seq<bool>)
    requires m <= rows.Length && |d| == m == |want| && Parameters(d, param)
    requires forall r :: 0 <= r < m && !d[r] ==> rows[r] == want[r]
    requires forall r :: 0 <= r < m && d[r] ==> rows[r] / 2 == want[r] / 2 && want[r] % 2 == Low(Bit(p, Free(d, r)))
    modifies rows
    ensures rows[..m] == want
  {
    hide Bit, Free;
    var k := |param|;
    var c := 0;
    while c < k
      invariant 0 <= c <= k
      invariant forall r :: 0 <= r < m && !d[r] ==> rows[r] == want[r]
      invariant forall r :: 0 <= r < m && d[r] ==> rows[r] / 2 == want[r] / 2
      invariant forall r :: 0 <= r < m && d[r] && Free(d, r) < c ==> rows[r] == want[r]
    {
      ParamAt(d, param, c);
      forall r | 0 <= r < m && d[r] && Free(d, r) == c
        ensures r == param[c]
      {
      }
      rows[param[c]] := 2 * (rows[param[c]] / 2) + Low(Bit(p, c));
      c := c + 1;
    }
    forall r | 0 <= r < m && d[r]
      ensures rows[r] == want[r]
    {
    }
    assert forall r :: 0 <= r < m ==> rows[..m][r] == want[r];
  }

  /** Back substitution, one unknown per row from the last row up. */
  method Substitute(m: nat, rows: array<nat>) returns (x: nat)
    requires m <= rows.Length && m <= MAX_M && Triangular(m, rows[..m])
    ensures x == Back(m, rows[..m], 0) / 2
  {
    hide Pow2, ParityWord, Triangular, Back, And, Or, Shl;
    var tmp: nat := 0;
    var r := m - 1;
    BackNone(m, rows[..m]);
    while r >= 0
      invariant -1 <= r < m && tmp + 1 == Back(m, rows[..m], r + 1)
      decreases r
    {
      SubstituteRow(m, rows[..m], r, tmp);
      var mask := And(rows[r], Or(tmp, 1));
      tmp := Or(tmp, Shl(ParityWord(mask), m - r));
      r := r - 1;
    }
    BackOdd(m, rows[..m], 0);
    x := tmp / 2;
  }

  lemma BackNone(m: nat, rows: seq<nat>)
    requires m == |rows|
    ensures Back(m, rows, m) == 1
  {
  }

  /** One row: the parity of the known part of the equation is the next unknown. */
  lemma SubstituteRow(m: nat, rows: seq<nat>, r: nat, tmp: nat)
    requires m <= MAX_M && Triangular(m, rows) && r < m && tmp + 1 == Back(m, rows, r + 1)
    ensures Or(tmp, Shl(ParityWord(And(rows[r], Or(tmp, 1))), m - r)) + 1 == Back(m, rows, r)
  {
    hide Pow2, Parity, ParityWord, And, Or, Shl;
    BackOdd(m, rows, r + 1);
    OrOne(tmp);
    OrLead(tmp, m - r);
    RowBelow(m, rows, r, Or(tmp, 1));
    ParityWordIs(And(rows[r], Or(tmp, 1)));
  }

  lemma {:induction false} AndBelow(x: nat, y: nat)
    ensures And(x, y) <= x
    decreases x
  {
    if x != 0 {
      AndHalf(x, y);
      AndBelow(x / 2, y / 2);
    }
  }

  lemma RowBelow(m: nat, rows: seq<nat>, r: nat, z: nat)
    requires m <= MAX_M && Triangular(m, rows) && r < m
    ensures And(rows[r], z) < 0x100000000
  {
    AndBelow(rows[r], z);
    Pow2Mono(m - r + 1, 16);
    assert Pow2(4) == 16 && Pow2(8) == 256 && Pow2(12) == 4096 && Pow2(16) == 65536;
  }

  lemma OrOne(x: nat)
    ensures x % 2 == 0 ==> Or(x, 1) == x + 1
  {
    OrHalf(x, 1);
  }

  lemma OrLead(x: nat, b: nat)
    requires x + 1 < Pow2(b)
    ensures Or(x, Shl(1, b)) == x + Pow2(b) && Or(x, Shl(0, b)) == x
  {
    ShlPow2(1, b);
    ShlPow2(0, b);
    forall i: nat
      ensures Bit(Or(x, Pow2(b)), i) == Bit(x + Pow2(b), i)
    {
      BitOr(x, Pow2(b), i);
      BitPow2(b, i);
      BitAddLead(b, x, i);
    }
    SameBitsEqual(Or(x, Pow2(b)), x + Pow2(b));
  }

  /** solve_linear_system(): returns `nsol` and all solutions when there are exactly that many, and 0 otherwise. */
  method SolveLinearSystem(m: nat, rows: array<nat>, sol: array<nat>, nsol: nat) returns (n: nat)
    requires m <= rows.Length && m <= MAX_M && rows != sol && 1 <= nsol <= sol.Length
    requires forall i :: 0 <= i < m ==> rows[i] < Pow2(m + 1)
    modifies rows, sol
    ensures n == if |Solutions(m, old(rows[..m]))| == nsol then nsol else 0
    ensures n != 0 ==> Lists(sol[..nsol], Solutions(m, old(rows[..m])))
  {
    hide Bit, Pow2, Free, Back, WithParams, AllSat, Pivots, Solutions, Lists, Consistent;
    ghost var rows0 := rows[..m];
    var param;
    ghost var d;
    param, d := Gauss(m, rows);
    var k := |param|;
    ghost var ech := rows[..m];
    var ok := true;
    if k > 0 {
      ok := Rewrite(m, rows, param, d);
    } else {
      NoParams(m, ech, d, param);
    }
    if !ok {
      Inconsistent(m, rows0, ech, d, param);
      return 0;
    }
    SolutionsListed(m, rows0, ech, d, param);
    ListsSize(AllSolutions(m, ech, d, Pow2(k)), Solutions(m, rows0));
    if nsol != Pow2(k) {
      return 0;
    }
    var p := 0;
    ghost var cur := 0;
    while p < nsol
      invariant 0 <= p <= nsol && rows[..m] == WithParams(m, ech, d, cur)
      invariant forall i :: 0 <= i < p ==> sol[i] == Solution(m, ech, d, i)
    {
      ParamsDiffer(m, ech, d, cur, p);
      SetParams(m, rows, param, p, WithParams(m, ech, d, p), d);
      cur := p;
      EchelonPivots(m, ech, d, param);
      ParamsTriangular(m, ech, d, p);
      var x := Substitute(m, rows);
      sol[p] := x;
      p := p + 1;
    }
    assert sol[..nsol] == AllSolutions(m, ech, d, nsol);
    return nsol;
  }

  lemma NoParams(m: nat, rows: seq<nat>, d: seq<bool>, param: seq<nat>)
    requires |d| == m && Echelon(m, rows, d, param) && param == []
    ensures Consistent(m, rows, 0) && WithParams(m, rows, d, 0) == rows
  {
    hide Pow2, Parameters, Pivots, Bit;
    var s := WithParams(m, rows, d, 0);
    forall r | 0 <= r < m
      ensures s[r] == rows[r]
    {
      FreeMono(d, r + 1, m);
      FreeMono(d, r, r + 1);
      assert !d[r];
    }
  }

  lemma Inconsistent(m: nat, rows0: seq<nat>, rows: seq<nat>, d: seq<bool>, param: seq<nat>)
    requires |d| == m && Echelon(m, rows, d, param) && SameSols(rows, rows0) && !Consistent(m, rows, |param|)
    ensures |Solutions(m, rows0)| == 0
  {
    hide Sat;
    var i :| 0 <= i < m && m - |param| <= i && rows[i] != 0;
    assert rows[i] < Pow2(1) == 2;
    forall x: nat
      ensures !AllSat(rows0, x)
    {
      assert AllSat(rows, x) == AllSat(rows0, x);
      ZeroSat(x);
      assert !Sat(rows[i], x);
    }
    assert Solutions(m, rows0) == {};
  }

  lemma ParamsDiffer(m: nat, rows: seq<nat>, d: seq<bool>, p: nat, q: nat)
    requires |rows| == |d| == m
    ensures
      var s, t := WithParams(m, rows, d, p), WithParams(m, rows, d, q);
      && (forall r :: 0 <= r < m && !d[r] ==> s[r] == t[r])
      && (forall r :: 0 <= r < m && d[r] ==> s[r] / 2 == t[r] / 2 && t[r] % 2 == Low(Bit(q, Free(d, r))))
  {
    hide Bit, Free;
    forall r | 0 <= r < m && d[r]
      ensures Pow2(m - r) == 2 * Pow2(m - r - 1)
    {
    }
  }
}
