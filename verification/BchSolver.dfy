/**
 lib/bch.c: Gaussian elimination over GF(2).  A row is one equation in `m` unknown bits: bit 0 is
 the constant and bit i + 1 the coefficient of bit i of the unknown, so `x` solves the row when the
 row and 2x + 1 have an even number of bits in common.
 */
module BchSolver {
  import opened Bits

  predicate Parity(x: nat) {
    x != 0 && ((x % 2 == 1) != Parity(x / 2))
  }

  /** Number of common bits, modulo 2. */
  predicate Dot(row: nat, z: nat) {
    Parity(And(row, z))
  }

  predicate Sat(row: nat, x: nat) {
    !Dot(row, 2 * x + 1)
  }

  predicate AllSat(rows: seq<nat>, x: nat) {
    forall r :: 0 <= r < |rows| ==> Sat(rows[r], x)
  }

  ghost predicate SameSols(a: seq<nat>, b: seq<nat>) {
    forall x: nat :: AllSat(a, x) == AllSat(b, x)
  }

  ghost function Solutions(m: nat, rows: seq<nat>): set<nat> {
    set x | 0 <= x < Pow2(m) && AllSat(rows, x)
  }

  // --- parity of the common bits ---

  lemma {:induction false} ParityXor(x: nat, y: nat)
    ensures Parity(Xor(x, y)) == (Parity(x) != Parity(y))
    decreases x + y
  {
    if x != 0 && y != 0 {
      XorHalf(x, y);
      ParityXor(x / 2, y / 2);
    }
  }

  lemma AndXor(x: nat, y: nat, z: nat)
    ensures And(Xor(x, y), z) == Xor(And(x, z), And(y, z))
  {
    var l, r := And(Xor(x, y), z), Xor(And(x, z), And(y, z));
    forall i: nat
      ensures Bit(l, i) == Bit(r, i)
    {
      hide Bit, Xor, And;
      BitXor(x, y, i);
      BitAnd(Xor(x, y), z, i);
      BitAnd(x, z, i);
      BitAnd(y, z, i);
      BitXor(And(x, z), And(y, z), i);
    }
    SameBitsEqual(l, r);
  }

  lemma DotXor(x: nat, y: nat, z: nat)
    ensures Dot(Xor(x, y), z) == (Dot(x, z) != Dot(y, z))
  {
    hide Xor, And, Parity;
    AndXor(x, y, z);
    ParityXor(And(x, z), And(y, z));
  }

  /** Only the bits a row can have matter. */
  lemma DotTrunc(row: nat, z: nat, b: nat)
    requires row < Pow2(b)
    ensures Dot(row, z) == Dot(row, Trunc(z, b))
  {
    var l, r := And(row, z), And(row, Trunc(z, b));
    forall i: nat
      ensures Bit(l, i) == Bit(r, i)
    {
      BitAnd(row, z, i);
      BitAnd(row, Trunc(z, b), i);
      BitTrunc(z, b, i);
      if i >= b {
        BitAbove(row, b, i);
      }
    }
    SameBitsEqual(l, r);
  }

  lemma {:induction false} DotPow2(b: nat, z: nat)
    ensures Dot(Pow2(b), z) == Bit(z, b)
  {
    if b == 0 {
      AndHalf(1, z);
      AndHalf(0, z / 2);
    } else {
      AndHalf(Pow2(b), z);
      assert Pow2(b) / 2 == Pow2(b - 1);
      DotPow2(b - 1, z / 2);
    }
  }

  lemma AddLead(b: nat, x: nat)
    requires x < Pow2(b)
    ensures Xor(Pow2(b), x) == x + Pow2(b)
  {
    hide Xor, Shl;
    ShlPow2(1, b);
    forall i: nat
      ensures Bit(Xor(Pow2(b), x), i) == Bit(x + Pow2(b), i)
    {
      BitXor(Pow2(b), x, i);
      BitPow2(b, i);
      BitJoin(1, x, b, i);
      if i >= b {
        BitAbove(x, b, i);
        if i > b {
          BitAbove(1, 1, i - b);
        }
      }
    }
    SameBitsEqual(Xor(Pow2(b), x), x + Pow2(b));
  }

  lemma BitAddLead(b: nat, x: nat, i: nat)
    requires x < Pow2(b)
    ensures Bit(x + Pow2(b), i) == (i == b || Bit(x, i))
  {
    AddLead(b, x);
    BitXor(Pow2(b), x, i);
    BitPow2(b, i);
    BitAbove(x, b, b);
  }

  /** The leading bit of a row and the rest of it. */
  lemma DotLead(row: nat, z: nat, b: nat)
    requires Pow2(b) <= row < Pow2(b + 1)
    ensures Dot(row, z) == (Bit(z, b) != Dot(row - Pow2(b), Trunc(z, b)))
  {
    hide Dot, Bit, Xor;
    AddLead(b, row - Pow2(b));
    DotXor(Pow2(b), row - Pow2(b), z);
    DotPow2(b, z);
    DotTrunc(row - Pow2(b), z, b);
  }

  lemma TruncStep(z: nat, b: nat)
    ensures Trunc(z, b + 1) == Trunc(z, b) + if Bit(z, b) then Pow2(b) else 0
  {
    hide Trunc, Pow2;
    var l, r := Trunc(z, b + 1), Trunc(z, b) + if Bit(z, b) then Pow2(b) else 0;
    TruncBelow(z, b);
    forall i: nat
      ensures Bit(l, i) == Bit(r, i)
    {
      BitTrunc(z, b + 1, i);
      BitTrunc(z, b, i);
      BitAddLead(b, Trunc(z, b), i);
    }
    SameBitsEqual(l, r);
  }

  lemma ClearedLead(x: nat, b: nat)
    requires x < Pow2(b + 1)
    ensures Bit(x, b) <==> x >= Pow2(b)
  {
    if x >= Pow2(b) {
      BitLead(x, b);
    } else {
      BitAbove(x, b, b);
    }
  }

  // --- back substitution ---

  /** Row `r` leads with bit m - r. */
  ghost predicate Triangular(m: nat, rows: seq<nat>) {
    |rows| == m && forall r :: 0 <= r < m ==> Pow2(m - r) <= rows[r] < Pow2(m - r + 1)
  }

  /** 2x + 1 for the solution x, known down to row `r`. */
  function Back(m: nat, rows: seq<nat>, r: nat): nat
    requires r <= m == |rows|
    decreases m - r
  {
    if r == m then 1
    else
      var z := Back(m, rows, r + 1);
      if Dot(rows[r], z) then z + Pow2(m - r) else z
  }

  lemma {:induction false} BackOdd(m: nat, rows: seq<nat>, r: nat)
    requires r <= m == |rows|
    ensures Back(m, rows, r) < Pow2(m - r + 1) && Back(m, rows, r) % 2 == 1
    decreases m - r
  {
    if r < m {
      BackOdd(m, rows, r + 1);
      assert Pow2(m - r) == 2 * Pow2(m - r - 1);
    }
  }

  lemma {:induction false} BackSolves(m: nat, rows: seq<nat>, r: nat, j: nat)
    requires Triangular(m, rows) && r <= j < m
    ensures !Dot(rows[j], Back(m, rows, r))
    decreases m - r
  {
    hide Dot, Bit;
    var z, b := Back(m, rows, r + 1), m - r;
    var z' := Back(m, rows, r);
    BackOdd(m, rows, r + 1);
    TruncBelow(z, b);
    if j == r {
      DotLead(rows[r], z', b);
      DotLead(rows[r], z, b);
      BackLead(b, z, z');
    } else {
      BackSolves(m, rows, r + 1, j);
      Pow2Mono(m - j + 1, b);
      DotTrunc(rows[j], z', b);
      BackLead(b, z, z');
    }
  }

  lemma BackLead(b: nat, z: nat, z': nat)
    requires z < Pow2(b) && (z' == z || z' == z + Pow2(b))
    ensures Trunc(z', b) == z && !Bit(z, b) && Bit(z', b) == (z' == z + Pow2(b))
  {
    TruncBelow(z, b);
    BitAbove(z, b, b);
    if z' == z + Pow2(b) {
      BitAddLead(b, z, b);
      forall i: nat
        ensures Bit(Trunc(z', b), i) == Bit(z, i)
      {
        BitTrunc(z', b, i);
        BitAddLead(b, z, i);
        if i >= b {
          BitAbove(z, b, i);
        }
      }
      SameBitsEqual(Trunc(z', b), z);
    }
  }

  lemma {:induction false} BackUnique(m: nat, rows: seq<nat>, r: nat, y: nat)
    requires Triangular(m, rows) && r <= m && y % 2 == 1
    requires forall j :: r <= j < m ==> !Dot(rows[j], y)
    ensures Trunc(y, m - r + 1) == Back(m, rows, r)
    decreases m - r
  {
    hide Dot, Bit;
    if r == m {
      assert Trunc(y, 1) == 2 * Trunc(y / 2, 0) + 1;
    } else {
      var z, b := Back(m, rows, r + 1), m - r;
      BackUnique(m, rows, r + 1, y);
      TruncStep(y, b);
      DotLead(rows[r], y, b);
      DotLead(rows[r], z, b);
      BackOdd(m, rows, r + 1);
      BackLead(b, z, z);
    }
  }

  /** A triangular system has exactly one solution. */
  lemma OneSolution(m: nat, rows: seq<nat>, x: nat)
    requires Triangular(m, rows) && x < Pow2(m)
    ensures AllSat(rows, x) <==> x == Back(m, rows, 0) / 2
    ensures Back(m, rows, 0) / 2 < Pow2(m)
  {
    hide Dot;
    var z, y := Back(m, rows, 0), 2 * x + 1;
    BackOdd(m, rows, 0);
    TruncBelow(y, m + 1);
    if AllSat(rows, x) {
      assert forall j :: 0 <= j < m ==> Sat(rows[j], x);
      BackUnique(m, rows, 0, y);
    }
    if x == z / 2 {
      forall j | 0 <= j < m
        ensures Sat(rows[j], x)
      {
        BackSolves(m, rows, 0, j);
      }
    }
  }
}
