/**
 lib/bch.c: rows whose last bits are not zero.  The row of a remainder with `e` coefficients is also that of the remainder
 times X^d; the generator times X^d makes a theory of all rows out of that of the remainders.
 */
module BchWide {
  import opened Bits
  import opened Gf2
  import opened BchMod8

  lemma {:induction false} ShlBelow(r: nat, e: nat, d: nat)
    requires r < Pow2(e)
    ensures Shl(r, d) < Pow2(e + d)
  {
    if d > 0 {
      ShlBelow(r, e, d - 1);
    }
  }

  lemma {:induction false} ShlLeast(g: nat, e: nat, d: nat)
    requires Pow2(e) <= g
    ensures Pow2(e + d) <= Shl(g, d)
  {
    if d > 0 {
      ShlLeast(g, e, d - 1);
    }
  }

  lemma GeneratorWide(g: nat, e: nat, d: nat)
    requires Generator(g, e)
    ensures Generator(Shl(g, d), e + d)
  {
    hide Shl, Pow2;
    ShlLeast(g, e, d);
    ShlBelow(g, e + 1, d);
  }

  lemma {:induction false} MulShl(g: nat, q: nat, d: nat)
    ensures ClMul(Shl(g, d), q) == Shl(ClMul(g, q), d)
  {
    hide ClMul;
    if d > 0 {
      MulShl(g, q, d - 1);
      MulDouble(Shl(g, d - 1), q);
    }
  }

  lemma CongWide(g: nat, x: nat, y: nat, d: nat)
    requires Cong(g, x, y)
    ensures Cong(Shl(g, d), Shl(x, d), Shl(y, d))
  {
    hide ClMul, Xor, Shl;
    var q: nat :| ClMul(g, q) == Xor(x, y);
    MulShl(g, q, d);
    XorShl(x, y, d);
  }

  /** The remainder of a multiple of X^d. */
  lemma RemWide(g: nat, e: nat, x: nat, d: nat)
    requires Generator(g, e)
    ensures Generator(Shl(g, d), e + d) && Rem(Shl(g, d), e + d, Shl(x, d)) == Shl(Rem(g, e, x), d)
  {
    hide Rem, Cong, Generator, Shl;
    GeneratorWide(g, e, d);
    CongWide(g, x, Rem(g, e, x), d);
    ShlBelow(Rem(g, e, x), e, d);
    RemUnique(Shl(g, d), e + d, Shl(x, d), Shl(Rem(g, e, x), d));
  }

  lemma PolyBitWide(r: nat, e: nat, d: nat, k: nat)
    ensures PolyBit(Shl(r, d), e + d, k) == PolyBit(r, e, k)
  {
    hide Shl, Bit;
    if k < e + d {
      BitShl(r, d, e + d - 1 - k);
    }
  }

  lemma HoldsWide(ws: seq<nat>, e: nat, r: nat, d: nat)
    requires r < Pow2(e) && e + d <= 32 * |ws|
    ensures Holds(ws, e, r) <==> Holds(ws, e + d, Shl(r, d))
  {
    hide Shl, Bit, PolyBit, Pow2;
    ShlBelow(r, e, d);
    forall k: nat
      ensures PolyBit(Shl(r, d), e + d, k) == PolyBit(r, e, k)
    {
      PolyBitWide(r, e, d, k);
    }
  }

  lemma TablesWide(tab: seq<seq<nat>>, l: nat, g: nat, e: nat, d: nat)
    requires Generator(g, e) && TablesOk(tab, l, g, e) && e + d <= 32 * l
    ensures Generator(Shl(g, d), e + d) && TablesOk(tab, l, Shl(g, d), e + d)
  {
    hide Rem, Shl, Holds, Generator;
    GeneratorWide(g, e, d);
    var g', e' := Shl(g, d), e + d;
    forall b, i | 0 <= b < 4 && 0 <= i < 256
      ensures EntryOk(tab, l, g', e', b, i)
    {
      assert EntryOk(tab, l, g, e, b, i);
      RemWide(g, e, Shl(i, 8 * b + e), d);
      ShlShl(i, 8 * b + e, d);
      HoldsWide(tab[256 * b + i], e, Rem(g, e, Shl(i, 8 * b + e)), d);
    }
  }

  // --- any row ---

  /** The polynomial of all bits of a row. */
  ghost function RowPoly(ws: seq<nat>): nat {
    if ws == [] then 0 else Shl(RowPoly(ws[..|ws| - 1]), 32) + ws[|ws| - 1]
  }

  lemma {:induction false} RowHolds(ws: seq<nat>)
    requires forall i :: 0 <= i < |ws| ==> ws[i] < WORD
    ensures Holds(ws, 32 * |ws|, RowPoly(ws))
  {
    hide Shl, Bit, Pow2;
    if ws == [] {
      NothingBelow();
    } else {
      var n := |ws| - 1;
      var rest, w := ws[..n], ws[n];
      RowHolds(rest);
      RowBelow(RowPoly(rest), w, 32 * n);
      forall i, j | 0 <= i < |ws| && 0 <= j < 32
        ensures RowBit(ws, i, j) == PolyBit(RowPoly(ws), 32 * |ws|, 32 * i + j)
      {
        WordIs();
        BitJoin(RowPoly(rest), w, 32, 32 * n + 31 - 32 * i - j);
        if i < n {
          assert RowBit(rest, i, j) == PolyBit(RowPoly(rest), 32 * n, 32 * i + j);
        }
      }
    }
  }

  lemma NothingBelow()
    ensures 0 < Pow2(0)
  {
  }

  lemma RowBelow(p: nat, w: nat, e: nat)
    requires p < Pow2(e) && w < WORD
    ensures Shl(p, 32) + w < Pow2(e + 32)
  {
    hide Pow2;
    WordIs();
    ShlPow2(p, 32);
    ShlPow2(Pow2(e), 32);
    Pow2Add(e, 32);
    assert (p + 1) * Pow2(32) <= Pow2(e) * Pow2(32);
  }

  lemma HoldsUnique(ws: seq<nat>, p: nat, q: nat)
    requires Holds(ws, 32 * |ws|, p) && Holds(ws, 32 * |ws|, q)
    ensures p == q
  {
    hide Bit, Pow2;
    var e := 32 * |ws|;
    forall b: nat
      ensures Bit(p, b) == Bit(q, b)
    {
      if b < e {
        var k := e - 1 - b;
        assert RowBit(ws, k / 32, k % 32) == PolyBit(p, e, 32 * (k / 32) + k % 32);
        assert RowBit(ws, k / 32, k % 32) == PolyBit(q, e, 32 * (k / 32) + k % 32);
      } else {
        BitAbove(p, e, b);
        BitAbove(q, e, b);
      }
    }
    SameBitsEqual(p, q);
  }
}
