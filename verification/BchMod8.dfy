/**
 lib/bch.c: remainders modulo the generator polynomial of degree `e`, kept left-justified in rows of
 32-bit words, and the tables of the remainders of i * X^(8b + e).
 */
module BchMod8 {
  import opened Bits
  import opened Gf2
  import opened BchTables

  // --- the remainder ---

  /** g has degree e. */
  ghost predicate Generator(g: nat, e: nat) {
    e >= 1 && Pow2(e) <= g < Pow2(e + 1)
  }

  /** The remainder of x modulo g: the leading coefficient is cancelled until the degree is below e. */
  ghost function Rem(g: nat, e: nat, x: nat): (r: nat)
    requires Generator(g, e)
    ensures r < Pow2(e) && Cong(g, x, r)
    decreases x
  {
    if x < Pow2(e) then
      CongSame(g, x);
      x
    else
      CancelLead(g, e, x);
      var y := Xor(x, Shl(g, Deg(x) - e));
      var r := Rem(g, e, y);
      CongTrans(g, x, y, r);
      r
  }

  lemma CancelLead(g: nat, e: nat, x: nat)
    requires Generator(g, e) && x >= Pow2(e)
    ensures Deg(x) >= e && Xor(x, Shl(g, Deg(x) - e)) < x && Cong(g, x, Xor(x, Shl(g, Deg(x) - e)))
  {
    hide Xor, Shl;
    var d := Deg(x);
    if d < e {
      Pow2Mono(d + 1, e);
    }
    var k := d - e;
    CongStep(g, x, k);
    forall b: nat | d <= b
      ensures !Bit(Xor(x, Shl(g, k)), b)
    {
      BitXor(x, Shl(g, k), b);
      BitShl(g, k, b);
      if b == d {
        BitLead(x, d);
        BitLead(g, e);
      } else {
        BitAbove(x, d + 1, b);
        BitAbove(g, e + 1, b - k);
      }
    }
    NoBitAbove(Xor(x, Shl(g, k)), d);
  }

  lemma RemUnique(g: nat, e: nat, x: nat, r: nat)
    requires Generator(g, e) && r < Pow2(e) && Cong(g, x, r)
    ensures Rem(g, e, x) == r
  {
    hide Rem, Xor;
    var s := Rem(g, e, x);
    CongSym(g, x, s);
    CongTrans(g, s, x, r);
    RemainderUnique(g, e, s, r);
  }

  lemma RemXor(g: nat, e: nat, x: nat, y: nat)
    requires Generator(g, e)
    ensures Rem(g, e, Xor(x, y)) == Xor(Rem(g, e, x), Rem(g, e, y))
  {
    hide Rem, Xor;
    var r, s := Rem(g, e, x), Rem(g, e, y);
    CongXor(g, x, y, r, s);
    XorBelow(r, s, e);
    RemUnique(g, e, Xor(x, y), Xor(r, s));
  }

  lemma RemShl(g: nat, e: nat, x: nat, k: nat)
    requires Generator(g, e)
    ensures Rem(g, e, Shl(Rem(g, e, x), k)) == Rem(g, e, Shl(x, k))
  {
    hide Rem, Shl;
    var r := Rem(g, e, x);
    CongShl(g, x, r, k);
    CongTrans(g, Shl(x, k), Shl(r, k), Rem(g, e, Shl(r, k)));
    RemUnique(g, e, Shl(x, k), Rem(g, e, Shl(r, k)));
  }

  lemma RemSmall(g: nat, e: nat, x: nat)
    requires Generator(g, e) && x < Pow2(e)
    ensures Rem(g, e, x) == x
  {
  }

  // --- left-justified rows of words ---

  const WORD: nat := 0x100000000

  lemma WordIs()
    ensures Pow2(32) == WORD && Pow2(24) == 0x1000000 && Pow2(8) == 0x100
  {
    assert Pow2(4) == 16;
    assert Pow2(8) == 256;
    assert Pow2(12) == 4096;
    assert Pow2(16) == 65536;
    assert Pow2(20) == 0x100000;
    assert Pow2(24) == 0x1000000;
    assert Pow2(28) == 0x10000000;
  }

  /** The row `ws` holds the polynomial `p` with `e` coefficients, the one of X^(e-1) in the top bit of
      word 0; the bits after the last coefficient are zero. */
  ghost predicate Holds(ws: seq<nat>, e: nat, p: nat) {
    && (forall i :: 0 <= i < |ws| ==> ws[i] < WORD)
    && e <= 32 * |ws| && p < Pow2(e)
    && forall i, j {:trigger RowBit(ws, i, j)} :: 0 <= i < |ws| && 0 <= j < 32 ==> RowBit(ws, i, j) == PolyBit(p, e, 32 * i + j)
  }

  /** Bit `j` of word `i`, counted from the most significant one. */
  ghost predicate RowBit(ws: seq<nat>, i: nat, j: nat)
    requires i < |ws| && j < 32
  {
    Bit(ws[i], 31 - j)
  }

  ghost predicate PolyBit(p: nat, e: nat, k: nat) {
    k < e && Bit(p, e - 1 - k)
  }

  lemma HoldsBit(ws: seq<nat>, e: nat, p: nat, i: nat, b: nat)
    requires Holds(ws, e, p) && i < |ws|
    ensures Bit(ws[i], b) == (b < 32 && PolyBit(p, e, 32 * i + 31 - b))
  {
    if b < 32 {
      assert RowBit(ws, i, 31 - b) == Bit(ws[i], b);
    } else {
      WordIs();
      BitAbove(ws[i], 32, b);
    }
  }

  ghost function XorRows(a: seq<nat>, b: seq<nat>): (c: seq<nat>)
    requires |a| == |b|
    ensures |c| == |a|
  {
    seq(|a|, i requires 0 <= i < |a| => Xor(a[i], b[i]))
  }

  lemma XorHolds(a: seq<nat>, b: seq<nat>, e: nat, p: nat, q: nat)
    requires Holds(a, e, p) && Holds(b, e, q) && |a| == |b|
    ensures Holds(XorRows(a, b), e, Xor(p, q))
  {
    hide Xor, Bit;
    var c := XorRows(a, b);
    XorBelow(p, q, e);
    WordIs();
    forall i | 0 <= i < |c|
      ensures c[i] < WORD
    {
      XorBelow(a[i], b[i], 32);
    }
    forall i, j | 0 <= i < |c| && 0 <= j < 32
      ensures RowBit(c, i, j) == PolyBit(Xor(p, q), e, 32 * i + j)
    {
      BitXor(a[i], b[i], 31 - j);
      assert RowBit(a, i, j) == PolyBit(p, e, 32 * i + j);
      assert RowBit(b, i, j) == PolyBit(q, e, 32 * i + j);
      if 32 * i + j < e {
        BitXor(p, q, e - 1 - (32 * i + j));
      }
    }
  }

  lemma ZeroHolds(ws: seq<nat>, e: nat)
    requires e <= 32 * |ws| && forall i :: 0 <= i < |ws| ==> ws[i] == 0
    ensures Holds(ws, e, 0)
  {
    forall i, j | 0 <= i < |ws| && 0 <= j < 32
      ensures RowBit(ws, i, j) == PolyBit(0, e, 32 * i + j)
    {
      BitZero(31 - j);
      if 32 * i + j < e {
        BitZero(e - 1 - (32 * i + j));
      }
    }
  }

  // --- one step of the table construction ---

  /** hi | lo: word `j` of the row shifted left by d + 1 bits. */
  function ShiftedWord(gw: seq<nat>, d: nat, j: nat): nat
    requires j < |gw| && d < 32
  {
    var hi := if d < 31 then Trunc(Shl(gw[j], d + 1), 32) else 0;
    var lo := if j + 1 < |gw| then Shr(gw[j + 1], 31 - d) else 0;
    Or(hi, lo)
  }

  lemma ShiftedBit(gw: seq<nat>, n: nat, g: nat, d: nat, j: nat, b: nat)
    requires Holds(gw, n, g) && d < 32 && j < |gw|
    ensures Bit(ShiftedWord(gw, d, j), b) == (b < 32 && PolyBit(g, n, 32 * j + 31 - b + d + 1))
  {
    hide Bit, Shl, Shr, Or, Trunc;
    var hi := if d < 31 then Trunc(Shl(gw[j], d + 1), 32) else 0;
    var lo := if j + 1 < |gw| then Shr(gw[j + 1], 31 - d) else 0;
    BitOr(hi, lo, b);
    BitZero(b);
    if d < 31 {
      BitTrunc(Shl(gw[j], d + 1), 32, b);
      BitShl(gw[j], d + 1, b);
      if b >= d + 1 {
        HoldsBit(gw, n, g, j, b - (d + 1));
      }
    }
    if j + 1 < |gw| {
      BitShr(gw[j + 1], 31 - d, b);
      HoldsBit(gw, n, g, j + 1, b + 31 - d);
    }
  }

  /** Taking X^d g out: what it does to the row of the table ... */
  lemma TakeRow(gw: seq<nat>, g: nat, e: nat, tab: seq<nat>, tab': seq<nat>, q: nat, d: nat, n: nat)
    requires Holds(gw, e + 1, g) && d < 32 && Holds(tab, e, q) && |tab| == |tab'|
    requires e <= 32 * n && n <= |gw| && n <= |tab|
    requires forall j :: 0 <= j < |tab| ==> tab'[j] == if j < n then Xor(tab[j], ShiftedWord(gw, d, j)) else tab[j]
    ensures Holds(tab', e, Xor(q, Trunc(Shl(g, d), e)))
  {
    hide Xor, Bit, Shl, Trunc, ShiftedWord;
    var low := Trunc(Shl(g, d), e);
    TruncBelow(Shl(g, d), e);
    XorBelow(q, low, e);
    WordIs();
    forall j | 0 <= j < |tab'|
      ensures tab'[j] < WORD
    {
      if j < n {
        ShiftedBelow(gw, e + 1, g, d, j);
        XorBelow(tab[j], ShiftedWord(gw, d, j), 32);
      }
    }
    forall i, j | 0 <= i < |tab'| && 0 <= j < 32
      ensures RowBit(tab', i, j) == PolyBit(Xor(q, low), e, 32 * i + j)
    {
      TakeBit(gw, g, e, tab, q, d, n, i, j);
    }
  }

  lemma ShiftedBelow(gw: seq<nat>, n: nat, g: nat, d: nat, j: nat)
    requires Holds(gw, n, g) && d < 32 && j < |gw|
    ensures ShiftedWord(gw, d, j) < Pow2(32)
  {
    hide Bit, ShiftedWord, Pow2;
    forall b: nat | 32 <= b
      ensures !Bit(ShiftedWord(gw, d, j), b)
    {
      ShiftedBit(gw, n, g, d, j, b);
    }
    NoBitAbove(ShiftedWord(gw, d, j), 32);
  }

  lemma TakeBit(gw: seq<nat>, g: nat, e: nat, tab: seq<nat>, q: nat, d: nat, n: nat, i: nat, j: nat)
    requires Holds(gw, e + 1, g) && d < 32 && Holds(tab, e, q) && e <= 32 * n && n <= |gw| && i < |tab| && j < 32
    ensures
      Bit(if i < n then Xor(tab[i], ShiftedWord(gw, d, i)) else tab[i], 31 - j)
      == PolyBit(Xor(q, Trunc(Shl(g, d), e)), e, 32 * i + j)
  {
    hide Xor, Bit, Shl, Trunc, ShiftedWord;
    var k := 32 * i + j;
    assert RowBit(tab, i, j) == PolyBit(q, e, k);
    if i < n {
      BitXor(tab[i], ShiftedWord(gw, d, i), 31 - j);
      ShiftedBit(gw, e + 1, g, d, i, 31 - j);
    }
    if k < e {
      BitXor(q, Trunc(Shl(g, d), e), e - 1 - k);
      BitTrunc(Shl(g, d), e, e - 1 - k);
      BitShl(g, d, e - 1 - k);
    }
  }

  /** ... and to the part above X^e. */
  lemma TakeData(gw: seq<nat>, g: nat, e: nat, d: nat)
    requires Holds(gw, e + 1, g) && d < 32 && |gw| >= 1
    ensures Shr(gw[0], 31 - d) == Shr(Shl(g, d), e)
  {
    hide Bit, Shl, Shr;
    forall b: nat
      ensures Bit(Shr(gw[0], 31 - d), b) == Bit(Shr(Shl(g, d), e), b)
    {
      BitShr(gw[0], 31 - d, b);
      HoldsBit(gw, e + 1, g, 0, b + 31 - d);
      BitShr(Shl(g, d), e, b);
      BitShl(g, d, b + e);
      if b > d {
        BitAbove(g, e + 1, b + e - d);
      }
    }
    SameBitsEqual(Shr(gw[0], 31 - d), Shr(Shl(g, d), e));
  }

  /** The leading bit of the data goes away. */
  lemma TakeLess(g: nat, e: nat, data: nat, d: nat)
    requires Generator(g, e) && Pow2(d) <= data < Pow2(d + 1)
    ensures Xor(data, Shr(Shl(g, d), e)) < Pow2(d)
  {
    hide Xor, Bit, Shl, Shr;
    var y := Shr(Shl(g, d), e);
    forall b: nat | d <= b
      ensures !Bit(Xor(data, y), b)
    {
      BitXor(data, y, b);
      BitShr(Shl(g, d), e, b);
      BitShl(g, d, b + e);
      if b == d {
        BitLead(data, d);
        BitLead(g, e);
      } else {
        BitAbove(data, d + 1, b);
        BitAbove(g, e + 1, b + e - d);
      }
    }
    NoBitAbove(Xor(data, y), d);
  }

  lemma TakeCong(g: nat, e: nat, data: nat, q: nat, d: nat)
    requires Generator(g, e)
    ensures
      var x := Shl(g, d);
      Cong(g, Xor(Shl(data, e), q), Xor(Shl(Xor(data, Shr(x, e)), e), Xor(q, Trunc(x, e))))
  {
    hide Xor, Shl, Shr, Trunc;
    var x := Shl(g, d);
    XorShl(data, Shr(x, e), e);
    SplitXor(x, e);
    XorSwap(Shl(data, e), Shl(Shr(x, e), e), q, Trunc(x, e));
    CongStep(g, Xor(Shl(data, e), q), d);
  }

  // --- the tables ---

  /** Entry (b, i) is the remainder of i * X^(8b + e). */
  ghost predicate EntryOk(tab: seq<seq<nat>>, l: nat, g: nat, e: nat, b: nat, i: nat)
    requires Generator(g, e) && |tab| == 1024 && b < 4 && i < 256
  {
    |tab[256 * b + i]| == l && Holds(tab[256 * b + i], e, Rem(g, e, Shl(i, 8 * b + e)))
  }

  ghost predicate TablesOk(tab: seq<seq<nat>>, l: nat, g: nat, e: nat)
    requires Generator(g, e)
  {
    |tab| == 1024 && forall b, i :: 0 <= b < 4 && 0 <= i < 256 ==> EntryOk(tab, l, g, e, b, i)
  }

  /** One entry, by long division. */
  method BuildEntry(gw: seq<nat>, ghost g: nat, e: nat, l: nat, ecclen: nat, start: nat) returns (tab: seq<nat>)
    requires Generator(g, e) && Holds(gw, e + 1, g) && e <= 32 * ecclen && ecclen <= l && 1 <= ecclen <= |gw| && start < WORD
    ensures |tab| == l && Holds(tab, e, Rem(g, e, Shl(start, e)))
  {
    hide Xor, Bit, Shl, Shr, Trunc, Holds, ShiftedWord, Cong, Rem, Pow2, Generator;
    tab := seq(l, _ => 0);
    ZeroHolds(tab, e);
    ghost var q: nat := 0;
    var data: nat := start;
    WordIs();
    XorSelf(Shl(start, e));
    CongSame(g, Shl(start, e));
    while data != 0
      invariant data < WORD && |tab| == l && Holds(tab, e, q)
      invariant Cong(g, Shl(start, e), Xor(Shl(data, e), q))
      decreases data
    {
      var d := Deg(data);
      WordDegree(data, d);
      TakeLess(g, e, data, d);
      TakeData(gw, g, e, d);
      TakeCong(g, e, data, q, d);
      ghost var x := Shl(g, d);
      CongTrans(g, Shl(start, e), Xor(Shl(data, e), q), Xor(Shl(Xor(data, Shr(x, e)), e), Xor(q, Trunc(x, e))));
      data := Xor(data, Shr(gw[0], 31 - d));
      ghost var was := tab;
      var j := 0;
      while j < ecclen
        invariant 0 <= j <= ecclen && |tab| == l
        invariant forall k :: 0 <= k < l ==> tab[k] == if k < j then Xor(was[k], ShiftedWord(gw, d, k)) else was[k]
      {
        tab := tab[j := Xor(tab[j], ShiftedWord(gw, d, j))];
        j := j + 1;
      }
      TakeRow(gw, g, e, was, tab, q, d, ecclen);
      q := Xor(q, Trunc(x, e));
    }
    EntryDone(g, e, Shl(start, e), tab, q);
  }

  lemma WordDegree(data: nat, d: nat)
    requires Pow2(d) <= data < WORD
    ensures d < 32
  {
    if d >= 32 {
      WordIs();
      Pow2Mono(32, d);
    }
  }

  lemma EntryDone(g: nat, e: nat, x: nat, tab: seq<nat>, q: nat)
    requires Generator(g, e) && Holds(tab, e, q) && Cong(g, x, Xor(Shl(0, e), q))
    ensures Holds(tab, e, Rem(g, e, x))
  {
    ShlPow2(0, e);
    XorSelf(q);
    RemUnique(g, e, x, q);
  }

  /** build_mod8_tables(): `gw` is the generator left-justified, so its top bit is set. */
  method BuildMod8Tables(gw: seq<nat>, ghost g: nat, e: nat, l: nat, ecclen: nat) returns (tab: seq<seq<nat>>)
    requires Generator(g, e) && Holds(gw, e + 1, g) && e <= 32 * ecclen && ecclen <= l && 1 <= ecclen <= |gw|
    ensures TablesOk(tab, l, g, e)
  {
    hide Generator, Holds, Rem, Shl;
    tab := seq(1024, _ => []);
    var i: nat := 0;
    while i < 256
      invariant 0 <= i <= 256 && |tab| == 1024
      invariant forall b', i' :: 0 <= b' < 4 && 0 <= i' < i ==> EntryOk(tab, l, g, e, b', i')
    {
      var b: nat := 0;
      while b < 4
        invariant 0 <= b <= 4 && |tab| == 1024
        invariant forall b', i' :: 0 <= b' < 4 && 0 <= i' < i ==> EntryOk(tab, l, g, e, b', i')
        invariant forall b' :: 0 <= b' < b ==> EntryOk(tab, l, g, e, b', i)
      {
        ShlByte(i, b, e);
        var row := BuildEntry(gw, g, e, l, ecclen, Shl(i, 8 * b));
        ghost var was := tab;
        tab := tab[256 * b + i := row];
        assert forall b', i' :: 0 <= b' < 4 && 0 <= i' < 256 && !(b' == b && i' == i) && EntryOk(was, l, g, e, b', i') ==> EntryOk(tab, l, g, e, b', i');
        b := b + 1;
      }
      i := i + 1;
    }
  }

  lemma ShlByte(i: nat, b: nat, e: nat)
    requires i < 256 && b < 4
    ensures Shl(i, 8 * b) < WORD && Shl(Shl(i, 8 * b), e) == Shl(i, 8 * b + e)
  {
    ShlShl(i, 8 * b, e);
    ShlPow2(i, 8 * b);
    WordIs();
    assert Pow2(16) == 65536;
    assert Pow2(0) == 1;
  }
}
