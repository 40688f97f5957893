/**
 lib/bch.c: the encoder.  Its state is a remainder modulo the generator polynomial, held in a row of
 32-bit words; data enters byte by byte, or four bytes at a time through four tables.
 */
module BchEncode {
  import opened Bits
  import opened Gf2
  import opened BchMod8
  import opened BchWide

  /** The parts of struct bch_control the encoder uses. */
  datatype Control = Control(l: nat, e: nat, eccBytes: nat, tab: seq<seq<nat>>, swap: bool)

  ghost predicate ControlOk(c: Control, g: nat) {
    Generator(g, c.e) && TablesOk(c.tab, c.l, g, c.e) && 1 <= c.l
  }

  /** BCH_ECC_BYTES() and BCH_ECC_WORDS() */
  ghost predicate SizesOk(c: Control) {
    1 <= c.l && c.e <= 8 * c.eccBytes && 4 * (c.l - 1) < c.eccBytes <= 4 * c.l
  }

  ghost predicate Bytes(s: seq<nat>) {
    forall i :: 0 <= i < |s| ==> s[i] < 256
  }

  // --- what the encoder computes ---

  /** The remainder after `bytes`, one byte at a time. */
  ghost function Absorb(g: nat, e: nat, r: nat, bytes: seq<nat>): (r': nat)
    requires Generator(g, e) && r < Pow2(e)
    ensures r' < Pow2(e)
  {
    if bytes == [] then r
    else
      var n := |bytes| - 1;
      Rem(g, e, Xor(Shl(Absorb(g, e, r, bytes[..n]), 8), Shl(bytes[n], e)))
  }

  /** The polynomial whose coefficients are the bits of the bytes, first byte first. */
  ghost function Message(bytes: seq<nat>): nat {
    if bytes == [] then 0 else Xor(Shl(Message(bytes[..|bytes| - 1]), 8), bytes[|bytes| - 1])
  }

  /** Byte by byte or at once: r X^(8n) + M(X) X^e modulo g. */
  lemma {:induction false} AbsorbIsRemainder(g: nat, e: nat, r: nat, bytes: seq<nat>)
    requires Generator(g, e) && r < Pow2(e)
    ensures Absorb(g, e, r, bytes) == Rem(g, e, Xor(Shl(r, 8 * |bytes|), Shl(Message(bytes), e)))
  {
    hide Xor, Shl, Rem, Generator;
    if bytes == [] {
      ShlNothing(r, e);
      XorSelf(r);
      RemSmall(g, e, r);
    } else {
      var n := |bytes| - 1;
      var rest, b := bytes[..n], bytes[n];
      AbsorbIsRemainder(g, e, r, rest);
      var x := Xor(Shl(r, 8 * n), Shl(Message(rest), e));
      RemXor(g, e, Shl(Rem(g, e, x), 8), Shl(b, e));
      RemShl(g, e, x, 8);
      RemXor(g, e, Shl(x, 8), Shl(b, e));
      MessageStep(r, n, Message(rest), b, e);
    }
  }

  lemma ShlNothing(r: nat, e: nat)
    ensures Shl(r, 0) == r && Shl(0, e) == 0
  {
    ShlPow2(0, e);
  }

  lemma MessageStep(r: nat, n: nat, m: nat, b: nat, e: nat)
    ensures
      Xor(Shl(Xor(Shl(r, 8 * n), Shl(m, e)), 8), Shl(b, e))
      == Xor(Shl(r, 8 * (n + 1)), Shl(Xor(Shl(m, 8), b), e))
  {
    hide Xor, Shl;
    XorShl(Shl(r, 8 * n), Shl(m, e), 8);
    ShlShl(r, 8 * n, 8);
    ShlShl(m, e, 8);
    ShlShl(m, 8, e);
    XorShl(Shl(m, 8), b, e);
    XorAssoc(Shl(r, 8 * n + 8), Shl(m, e + 8), Shl(b, e));
  }

  lemma {:induction false} AbsorbConcat(g: nat, e: nat, r: nat, a: seq<nat>, b: seq<nat>)
    requires Generator(g, e) && r < Pow2(e)
    ensures Absorb(g, e, r, a + b) == Absorb(g, e, Absorb(g, e, r, a), b)
  {
    hide Rem, Generator;
    if b == [] {
      assert a + b == a;
    } else {
      var n := |b| - 1;
      AbsorbConcat(g, e, r, a, b[..n]);
      assert (a + b)[..|a| + n] == a + b[..n];
    }
  }

  // --- one step on the row ---

  /** Taking in `x` at shift `s`: the part above X^e goes through the table, the rest stays. */
  lemma StepIsRemainder(g: nat, e: nat, r: nat, s: nat, x: nat)
    requires Generator(g, e)
    ensures
      var y := Shl(r, s);
      Rem(g, e, Xor(y, Shl(x, e))) == Xor(Trunc(y, e), Rem(g, e, Shl(Xor(Shr(y, e), x), e)))
  {
    hide Xor, Shl, Shr, Trunc, Rem, Generator;
    var y := Shl(r, s);
    var hi, lo := Shr(y, e), Trunc(y, e);
    SplitXor(y, e);
    XorShl(hi, x, e);
    XorComm(Shl(hi, e), lo);
    XorAssoc(lo, Shl(hi, e), Shl(x, e));
    RemXor(g, e, lo, Shl(Xor(hi, x), e));
    TruncBelow(y, e);
    RemSmall(g, e, lo);
  }

  ghost function ShiftedRow(ws: seq<nat>, d: nat): (s: seq<nat>)
    requires d < 32
    ensures |s| == |ws|
  {
    seq(|ws|, i requires 0 <= i < |ws| => ShiftedWord(ws, d, i))
  }

  /** Shifting the row keeps what is below X^e ... */
  lemma ShiftHolds(ws: seq<nat>, e: nat, r: nat, d: nat)
    requires Holds(ws, e, r) && d < 32
    ensures Holds(ShiftedRow(ws, d), e, Trunc(Shl(r, d + 1), e))
  {
    hide Bit, Shl, Trunc, ShiftedWord;
    var s, low := ShiftedRow(ws, d), Trunc(Shl(r, d + 1), e);
    TruncBelow(Shl(r, d + 1), e);
    WordIs();
    forall i | 0 <= i < |s|
      ensures s[i] < WORD
    {
      ShiftedBelow(ws, e, r, d, i);
    }
    forall i, j | 0 <= i < |s| && 0 <= j < 32
      ensures RowBit(s, i, j) == PolyBit(low, e, 32 * i + j)
    {
      var k := 32 * i + j;
      ShiftedBit(ws, e, r, d, i, 31 - j);
      if k < e {
        BitTrunc(Shl(r, d + 1), e, e - 1 - k);
        BitShl(r, d + 1, e - 1 - k);
      }
    }
  }

  /** ... and what it shifts out is the part above X^e. */
  lemma TopPart(ws: seq<nat>, e: nat, r: nat, s: nat)
    requires Holds(ws, e, r) && 1 <= |ws| && s <= 32
    ensures Shr(ws[0], 32 - s) == Shr(Shl(r, s), e)
  {
    hide Bit, Shl, Shr;
    forall b: nat
      ensures Bit(Shr(ws[0], 32 - s), b) == Bit(Shr(Shl(r, s), e), b)
    {
      BitShr(ws[0], 32 - s, b);
      HoldsBit(ws, e, r, 0, b + 32 - s);
      BitShr(Shl(r, s), e, b);
      BitShl(r, s, b + e);
      if b >= s {
        BitAbove(r, e, b + e - s);
      }
    }
    SameBitsEqual(Shr(ws[0], 32 - s), Shr(Shl(r, s), e));
  }

  /** One row step: the shifted row plus the row of a table entry. */
  lemma RowStep(ws: seq<nat>, p: seq<nat>, g: nat, e: nat, r: nat, d: nat, x: nat)
    requires Generator(g, e) && Holds(ws, e, r) && d < 32 && |p| == |ws|
    requires Holds(p, e, Rem(g, e, Shl(Xor(Shr(Shl(r, d + 1), e), x), e)))
    ensures Holds(XorRows(ShiftedRow(ws, d), p), e, Rem(g, e, Xor(Shl(r, d + 1), Shl(x, e))))
  {
    hide Xor, Shl, Shr, Trunc, Rem, Generator, Holds, ShiftedRow, XorRows;
    ShiftHolds(ws, e, r, d);
    StepIsRemainder(g, e, r, d + 1, x);
    XorHolds(ShiftedRow(ws, d), p, e, Trunc(Shl(r, d + 1), e), Rem(g, e, Shl(Xor(Shr(Shl(r, d + 1), e), x), e)));
  }

  // --- bytes ---

  lemma ByteParts(x: nat)
    ensures Shr(x, 8) == x / 256 && Trunc(x, 8) == x % 256
  {
    hide Shr, Trunc, Shl;
    Split(x, 8);
    ShlPow2(Shr(x, 8), 8);
    TruncBelow(x, 8);
    WordIs();
  }

  lemma ByteAbove(x: nat, b: nat)
    requires x < 256 && 8 <= b
    ensures !Bit(x, b)
  {
    WordIs();
    BitAbove(x, 8, b);
  }

  /** The number with the given bits, highest first. */
  function Eight(b7: bool, b6: bool, b5: bool, b4: bool, b3: bool, b2: bool, b1: bool, b0: bool): (r: nat)
    ensures r < 256
  {
    Low(b0) + 2 * (Low(b1) + 2 * (Low(b2) + 2 * (Low(b3) + 2 * (Low(b4) + 2 * (Low(b5) + 2 * (Low(b6) + 2 * Low(b7)))))))
  }

  /** swap_bits_table: the byte with its bits in the opposite order. */
  function Reversed(x: nat): (r: nat)
    ensures r < 256
  {
    Eight(Bit(x, 0), Bit(x, 1), Bit(x, 2), Bit(x, 3), Bit(x, 4), Bit(x, 5), Bit(x, 6), Bit(x, 7))
  }

  lemma LowBit(b: bool, x: nat, i: nat)
    ensures Bit(Low(b) + 2 * x, i) == if i == 0 then b else Bit(x, i - 1)
  {
    assert (Low(b) + 2 * x) / 2 == x;
  }

  lemma EightBits(b7: bool, b6: bool, b5: bool, b4: bool, b3: bool, b2: bool, b1: bool, b0: bool, i: nat)
    requires i < 8
    ensures
      Bit(Eight(b7, b6, b5, b4, b3, b2, b1, b0), i)
      == if i == 0 then b0 else if i == 1 then b1 else if i == 2 then b2 else if i == 3 then b3
         else if i == 4 then b4 else if i == 5 then b5 else if i == 6 then b6 else b7
  {
    hide Bit;
    var x7 := Low(b7);
    var x6 := Low(b6) + 2 * x7;
    var x5 := Low(b5) + 2 * x6;
    var x4 := Low(b4) + 2 * x5;
    var x3 := Low(b3) + 2 * x4;
    var x2 := Low(b2) + 2 * x3;
    var x1 := Low(b1) + 2 * x2;
    LowBit(b0, x1, i);
    if i >= 1 {
      LowBit(b1, x2, i - 1);
    }
    if i >= 2 {
      LowBit(b2, x3, i - 2);
    }
    if i >= 3 {
      LowBit(b3, x4, i - 3);
    }
    if i >= 4 {
      LowBit(b4, x5, i - 4);
    }
    if i >= 5 {
      LowBit(b5, x6, i - 5);
    }
    if i >= 6 {
      LowBit(b6, x7, i - 6);
    }
    LowBit(b7, 0, 0);
  }

  lemma ReversedBit(x: nat, i: nat)
    requires i < 8
    ensures Bit(Reversed(x), i) == Bit(x, 7 - i)
  {
    hide Bit, Eight;
    EightBits(Bit(x, 0), Bit(x, 1), Bit(x, 2), Bit(x, 3), Bit(x, 4), Bit(x, 5), Bit(x, 6), Bit(x, 7), i);
  }

  function SwapBits(swap: bool, x: nat): (r: nat)
    ensures x < 256 ==> r < 256
  {
    if swap then Reversed(x) else x
  }

  /** Swapping turns the bits of a byte round. */
  lemma SwapBit(swap: bool, x: nat, j: nat)
    requires j < 8
    ensures Bit(SwapBits(swap, x), 7 - j) == Bit(x, if swap then j else 7 - j)
  {
    hide Bit, Reversed;
    if swap {
      ReversedBit(x, 7 - j);
    }
  }

  /** Swapping twice gives the byte back. */
  lemma SwapTwice(swap: bool, x: nat)
    requires x < 256
    ensures SwapBits(swap, SwapBits(swap, x)) == x
  {
    if swap {
      forall i: nat
        ensures Bit(Reversed(Reversed(x)), i) == Bit(x, i)
      {
        hide Bit, Reversed;
        if i < 8 {
          ReversedBit(Reversed(x), i);
          ReversedBit(x, 7 - i);
        } else {
          ByteAbove(Reversed(Reversed(x)), i);
          ByteAbove(x, i);
        }
      }
      SameBitsEqual(Reversed(Reversed(x)), x);
    }
  }

  function SwapAll(swap: bool, s: seq<nat>): (r: seq<nat>)
    ensures |r| == |s|
  {
    seq(|s|, i requires 0 <= i < |s| => SwapBits(swap, s[i]))
  }

  // --- bytes as polynomials ---

  /** Coefficient `k` of a string of bytes, the first one being that of the highest power: bytes start with their top
      bit, or with their lowest one when bits are swapped. */
  ghost predicate DataBit(swap: bool, s: seq<nat>, k: nat) {
    k / 8 < |s| && Bit(s[k / 8], if swap then k % 8 else 7 - k % 8)
  }

  /** The bytes spell the polynomial `p`. */
  ghost predicate Spells(swap: bool, s: seq<nat>, p: nat) {
    p < Pow2(8 * |s|) && forall k: nat :: k < 8 * |s| ==> PolyBit(p, 8 * |s|, k) == DataBit(swap, s, k)
  }

  lemma {:induction false} MessageSpells(swap: bool, s: seq<nat>)
    requires Bytes(s)
    ensures Spells(swap, s, Message(SwapAll(swap, s)))
  {
    hide Bit, Xor, Shl, Pow2, SwapBits, Spells;
    var r := SwapAll(swap, s);
    if s == [] {
      SpellsNothing(swap);
    } else {
      var n := |s| - 1;
      assert r[..n] == SwapAll(swap, s[..n]) && s[..n] + [s[n]] == s;
      MessageSpells(swap, s[..n]);
      SpellsNext(swap, s[..n], s[n], Message(r[..n]));
    }
  }

  lemma SpellsNothing(swap: bool)
    ensures Spells(swap, [], 0)
  {
  }

  /** One more byte. */
  lemma SpellsNext(swap: bool, s: seq<nat>, x: nat, m: nat)
    requires Spells(swap, s, m) && x < 256
    ensures Spells(swap, s + [x], Xor(Shl(m, 8), SwapBits(swap, x)))
  {
    hide Bit, Xor, Shl, Pow2, SwapBits, DataBit;
    var n, b := 8 * |s|, SwapBits(swap, x);
    WordIs();
    ShlBelow(m, n, 8);
    Pow2Mono(8, n + 8);
    SwapByte(swap, x);
    XorBelow(Shl(m, 8), b, n + 8);
    forall k: nat | k < n + 8
      ensures PolyBit(Xor(Shl(m, 8), b), n + 8, k) == DataBit(swap, s + [x], k)
    {
      SpellsBit(swap, s, x, m, k);
    }
  }

  lemma SpellsBit(swap: bool, s: seq<nat>, x: nat, m: nat, k: nat)
    requires Spells(swap, s, m) && x < 256 && k < 8 * |s| + 8
    ensures PolyBit(Xor(Shl(m, 8), SwapBits(swap, x)), 8 * |s| + 8, k) == DataBit(swap, s + [x], k)
  {
    hide Bit, Xor, Shl, Pow2, SwapBits;
    var n, b := 8 * |s|, SwapBits(swap, x);
    var i := n + 7 - k;
    BitXor(Shl(m, 8), b, i);
    BitShl(m, 8, i);
    if k < n {
      SwapByte(swap, x);
      ByteAbove(b, i);
      assert PolyBit(m, n, k) == DataBit(swap, s, k);
    } else {
      SwapBit(swap, x, k - n);
    }
  }

  lemma SpellsUnique(swap: bool, s: seq<nat>, p: nat, q: nat)
    requires Spells(swap, s, p) && Spells(swap, s, q)
    ensures p == q
  {
    hide Bit, Pow2, DataBit;
    var e := 8 * |s|;
    forall b: nat
      ensures Bit(p, b) == Bit(q, b)
    {
      if b < e {
        assert PolyBit(p, e, e - 1 - b) == DataBit(swap, s, e - 1 - b) == PolyBit(q, e, e - 1 - b);
      } else {
        BitAbove(p, e, b);
        BitAbove(q, e, b);
      }
    }
    SameBitsEqual(p, q);
  }

  /** Four bytes as a big-endian word. */
  function Word4(b0: nat, b1: nat, b2: nat, b3: nat): nat {
    b3 + 256 * (b2 + 256 * (b1 + 256 * b0))
  }

  /** The four bytes of a word, from the top. */
  function ByteOf(w: nat, q: nat): nat {
    if q == 0 then w / 0x1000000 % 256 else if q == 1 then w / 0x10000 % 256
    else if q == 2 then w / 0x100 % 256 else w % 256
  }

  lemma WordOfBytes(w: nat)
    requires w < WORD
    ensures Word4(ByteOf(w, 0), ByteOf(w, 1), ByteOf(w, 2), ByteOf(w, 3)) == w
  {
    assert w / 0x10000 == w / 0x100 / 256 && w / 0x1000000 == w / 0x10000 / 256;
  }

  lemma BytesOfWord(b0: nat, b1: nat, b2: nat, b3: nat)
    requires b0 < 256 && b1 < 256 && b2 < 256 && b3 < 256
    ensures
      var w := Word4(b0, b1, b2, b3);
      w < WORD && ByteOf(w, 0) == b0 && ByteOf(w, 1) == b1 && ByteOf(w, 2) == b2 && ByteOf(w, 3) == b3
  {
    var w := Word4(b0, b1, b2, b3);
    assert w / 0x100 == b2 + 256 * (b1 + 256 * b0);
    assert w / 0x10000 == w / 0x100 / 256 == b1 + 256 * b0;
    assert w / 0x1000000 == w / 0x10000 / 256 == b0;
  }

  // --- a byte at a time ---

  lemma EntryFor(c: Control, g: nat, b: nat, i: nat)
    requires ControlOk(c, g) && b < 4 && i < 256
    ensures |c.tab| == 1024 && |c.tab[256 * b + i]| == c.l
    ensures Holds(c.tab[256 * b + i], c.e, Rem(g, c.e, Shl(i, 8 * b + c.e)))
  {
    hide Holds, Rem, Shl;
    assert EntryOk(c.tab, c.l, g, c.e, b, i);
  }

  lemma XorByte(x: nat, y: nat)
    requires x < 256 && y < 256
    ensures Xor(x, y) < 256
  {
    WordIs();
    XorBelow(x, y, 8);
  }

  lemma TopByte(w: nat)
    requires w < WORD
    ensures Shr(w, 24) < 256
  {
    hide Shl, Shr, Trunc;
    Split(w, 24);
    ShlPow2(Shr(w, 24), 24);
    WordIs();
  }

  lemma OrNothing(x: nat)
    ensures Or(x, 0) == x
  {
  }

  /** bch_encode_unaligned() */
  method EncodeUnaligned(c: Control, ghost e: nat, ghost g: nat, data: seq<nat>, ecc: array<nat>, ghost r: nat)
    requires ControlOk(c.(e := e), g) && Bytes(data) && ecc.Length == c.l && Holds(ecc[..], e, r)
    modifies ecc
    ensures Generator(g, e) && r < Pow2(e) && Holds(ecc[..], e, Absorb(g, e, r, SwapAll(c.swap, data)))
  {
    hide Holds, Rem, Shl, Shr, Xor, Or, Trunc, ControlOk, SwapBits, Absorb, Pow2, Generator;
    ghost var w := c.(e := e);
    ControlFacts(w, g);
    HoldsFacts(ecc[..], e, r);
    var l := c.l - 1;
    ghost var bytes := SwapAll(c.swap, data);
    ghost var cur: nat := r;
    AbsorbNone(g, e, r, bytes);
    var n := 0;
    while n < |data|
      invariant 0 <= n <= |data| && Holds(ecc[..], e, cur) && cur < Pow2(e)
      invariant cur == Absorb(g, e, r, bytes[..n])
    {
      var tmp := SwapBits(c.swap, data[n]);
      HoldsFacts(ecc[..], e, cur);
      TopByte(ecc[0]);
      SwapByte(c.swap, data[n]);
      XorByte(Shr(ecc[0], 24), tmp);
      var k := Xor(Shr(ecc[0], 24), tmp);
      EntryFor(w, g, 0, k);
      var p := c.tab[k];
      ghost var was := ecc[..];
      var i := 0;
      while i < l
        invariant 0 <= i <= l
        invariant forall j :: 0 <= j < c.l ==> ecc[j] == if j < i then Xor(ShiftedWord(was, 7, j), p[j]) else was[j]
      {
        ecc[i] := Xor(Or(Trunc(Shl(ecc[i], 8), 32), Shr(ecc[i + 1], 24)), p[i]);
        i := i + 1;
      }
      OrNothing(Trunc(Shl(ecc[l], 8), 32));
      ecc[l] := Xor(Trunc(Shl(ecc[l], 8), 32), p[l]);
      assert ecc[..] == XorRows(ShiftedRow(was, 7), p);
      TopPart(was, e, cur, 8);
      RowStep(was, p, g, e, cur, 7, tmp);
      AbsorbNext(g, e, r, bytes, n);
      cur := Absorb(g, e, r, bytes[..n + 1]);
      n := n + 1;
    }
    assert bytes[..n] == bytes;
  }

  lemma ControlFacts(c: Control, g: nat)
    requires ControlOk(c, g)
    ensures Generator(g, c.e) && 1 <= c.l && c.e <= 32 * c.l && |c.tab| == 1024
  {
    hide Rem, Shl;
    assert EntryOk(c.tab, c.l, g, c.e, 0, 0);
  }

  lemma HoldsFacts(ws: seq<nat>, e: nat, r: nat)
    requires Holds(ws, e, r)
    ensures r < Pow2(e) && forall i :: 0 <= i < |ws| ==> ws[i] < WORD
  {
  }

  lemma SwapByte(swap: bool, x: nat)
    requires x < 256
    ensures SwapBits(swap, x) < 256
  {
  }

  lemma AbsorbNone(g: nat, e: nat, r: nat, bytes: seq<nat>)
    requires Generator(g, e) && r < Pow2(e)
    ensures Absorb(g, e, r, bytes[..0]) == r
  {
  }

  lemma AbsorbNext(g: nat, e: nat, r: nat, bytes: seq<nat>, n: nat)
    requires Generator(g, e) && r < Pow2(e) && n < |bytes|
    ensures
      Absorb(g, e, r, bytes[..n + 1]) == Rem(g, e, Xor(Shl(Absorb(g, e, r, bytes[..n]), 8), Shl(bytes[n], e)))
  {
    assert bytes[..n + 1][..n] == bytes[..n];
  }

  // --- four bytes at a time ---

  /** A word is the sum of its bytes at their places. */
  lemma WordSum(w: nat)
    requires w < WORD
    ensures
      w == Xor(Xor(Xor(ByteOf(w, 3), Shl(ByteOf(w, 2), 8)), Shl(ByteOf(w, 1), 16)), Shl(ByteOf(w, 0), 24))
    ensures ByteOf(w, 0) < 256 && ByteOf(w, 1) < 256 && ByteOf(w, 2) < 256 && ByteOf(w, 3) < 256
  {
    hide Xor, Shl, Shr, Trunc;
    var w1, w2, w3 := w / 0x100, w / 0x10000, w / 0x1000000;
    assert w1 / 256 == w2 && w2 / 256 == w3 && w3 < 256;
    PeelByte(w);
    PeelByte(w1);
    PeelByte(w2);
    var b0, b1, b2, b3 := ByteOf(w, 0), ByteOf(w, 1), ByteOf(w, 2), ByteOf(w, 3);
    assert w3 == b0;
    XorShl(b2, Shl(w2, 8), 8);
    ShlShl(w2, 8, 8);
    XorShl(b1, Shl(w3, 8), 16);
    ShlShl(w3, 8, 16);
    XorAssoc(b3, Shl(b2, 8), Shl(w2, 16));
    XorAssoc(Xor(b3, Shl(b2, 8)), Shl(b1, 16), Shl(w3, 24));
  }

  lemma PeelByte(w: nat)
    ensures w == Xor(w % 256, Shl(w / 256, 8))
  {
    hide Xor, Shl, Shr, Trunc;
    SplitXor(w, 8);
    ByteParts(w);
    XorComm(Shl(w / 256, 8), w % 256);
  }

  /** The remainder of a whole word from the four tables. */
  lemma FourEntries(c: Control, g: nat, w: nat)
    requires ControlOk(c, g) && w < WORD
    ensures forall q :: 0 <= q < 4 ==> ByteOf(w, q) < 256
    ensures
      var p0, p1 := c.tab[ByteOf(w, 3)], c.tab[256 + ByteOf(w, 2)];
      var p2, p3 := c.tab[512 + ByteOf(w, 1)], c.tab[768 + ByteOf(w, 0)];
      && |p0| == |p1| == |p2| == |p3| == c.l
      && Holds(XorRows(XorRows(XorRows(p0, p1), p2), p3), c.e, Rem(g, c.e, Shl(w, c.e)))
  {
    hide Xor, Shl, Rem, Holds, XorRows, ByteOf, ControlOk, Generator;
    ControlFacts(c, g);
    WordSum(w);
    var e := c.e;
    var b0, b1, b2, b3 := ByteOf(w, 0), ByteOf(w, 1), ByteOf(w, 2), ByteOf(w, 3);
    EntryFor(c, g, 0, b3);
    EntryFor(c, g, 1, b2);
    EntryFor(c, g, 2, b1);
    EntryFor(c, g, 3, b0);
    var p0, p1, p2, p3 := c.tab[b3], c.tab[256 + b2], c.tab[512 + b1], c.tab[768 + b0];
    var x0, x1, x2, x3 := Shl(b3, e), Shl(b2, 8 + e), Shl(b1, 16 + e), Shl(b0, 24 + e);
    XorHolds(p0, p1, e, Rem(g, e, x0), Rem(g, e, x1));
    RemXor(g, e, x0, x1);
    XorHolds(XorRows(p0, p1), p2, e, Rem(g, e, Xor(x0, x1)), Rem(g, e, x2));
    RemXor(g, e, Xor(x0, x1), x2);
    XorHolds(XorRows(XorRows(p0, p1), p2), p3, e, Rem(g, e, Xor(Xor(x0, x1), x2)), Rem(g, e, x3));
    RemXor(g, e, Xor(Xor(x0, x1), x2), x3);
    ShlSum(b0, b1, b2, b3, e);
  }

  lemma ShlSum(b0: nat, b1: nat, b2: nat, b3: nat, e: nat)
    ensures
      Shl(Xor(Xor(Xor(b3, Shl(b2, 8)), Shl(b1, 16)), Shl(b0, 24)), e)
      == Xor(Xor(Xor(Shl(b3, e), Shl(b2, 8 + e)), Shl(b1, 16 + e)), Shl(b0, 24 + e))
  {
    hide Xor, Shl;
    XorShl(Xor(Xor(b3, Shl(b2, 8)), Shl(b1, 16)), Shl(b0, 24), e);
    XorShl(Xor(b3, Shl(b2, 8)), Shl(b1, 16), e);
    XorShl(b3, Shl(b2, 8), e);
    ShlShl(b2, 8, e);
    ShlShl(b1, 16, e);
    ShlShl(b0, 24, e);
  }

  /** The word as the message polynomial of its four bytes. */
  lemma MessageWord(b0: nat, b1: nat, b2: nat, b3: nat)
    requires b0 < 256 && b1 < 256 && b2 < 256 && b3 < 256
    ensures Message([b0, b1, b2, b3]) == Word4(b0, b1, b2, b3)
  {
    hide Xor, Shl;
    JoinByte(0, b0);
    JoinByte(b0, b1);
    JoinByte(b1 + 256 * b0, b2);
    JoinByte(b2 + 256 * (b1 + 256 * b0), b3);
    assert [b0, b1, b2, b3][..3] == [b0, b1, b2] && [b0, b1, b2][..2] == [b0, b1] && [b0, b1][..1] == [b0] && [b0][..0] == [];
    assert Message([]) == 0;
    assert Message([b0]) == b0;
    assert Message([b0, b1]) == b1 + 256 * b0;
    assert Message([b0, b1, b2]) == b2 + 256 * (b1 + 256 * b0);
  }

  lemma JoinByte(hi: nat, lo: nat)
    requires lo < 256
    ensures Xor(Shl(hi, 8), lo) == lo + 256 * hi
  {
    hide Xor, Shl;
    PeelByte(lo + 256 * hi);
    assert (lo + 256 * hi) / 256 == hi && (lo + 256 * hi) % 256 == lo;
    XorComm(Shl(hi, 8), lo);
  }

  lemma WordStep(c: Control, g: nat, ws: seq<nat>, p: seq<nat>, r: nat, b0: nat, b1: nat, b2: nat, b3: nat)
    requires ControlOk(c, g) && |ws| == |p| == c.l && Holds(ws, c.e, r)
    requires b0 < 256 && b1 < 256 && b2 < 256 && b3 < 256
    requires
      var w := Xor(Word4(b0, b1, b2, b3), ws[0]);
      Holds(p, c.e, Rem(g, c.e, Shl(w, c.e)))
    ensures r < Pow2(c.e) && Holds(XorRows(ShiftedRow(ws, 31), p), c.e, Absorb(g, c.e, r, [b0, b1, b2, b3]))
  {
    hide Xor, Shl, Shr, Rem, Holds, XorRows, ControlOk, Generator, Absorb, Message, ShiftedRow, Pow2;
    ControlFacts(c, g);
    HoldsFacts(ws, c.e, r);
    var x := Word4(b0, b1, b2, b3);
    TopPart(ws, c.e, r, 32);
    assert Shr(ws[0], 0) == ws[0] by {
      ShrNothing(ws[0]);
    }
    XorComm(x, ws[0]);
    RowStep(ws, p, g, c.e, r, 31, x);
    AbsorbIsRemainder(g, c.e, r, [b0, b1, b2, b3]);
    MessageWord(b0, b1, b2, b3);
  }

  lemma XorFive(a: nat, b: nat, c: nat, d: nat, e: nat)
    ensures Xor(Xor(Xor(Xor(a, b), c), d), e) == Xor(a, Xor(Xor(Xor(b, c), d), e))
  {
    hide Xor;
    XorAssoc(a, b, c);
    XorAssoc(a, Xor(b, c), d);
    XorAssoc(a, Xor(Xor(b, c), d), e);
  }

  lemma ShiftedWhole(ws: seq<nat>, i: nat)
    requires i < |ws|
    ensures ShiftedWord(ws, 31, i) == if i + 1 < |ws| then ws[i + 1] else 0
  {
    assert Or(0, 0) == 0;
  }

  /** Reads four bytes big-endian, with the bits of each byte swapped if need be. */
  method ReadWord(c: Control, data: seq<nat>, at: nat) returns (w: nat)
    requires Bytes(data) && at + 4 <= |data|
    ensures
      var s := SwapAll(c.swap, data);
      s[at] < 256 && s[at + 1] < 256 && s[at + 2] < 256 && s[at + 3] < 256 && w == Word4(s[at], s[at + 1], s[at + 2], s[at + 3])
  {
    hide Reversed, ByteOf;
    w := Word4(data[at], data[at + 1], data[at + 2], data[at + 3]);
    BytesOfWord(data[at], data[at + 1], data[at + 2], data[at + 3]);
    if c.swap {
      w := Word4(SwapBits(true, ByteOf(w, 0)), SwapBits(true, ByteOf(w, 1)), SwapBits(true, ByteOf(w, 2)), SwapBits(true, ByteOf(w, 3)));
    }
  }

  /** Shifts the row by one word and adds the four table rows. */
  method MixRows(r: array<nat>, p0: seq<nat>, p1: seq<nat>, p2: seq<nat>, p3: seq<nat>)
    requires r.Length >= 1 && |p0| == |p1| == |p2| == |p3| == r.Length
    modifies r
    ensures r[..] == XorRows(ShiftedRow(old(r[..]), 31), XorRows(XorRows(XorRows(p0, p1), p2), p3))
  {
    hide Xor, ShiftedRow, XorRows;
    ghost var was := r[..];
    var l := r.Length - 1;
    var i := 0;
    while i < l
      invariant 0 <= i <= l
      invariant forall j :: i <= j <= l ==> r[j] == was[j]
      invariant forall j :: 0 <= j < i ==> r[j] == Xor(Xor(Xor(Xor(was[j + 1], p0[j]), p1[j]), p2[j]), p3[j])
    {
      r[i] := Xor(Xor(Xor(Xor(r[i + 1], p0[i]), p1[i]), p2[i]), p3[i]);
      i := i + 1;
    }
    r[l] := Xor(Xor(Xor(p0[l], p1[l]), p2[l]), p3[l]);
    WordRow(was, r[..], p0, p1, p2, p3);
  }

  /** The loop over whole 32-bit words. */
  method EncodeWords(c: Control, ghost e: nat, ghost g: nat, data: seq<nat>, mlen: nat, r: array<nat>, ghost r0: nat)
    requires ControlOk(c.(e := e), g) && Bytes(data) && 4 * mlen <= |data| && r.Length == c.l && Holds(r[..], e, r0)
    modifies r
    ensures r0 < Pow2(e) && Generator(g, e) && Holds(r[..], e, Absorb(g, e, r0, SwapAll(c.swap, data)[..4 * mlen]))
  {
    hide Holds, Rem, Shl, Xor, ControlOk, Absorb, Pow2, Generator, SwapAll, ByteOf, XorRows, ShiftedRow, ShiftedWord;
    ghost var d := c.(e := e);
    ControlFacts(d, g);
    HoldsFacts(r[..], e, r0);
    ghost var bytes := SwapAll(c.swap, data);
    AbsorbNone(g, e, r0, bytes);
    var n := 0;
    while n < mlen
      invariant 0 <= n <= mlen && Holds(r[..], e, Absorb(g, e, r0, bytes[..4 * n]))
    {
      ghost var cur := Absorb(g, e, r0, bytes[..4 * n]);
      var w := ReadWord(c, data, 4 * n);
      ghost var was := r[..];
      HoldsFacts(was, e, cur);
      BytesOfWord(bytes[4 * n], bytes[4 * n + 1], bytes[4 * n + 2], bytes[4 * n + 3]);
      XorWord(w, r[0]);
      w := Xor(w, r[0]);
      FourEntries(d, g, w);
      var p0, p1 := c.tab[ByteOf(w, 3)], c.tab[256 + ByteOf(w, 2)];
      var p2, p3 := c.tab[512 + ByteOf(w, 1)], c.tab[768 + ByteOf(w, 0)];
      MixRows(r, p0, p1, p2, p3);
      WordStep(d, g, was, XorRows(XorRows(XorRows(p0, p1), p2), p3), cur,
               bytes[4 * n], bytes[4 * n + 1], bytes[4 * n + 2], bytes[4 * n + 3]);
      AbsorbFour(g, e, r0, bytes, 4 * n);
      n := n + 1;
    }
  }

  lemma XorWord(x: nat, y: nat)
    requires x < WORD && y < WORD
    ensures Xor(x, y) < WORD
  {
    WordIs();
    XorBelow(x, y, 32);
  }

  lemma WordRow(was: seq<nat>, row: seq<nat>, p0: seq<nat>, p1: seq<nat>, p2: seq<nat>, p3: seq<nat>)
    requires |was| == |row| == |p0| == |p1| == |p2| == |p3| >= 1
    requires forall j :: 0 <= j < |row| - 1 ==> row[j] == Xor(Xor(Xor(Xor(was[j + 1], p0[j]), p1[j]), p2[j]), p3[j])
    requires var l := |row| - 1; row[l] == Xor(Xor(Xor(p0[l], p1[l]), p2[l]), p3[l])
    ensures row == XorRows(ShiftedRow(was, 31), XorRows(XorRows(XorRows(p0, p1), p2), p3))
  {
    hide Xor, ShiftedWord;
    forall j | 0 <= j < |row|
      ensures row[j] == Xor(ShiftedWord(was, 31, j), Xor(Xor(Xor(p0[j], p1[j]), p2[j]), p3[j]))
    {
      ShiftedWhole(was, j);
      if j + 1 < |row| {
        XorFive(was[j + 1], p0[j], p1[j], p2[j], p3[j]);
      } else {
        XorSelf(row[j]);
      }
    }
  }

  lemma AbsorbFour(g: nat, e: nat, r: nat, bytes: seq<nat>, n: nat)
    requires Generator(g, e) && r < Pow2(e) && n + 4 <= |bytes|
    ensures
      Absorb(g, e, Absorb(g, e, r, bytes[..n]), [bytes[n], bytes[n + 1], bytes[n + 2], bytes[n + 3]])
      == Absorb(g, e, r, bytes[..n + 4])
  {
    hide Absorb, Generator;
    var four := [bytes[n], bytes[n + 1], bytes[n + 2], bytes[n + 3]];
    assert bytes[..n + 4] == bytes[..n] + four;
    AbsorbConcat(g, e, r, bytes[..n], four);
  }

  // --- the stored form ---

  /** The bytes `ecc` stand for the remainder `r`. */
  ghost predicate EccHolds(c: Control, ecc: seq<nat>, r: nat) {
    && |ecc| == c.eccBytes && Bytes(ecc) && r < Pow2(c.e)
    && forall n, j {:trigger EccBit(c, ecc, n, j)} :: 0 <= n < |ecc| && 0 <= j < 8 ==>
         EccBit(c, ecc, n, j) == PolyBit(r, c.e, 8 * n + j)
  }

  ghost predicate EccBit(c: Control, ecc: seq<nat>, n: nat, j: nat)
    requires n < |ecc| && j < 8
  {
    DataBit(c.swap, ecc, 8 * n + j)
  }

  lemma JoinBit(hi: nat, lo: nat, i: nat)
    requires lo < 256
    ensures Bit(lo + 256 * hi, i) == if i < 8 then Bit(lo, i) else Bit(hi, i - 8)
  {
    WordIs();
    ShlPow2(hi, 8);
    BitJoin(hi, lo, 8, i);
  }

  lemma Word4Bit(b0: nat, b1: nat, b2: nat, b3: nat, j: nat)
    requires b0 < 256 && b1 < 256 && b2 < 256 && b3 < 256 && j < 32
    ensures
      Bit(Word4(b0, b1, b2, b3), 31 - j)
      == if j < 8 then Bit(b0, 7 - j) else if j < 16 then Bit(b1, 15 - j) else if j < 24 then Bit(b2, 23 - j) else Bit(b3, 31 - j)
  {
    hide Bit;
    JoinBit(b2 + 256 * (b1 + 256 * b0), b3, 31 - j);
    if j < 24 {
      JoinBit(b1 + 256 * b0, b2, 23 - j);
    }
    if j < 16 {
      JoinBit(b0, b1, 15 - j);
    }
  }

  /** The stored bytes, padded with zeros. */
  function Padded(ecc: seq<nat>, n: nat): nat {
    if n < |ecc| then ecc[n] else 0
  }

  lemma PaddedBit(c: Control, ecc: seq<nat>, r: nat, n: nat, j: nat)
    requires EccHolds(c, ecc, r) && c.e <= 8 * c.eccBytes && j < 8
    ensures
      var b := SwapBits(c.swap, Padded(ecc, n));
      b < 256 && Bit(b, 7 - j) == PolyBit(r, c.e, 8 * n + j)
  {
    hide Bit, Reversed;
    if n < |ecc| {
      assert EccBit(c, ecc, n, j) == PolyBit(r, c.e, 8 * n + j);
      SwapBit(c.swap, ecc[n], j);
    } else {
      SwapZero(c.swap);
      BitZero(7 - j);
    }
  }

  lemma SwapZero(swap: bool)
    ensures SwapBits(swap, 0) == 0
  {
    hide Bit, Reversed;
    if swap {
      var x: nat := 0;
      forall i: nat
        ensures Bit(Reversed(x), i) == Bit(x, i)
      {
        BitZero(i);
        if i < 8 {
          ReversedBit(x, i);
          BitZero(7 - i);
        } else {
          ByteAbove(Reversed(x), i);
        }
      }
      SameBitsEqual(Reversed(x), x);
    }
  }

  function LoadWord(c: Control, ecc: seq<nat>, i: nat): nat {
    Word4(SwapBits(c.swap, Padded(ecc, 4 * i)), SwapBits(c.swap, Padded(ecc, 4 * i + 1)),
          SwapBits(c.swap, Padded(ecc, 4 * i + 2)), SwapBits(c.swap, Padded(ecc, 4 * i + 3)))
  }

  lemma LoadHolds(c: Control, ecc: seq<nat>, r: nat, ws: seq<nat>)
    requires EccHolds(c, ecc, r) && c.e <= 8 * c.eccBytes <= 32 * c.l && |ws| == c.l
    requires forall i :: 0 <= i < |ws| ==> ws[i] == LoadWord(c, ecc, i)
    ensures Holds(ws, c.e, r)
  {
    hide Bit, SwapBits, EccHolds, PolyBit;
    assert r < Pow2(c.e) by {
      EccBelow(c, ecc, r);
    }
    forall i, j | 0 <= i < |ws| && 0 <= j < 32
      ensures RowBit(ws, i, j) == PolyBit(r, c.e, 32 * i + j) && ws[i] < WORD
    {
      LoadBit(c, ecc, r, i, j);
    }
    forall i | 0 <= i < |ws|
      ensures ws[i] < WORD
    {
      LoadBit(c, ecc, r, i, 0);
    }
  }

  lemma EccBelow(c: Control, ecc: seq<nat>, r: nat)
    requires EccHolds(c, ecc, r)
    ensures r < Pow2(c.e)
  {
  }

  lemma LoadBit(c: Control, ecc: seq<nat>, r: nat, i: nat, j: nat)
    requires EccHolds(c, ecc, r) && c.e <= 8 * c.eccBytes && j < 32
    ensures LoadWord(c, ecc, i) < WORD && Bit(LoadWord(c, ecc, i), 31 - j) == PolyBit(r, c.e, 32 * i + j)
  {
    hide Bit, SwapBits, EccHolds, PolyBit, Padded;
    var b0, b1 := SwapBits(c.swap, Padded(ecc, 4 * i)), SwapBits(c.swap, Padded(ecc, 4 * i + 1));
    var b2, b3 := SwapBits(c.swap, Padded(ecc, 4 * i + 2)), SwapBits(c.swap, Padded(ecc, 4 * i + 3));
    var q, s := j / 8, j % 8;
    PaddedBit(c, ecc, r, 4 * i, s);
    PaddedBit(c, ecc, r, 4 * i + 1, s);
    PaddedBit(c, ecc, r, 4 * i + 2, s);
    PaddedBit(c, ecc, r, 4 * i + 3, s);
    BytesOfWord(b0, b1, b2, b3);
    Word4Bit(b0, b1, b2, b3, j);
  }

  /** load_ecc8() */
  method LoadEcc8(c: Control, src: seq<nat>) returns (dst: seq<nat>)
    requires SizesOk(c) && |src| == c.eccBytes && Bytes(src)
    ensures dst == LoadWords(c, src) && Holds(dst, 32 * c.l, RowPoly(dst)) && Loads(c, src, RowPoly(dst))
    ensures forall r :: EccHolds(c, src, r) ==> Holds(dst, c.e, r)
  {
    hide SwapBits, Word4;
    var nwords := c.l - 1;
    dst := [];
    var i := 0;
    while i < nwords
      invariant 0 <= i <= nwords && |dst| == i
      invariant forall k :: 0 <= k < i ==> dst[k] == LoadWord(c, src, k)
    {
      dst := dst + [Word4(SwapBits(c.swap, src[4 * i]), SwapBits(c.swap, src[4 * i + 1]),
                          SwapBits(c.swap, src[4 * i + 2]), SwapBits(c.swap, src[4 * i + 3]))];
      i := i + 1;
    }
    var pad := src[4 * nwords..] + [0, 0, 0, 0];
    dst := dst + [Word4(SwapBits(c.swap, pad[0]), SwapBits(c.swap, pad[1]), SwapBits(c.swap, pad[2]), SwapBits(c.swap, pad[3]))];
    hide LoadWord;
    assert dst == LoadWords(c, src);
    LoadedBelow(c, src);
    RowHolds(dst);
    LoadsRow(c, src);
    hide EccHolds, Holds, Loads;
    forall r | EccHolds(c, src, r)
      ensures Holds(dst, c.e, r)
    {
      LoadHolds(c, src, r, dst);
    }
  }

  ghost function LoadWords(c: Control, ecc: seq<nat>): (ws: seq<nat>)
    ensures |ws| == c.l
  {
    seq(c.l, i requires 0 <= i < c.l => LoadWord(c, ecc, i))
  }

  /** `p` has the stored bits for its first coefficients, and no others. */
  ghost predicate Loads(c: Control, ecc: seq<nat>, p: nat) {
    p < Pow2(32 * c.l) && forall k: nat :: k < 32 * c.l ==> PolyBit(p, 32 * c.l, k) == DataBit(c.swap, ecc, k)
  }

  lemma LoadsRow(c: Control, ecc: seq<nat>)
    requires Bytes(ecc) && Holds(LoadWords(c, ecc), 32 * c.l, RowPoly(LoadWords(c, ecc)))
    ensures Loads(c, ecc, RowPoly(LoadWords(c, ecc)))
  {
    hide Bit, LoadWord, Pow2, DataBit, RowPoly;
    var ws := LoadWords(c, ecc);
    var p := RowPoly(ws);
    HoldsFacts(ws, 32 * c.l, p);
    forall k: nat | k < 32 * c.l
      ensures PolyBit(p, 32 * c.l, k) == DataBit(c.swap, ecc, k)
    {
      assert RowBit(ws, k / 32, k % 32) == PolyBit(p, 32 * c.l, 32 * (k / 32) + k % 32);
      LoadWordBit(c, ecc, k / 32, k % 32);
    }
  }

  lemma LoadWordBit(c: Control, ecc: seq<nat>, i: nat, j: nat)
    requires Bytes(ecc) && j < 32
    ensures Bit(LoadWord(c, ecc, i), 31 - j) == DataBit(c.swap, ecc, 32 * i + j)
  {
    hide Bit, SwapBits, Padded;
    var b0, b1 := SwapBits(c.swap, Padded(ecc, 4 * i)), SwapBits(c.swap, Padded(ecc, 4 * i + 1));
    var b2, b3 := SwapBits(c.swap, Padded(ecc, 4 * i + 2)), SwapBits(c.swap, Padded(ecc, 4 * i + 3));
    PaddedByte(c.swap, ecc, 4 * i);
    PaddedByte(c.swap, ecc, 4 * i + 1);
    PaddedByte(c.swap, ecc, 4 * i + 2);
    PaddedByte(c.swap, ecc, 4 * i + 3);
    Word4Bit(b0, b1, b2, b3, j);
    PaddedData(c.swap, ecc, 4 * i + j / 8, j % 8);
  }

  lemma PaddedData(swap: bool, ecc: seq<nat>, n: nat, j: nat)
    requires j < 8
    ensures Bit(SwapBits(swap, Padded(ecc, n)), 7 - j) == DataBit(swap, ecc, 8 * n + j)
  {
    hide Bit, SwapBits;
    SwapBit(swap, Padded(ecc, n), j);
    if n >= |ecc| {
      BitZero(if swap then j else 7 - j);
    }
  }

  lemma LoadedBelow(c: Control, ecc: seq<nat>)
    requires Bytes(ecc)
    ensures forall i :: 0 <= i < c.l ==> LoadWords(c, ecc)[i] < WORD
  {
    hide SwapBits;
    forall i | 0 <= i < c.l
      ensures LoadWords(c, ecc)[i] < WORD
    {
      PaddedByte(c.swap, ecc, 4 * i);
      PaddedByte(c.swap, ecc, 4 * i + 1);
      PaddedByte(c.swap, ecc, 4 * i + 2);
      PaddedByte(c.swap, ecc, 4 * i + 3);
      BytesOfWord(SwapBits(c.swap, Padded(ecc, 4 * i)), SwapBits(c.swap, Padded(ecc, 4 * i + 1)),
                  SwapBits(c.swap, Padded(ecc, 4 * i + 2)), SwapBits(c.swap, Padded(ecc, 4 * i + 3)));
    }
  }

  lemma PaddedByte(swap: bool, ecc: seq<nat>, n: nat)
    requires Bytes(ecc)
    ensures SwapBits(swap, Padded(ecc, n)) < 256
  {
    SwapByte(swap, Padded(ecc, n));
  }

  lemma ByteBit(w: nat, q: nat, j: nat)
    requires w < WORD && q < 4 && j < 8
    ensures ByteOf(w, q) < 256 && Bit(ByteOf(w, q), 7 - j) == Bit(w, 31 - (8 * q + j))
  {
    hide Bit;
    WordOfBytes(w);
    Word4Bit(ByteOf(w, 0), ByteOf(w, 1), ByteOf(w, 2), ByteOf(w, 3), 8 * q + j);
  }

  lemma StoredBit(c: Control, ws: seq<nat>, ecc: seq<nat>, n: nat, j: nat)
    requires |ws| == c.l && n < |ecc| == c.eccBytes <= 4 * c.l && j < 8
    requires ws[n / 4] < WORD && ecc[n] == SwapBits(c.swap, ByteOf(ws[n / 4], n % 4))
    ensures ecc[n] < 256 && EccBit(c, ecc, n, j) == RowBit(ws, n / 4, 8 * (n % 4) + j)
  {
    hide Bit, SwapBits, ByteOf;
    ByteBit(ws[n / 4], n % 4, j);
    SwapByte(c.swap, ByteOf(ws[n / 4], n % 4));
    SwapTwice(c.swap, ByteOf(ws[n / 4], n % 4));
    SwapBit(c.swap, ecc[n], j);
  }

  lemma StoreHolds(c: Control, ws: seq<nat>, r: nat, ecc: seq<nat>)
    requires Holds(ws, c.e, r) && |ws| == c.l && |ecc| == c.eccBytes <= 4 * c.l
    requires forall n :: 0 <= n < |ecc| ==> ecc[n] == SwapBits(c.swap, ByteOf(ws[n / 4], n % 4))
    ensures EccHolds(c, ecc, r)
  {
    hide Bit, SwapBits, ByteOf, PolyBit, EccBit, RowBit;
    forall n | 0 <= n < |ecc|
      ensures ecc[n] < 256
    {
      StoredBit(c, ws, ecc, n, 0);
    }
    forall n, j | 0 <= n < |ecc| && 0 <= j < 8
      ensures EccBit(c, ecc, n, j) == PolyBit(r, c.e, 8 * n + j)
    {
      StoredBit(c, ws, ecc, n, j);
      var i, k := n / 4, 8 * (n % 4) + j;
      assert RowBit(ws, i, k) == PolyBit(r, c.e, 32 * i + k);
      assert 32 * i + k == 8 * n + j;
    }
  }

  /** store_ecc8() */
  method StoreEcc8(c: Control, ghost e: nat, src: seq<nat>, ghost r: nat) returns (dst: seq<nat>)
    requires 1 <= c.l && 4 * (c.l - 1) < c.eccBytes <= 4 * c.l && |src| == c.l && Holds(src, e, r)
    ensures EccHolds(c.(e := e), dst, r)
  {
    hide SwapBits, Holds, ByteOf;
    var nwords := c.l - 1;
    dst := [];
    var i := 0;
    while i < nwords
      invariant 0 <= i <= nwords && |dst| == 4 * i
      invariant forall n :: 0 <= n < |dst| ==> dst[n] == SwapBits(c.swap, ByteOf(src[n / 4], n % 4))
    {
      dst := dst + [SwapBits(c.swap, ByteOf(src[i], 0)), SwapBits(c.swap, ByteOf(src[i], 1)),
                    SwapBits(c.swap, ByteOf(src[i], 2)), SwapBits(c.swap, ByteOf(src[i], 3))];
      i := i + 1;
    }
    var pad := [SwapBits(c.swap, ByteOf(src[nwords], 0)), SwapBits(c.swap, ByteOf(src[nwords], 1)),
                SwapBits(c.swap, ByteOf(src[nwords], 2)), SwapBits(c.swap, ByteOf(src[nwords], 3))];
    dst := dst + pad[..c.eccBytes - 4 * nwords];
    StoreHolds(c.(e := e), src, r, dst);
  }

  // --- bch_encode() ---

  datatype MaybeEcc = NoEcc | Ecc(bytes: seq<nat>)

  /** The remainder the caller hands in. */
  ghost predicate Seed(c: Control, ecc: MaybeEcc, r: nat) {
    if ecc.NoEcc? then r == 0 else EccHolds(c, ecc.bytes, r)
  }

  /** All bits the caller hands in, those after the last coefficient included. */
  ghost function Start(c: Control, ecc: MaybeEcc): nat {
    if ecc.NoEcc? then 0 else RowPoly(LoadWords(c, ecc.bytes))
  }

  /** With a coefficient for every bit of the row. */
  ghost function Wide(c: Control): Control {
    c.(e := 32 * c.l)
  }

  ghost function WideGenerator(c: Control, g: nat): nat
    requires c.e <= 32 * c.l
  {
    Shl(g, 32 * c.l - c.e)
  }

  lemma WideOk(c: Control, g: nat)
    requires ControlOk(c, g) && SizesOk(c)
    ensures ControlOk(Wide(c), WideGenerator(c, g)) && Generator(WideGenerator(c, g), 32 * c.l)
  {
    hide Generator, TablesOk;
    TablesWide(c.tab, c.l, g, c.e, 32 * c.l - c.e);
  }

  /** Multiplying generator and remainder by X^d multiplies the result. */
  lemma {:induction false} AbsorbWide(g: nat, e: nat, r: nat, bytes: seq<nat>, d: nat)
    requires Generator(g, e) && r < Pow2(e)
    ensures Generator(Shl(g, d), e + d) && Shl(r, d) < Pow2(e + d)
    ensures Absorb(Shl(g, d), e + d, Shl(r, d), bytes) == Shl(Absorb(g, e, r, bytes), d)
  {
    hide Rem, Xor, Shl, Pow2, Generator;
    GeneratorWide(g, e, d);
    ShlBelow(r, e, d);
    if bytes != [] {
      var n := |bytes| - 1;
      AbsorbWide(g, e, r, bytes[..n], d);
      var x, b := Absorb(g, e, r, bytes[..n]), bytes[n];
      ShlShl(x, d, 8);
      ShlShl(x, 8, d);
      ShlShl(b, e, d);
      XorShl(Shl(x, 8), Shl(b, e), d);
      RemWide(g, e, Xor(Shl(x, 8), Shl(b, e)), d);
    }
  }

  /** Whatever the alignment of the data and however it is cut into words, the new remainder is that of the
      byte-at-a-time form. */
  method EncodeRow(c: Control, ghost e: nat, ghost g: nat, data: seq<nat>, address: nat, buf: array<nat>, ghost r: nat)
    requires ControlOk(c.(e := e), g) && Bytes(data) && buf.Length == c.l && Holds(buf[..], e, r)
    modifies buf
    ensures Generator(g, e) && r < Pow2(e) && Holds(buf[..], e, Absorb(g, e, r, SwapAll(c.swap, data)))
  {
    hide Holds, Absorb, Pow2, Generator, SwapAll;
    ghost var w := c.(e := e);
    ControlFacts(w, g);
    ghost var bytes := SwapAll(c.swap, data);
    HoldsFacts(buf[..], e, r);
    var rest := data;
    ghost var done: seq<nat> := [];
    AbsorbNone(g, e, r, bytes);
    var m := address % 4;
    if m != 0 {
      var mlen := if |rest| < 4 - m then |rest| else 4 - m;
      EncodeUnaligned(c, e, g, rest[..mlen], buf, r);
      done := rest[..mlen];
      rest := rest[mlen..];
    }
    ghost var r1: nat := AbsorbedBy(w, g, r, done);
    assert Holds(buf[..], e, r1) by {
      AbsorbNone(g, e, r, SwapAll(c.swap, done));
      SwapNothing(c.swap, done);
    }
    var mlen := |rest| / 4;
    EncodeWords(c, e, g, rest, mlen, buf, r1);
    ghost var r2: nat := Absorb(g, e, r1, SwapAll(c.swap, rest)[..4 * mlen]);
    var tail := rest[4 * mlen..];
    if |tail| != 0 {
      EncodeUnaligned(c, e, g, tail, buf, r2);
    }
    AbsorbPieces(w, g, r, data, done, rest, 4 * mlen);
  }

  /** For every stored form, also one with bits set after the last coefficient, the words become those of the
      byte-at-a-time form; if the stored bytes stand for a remainder, the new ones stand for the new remainder. */
  method BchEncode(c: Control, ghost g: nat, data: seq<nat>, address: nat, ecc: MaybeEcc)
      returns (eccBuf: seq<nat>, ecc': MaybeEcc)
    requires ControlOk(c, g) && SizesOk(c) && Bytes(data) && (ecc.Ecc? ==> |ecc.bytes| == c.eccBytes && Bytes(ecc.bytes))
    ensures Generator(WideGenerator(c, g), 32 * c.l) && Start(c, ecc) < Pow2(32 * c.l) && ecc'.NoEcc? == ecc.NoEcc?
    ensures
      var r := Absorb(WideGenerator(c, g), 32 * c.l, Start(c, ecc), SwapAll(c.swap, data));
      |eccBuf| == c.l && Holds(eccBuf, 32 * c.l, r) && (ecc.Ecc? ==> EccHolds(Wide(c), ecc'.bytes, r))
    ensures forall r: nat {:trigger Seed(c, ecc, r)} :: Seed(c, ecc, r) ==>
      && Generator(g, c.e) && r < Pow2(c.e)
      && Holds(eccBuf, c.e, Absorb(g, c.e, r, SwapAll(c.swap, data)))
      && Seed(c, ecc', if ecc.NoEcc? then 0 else Absorb(g, c.e, r, SwapAll(c.swap, data)))
    ensures if ecc.NoEcc? then Start(c, ecc) == 0 else Loads(c, ecc.bytes, Start(c, ecc))
    ensures forall m: nat {:trigger Spells(c.swap, data, m)} :: Spells(c.swap, data, m) ==>
      && Holds(eccBuf, 32 * c.l, Rem(WideGenerator(c, g), 32 * c.l, Xor(Shl(Start(c, ecc), 8 * |data|), Shl(m, 32 * c.l))))
      && forall r: nat {:trigger Seed(c, ecc, r)} :: Seed(c, ecc, r) ==>
           Generator(g, c.e) && Holds(eccBuf, c.e, Rem(g, c.e, Xor(Shl(r, 8 * |data|), Shl(m, c.e))))
  {
    hide Holds, Absorb, Pow2, Generator, SwapAll, EccHolds, Seed, LoadWords, WideGenerator, Loads, Spells, Rem, Xor, Shl;
    WideOk(c, g);
    var buf := new nat[c.l](_ => 0);
    if ecc.Ecc? {
      var row := LoadEcc8(c, ecc.bytes);
      forall i | 0 <= i < c.l {
        buf[i] := row[i];
      }
      assert buf[..] == row;
    } else {
      ZeroHolds(buf[..], 32 * c.l);
    }
    ghost var row, wg := buf[..], WideGenerator(c, g);
    assert Holds(row, 32 * c.l, Start(c, ecc));
    HoldsFacts(row, 32 * c.l, Start(c, ecc));
    EncodeRow(c, 32 * c.l, wg, data, address, buf, Start(c, ecc));
    ghost var r := Absorb(wg, 32 * c.l, Start(c, ecc), SwapAll(c.swap, data));
    eccBuf := buf[..];
    ecc' := NoEcc;
    if ecc.Ecc? {
      var bytes' := StoreEcc8(c, 32 * c.l, eccBuf, r);
      ecc' := Ecc(bytes');
    }
    forall s: nat | Seed(c, ecc, s)
      ensures Generator(g, c.e) && s < Pow2(c.e)
      ensures Holds(eccBuf, c.e, Absorb(g, c.e, s, SwapAll(c.swap, data)))
      ensures Seed(c, ecc', if ecc.NoEcc? then 0 else Absorb(g, c.e, s, SwapAll(c.swap, data)))
    {
      SeedFacts(c, ecc, s);
      Narrow(c, g, ecc, s, row, SwapAll(c.swap, data), eccBuf, ecc');
    }
    forall m: nat | Spells(c.swap, data, m)
      ensures r == Rem(wg, 32 * c.l, Xor(Shl(Start(c, ecc), 8 * |data|), Shl(m, 32 * c.l)))
      ensures forall s: nat {:trigger Seed(c, ecc, s)} :: Seed(c, ecc, s) ==>
        Absorb(g, c.e, s, SwapAll(c.swap, data)) == Rem(g, c.e, Xor(Shl(s, 8 * |data|), Shl(m, c.e)))
    {
      AbsorbSpelled(wg, 32 * c.l, Start(c, ecc), c.swap, data, m);
      forall s: nat | Seed(c, ecc, s)
        ensures Absorb(g, c.e, s, SwapAll(c.swap, data)) == Rem(g, c.e, Xor(Shl(s, 8 * |data|), Shl(m, c.e)))
      {
        AbsorbSpelled(g, c.e, s, c.swap, data, m);
      }
    }
  }

  /** The byte loop is the remainder of the polynomial that the data spell. */
  lemma AbsorbSpelled(g: nat, e: nat, r: nat, swap: bool, data: seq<nat>, m: nat)
    requires Generator(g, e) && r < Pow2(e) && Bytes(data) && Spells(swap, data, m)
    ensures Absorb(g, e, r, SwapAll(swap, data)) == Rem(g, e, Xor(Shl(r, 8 * |data|), Shl(m, e)))
  {
    hide Absorb, Generator, SwapAll, Rem, Xor, Shl, Pow2, Spells;
    MessageSpells(swap, data);
    SpellsUnique(swap, data, m, Message(SwapAll(swap, data)));
    AbsorbIsRemainder(g, e, r, SwapAll(swap, data));
  }

  lemma SeedFacts(c: Control, ecc: MaybeEcc, r: nat)
    requires Seed(c, ecc, r)
    ensures ecc.Ecc? ==> EccHolds(c, ecc.bytes, r)
  {
  }

  /** What a call does to the bits of the row, it does to the remainder in it. */
  lemma Narrow(c: Control, g: nat, ecc: MaybeEcc, s: nat, row: seq<nat>, bytes: seq<nat>, eccBuf: seq<nat>, ecc': MaybeEcc)
    requires ControlOk(c, g) && SizesOk(c) && Seed(c, ecc, s) && |row| == |eccBuf| == c.l && ecc'.NoEcc? == ecc.NoEcc?
    requires Holds(row, 32 * c.l, Start(c, ecc)) && (ecc.Ecc? ==> Holds(row, c.e, s))
    requires Generator(WideGenerator(c, g), 32 * c.l) && Start(c, ecc) < Pow2(32 * c.l)
    requires
      var r := Absorb(WideGenerator(c, g), 32 * c.l, Start(c, ecc), bytes);
      Holds(eccBuf, 32 * c.l, r) && (ecc.Ecc? ==> EccHolds(Wide(c), ecc'.bytes, r))
    ensures Generator(g, c.e) && s < Pow2(c.e) && Holds(eccBuf, c.e, Absorb(g, c.e, s, bytes))
    ensures Seed(c, ecc', if ecc.NoEcc? then 0 else Absorb(g, c.e, s, bytes))
  {
    hide Holds, Absorb, Pow2, Generator, EccHolds, LoadWords, Shl;
    var d := 32 * c.l - c.e;
    ControlFacts(c, g);
    if ecc.NoEcc? {
      ShlNothing(0, d);
      SomethingBelow(c.e);
    } else {
      HoldsFacts(row, c.e, s);
      HoldsWide(row, c.e, s, d);
      HoldsUnique(row, Start(c, ecc), Shl(s, d));
    }
    AbsorbWide(g, c.e, s, bytes, d);
    var a := Absorb(g, c.e, s, bytes);
    HoldsWide(eccBuf, c.e, a, d);
    if ecc.Ecc? {
      EccNarrow(c, ecc'.bytes, a, d);
    }
  }

  lemma SomethingBelow(e: nat)
    ensures 0 < Pow2(e)
  {
  }

  lemma EccNarrow(c: Control, ecc: seq<nat>, r: nat, d: nat)
    requires c.e + d == 32 * c.l && r < Pow2(c.e) && EccHolds(Wide(c), ecc, Shl(r, d))
    ensures EccHolds(c, ecc, r)
  {
    hide Shl, Bit, PolyBit, SwapBits;
    forall n, j | 0 <= n < |ecc| && 0 <= j < 8
      ensures EccBit(c, ecc, n, j) == PolyBit(r, c.e, 8 * n + j)
    {
      assert EccBit(Wide(c), ecc, n, j) == PolyBit(Shl(r, d), c.e + d, 8 * n + j);
      PolyBitWide(r, c.e, d, 8 * n + j);
    }
  }

  ghost function AbsorbedBy(c: Control, g: nat, r: nat, data: seq<nat>): nat
    requires Generator(g, c.e) && r < Pow2(c.e)
  {
    Absorb(g, c.e, r, SwapAll(c.swap, data))
  }

  lemma SwapNothing(swap: bool, s: seq<nat>)
    ensures SwapAll(swap, s)[..0] == [] && (s == [] ==> SwapAll(swap, s) == [])
  {
  }

  lemma SwapConcat(swap: bool, a: seq<nat>, b: seq<nat>)
    ensures SwapAll(swap, a + b) == SwapAll(swap, a) + SwapAll(swap, b)
  {
    hide SwapBits;
  }

  lemma AbsorbPieces(c: Control, g: nat, r: nat, data: seq<nat>, done: seq<nat>, rest: seq<nat>, n: nat)
    requires Generator(g, c.e) && r < Pow2(c.e) && data == done + rest && n <= |rest|
    ensures
      var r1 := AbsorbedBy(c, g, r, done);
      var r2 := Absorb(g, c.e, r1, SwapAll(c.swap, rest)[..n]);
      && AbsorbedBy(c, g, r, data) == AbsorbedBy(c, g, r2, rest[n..])
      && (rest[n..] == [] ==> AbsorbedBy(c, g, r, data) == r2)
  {
    hide Generator, SwapAll, Pow2, Absorb;
    var head, tail := rest[..n], rest[n..];
    assert rest == head + tail;
    SwapConcat(c.swap, head, tail);
    SwapConcat(c.swap, done, rest);
    assert SwapAll(c.swap, rest)[..n] == SwapAll(c.swap, head);
    var r1 := AbsorbedBy(c, g, r, done);
    AbsorbConcat(g, c.e, r, SwapAll(c.swap, done), SwapAll(c.swap, rest));
    AbsorbConcat(g, c.e, r1, SwapAll(c.swap, head), SwapAll(c.swap, tail));
    if tail == [] {
      SwapNothing(c.swap, tail);
      AbsorbNone(g, c.e, Absorb(g, c.e, r1, SwapAll(c.swap, head)), SwapAll(c.swap, tail));
    }
  }

  /** Bytes that stand for the same remainder are the same bytes. */
  lemma EccUnique(c: Control, a: seq<nat>, b: seq<nat>, r: nat)
    requires EccHolds(c, a, r) && EccHolds(c, b, r)
    ensures a == b
  {
    hide Reversed;
    forall n | 0 <= n < |a|
      ensures a[n] == b[n]
    {
      var x, y := SwapBits(c.swap, a[n]), SwapBits(c.swap, b[n]);
      forall i: nat
        ensures Bit(x, i) == Bit(y, i)
      {
        hide Bit;
        if i < 8 {
          assert EccBit(c, a, n, 7 - i) == PolyBit(r, c.e, 8 * n + 7 - i) == EccBit(c, b, n, 7 - i);
          SwapBit(c.swap, a[n], 7 - i);
          SwapBit(c.swap, b[n], 7 - i);
        } else {
          ByteAbove(x, i);
          ByteAbove(y, i);
        }
      }
      SameBitsEqual(x, y);
      SwapTwice(c.swap, a[n]);
      SwapTwice(c.swap, b[n]);
    }
  }

  /** Encoding in two pieces, the second one seeded with the stored bytes of the first, gives the stored
      bytes of encoding the whole. */
  lemma PiecesEqualWhole(c: Control, g: nat, r: nat, a: seq<nat>, b: seq<nat>, whole: seq<nat>, pieces: seq<nat>)
    requires Generator(g, c.e) && r < Pow2(c.e)
    requires EccHolds(c, whole, AbsorbedBy(c, g, r, a + b))
    requires EccHolds(c, pieces, AbsorbedBy(c, g, AbsorbedBy(c, g, r, a), b))
    ensures pieces == whole
  {
    hide EccHolds, Absorb, Generator, SwapAll;
    SwapConcat(c.swap, a, b);
    AbsorbConcat(g, c.e, r, SwapAll(c.swap, a), SwapAll(c.swap, b));
    EccUnique(c, pieces, whole, AbsorbedBy(c, g, r, a + b));
  }
}
