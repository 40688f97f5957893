/**
 Cyclic redundancy checks that take the most significant bit first: lib/crc64.c with the table of
 lib/gen_crc64table.c, and the "msb" form of lib/crc8.c.  `w` is the width of the check in bits.
 */
module CrcMsb {
  import opened Bits
  import opened Gf2
  import opened CrcSlice

  /** One bit: (c << 1) ^ (top bit of c ? poly : 0) */
  function Step(w: nat, poly: nat, c: nat): nat
    requires w >= 1
  {
    Xor(Trunc(2 * c, w), if Bit(c, w - 1) then poly else 0)
  }

  function Steps(w: nat, poly: nat, c: nat, k: nat): nat
    requires w >= 1
    decreases k
  {
    if k == 0 then c else Steps(w, poly, Step(w, poly, c), k - 1)
  }

  /** The bit-at-a-time check of a buffer; a byte enters at the top. */
  function Crc(w: nat, poly: nat, c: nat, bytes: seq<nat>): nat
    requires w >= 8
  {
    if bytes == [] then c
    else Steps(w, poly, Xor(Crc(w, poly, c, bytes[..|bytes| - 1]), Shl(bytes[|bytes| - 1], w - 8)), 8)
  }

  lemma TruncOfXor(a: nat, b: nat, w: nat)
    ensures Trunc(Xor(a, b), w) == Xor(Trunc(a, w), Trunc(b, w))
  {
    hide Bit, Xor, Trunc;
    forall i: nat
      ensures Bit(Trunc(Xor(a, b), w), i) == Bit(Xor(Trunc(a, w), Trunc(b, w)), i)
    {
      BitTrunc(Xor(a, b), w, i);
      BitXor(a, b, i);
      BitXor(Trunc(a, w), Trunc(b, w), i);
      BitTrunc(a, w, i);
      BitTrunc(b, w, i);
    }
    SameBitsEqual(Trunc(Xor(a, b), w), Xor(Trunc(a, w), Trunc(b, w)));
  }

  lemma StepXor(w: nat, poly: nat, a: nat, b: nat)
    requires w >= 1
    ensures Step(w, poly, Xor(a, b)) == Xor(Step(w, poly, a), Step(w, poly, b))
  {
    hide Xor, Trunc, Bit;
    XorDouble(a, b);
    TruncOfXor(2 * a, 2 * b, w);
    BitXor(a, b, w - 1);
    var p, q := Bit(a, w - 1), Bit(b, w - 1);
    SelXor(p, q, poly);
    XorSwap(Trunc(2 * a, w), if p then poly else 0, Trunc(2 * b, w), if q then poly else 0);
  }

  lemma {:induction false} StepsXor(w: nat, poly: nat, a: nat, b: nat, k: nat)
    requires w >= 1
    ensures Steps(w, poly, Xor(a, b), k) == Xor(Steps(w, poly, a, k), Steps(w, poly, b, k))
    decreases k
  {
    hide Xor, Step;
    if k > 0 {
      StepXor(w, poly, a, b);
      StepsXor(w, poly, Step(w, poly, a), Step(w, poly, b), k - 1);
    }
  }

  lemma {:induction false} StepsAdd(w: nat, poly: nat, c: nat, j: nat, k: nat)
    requires w >= 1
    ensures Steps(w, poly, Steps(w, poly, c, j), k) == Steps(w, poly, c, j + k)
    decreases j
  {
    hide Step;
    if j > 0 {
      StepsAdd(w, poly, Step(w, poly, c), j - 1, k);
    }
  }

  lemma StepsNext(w: nat, poly: nat, c: nat, i: nat)
    requires w >= 1
    ensures Steps(w, poly, c, i + 1) == Step(w, poly, Steps(w, poly, c, i))
  {
    StepsAdd(w, poly, c, i, 1);
    assert Steps(w, poly, Steps(w, poly, c, i), 1) == Step(w, poly, Steps(w, poly, c, i));
  }

  /** As long as the top bit is clear, a step is a shift. */
  lemma {:induction false} StepsSmall(w: nat, poly: nat, c: nat, k: nat)
    requires w >= 1 && k <= w && c < Pow2(w - k)
    ensures Steps(w, poly, c, k) == Shl(c, k) && Shl(c, k) < Pow2(w)
    decreases k
  {
    if k > 0 {
      hide Xor, Trunc, Bit, Steps;
      Pow2Mono(w - k, w - 1);
      BitAbove(c, w - k, w - 1);
      TruncBelow(2 * c, w);
      XorSelf(2 * c);
      StepsSmall(w, poly, 2 * c, k - 1);
      StepsUnfold(w, poly, c, k);
      ShlMove(c, k);
    } else {
      assert Shl(c, 0) == c;
    }
  }

  lemma StepsUnfold(w: nat, poly: nat, c: nat, k: nat)
    requires w >= 1 && k > 0
    ensures Steps(w, poly, c, k) == Steps(w, poly, Step(w, poly, c), k - 1)
  {
  }

  lemma {:induction false} ShlMove(c: nat, k: nat)
    requires k > 0
    ensures Shl(2 * c, k - 1) == Shl(c, k)
  {
    if k > 1 {
      ShlMove(c, k - 1);
    }
  }

  lemma StepBelow(w: nat, poly: nat, c: nat)
    requires w >= 1 && poly < Pow2(w)
    ensures Step(w, poly, c) < Pow2(w)
  {
    TruncBelow(2 * c, w);
    XorBelow(Trunc(2 * c, w), if Bit(c, w - 1) then poly else 0, w);
  }

  lemma {:induction false} StepsBelow(w: nat, poly: nat, c: nat, k: nat)
    requires w >= 1 && poly < Pow2(w) && c < Pow2(w)
    ensures Steps(w, poly, c, k) < Pow2(w)
    decreases k
  {
    if k > 0 {
      StepBelow(w, poly, c);
      StepsBelow(w, poly, Step(w, poly, c), k - 1);
    }
  }

  /** Eight bits at once: the top byte through the table, the others shifted. */
  lemma TableStep(w: nat, poly: nat, c: nat)
    requires w >= 8 && c < Pow2(w)
    ensures Steps(w, poly, c, 8) == Xor(Steps(w, poly, Shl(Shr(c, w - 8), w - 8), 8), Trunc(Shl(c, 8), w))
  {
    hide Xor, Shl, Shr, Trunc, Steps;
    var hi, lo := Shr(c, w - 8), Trunc(c, w - 8);
    SplitXor(c, w - 8);
    StepsXor(w, poly, Shl(hi, w - 8), lo, 8);
    TruncBelow(c, w - 8);
    StepsSmall(w, poly, lo, 8);
    TruncShl(c, w);
  }

  lemma TruncShl(c: nat, w: nat)
    requires w >= 8
    ensures Shl(Trunc(c, w - 8), 8) == Trunc(Shl(c, 8), w)
  {
    hide Bit, Shl, Trunc;
    forall i: nat
      ensures Bit(Shl(Trunc(c, w - 8), 8), i) == Bit(Trunc(Shl(c, 8), w), i)
    {
      BitShl(Trunc(c, w - 8), 8, i);
      BitTrunc(Shl(c, 8), w, i);
      BitShl(c, 8, i);
      if i >= 8 {
        BitTrunc(c, w - 8, i - 8);
      }
    }
    SameBitsEqual(Shl(Trunc(c, w - 8), 8), Trunc(Shl(c, 8), w));
  }

  // --- lib/gen_crc64table.c and lib/crc64.c ---

  ghost predicate TableOk(w: nat, poly: nat, table: seq<nat>)
    requires w >= 8
  {
    |table| == 256 && forall i :: 0 <= i < 256 ==> table[i] == Steps(w, poly, Shl(i, w - 8), 8)
  }

  /** generate_crc64_table(): the check and the byte are kept apart, but step together. */
  method GenerateTable(poly: nat) returns (table: seq<nat>)
    requires poly < Pow2(64)
    ensures TableOk(64, poly, table)
  {
    hide Xor, Shl, Trunc, Steps, Bit, Pow2, Step;
    table := [];
    var i: nat := 0;
    while i < 256
      invariant 0 <= i <= 256 && |table| == i
      invariant forall k :: 0 <= k < i ==> table[k] == Steps(64, poly, Shl(k, 56), 8)
    {
      var crc: nat, c: nat := 0, Shl(i, 56);
      GenerateStart(poly, i, c);
      var j: nat := 0;
      while j < 8
        invariant 0 <= j <= 8 && Xor(crc, c) == Steps(64, poly, Shl(i, 56), j)
        invariant c == Trunc(Shl(Shl(i, 56), j), 64)
      {
        GenerateStep(poly, crc, c, Shl(i, 56), j);
        if Bit(Xor(crc, c), 63) {
          crc := Xor(Trunc(2 * crc, 64), poly);
        } else {
          crc := Trunc(2 * crc, 64);
        }
        c := Trunc(2 * c, 64);
        j := j + 1;
      }
      GenerateEnd(i, crc, c);
      table := table + [crc];
      i := i + 1;
    }
  }

  lemma GenerateStart(poly: nat, i: nat, c: nat)
    requires i < 256 && c == Shl(i, 56)
    ensures Xor(0, c) == Steps(64, poly, c, 0) && c == Trunc(Shl(c, 0), 64)
  {
    hide Pow2;
    XorSelf(c);
    EightBit();
    ShlBelowBits(i, 56, 8);
    TruncBelow(c, 64);
    ShlPow2(c, 0);
    assert Pow2(0) == 1 by {
      FirstPower();
    }
  }

  lemma FirstPower()
    ensures Pow2(0) == 1
  {
  }

  lemma GenerateStep(poly: nat, crc: nat, c: nat, s: nat, j: nat)
    requires Xor(crc, c) == Steps(64, poly, s, j) && c == Trunc(Shl(s, j), 64)
    ensures
      var crc' := if Bit(Xor(crc, c), 63) then Xor(Trunc(2 * crc, 64), poly) else Trunc(2 * crc, 64);
      Xor(crc', Trunc(2 * c, 64)) == Steps(64, poly, s, j + 1)
    ensures Trunc(2 * c, 64) == Trunc(Shl(s, j + 1), 64)
  {
    hide Xor, Trunc, Steps, Bit, Shl;
    StepsNext(64, poly, s, j);
    XorDouble(crc, c);
    TruncOfXor(2 * crc, 2 * c, 64);
    var x, y := Trunc(2 * crc, 64), Trunc(2 * c, 64);
    XorSelf(Xor(x, y));
    XorAssoc(x, poly, y);
    XorComm(poly, y);
    XorAssoc(x, y, poly);
    TruncDouble(Shl(s, j), 64);
    ShlUp(s, j);
  }

  lemma ShlUp(s: nat, j: nat)
    ensures Shl(s, j + 1) == 2 * Shl(s, j)
  {
  }

  lemma TruncDouble(x: nat, w: nat)
    ensures Trunc(2 * Trunc(x, w), w) == Trunc(2 * x, w)
  {
    hide Bit, Trunc;
    forall i: nat
      ensures Bit(Trunc(2 * Trunc(x, w), w), i) == Bit(Trunc(2 * x, w), i)
    {
      BitTrunc(2 * Trunc(x, w), w, i);
      BitTrunc(2 * x, w, i);
      DoubleBit(Trunc(x, w), i);
      DoubleBit(x, i);
      if i > 0 {
        BitTrunc(x, w, i - 1);
      }
    }
    SameBitsEqual(Trunc(2 * Trunc(x, w), w), Trunc(2 * x, w));
  }

  lemma DoubleBit(x: nat, i: nat)
    ensures Bit(2 * x, i) == (i > 0 && Bit(x, i - 1))
  {
  }

  lemma GenerateEnd(i: nat, crc: nat, c: nat)
    requires i < 256 && c == Trunc(Shl(Shl(i, 56), 8), 64)
    ensures Xor(crc, c) == crc
  {
    hide Bit, Trunc, Shl, Xor;
    forall b: nat
      ensures Bit(c, b) == Bit(0, b)
    {
      BitTrunc(Shl(Shl(i, 56), 8), 64, b);
      ShlShl(i, 56, 8);
      BitShl(i, 64, b);
      BitZero(b);
    }
    SameBitsEqual(c, 0);
    XorSelf(crc);
  }

  /** crc64_be() */
  method Crc64Be(table: seq<nat>, poly: nat, crc0: nat, data: seq<nat>) returns (crc: nat)
    requires poly < Pow2(64) && crc0 < Pow2(64) && TableOk(64, poly, table) && AllBytes(data)
    ensures crc == Crc(64, poly, crc0, data)
  {
    hide Xor, Shl, Shr, Trunc, Steps, Pow2, Crc;
    crc := crc0;
    CrcNone(64, poly, crc0, data);
    var i := 0;
    while i < |data|
      invariant 0 <= i <= |data| && crc == Crc(64, poly, crc0, data[..i]) && crc < Pow2(64)
    {
      CrcNext(64, poly, crc0, data, i);
      Crc64Step(poly, crc, data[i]);
      var t := Trunc(Xor(Shr(crc, 56), data[i]), 8);
      crc := Xor(table[t], Trunc(Shl(crc, 8), 64));
      i := i + 1;
    }
    assert data[..i] == data;
  }

  lemma CrcNone(w: nat, poly: nat, c: nat, data: seq<nat>)
    requires w >= 8
    ensures Crc(w, poly, c, data[..0]) == c
  {
  }

  lemma CrcNext(w: nat, poly: nat, c: nat, data: seq<nat>, n: nat)
    requires w >= 8 && n < |data|
    ensures Crc(w, poly, c, data[..n + 1]) == Steps(w, poly, Xor(Crc(w, poly, c, data[..n]), Shl(data[n], w - 8)), 8)
  {
    assert data[..n + 1][..n] == data[..n];
  }

  lemma Crc64Step(poly: nat, crc: nat, b: nat)
    requires poly < Pow2(64) && crc < Pow2(64) && b < 256
    ensures
      var t := Trunc(Xor(Shr(crc, 56), b), 8);
      && t < 256 && Xor(crc, Shl(b, 56)) < Pow2(64)
      && Steps(64, poly, Xor(crc, Shl(b, 56)), 8) == Xor(Steps(64, poly, Shl(t, 56), 8), Trunc(Shl(crc, 8), 64))
      && Steps(64, poly, Xor(crc, Shl(b, 56)), 8) < Pow2(64)
  {
    hide Xor, Shl, Shr, Trunc, Steps, Pow2;
    var x := Xor(crc, Shl(b, 56));
    EightBit();
    ShlBelowBits(b, 56, 8);
    XorBelow(crc, Shl(b, 56), 64);
    StepsBelow(64, poly, x, 8);
    TableStep(64, poly, x);
    ByteIndex(Xor(Shr(crc, 56), b));
    ShrBelowBits(crc, 56, 8);
    XorBelow(Shr(crc, 56), b, 8);
    TruncBelow(Xor(Shr(crc, 56), b), 8);
    TopXor(crc, b);
  }

  lemma TopXor(crc: nat, b: nat)
    ensures Shr(Xor(crc, Shl(b, 56)), 56) == Xor(Shr(crc, 56), b)
    ensures Trunc(Shl(Xor(crc, Shl(b, 56)), 8), 64) == Trunc(Shl(crc, 8), 64)
  {
    hide Bit, Xor, Shl, Shr, Trunc;
    var x := Xor(crc, Shl(b, 56));
    forall i: nat
      ensures Bit(Shr(x, 56), i) == Bit(Xor(Shr(crc, 56), b), i)
    {
      BitShr(x, 56, i);
      BitXor(crc, Shl(b, 56), i + 56);
      BitShl(b, 56, i + 56);
      BitXor(Shr(crc, 56), b, i);
      BitShr(crc, 56, i);
    }
    SameBitsEqual(Shr(x, 56), Xor(Shr(crc, 56), b));
    forall i: nat
      ensures Bit(Trunc(Shl(x, 8), 64), i) == Bit(Trunc(Shl(crc, 8), 64), i)
    {
      BitTrunc(Shl(x, 8), 64, i);
      BitTrunc(Shl(crc, 8), 64, i);
      BitShl(x, 8, i);
      BitShl(crc, 8, i);
      if i >= 8 {
        BitXor(crc, Shl(b, 56), i - 8);
        BitShl(b, 56, i - 8);
      }
    }
    SameBitsEqual(Trunc(Shl(x, 8), 64), Trunc(Shl(crc, 8), 64));
  }

  // --- crc8_populate_msb() ---

  /** The doubling loop: table[i + j] = table[j] ^ t for j < i. */
  method PopulateMsb(table: array<nat>, poly: nat)
    requires table.Length == 256 && poly < 256
    modifies table
    ensures TableOk(8, poly, table[..])
  {
    hide Xor, Shl, Trunc, Steps, Bit, Step;
    EightBit();
    var t: nat := 0x80;
    table[0] := 0;
    MsbZero(poly);
    var i := 1;
    ghost var e: nat := 0;
    while i < 256
      invariant e <= 8 && i == Pow2(e) && t == Steps(8, poly, 0x80, e)
      invariant forall x :: 0 <= x < i ==> table[x] == Steps(8, poly, x, 8)
      decreases 256 - i
    {
      StepsNext(8, poly, 0x80, e);
      t := Step(8, poly, t);
      MsbPower(poly, e);
      var j := 0;
      Pow2Mono(e + 1, 8);
      while j < i
        invariant 0 <= j <= i
        invariant forall x :: 0 <= x < i + j ==> table[x] == Steps(8, poly, x, 8)
      {
        MsbEntry(poly, e, j);
        table[i + j] := Xor(table[j], t);
        j := j + 1;
      }
      i := i * 2;
      e := e + 1;
    }
    forall k | 0 <= k < 256
      ensures table[..][k] == Steps(8, poly, Shl(k, 0), 8)
    {
      ShlNothing(k);
    }
  }

  lemma MsbZero(poly: nat)
    ensures Steps(8, poly, 0, 8) == 0 && Steps(8, poly, 0x80, 0) == 0x80 && Pow2(0) == 1
  {
    StepsSmall(8, poly, 0, 8);
    ShlPow2(0, 8);
  }

  lemma MsbPower(poly: nat, e: nat)
    requires e < 8
    ensures Steps(8, poly, Pow2(e), 8) == Steps(8, poly, 0x80, e + 1)
  {
    hide Steps, Shl, Pow2;
    PowerRoom(e);
    StepsSmall(8, poly, Pow2(e), 7 - e);
    ShlOfPow2(e, 7 - e);
    EightBit();
    StepsAdd(8, poly, Pow2(e), 7 - e, e + 1);
  }

  lemma PowerRoom(e: nat)
    requires e < 8
    ensures Pow2(e) < Pow2(8 - (7 - e))
  {
  }

  lemma MsbEntry(poly: nat, e: nat, j: nat)
    requires e < 8 && j < Pow2(e)
    ensures Steps(8, poly, Pow2(e) + j, 8) == Xor(Steps(8, poly, j, 8), Steps(8, poly, Pow2(e), 8))
  {
    hide Steps, Xor, Shl;
    JoinXor(e, j);
    StepsXor(8, poly, j, Pow2(e), 8);
  }

  lemma JoinXor(e: nat, j: nat)
    requires j < Pow2(e)
    ensures Xor(j, Pow2(e)) == Pow2(e) + j
  {
    hide Bit, Xor, Shl;
    ShlPow2(1, e);
    forall i: nat
      ensures Bit(Xor(j, Pow2(e)), i) == Bit(Pow2(e) + j, i)
    {
      BitXor(j, Pow2(e), i);
      BitPow2(e, i);
      BitJoin(1, j, e, i);
      if i >= e {
        BitAbove(j, e, i);
        BitPow2(0, i - e);
      }
    }
    SameBitsEqual(Xor(j, Pow2(e)), Pow2(e) + j);
  }

  /** crc8() with the table of crc8_populate_msb() */
  lemma {:induction false} Crc8Msb(table: seq<nat>, poly: nat, c: nat, data: seq<nat>)
    requires TableOk(8, poly, table) && poly < 256 && c < 256 && AllBytes(data)
    ensures Fold(table, c, data) == Crc(8, poly, c, data) && Crc(8, poly, c, data) < 256
  {
    hide Steps, Xor, Trunc;
    if data != [] {
      var n := |data| - 1;
      Crc8Msb(table, poly, c, data[..n]);
      EightBit();
      var x := Xor(Crc(8, poly, c, data[..n]), data[n]);
      XorBelow(Crc(8, poly, c, data[..n]), data[n], 8);
      TruncBelow(x, 8);
      ShlNothing(data[n]);
      ShlNothing(x);
      StepsBelow(8, poly, x, 8);
    }
  }
}
