/**
 The table-driven forms of the checks that take the least significant bit first: the tables of
 lib/gen_crc32table.c and lib/crc8.c, the table for a byte at a time, and slicing by 4 and by 8 bytes.
 */
module CrcSlice {
  import opened Bits
  import opened CrcLsb

  // --- building the first row ---

  lemma {:induction false} TruncAdd(j: nat, e: nat, d: nat)
    requires Trunc(j, e) == 0 && d < Pow2(e)
    ensures Trunc(j + d, e) == d && Trunc(j + Pow2(e), e) == 0
  {
    if e > 0 {
      assert j % 2 == 0 && (j + d) / 2 == j / 2 + d / 2 && (j + Pow2(e)) / 2 == j / 2 + Pow2(e - 1);
      TruncAdd(j / 2, e - 1, d / 2);
    }
  }

  /** A multiple of 2^e below 2^k leaves room for another 2^e. */
  lemma {:induction false} TruncRoom(y: nat, e: nat, k: nat)
    requires e <= k && y < Pow2(k) && Trunc(y, e) == 0
    ensures y + Pow2(e) <= Pow2(k)
  {
    if e > 0 {
      assert y % 2 == 0;
      TruncRoom(y / 2, e - 1, k - 1);
    }
  }

  lemma {:induction false} AddPow2(y: nat, e: nat)
    requires Trunc(y, e + 1) == 0
    ensures Xor(y, Pow2(e)) == y + Pow2(e)
  {
    hide Xor;
    XorHalf(y, Pow2(e));
    if e == 0 {
      assert Pow2(0) == 1 && y % 2 == 0;
      XorSelf(y / 2);
    } else {
      assert y % 2 == 0 && Pow2(e) / 2 == Pow2(e - 1) && Pow2(e) % 2 == 0;
      AddPow2(y / 2, e - 1);
    }
  }

  /** Every multiple of 2^e is one of 2^(e+1), or one plus 2^e. */
  lemma {:induction false} TruncSplit(x: nat, e: nat)
    requires Trunc(x, e) == 0 && Trunc(x, e + 1) != 0
    ensures x >= Pow2(e) && Trunc(x - Pow2(e), e + 1) == 0
  {
    if e > 0 {
      assert x % 2 == 0 && (x - Pow2(e)) / 2 == x / 2 - Pow2(e - 1);
      TruncSplit(x / 2, e - 1);
    } else {
      assert x % 2 == 1 && (x - 1) % 2 == 0;
    }
  }

  ghost predicate Filled(poly: nat, table: seq<nat>, e: nat) {
    |table| == 256 && forall x :: 0 <= x < 256 && Trunc(x, e) == 0 ==> table[x] == Steps(poly, x, 8)
  }

  /** Entries y + 2^e for the multiples y of 2^(e+1) below `j`. */
  ghost predicate Filling(poly: nat, table: seq<nat>, e: nat, j: nat) {
    && Filled(poly, table, e + 1)
    && forall y: nat :: y < j && Trunc(y, e + 1) == 0 ==> UpperOk(poly, table, e, y)
  }

  ghost predicate UpperOk(poly: nat, table: seq<nat>, e: nat, y: nat)
    requires |table| == 256
  {
    y + Pow2(e) < 256 ==> table[y + Pow2(e)] == Steps(poly, y + Pow2(e), 8)
  }

  lemma EntryIs(poly: nat, j: nat, e: nat)
    requires Trunc(j, e + 1) == 0 && e < 8
    ensures Steps(poly, j + Pow2(e), 8) == Xor(Steps(poly, j, 8), Steps(poly, 1, 8 - e))
  {
    hide Xor, Steps, Trunc, Shl, Pow2;
    AddPow2(j, e);
    StepsXor(poly, j, Pow2(e), 8);
    ShlPow2(1, e);
    StepsShlMore(poly, 1, e, 8);
  }

  lemma FillStep(poly: nat, table: seq<nat>, e: nat, j: nat)
    requires Filling(poly, table, e, j) && Trunc(j, e + 1) == 0 && e < 8 && j + Pow2(e) < 256
    ensures Filling(poly, table[j + Pow2(e) := Steps(poly, j + Pow2(e), 8)], e, j + Pow2(e + 1)) && Trunc(j + Pow2(e + 1), e + 1) == 0
  {
    hide Steps, Trunc;
    var table' := table[j + Pow2(e) := Steps(poly, j + Pow2(e), 8)];
    assert 0 < Pow2(e) < Pow2(e + 1);
    TruncAdd(j, e + 1, Pow2(e));
    forall y: nat | y < j + Pow2(e + 1) && Trunc(y, e + 1) == 0
      ensures UpperOk(poly, table', e, y)
    {
      if y > j {
        TruncAdd(j, e + 1, y - j);
      } else if y < j {
        assert UpperOk(poly, table, e, y);
      }
    }
    forall x | 0 <= x < 256 && Trunc(x, e + 1) == 0
      ensures table'[x] == Steps(poly, x, 8)
    {
      hide Pow2;
      assert x != j + Pow2(e);
    }
  }

  lemma FillDone(poly: nat, table: seq<nat>, e: nat, j: nat)
    requires Filling(poly, table, e, j) && e < 8 && j >= 256
    ensures Filled(poly, table, e)
  {
    hide Steps;
    forall x | 0 <= x < 256 && Trunc(x, e) == 0
      ensures table[x] == Steps(poly, x, 8)
    {
      if Trunc(x, e + 1) != 0 {
        TruncSplit(x, e);
        assert UpperOk(poly, table, e, x - Pow2(e));
      }
    }
  }

  lemma EightBit()
    ensures Pow2(8) == 256 && Pow2(7) == 128
  {
    assert Pow2(4) == 16;
  }

  lemma FillStart(poly: nat, table: seq<nat>)
    requires |table| == 256 && table[0] == 0
    ensures Filled(poly, table, 8)
  {
    EightBit();
    StepsZero(poly, 8);
    forall x | 0 <= x < 256 && Trunc(x, 8) == 0
      ensures x == 0
    {
      TruncBelow(x, 8);
    }
  }

  /** The doubling loops of crc32init_le_generic() and crc8_populate_lsb(). */
  method PopulateLsb(table: array<nat>, poly: nat)
    requires table.Length == 256
    modifies table
    ensures forall i :: 0 <= i < 256 ==> table[i] == Steps(poly, i, 8)
  {
    hide Steps, Step, Xor, Trunc, Filled, Filling;
    EightBit();
    var t: nat := 1;
    table[0] := 0;
    FillStart(poly, table[..]);
    StepsNone(poly, 1);
    var i := 128;
    ghost var e: nat := 8;
    while i != 0
      invariant e <= 8 && i == (if e == 0 then 0 else Pow2(e - 1))
      invariant t == Steps(poly, 1, 8 - e) && Filled(poly, table[..], e)
      decreases i
    {
      e := e - 1;
      StepsNext(poly, 1, 8 - (e + 1));
      t := Step(poly, t);
      FillBegin(poly, table[..], e);
      var j := 0;
      while j < 256
        invariant Trunc(j, e + 1) == 0 && Filling(poly, table[..], e, j)
        decreases 256 - j
      {
        TruncRoom(j, e + 1, 8);
        FilledAt(poly, table[..], e, j);
        EntryIs(poly, j, e);
        FillStep(poly, table[..], e, j);
        ghost var was := table[..];
        table[i + j] := Xor(table[j], t);
        assert table[..] == was[j + Pow2(e) := Steps(poly, j + Pow2(e), 8)];
        j := j + 2 * i;
      }
      FillDone(poly, table[..], e, j);
      i := i / 2;
    }
    forall k | 0 <= k < 256
      ensures table[k] == Steps(poly, k, 8)
    {
      FilledAll(poly, table[..], k);
    }
  }

  lemma FillBegin(poly: nat, table: seq<nat>, e: nat)
    requires Filled(poly, table, e + 1)
    ensures Filling(poly, table, e, 0) && Trunc(0, e + 1) == 0
  {
    TruncBelow(0, e + 1);
  }

  lemma FilledAt(poly: nat, table: seq<nat>, e: nat, j: nat)
    requires Filling(poly, table, e, j) && j < 256 && Trunc(j, e + 1) == 0
    ensures |table| == 256 && table[j] == Steps(poly, j, 8)
  {
  }

  lemma FilledAll(poly: nat, table: seq<nat>, k: nat)
    requires Filled(poly, table, 0) && k < 256
    ensures table[k] == Steps(poly, k, 8)
  {
    assert Trunc(k, 0) == 0;
  }

  // --- one table ---

  /** crc32_le_generic() with CRC_LE_BITS == 8. */
  method TableCrc(table: seq<nat>, poly: nat, crc0: nat, data: seq<nat>) returns (crc: nat)
    requires |table| == 256 && forall i :: 0 <= i < 256 ==> table[i] == Steps(poly, i, 8)
    ensures crc == Crc(poly, crc0, data)
  {
    hide Steps, Xor, Trunc, Shr, Crc;
    crc := crc0;
    CrcNone(poly, crc0, data);
    var n := 0;
    while n < |data|
      invariant 0 <= n <= |data| && crc == Crc(poly, crc0, data[..n])
    {
      CrcNext(poly, crc0, data, n);
      crc := Xor(crc, data[n]);
      TableStep(poly, crc, 8);
      ByteIndex(crc);
      crc := Xor(Shr(crc, 8), table[Trunc(crc, 8)]);
      n := n + 1;
    }
    assert data[..n] == data;
  }

  lemma CrcNone(poly: nat, c: nat, data: seq<nat>)
    ensures Crc(poly, c, data[..0]) == c
  {
  }

  lemma CrcNext(poly: nat, c: nat, data: seq<nat>, n: nat)
    requires n < |data|
    ensures Crc(poly, c, data[..n + 1]) == Steps(poly, Xor(Crc(poly, c, data[..n]), data[n]), 8)
  {
    assert data[..n + 1][..n] == data[..n];
  }

  lemma ByteIndex(x: nat)
    ensures Trunc(x, 8) < 256
  {
    EightBit();
    TruncBelow(x, 8);
  }

  /** What crc8() computes with a table. */
  function Fold(table: seq<nat>, c: nat, data: seq<nat>): nat {
    if data == [] then c
    else
      var x := Trunc(Xor(Fold(table, c, data[..|data| - 1]), data[|data| - 1]), 8);
      if x < |table| then table[x] else 0
  }

  method Crc8(table: seq<nat>, data: seq<nat>, crc0: nat) returns (crc: nat)
    requires |table| == 256
    ensures crc == Fold(table, crc0, data)
  {
    hide Xor, Trunc;
    crc := crc0;
    var n := 0;
    assert data[..0] == [];
    while n < |data|
      invariant 0 <= n <= |data| && crc == Fold(table, crc0, data[..n])
    {
      ByteIndex(Xor(crc, data[n]));
      assert data[..n + 1][..n] == data[..n];
      crc := table[Trunc(Xor(crc, data[n]), 8)];
      n := n + 1;
    }
    assert data[..n] == data;
  }

  /** crc8() with the table of crc8_populate_lsb() */
  lemma {:induction false} Crc8Lsb(table: seq<nat>, poly: nat, c: nat, data: seq<nat>)
    requires |table| == 256 && poly < 256 && c < 256 && forall i :: 0 <= i < |data| ==> data[i] < 256
    requires forall i :: 0 <= i < 256 ==> table[i] == Steps(poly, i, 8)
    ensures Fold(table, c, data) == Crc(poly, c, data) && Crc(poly, c, data) < 256
  {
    hide Steps, Xor, Trunc;
    if data != [] {
      var n := |data| - 1;
      Crc8Lsb(table, poly, c, data[..n]);
      EightBit();
      var x := Xor(Crc(poly, c, data[..n]), data[n]);
      XorBelow(Crc(poly, c, data[..n]), data[n], 8);
      TruncBelow(x, 8);
      StepsBelow(poly, x, 8, 8);
    }
  }

  // --- slicing ---

  /** Row k holds the checks of one byte followed by k zero bytes. */
  ghost predicate RowsOk(poly: nat, tab: seq<seq<nat>>, rows: nat) {
    && |tab| == rows
    && forall k :: 0 <= k < rows ==> RowOk(poly, tab[k], k)
  }

  ghost predicate RowOk(poly: nat, row: seq<nat>, k: nat) {
    |row| == 256 && forall i :: 0 <= i < 256 ==> row[i] == Steps(poly, i, 8 * (k + 1))
  }

  /** The further rows of crc32init_le_generic(): one more zero byte each. */
  method PopulateRows(first: seq<nat>, poly: nat, rows: nat) returns (tab: seq<seq<nat>>)
    requires rows >= 1 && |first| == 256 && forall i :: 0 <= i < 256 ==> first[i] == Steps(poly, i, 8)
    ensures RowsOk(poly, tab, rows)
  {
    hide Steps, Xor, Trunc, Shr;
    tab := [first];
    while |tab| < rows
      invariant 1 <= |tab| <= rows && RowsOk(poly, tab, |tab|)
      decreases rows - |tab|
    {
      ghost var j := |tab|;
      assert RowOk(poly, tab[j - 1], j - 1);
      var row := [];
      var i := 0;
      while i < 256
        invariant 0 <= i <= 256 && |row| == i
        invariant forall k :: 0 <= k < i ==> row[k] == Steps(poly, k, 8 * (j + 1))
      {
        var crc := tab[|tab| - 1][i];
        ByteIndex(crc);
        TableStep(poly, crc, 8);
        XorComm(Shr(crc, 8), first[Trunc(crc, 8)]);
        StepsAdd(poly, i, 8 * j, 8);
        row := row + [Xor(first[Trunc(crc, 8)], Shr(crc, 8))];
        i := i + 1;
      }
      tab := tab + [row];
    }
  }

  /** Byte `q` of a little-endian word. */
  function Byte(w: nat, q: nat): nat {
    Trunc(Shr(w, 8 * q), 8)
  }

  lemma {:induction false} ShrBelowBits(x: nat, k: nat, w: nat)
    requires x < Pow2(k + w)
    ensures Shr(x, k) < Pow2(w)
    decreases k
  {
    if k > 0 {
      ShrBelowBits(x / 2, k - 1, w);
    }
  }

  lemma {:induction false} ShrShr(x: nat, j: nat, k: nat)
    ensures Shr(Shr(x, j), k) == Shr(x, j + k)
    decreases j
  {
    if j > 0 {
      ShrShr(x / 2, j - 1, k);
    }
  }

  /** Four bytes through four rows: `z` zero bytes follow the word. */
  lemma FourRows(poly: nat, q: nat, z: nat)
    requires q < Pow2(32)
    ensures
      Steps(poly, q, 8 * (z + 4))
      == Xor(Xor(Xor(Steps(poly, Byte(q, 0), 8 * (z + 4)), Steps(poly, Byte(q, 1), 8 * (z + 3))),
                 Steps(poly, Byte(q, 2), 8 * (z + 2))),
             Steps(poly, Byte(q, 3), 8 * (z + 1)))
  {
    hide Xor, Shl, Shr, Trunc, Steps, Pow2;
    var q1, q2, q3 := Shr(q, 8), Shr(q, 16), Shr(q, 24);
    ShrShr(q, 8, 8);
    ShrShr(q, 16, 8);
    PeelBits(poly, q, 8 * (z + 4));
    PeelBits(poly, q1, 8 * (z + 3));
    PeelBits(poly, q2, 8 * (z + 2));
    ShrBelowBits(q, 24, 8);
    TruncBelow(q3, 8);
    ShrNothing(q);
    var s0, s1, s2 := Steps(poly, Byte(q, 0), 8 * (z + 4)), Steps(poly, Byte(q, 1), 8 * (z + 3)), Steps(poly, Byte(q, 2), 8 * (z + 2));
    var s3 := Steps(poly, q3, 8 * (z + 1));
    XorAssoc(s0, s1, Xor(s2, s3));
    XorAssoc(Xor(s0, s1), s2, s3);
  }

  lemma PeelBits(poly: nat, q: nat, n: nat)
    requires n >= 8
    ensures Steps(poly, q, n) == Xor(Steps(poly, Trunc(q, 8), n), Steps(poly, Shr(q, 8), n - 8))
  {
    hide Xor, Shl, Shr, Trunc, Steps;
    SplitXor(q, 8);
    StepsXor(poly, Shl(Shr(q, 8), 8), Trunc(q, 8), n);
    StepsShlMore(poly, Shr(q, 8), 8, n);
    XorComm(Steps(poly, Shr(q, 8), n - 8), Steps(poly, Trunc(q, 8), n));
  }

  /** Four bytes as a little-endian word. */
  function Word(b0: nat, b1: nat, b2: nat, b3: nat): nat {
    Xor(Xor(Xor(b0, Shl(b1, 8)), Shl(b2, 16)), Shl(b3, 24))
  }

  lemma WordBelow(b0: nat, b1: nat, b2: nat, b3: nat)
    requires b0 < 256 && b1 < 256 && b2 < 256 && b3 < 256
    ensures Word(b0, b1, b2, b3) < Pow2(32)
  {
    hide Xor, Shl, Pow2;
    EightBit();
    ShlBelowBits(b0, 0, 8);
    ShlBelowBits(b1, 8, 8);
    ShlBelowBits(b2, 16, 8);
    ShlBelowBits(b3, 24, 8);
    ShlNothing(b0);
    Pow2Mono(8, 32);
    Pow2Mono(16, 32);
    Pow2Mono(24, 32);
    XorBelow(b0, Shl(b1, 8), 32);
    XorBelow(Xor(b0, Shl(b1, 8)), Shl(b2, 16), 32);
    XorBelow(Xor(Xor(b0, Shl(b1, 8)), Shl(b2, 16)), Shl(b3, 24), 32);
  }

  lemma {:induction false} ShlBelowBits(x: nat, k: nat, w: nat)
    requires x < Pow2(w)
    ensures Shl(x, k) < Pow2(k + w)
  {
    if k > 0 {
      ShlBelowBits(x, k - 1, w);
    }
  }

  /** Taking four bytes in one after the other is taking their word in and stepping 32 bits. */
  lemma CrcWord(poly: nat, c: nat, b0: nat, b1: nat, b2: nat, b3: nat)
    ensures Crc(poly, c, [b0, b1, b2, b3]) == Steps(poly, Xor(c, Word(b0, b1, b2, b3)), 32)
  {
    hide Xor, Shl, Steps, Crc;
    var w1, w2 := Xor(b0, Shl(b1, 8)), Xor(Xor(b0, Shl(b1, 8)), Shl(b2, 16));
    CrcOne(poly, c, [], b0);
    CrcOne(poly, c, [b0], b1);
    CrcOne(poly, c, [b0, b1], b2);
    CrcOne(poly, c, [b0, b1, b2], b3);
    assert [] + [b0] == [b0] && [b0] + [b1] == [b0, b1] && [b0, b1] + [b2] == [b0, b1, b2] && [b0, b1, b2] + [b3] == [b0, b1, b2, b3];
    CrcEmpty(poly, c);
    TakeLater(poly, c, b0, b1, 8);
    TakeLater(poly, c, w1, b2, 16);
    TakeLater(poly, c, w2, b3, 24);
  }

  lemma CrcEmpty(poly: nat, c: nat)
    ensures Crc(poly, c, []) == c
  {
  }

  lemma CrcOne(poly: nat, c: nat, s: seq<nat>, b: nat)
    ensures Crc(poly, c, s + [b]) == Steps(poly, Xor(Crc(poly, c, s), b), 8)
  {
    assert (s + [b])[..|s|] == s;
  }

  /** A byte taken in after k bits could have been taken in at the start, k bits higher. */
  lemma TakeLater(poly: nat, c: nat, w: nat, b: nat, k: nat)
    ensures Steps(poly, Xor(Steps(poly, Xor(c, w), k), b), 8) == Steps(poly, Xor(c, Xor(w, Shl(b, k))), k + 8)
  {
    hide Xor, Shl, Steps;
    StepsShl(poly, b, k);
    StepsXor(poly, Xor(c, w), Shl(b, k), k);
    XorAssoc(c, w, Shl(b, k));
    StepsAdd(poly, Xor(c, Xor(w, Shl(b, k))), k, 8);
  }

  ghost predicate AllBytes(data: seq<nat>) {
    forall i :: 0 <= i < |data| ==> data[i] < 256
  }

  lemma CrcBelow(poly: nat, c: nat, data: seq<nat>)
    requires poly < Pow2(32) && c < Pow2(32) && AllBytes(data)
    ensures Crc(poly, c, data) < Pow2(32)
  {
    hide Steps, Xor, Pow2;
    if data != [] {
      var n := |data| - 1;
      CrcBelow(poly, c, data[..n]);
      EightBit();
      Pow2Mono(8, 32);
      XorBelow(Crc(poly, c, data[..n]), data[n], 32);
      StepsBelow(poly, Xor(Crc(poly, c, data[..n]), data[n]), 8, 32);
    }
  }

  /** DO_CRC: one byte through row 0. */
  method DoCrc(t0: seq<nat>, poly: nat, crc: nat, x: nat) returns (crc': nat)
    requires RowOk(poly, t0, 0) && x < 256
    ensures crc' == Steps(poly, Xor(crc, x), 8)
  {
    hide Steps, Xor, Trunc, Shr;
    ByteIndex(Xor(crc, x));
    TableStep(poly, Xor(crc, x), 8);
    ShrXorByte(crc, x);
    XorComm(Shr(crc, 8), t0[Trunc(Xor(crc, x), 8)]);
    crc' := Xor(t0[Trunc(Xor(crc, x), 8)], Shr(crc, 8));
  }

  lemma ShrXorByte(c: nat, x: nat)
    requires x < 256
    ensures Shr(Xor(c, x), 8) == Shr(c, 8)
  {
    hide Bit, Xor, Shr;
    EightBit();
    forall i: nat
      ensures Bit(Shr(Xor(c, x), 8), i) == Bit(Shr(c, 8), i)
    {
      BitShr(Xor(c, x), 8, i);
      BitShr(c, 8, i);
      BitXor(c, x, i + 8);
      BitAbove(x, 8, i + 8);
    }
    SameBitsEqual(Shr(Xor(c, x), 8), Shr(c, 8));
  }

  /** DO_CRC4 and DO_CRC8: a word through the rows z + 3 .. z. */
  method DoWord(tab: seq<seq<nat>>, poly: nat, rows: nat, q: nat, z: nat) returns (crc: nat)
    requires RowsOk(poly, tab, rows) && z + 4 <= rows && q < Pow2(32)
    ensures crc == Steps(poly, q, 8 * (z + 4))
  {
    hide Steps, Xor, Trunc, Shr;
    FourRows(poly, q, z);
    ByteIndex(Shr(q, 0));
    ByteIndex(Shr(q, 8));
    ByteIndex(Shr(q, 16));
    ByteIndex(Shr(q, 24));
    assert RowOk(poly, tab[z + 3], z + 3) && RowOk(poly, tab[z + 2], z + 2) && RowOk(poly, tab[z + 1], z + 1) && RowOk(poly, tab[z], z);
    crc := Xor(Xor(Xor(tab[z + 3][Byte(q, 0)], tab[z + 2][Byte(q, 1)]), tab[z + 1][Byte(q, 2)]), tab[z][Byte(q, 3)]);
  }

  /** One turn of the word loop: four bytes, or eight with twice the rows. */
  method DoWords(tab: seq<seq<nat>>, poly: nat, by8: bool, crc: nat, data: seq<nat>, n: nat) returns (crc': nat)
    requires RowsOk(poly, tab, if by8 then 8 else 4) && poly < Pow2(32) && crc < Pow2(32) && AllBytes(data)
    requires n + (if by8 then 8 else 4) <= |data|
    ensures crc' == Crc(poly, crc, data[n..n + if by8 then 8 else 4])
  {
    hide Steps, Xor, Shl, Crc, Pow2;
    WordBelow(data[n], data[n + 1], data[n + 2], data[n + 3]);
    var w := Word(data[n], data[n + 1], data[n + 2], data[n + 3]);
    XorBelow(crc, w, 32);
    CrcWord(poly, crc, data[n], data[n + 1], data[n + 2], data[n + 3]);
    if !by8 {
      crc' := DoWord(tab, poly, 4, Xor(crc, w), 0);
      assert data[n..n + 4] == [data[n], data[n + 1], data[n + 2], data[n + 3]];
    } else {
      crc' := DoWord(tab, poly, 8, Xor(crc, w), 4);
      WordBelow(data[n + 4], data[n + 5], data[n + 6], data[n + 7]);
      var v := Word(data[n + 4], data[n + 5], data[n + 6], data[n + 7]);
      var low := DoWord(tab, poly, 8, v, 0);
      crc' := Xor(crc', low);
      EightBytes(poly, crc, data, n);
    }
  }

  lemma EightBytes(poly: nat, crc: nat, data: seq<nat>, n: nat)
    requires n + 8 <= |data|
    ensures
      Crc(poly, crc, data[n..n + 8])
      == Xor(Steps(poly, Xor(crc, Word(data[n], data[n + 1], data[n + 2], data[n + 3])), 64),
             Steps(poly, Word(data[n + 4], data[n + 5], data[n + 6], data[n + 7]), 32))
  {
    hide Steps, Xor, Crc;
    var a := [data[n], data[n + 1], data[n + 2], data[n + 3]];
    var b := [data[n + 4], data[n + 5], data[n + 6], data[n + 7]];
    assert data[n..n + 8] == a + b;
    CrcConcat(poly, crc, a, b);
    CrcWord(poly, crc, data[n], data[n + 1], data[n + 2], data[n + 3]);
    var c := Crc(poly, crc, a);
    CrcWord(poly, c, data[n + 4], data[n + 5], data[n + 6], data[n + 7]);
    StepsXor(poly, c, Word(data[n + 4], data[n + 5], data[n + 6], data[n + 7]), 32);
    StepsAdd(poly, Xor(crc, Word(data[n], data[n + 1], data[n + 2], data[n + 3])), 32, 32);
  }

  /** crc32_body(): bytes up to alignment, words, and the bytes that are left. */
  method Crc32Body(tab: seq<seq<nat>>, poly: nat, by8: bool, crc0: nat, data: seq<nat>, address: nat) returns (crc: nat)
    requires RowsOk(poly, tab, if by8 then 8 else 4) && poly < Pow2(32) && crc0 < Pow2(32) && AllBytes(data)
    ensures crc == Crc(poly, crc0, data)
  {
    hide Steps, Xor, Crc, Pow2;
    crc := crc0;
    CrcNone(poly, crc0, data);
    assert RowOk(poly, tab[0], 0);
    var n := 0;
    while (address + n) % 4 != 0 && n < |data|
      invariant 0 <= n <= |data| && crc == Crc(poly, crc0, data[..n])
      decreases |data| - n
    {
      CrcNext(poly, crc0, data, n);
      crc := DoCrc(tab[0], poly, crc, data[n]);
      n := n + 1;
    }
    var size := if by8 then 8 else 4;
    var remLen := (|data| - n) % size;
    var len := (|data| - n) / size;
    while len != 0
      invariant len >= 0 && 0 <= n <= |data| && |data| - n == len * size + remLen
      invariant crc == Crc(poly, crc0, data[..n])
      decreases len
    {
      CrcBelow(poly, crc0, data[..n]);
      Slots(len, size);
      crc := DoWords(tab, poly, by8, crc, data, n);
      assert data[..n + size] == data[..n] + data[n..n + size];
      CrcConcat(poly, crc0, data[..n], data[n..n + size]);
      n := n + size;
      len := len - 1;
    }
    while n < |data|
      invariant 0 <= n <= |data| && crc == Crc(poly, crc0, data[..n])
    {
      CrcNext(poly, crc0, data, n);
      crc := DoCrc(tab[0], poly, crc, data[n]);
      n := n + 1;
    }
    assert data[..n] == data;
  }

  lemma Slots(len: nat, size: nat)
    requires len >= 1
    ensures len * size == (len - 1) * size + size
    ensures (len - 1) * size >= 0
  {
  }
}
