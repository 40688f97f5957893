/** lib/bch.c: transposing a 16 x 16 bit matrix in four rounds of block swaps. */
module BchTranspose {
  import opened Bits

  /** The part of `x` from bit log2(q) on, for the block sizes that occur. */
  function Hi(x: nat, q: nat): nat {
    if q == 16 then x / 16 * 16
    else if q == 8 then x / 8 * 8
    else if q == 4 then x / 4 * 4
    else if q == 2 then x / 2 * 2
    else x
  }

  predicate Half(j: nat) {
    j == 8 || j == 4 || j == 2 || j == 1
  }

  /** Whether bit log2(j) of `x` is set. */
  predicate Upper(x: nat, j: nat) {
    if j == 8 then x / 8 % 2 == 1
    else if j == 4 then x / 4 % 2 == 1
    else if j == 2 then x / 2 % 2 == 1
    else x % 2 == 1
  }

  // --- one swap ---

  /** The bits of `mask` are those whose index has bit log2(j) clear. */
  ghost predicate MaskFor(mask: nat, j: nat) {
    forall b: nat :: Bit(mask, b) <==> b < 16 && !Upper(b, j)
  }

  function Crossed(x: nat, y: nat, mask: nat, j: nat): nat {
    And(Xor(Shr(x, j), y), mask)
  }

  lemma CrossedBit(x: nat, y: nat, mask: nat, j: nat, b: nat)
    requires MaskFor(mask, j)
    ensures Bit(Crossed(x, y, mask, j), b) == (b < 16 && !Upper(b, j) && Bit(x, b + j) != Bit(y, b))
  {
    hide Xor, And, Shr, Bit;
    BitAnd(Xor(Shr(x, j), y), mask, b);
    BitXor(Shr(x, j), y, b);
    BitShr(x, j, b);
  }

  /** A swap exchanges the upper blocks of `x` with the lower blocks of `y`. */
  lemma SwapBits(x: nat, y: nat, mask: nat, j: nat, b: nat)
    requires Half(j) && MaskFor(mask, j) && b < 16
    ensures
      var t := Crossed(x, y, mask, j);
      && Bit(Xor(x, Shl(t, j)), b) == (if Upper(b, j) then Bit(y, b - j) else Bit(x, b))
      && Bit(Xor(y, t), b) == (if Upper(b, j) then Bit(y, b) else Bit(x, b + j))
  {
    hide Xor, And, Shr, Shl, Bit, Crossed;
    var t := Crossed(x, y, mask, j);
    BitXor(x, Shl(t, j), b);
    BitShl(t, j, b);
    BitXor(y, t, b);
    CrossedBit(x, y, mask, j, b);
    if b >= j {
      CrossedBit(x, y, mask, j, b - j);
    }
  }

  lemma TopUpper(b: nat, j: nat)
    requires Half(j) && 16 <= b
    ensures b - j >= 16 || Upper(b - j, j)
  {
  }

  lemma SwapBelow(x: nat, y: nat, mask: nat, j: nat)
    requires Half(j) && MaskFor(mask, j) && x < Pow2(16) && y < Pow2(16)
    ensures
      var t := Crossed(x, y, mask, j);
      Xor(x, Shl(t, j)) < Pow2(16) && Xor(y, t) < Pow2(16)
  {
    var t := Crossed(x, y, mask, j);
    forall b: nat | 16 <= b
      ensures !Bit(Xor(x, Shl(t, j)), b) && !Bit(Xor(y, t), b)
    {
      hide Xor, And, Shr, Shl, Bit, Crossed, Pow2, Upper, MaskFor;
      TopUpper(b, j);
      BitAbove(x, 16, b);
      BitAbove(y, 16, b);
      BitXor(x, Shl(t, j), b);
      BitXor(y, t, b);
      BitShl(t, j, b);
      CrossedBit(x, y, mask, j, b);
      CrossedBit(x, y, mask, j, b - j);
    }
    NoBitAbove(Xor(x, Shl(t, j)), 16);
    NoBitAbove(Xor(y, t), 16);
  }

  // --- one round ---

  /** Row and column after exchanging bit log2(j) of the two. */
  function CrossRow(r: nat, b: nat, j: nat): nat
    requires Half(j)
  {
    if Upper(r, j) == Upper(b, j) then r else if Upper(r, j) then r - j else r + j
  }

  lemma CrossBelow(r: nat, b: nat, j: nat)
    requires Half(j) && r < 16 && b < 16
    ensures CrossRow(r, b, j) < 16
  {
  }

  ghost predicate Round(was: seq<nat>, now: seq<nat>, j: nat)
    requires Half(j)
  {
    && |was| == |now| == 16
    && forall r, b {:trigger Bit(now[r], b)} :: 0 <= r < 16 && 0 <= b < 16 ==>
         CrossRow(r, b, j) < 16 && Bit(now[r], b) == Bit(was[CrossRow(r, b, j)], CrossRow(b, r, j))
  }

  function Base(i: nat, j: nat): nat
    requires Half(j)
  {
    if Upper(i, j) then i - j else i
  }

  function Swapped(s: seq<nat>, mask: nat, j: nat, i: nat): nat
    requires Half(j) && |s| == 16 && i < 16
  {
    var b := Base(i, j);
    if b + j >= 16 then s[i]
    else
      var t := Crossed(s[b], s[b + j], mask, j);
      if i == b then Xor(s[b], Shl(t, j)) else Xor(s[b + j], t)
  }

  lemma BaseBelow(i: nat, j: nat)
    requires Half(j) && i < 16
    ensures Base(i, j) + j < 16 && !Upper(Base(i, j), j) && (i == Base(i, j) || i == Base(i, j) + j)
  {
  }

  lemma RoundDone(was: seq<nat>, now: seq<nat>, mask: nat, j: nat)
    requires Half(j) && MaskFor(mask, j) && |was| == |now| == 16
    requires forall i :: 0 <= i < 16 ==> was[i] < Pow2(16) && now[i] == Swapped(was, mask, j, i)
    ensures Round(was, now, j) && forall i :: 0 <= i < 16 ==> now[i] < Pow2(16)
  {
    hide Xor, And, Shr, Shl, Bit, Crossed, Pow2, MaskFor;
    forall r | 0 <= r < 16
      ensures now[r] < Pow2(16)
    {
      var k := Base(r, j);
      BaseBelow(r, j);
      SwapBelow(was[k], was[k + j], mask, j);
    }
    forall r, b | 0 <= r < 16 && 0 <= b < 16
      ensures CrossRow(r, b, j) < 16 && Bit(now[r], b) == Bit(was[CrossRow(r, b, j)], CrossRow(b, r, j))
    {
      RoundBit(was, mask, j, r, b);
    }
  }

  lemma RoundBit(was: seq<nat>, mask: nat, j: nat, r: nat, b: nat)
    requires Half(j) && MaskFor(mask, j) && |was| == 16 && r < 16 && b < 16
    ensures CrossRow(r, b, j) < 16 && Bit(Swapped(was, mask, j, r), b) == Bit(was[CrossRow(r, b, j)], CrossRow(b, r, j))
  {
    hide Xor, And, Shr, Shl, Bit, Crossed, MaskFor;
    var k := Base(r, j);
    BaseBelow(r, j);
    SwapBits(was[k], was[k + j], mask, j, b);
    CrossBelow(r, b, j);
  }

  /** (k + j + 1) & ~j */
  function Next(k: nat, j: nat): nat
    requires Half(j)
  {
    var s := k + j + 1;
    if Upper(s, j) then s - j else s
  }

  /** The next row is the next one with the bit clear. */
  lemma NextBase(k: nat, j: nat, i: nat)
    requires Half(j) && k < 16 && !Upper(k, j) && i < 16
    ensures k < Next(k, j) <= 16 + j && (Next(k, j) < 16 ==> !Upper(Next(k, j), j) && Next(k, j) + j < 16)
    ensures Base(i, j) < Next(k, j) <==> Base(i, j) <= k
  {
    NextIs(k, j);
    BaseBelow(i, j);
  }

  lemma NextIs(k: nat, j: nat)
    requires Half(j) && k < 16 && !Upper(k, j)
    ensures Next(k, j) == if Upper(k + 1, j) then k + 1 + j else k + 1
    ensures !Upper(Next(k, j), j) && k + j < 16 && (Next(k, j) < 16 ==> Next(k, j) + j < 16)
    ensures forall i :: k < i < Next(k, j) ==> Upper(i, j)
  {
    hide Upper, Next;
    if j == 8 {
      NextOf8(k);
    } else if j == 4 {
      NextOf4(k);
    } else if j == 2 {
      NextOf2(k);
    } else {
      NextOf1(k);
    }
  }

  lemma NextOf8(k: nat)
    requires k < 16 && !Upper(k, 8)
    ensures Next(k, 8) == if Upper(k + 1, 8) then k + 1 + 8 else k + 1
    ensures !Upper(Next(k, 8), 8) && k + 8 < 16 && (Next(k, 8) < 16 ==> Next(k, 8) + 8 < 16)
    ensures forall i :: k < i < Next(k, 8) ==> Upper(i, 8)
  {
  }

  lemma NextOf4(k: nat)
    requires k < 16 && !Upper(k, 4)
    ensures Next(k, 4) == if Upper(k + 1, 4) then k + 1 + 4 else k + 1
    ensures !Upper(Next(k, 4), 4) && k + 4 < 16 && (Next(k, 4) < 16 ==> Next(k, 4) + 4 < 16)
    ensures forall i :: k < i < Next(k, 4) ==> Upper(i, 4)
  {
  }

  lemma NextOf2(k: nat)
    requires k < 16 && !Upper(k, 2)
    ensures Next(k, 2) == if Upper(k + 1, 2) then k + 1 + 2 else k + 1
    ensures !Upper(Next(k, 2), 2) && k + 2 < 16 && (Next(k, 2) < 16 ==> Next(k, 2) + 2 < 16)
    ensures forall i :: k < i < Next(k, 2) ==> Upper(i, 2)
  {
  }

  lemma NextOf1(k: nat)
    requires k < 16 && !Upper(k, 1)
    ensures Next(k, 1) == if Upper(k + 1, 1) then k + 1 + 1 else k + 1
    ensures !Upper(Next(k, 1), 1) && k + 1 < 16 && (Next(k, 1) < 16 ==> Next(k, 1) + 1 < 16)
    ensures forall i :: k < i < Next(k, 1) ==> Upper(i, 1)
  {
  }

  method SwapRound(rows: array<nat>, mask: nat, j: nat)
    requires rows.Length == 16 && Half(j) && MaskFor(mask, j)
    requires forall i :: 0 <= i < 16 ==> rows[i] < Pow2(16)
    modifies rows
    ensures Round(old(rows[..]), rows[..], j)
    ensures forall i :: 0 <= i < 16 ==> rows[i] < Pow2(16)
  {
    hide Xor, Shl, Bit, Crossed, Pow2, MaskFor, Upper, Next, Round;
    ghost var was := rows[..];
    BaseBelow(0, j);
    var k := 0;
    FirstBase(j);
    while k < 16
      invariant k <= 16 + j && (k < 16 ==> !Upper(k, j) && k + j < 16)
      invariant forall i :: 0 <= i < 16 ==> rows[i] == if Base(i, j) < k then Swapped(was, mask, j, i) else was[i]
      decreases 16 + j - k
    {
      BaseOf(k, j);
      var t := Crossed(rows[k], rows[k + j], mask, j);
      rows[k] := Xor(rows[k], Shl(t, j));
      rows[k + j] := Xor(rows[k + j], t);
      forall i | 0 <= i < 16
        ensures k < Next(k, j) <= 16 + j && (Next(k, j) < 16 ==> !Upper(Next(k, j), j) && Next(k, j) + j < 16)
        ensures Base(i, j) < Next(k, j) <==> Base(i, j) <= k
        ensures Base(i, j) == k <==> i == k || i == k + j
      {
        NextBase(k, j, i);
        BaseIs(k, j, i);
      }
      k := Next(k, j);
    }
    forall i | 0 <= i < 16
      ensures Base(i, j) < k
    {
      BaseBelow(i, j);
    }
    RoundDone(was, rows[..], mask, j);
  }

  lemma FirstBase(j: nat)
    requires Half(j)
    ensures !Upper(0, j) && j < 16
  {
  }

  lemma BaseOf(k: nat, j: nat)
    requires Half(j) && k < 16 && !Upper(k, j)
    ensures Base(k, j) == k && Upper(k + j, j) && Base(k + j, j) == k
  {
  }

  lemma BaseIs(k: nat, j: nat, i: nat)
    requires Half(j) && k < 16 && !Upper(k, j) && i < 16
    ensures Base(i, j) == k <==> i == k || i == k + j
  {
  }

  // --- all rounds ---

  /** Blocks of size `q` are transposed as wholes; inside they are still as they were. */
  ghost predicate BlocksTransposed(was: seq<nat>, now: seq<nat>, q: nat) {
    && |was| == |now| == 16
    && forall r, b {:trigger Bit(now[r], b)} :: 0 <= r < 16 && 0 <= b < 16 ==>
         var r', b' := Hi(b, q) + (r - Hi(r, q)), Hi(r, q) + (b - Hi(b, q));
         0 <= r' < 16 && 0 <= b' && Bit(now[r], b) == Bit(was[r'], b')
  }

  lemma RoundCompose(was: seq<nat>, mid: seq<nat>, now: seq<nat>, q: nat, j: nat)
    requires Half(j) && q == 2 * j && BlocksTransposed(was, mid, q) && Round(mid, now, j)
    ensures BlocksTransposed(was, now, j)
  {
    hide Bit;
    forall r, b | 0 <= r < 16 && 0 <= b < 16
      ensures
        var r', b' := Hi(b, j) + (r - Hi(r, j)), Hi(r, j) + (b - Hi(b, j));
        0 <= r' < 16 && 0 <= b' && Bit(now[r], b) == Bit(was[r'], b')
    {
      var r1, b1 := CrossRow(r, b, j), CrossRow(b, r, j);
      CrossBelow(b, r, j);
      CrossBelow(r, b, j);
      assert Bit(now[r], b) == Bit(mid[r1], b1);
      CrossHi(r, b, j);
    }
  }

  /** A number below 16 by its block of size 2j, its half of the block and its place in the half. */
  lemma Parts(x: nat, j: nat)
    requires Half(j) && x < 16
    ensures Hi(x, j) == Hi(x, 2 * j) + (if Upper(x, j) then j else 0)
    ensures Hi(if Upper(x, j) then x - j else x + j, 2 * j) == Hi(x, 2 * j)
    ensures 0 <= x - Hi(x, j) < j && Hi(x, j) + j <= 16
  {
    hide Hi, Upper;
    if j == 8 {
      PartsOf8(x);
    } else if j == 4 {
      PartsOf4(x);
    } else if j == 2 {
      PartsOf2(x);
    } else {
      PartsOf1(x);
    }
  }

  lemma PartsOf8(x: nat)
    requires x < 16
    ensures Hi(x, 8) == Hi(x, 16) + (if Upper(x, 8) then 8 else 0)
    ensures Upper(x, 8) ==> x >= 8 && Hi(x - 8, 16) == Hi(x, 16)
    ensures !Upper(x, 8) ==> Hi(x + 8, 16) == Hi(x, 16)
    ensures 0 <= x - Hi(x, 8) < 8 && Hi(x, 8) + 8 <= 16
  {
  }

  lemma PartsOf4(x: nat)
    requires x < 16
    ensures Hi(x, 4) == Hi(x, 8) + (if Upper(x, 4) then 4 else 0)
    ensures Upper(x, 4) ==> x >= 4 && Hi(x - 4, 8) == Hi(x, 8)
    ensures !Upper(x, 4) ==> Hi(x + 4, 8) == Hi(x, 8)
    ensures 0 <= x - Hi(x, 4) < 4 && Hi(x, 4) + 4 <= 16
  {
  }

  lemma PartsOf2(x: nat)
    requires x < 16
    ensures Hi(x, 2) == Hi(x, 4) + (if Upper(x, 2) then 2 else 0)
    ensures Upper(x, 2) ==> x >= 2 && Hi(x - 2, 4) == Hi(x, 4)
    ensures !Upper(x, 2) ==> Hi(x + 2, 4) == Hi(x, 4)
    ensures 0 <= x - Hi(x, 2) < 2 && Hi(x, 2) + 2 <= 16
  {
  }

  lemma PartsOf1(x: nat)
    requires x < 16
    ensures Hi(x, 1) == Hi(x, 2) + (if Upper(x, 1) then 1 else 0)
    ensures Upper(x, 1) ==> x >= 1 && Hi(x - 1, 2) == Hi(x, 2)
    ensures !Upper(x, 1) ==> Hi(x + 1, 2) == Hi(x, 2)
    ensures 0 <= x - Hi(x, 1) < 1 && Hi(x, 1) + 1 <= 16
  {
  }

  lemma CrossHi(r: nat, b: nat, j: nat)
    requires Half(j) && r < 16 && b < 16
    ensures
      var r1, b1, q := CrossRow(r, b, j), CrossRow(b, r, j), 2 * j;
      && Hi(b1, q) + (r1 - Hi(r1, q)) == Hi(b, j) + (r - Hi(r, j))
      && Hi(r1, q) + (b1 - Hi(b1, q)) == Hi(r, j) + (b - Hi(b, j))
      && 0 <= Hi(b, j) + (r - Hi(r, j)) < 16 && 0 <= Hi(r, j) + (b - Hi(b, j))
  {
    hide Hi, Upper;
    Parts(r, j);
    Parts(b, j);
  }

  ghost predicate Transposed(was: seq<nat>, now: seq<nat>) {
    && |was| == |now| == 16
    && forall r, b {:trigger Bit(now[r], b)} :: 0 <= r < 16 && 0 <= b < 16 ==> Bit(now[r], b) == Bit(was[b], r)
  }

  /** mask ^= mask << j for the next smaller block size */
  lemma NextMask(mask: nat, j: nat)
    requires MaskFor(mask, 2 * j) && (j == 4 || j == 2 || j == 1)
    ensures MaskFor(Xor(mask, Shl(mask, j)), j)
  {
    hide Xor, Shl, Bit;
    forall b: nat
      ensures Bit(Xor(mask, Shl(mask, j)), b) <==> b < 16 && !Upper(b, j)
    {
      BitXor(mask, Shl(mask, j), b);
      BitShl(mask, j, b);
    }
  }

  lemma FirstMask()
    ensures MaskFor(0xff, 8)
  {
    hide Bit;
    assert Pow2(8) == 256 by {
      assert Pow2(4) == 16;
    }
    forall b: nat
      ensures Bit(0xff, b) <==> b < 16 && !Upper(b, 8)
    {
      if b >= 8 {
        BitAbove(0xff, 8, b);
      } else {
        OnesBit(8, b);
      }
    }
  }

  method Transpose(rows: array<nat>)
    requires rows.Length == 16 && forall i :: 0 <= i < 16 ==> rows[i] < Pow2(16)
    modifies rows
    ensures Transposed(old(rows[..]), rows[..])
    ensures forall i :: 0 <= i < 16 ==> rows[i] < Pow2(16)
  {
    hide Xor, Shl, Bit, Pow2, MaskFor, Upper, Round, BlocksTransposed;
    ghost var was := rows[..];
    var mask: nat, j: nat := 0xff, 8;
    FirstMask();
    TransposeStart(was);
    while j != 0
      invariant Half(j) || j == 0
      invariant j != 0 ==> MaskFor(mask, j) && BlocksTransposed(was, rows[..], 2 * j)
      invariant j == 0 ==> BlocksTransposed(was, rows[..], 1)
      invariant forall i :: 0 <= i < 16 ==> rows[i] < Pow2(16)
      decreases j
    {
      ghost var mid := rows[..];
      SwapRound(rows, mask, j);
      RoundCompose(was, mid, rows[..], 2 * j, j);
      if j > 1 {
        NextMask(mask, j / 2);
      }
      j := j / 2;
      mask := Xor(mask, Shl(mask, j));
    }
    TransposeEnd(was, rows[..]);
  }

  lemma TransposeStart(s: seq<nat>)
    requires |s| == 16
    ensures BlocksTransposed(s, s, 16)
  {
    hide Bit;
    forall x: nat | x < 16
      ensures Hi(x, 16) == 0
    {
    }
  }

  lemma TransposeEnd(was: seq<nat>, now: seq<nat>)
    requires BlocksTransposed(was, now, 1)
    ensures Transposed(was, now)
  {
    hide Bit;
  }
}
