/** lib/bitmap.c: __bitmap_set() and __bitmap_clear(), a word at a time. */
module BitmapRange {
  import opened Bits
  import opened BitmapNext
  import opened BitmapSearch
  import opened BitmapRegion

  /** The bits from `lo` to `hi` have the value `b`, the others are as before. */
  ghost predicate RangeFilled(was: Bitmap, now: Bitmap, lo: nat, hi: nat, b: bool) {
    |now| == |was| && forall k: nat :: k < |now| ==> now[k] == if lo <= k < hi then b else was[k]
  }

  /** The bits of a mask, from `lo` to `hi`. */
  ghost predicate MaskIs(mask: nat, lo: nat, hi: nat) {
    mask < Pow2(WORD) && forall i: nat :: i < WORD ==> Bit(mask, i) == (lo <= i < hi)
  }

  function FirstWordMask(start: nat): (mask: nat)
    ensures MaskIs(mask, start % WORD, WORD)
  {
    FirstMask(start % WORD);
    Trunc(Shl(Pow2(WORD) - 1, start % WORD), WORD)
  }

  function LastWordMask(nbits: nat): (mask: nat)
    ensures MaskIs(mask, 0, if nbits % WORD == 0 then WORD else nbits % WORD)
  {
    LastMask((WORD - nbits % WORD) % WORD);
    Shr(Pow2(WORD) - 1, (WORD - nbits % WORD) % WORD)
  }

  lemma FirstMask(s: nat)
    requires s < WORD
    ensures MaskIs(Trunc(Shl(Pow2(WORD) - 1, s), WORD), s, WORD)
  {
    hide Trunc, Shl, Bit, Pow2;
    var m := Trunc(Shl(Pow2(WORD) - 1, s), WORD);
    TruncBelow(Shl(Pow2(WORD) - 1, s), WORD);
    forall i: nat | i < WORD
      ensures Bit(m, i) == (s <= i)
    {
      MaskBit(WORD, s, i);
    }
  }

  lemma LastMask(s: nat)
    requires s < WORD
    ensures MaskIs(Shr(Pow2(WORD) - 1, s), 0, WORD - s)
  {
    hide Shr, Bit, Pow2;
    var m := Shr(Pow2(WORD) - 1, s);
    forall i: nat
      ensures Bit(m, i) == (i < WORD - s)
    {
      BitShr(Pow2(WORD) - 1, s, i);
      OnesBits(WORD, WORD, i + s);
    }
    NoBitAbove(m, WORD);
  }

  lemma MaskCut(m: nat, n: nat, lo: nat, hi: nat)
    requires MaskIs(m, lo, WORD) && MaskIs(n, 0, hi)
    ensures MaskIs(And(m, n), lo, hi)
  {
    hide And, Bit, Pow2;
    forall i: nat
      ensures Bit(And(m, n), i) == (Bit(m, i) && Bit(n, i)) && (WORD <= i ==> !Bit(m, i))
    {
      BitAnd(m, n, i);
      if WORD <= i {
        BitAbove(m, WORD, i);
      }
    }
    NoBitAbove(And(m, n), WORD);
  }

  /** Filling the rest of a range in one more word. */
  lemma OneMore(was: Bitmap, w: seq<nat>, p: nat, mask: nat, start: nat, lo: nat, hi: nat, b: bool)
    requires Words(w) && p < |w| && lo <= hi <= WORD && MaskIs(mask, lo, hi)
    requires start <= WORD * p + lo && RangeFilled(was, View(w), start, WORD * p + lo, b)
    ensures Words(w[p := Put(w[p], mask, b)])
    ensures RangeFilled(was, View(w[p := Put(w[p], mask, b)]), start, WORD * p + hi, b)
  {
    hide Put, Bit, Pow2;
    PutBelow(w[p], mask, b);
    var now := w[p := Put(w[p], mask, b)];
    forall k: nat | k < |View(now)|
      ensures View(now)[k] == if start <= k < WORD * p + hi then b else was[k]
    {
      PutBit(w[p], mask, b, k % WORD);
      assert View(w)[k] == if start <= k < WORD * p + lo then b else was[k];
    }
  }

  /** __bitmap_set() with `b` true, __bitmap_clear() with `b` false. */
  method Fill(words: array<nat>, start: nat, len0: nat, b: bool)
    requires Words(words[..]) && start + len0 <= WORD * words.Length
    modifies words
    ensures Words(words[..]) && RangeFilled(old(View(words[..])), View(words[..]), start, start + len0, b)
  {
    hide View, Words, Put, MaskIs, FirstWordMask, LastWordMask, And, Pow2, RangeFilled;
    var p, len, size := start / WORD, len0, start + len0;
    var bits: nat := WORD - start % WORD;
    var mask: nat := FirstWordMask(start);
    RangeStart(View(words[..]), start, b);
    while len - bits >= 0
      invariant 1 <= bits <= WORD && len >= 0 && WORD * p + (WORD - bits) + len == size
      invariant start <= WORD * p + (WORD - bits) && MaskIs(mask, WORD - bits, WORD)
      invariant Words(words[..]) && RangeFilled(old(View(words[..])), View(words[..]), start, WORD * p + (WORD - bits), b)
      decreases len
    {
      OneMore(old(View(words[..])), words[..], p, mask, start, WORD - bits, WORD, b);
      ghost var w := words[..];
      words[p] := Put(words[p], mask, b);
      assert words[..] == w[p := Put(w[p], mask, b)];
      len := len - bits;
      bits := WORD;
      mask := Pow2(WORD) - 1;
      AllOnes();
      p := p + 1;
    }
    if len != 0 {
      MaskCut(mask, LastWordMask(size), WORD - bits, WORD - bits + len);
      mask := And(mask, LastWordMask(size));
      OneMore(old(View(words[..])), words[..], p, mask, start, WORD - bits, WORD - bits + len, b);
      ghost var w := words[..];
      words[p] := Put(words[p], mask, b);
      assert words[..] == w[p := Put(w[p], mask, b)];
    }
  }

  lemma RangeStart(bm: Bitmap, start: nat, b: bool)
    ensures RangeFilled(bm, bm, start, start, b)
  {
  }

  lemma AllOnes()
    ensures MaskIs(Pow2(WORD) - 1, 0, WORD)
  {
    hide Bit, Pow2;
    var m: nat := Pow2(WORD) - 1;
    forall i: nat
      ensures Bit(m, i) == (i < WORD)
    {
      OnesBits(WORD, WORD, i);
    }
  }
}
