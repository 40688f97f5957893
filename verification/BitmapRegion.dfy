/** lib/bitmap.c: regions of a bitmap, of a power of two of bits and aligned to it, in an array of words. */
module BitmapRegion {
  import opened Bits
  import opened BitmapNext
  import opened BitmapSearch

  ghost predicate Words(w: seq<nat>) {
    forall i :: 0 <= i < |w| ==> w[i] < Pow2(WORD)
  }

  /** The bitmap that the words hold. */
  ghost function View(w: seq<nat>): (bm: Bitmap)
    ensures |bm| == WORD * |w|
  {
    seq(WORD * |w|, k requires 0 <= k < WORD * |w| => Bit(w[k / WORD], k % WORD))
  }

  ghost predicate Within(k: nat, pos: nat, order: nat) {
    pos <= k < pos + Pow2(order)
  }

  ghost predicate Region(bits: nat, pos: nat, order: nat) {
    pos % Pow2(order) == 0 && pos + Pow2(order) <= bits
  }

  ghost predicate Free(bm: Bitmap, pos: nat, order: nat) {
    forall k: nat :: k < |bm| && Within(k, pos, order) ==> !bm[k]
  }

  // --- __reg_op() ---

  /** The words and the mask of a region. */
  method Layout(pos: nat, order: nat) returns (index: nat, nlongs: nat, mask: nat)
    requires pos % Pow2(order) == 0
    ensures mask < Pow2(WORD) && Spanned(pos, order, index, nlongs, mask)
    ensures forall n: nat :: Region(WORD * n, pos, order) ==> index + nlongs <= n
  {
    hide Pow2, Bit, Trunc, Shl;
    var nbits := Pow2(order);
    index := pos / WORD;
    var offset := pos - index * WORD;
    nlongs := (nbits + (WORD - 1)) / WORD;
    var nbitsinlong: nat := if nbits < WORD then nbits else WORD;
    mask := Pow2(nbitsinlong - 1);
    mask := mask + (mask - 1);
    mask := Trunc(Shl(mask, offset), WORD);
    TruncBelow(Shl(Pow2(nbitsinlong) - 1, offset), WORD);
    assert Pow2(nbitsinlong) == 2 * Pow2(nbitsinlong - 1) by { Pow2Next(nbitsinlong); }
    forall k: nat
      ensures Within(k, pos, order) <==> index <= k / WORD < index + nlongs && Bit(mask, k % WORD)
    {
      MaskBit(nbitsinlong, offset, k % WORD);
      Spans(pos, order, k);
    }
    forall n: nat | Region(WORD * n, pos, order)
      ensures index + nlongs <= n
    {
      Ends(pos, order, n);
    }
  }

  lemma Ends(pos: nat, order: nat, n: nat)
    requires Region(WORD * n, pos, order)
    ensures pos / WORD + (Pow2(order) + (WORD - 1)) / WORD <= n
  {
    hide Pow2;
    if order <= 5 {
      Small(pos, order, 0);
    } else {
      var m := Pow2(order - 5);
      Pow2Add(5, order - 5);
      assert Pow2(order) == WORD * m by { Five(); }
      Large(pos, m);
    }
  }

  lemma Pow2Next(n: nat)
    requires n > 0
    ensures Pow2(n) == 2 * Pow2(n - 1)
  {
  }

  lemma MaskBit(n: nat, offset: nat, b: nat)
    requires b < WORD
    ensures Bit(Trunc(Shl(Pow2(n) - 1, offset), WORD), b) == (offset <= b < offset + n)
  {
    hide Bit, Trunc, Shl, Pow2;
    BitTrunc(Shl(Pow2(n) - 1, offset), WORD, b);
    BitShl(Pow2(n) - 1, offset, b);
    if b >= offset {
      OnesBits(n, n, b - offset);
    }
  }

  /** A region is part of one word, or is some words. */
  lemma Spans(pos: nat, order: nat, k: nat)
    requires pos % Pow2(order) == 0
    ensures
      var nbits, index := Pow2(order), pos / WORD;
      var offset, nlongs := pos - index * WORD, (nbits + (WORD - 1)) / WORD;
      Within(k, pos, order) <==>
      index <= k / WORD < index + nlongs && offset <= k % WORD < offset + (if nbits < WORD then nbits else WORD)
  {
    hide Pow2;
    if order <= 5 {
      Small(pos, order, k);
      OneWord(pos, Pow2(order), k);
    } else {
      var m := Pow2(order - 5);
      Pow2Add(5, order - 5);
      assert Pow2(order) == WORD * m by { Five(); }
      Large(pos, m);
      WholeWords(pos, m, k);
    }
  }

  lemma OneWord(pos: nat, n: nat, k: nat)
    requires pos % WORD + n <= WORD
    ensures pos <= k < pos + n <==> k / WORD == pos / WORD && pos % WORD <= k % WORD < pos % WORD + n
  {
  }

  lemma WholeWords(pos: nat, m: nat, k: nat)
    requires pos % WORD == 0
    ensures (WORD * m + (WORD - 1)) / WORD == m
    ensures pos <= k < pos + WORD * m <==> pos / WORD <= k / WORD < pos / WORD + m
  {
  }

  lemma Five()
    ensures Pow2(0) == 1 && Pow2(1) == 2 && Pow2(2) == 4 && Pow2(3) == 8 && Pow2(4) == 16 && Pow2(5) == WORD
  {
    assert Pow2(1) == 2 && Pow2(2) == 4;
    assert Pow2(3) == 8 && Pow2(4) == 16;
  }

  lemma Small(pos: nat, order: nat, k: nat)
    requires order <= 5 && pos % Pow2(order) == 0
    ensures
      var nbits, index := Pow2(order), pos / WORD;
      var offset := pos - index * WORD;
      (nbits + (WORD - 1)) / WORD == 1 && nbits <= WORD && offset + nbits <= WORD
  {
    hide Pow2;
    Five();
    var nbits, offset := Pow2(order), pos % WORD;
    assert nbits == 1 || nbits == 2 || nbits == 4 || nbits == 8 || nbits == 16 || nbits == WORD;
    assert pos == (pos / WORD) * WORD + offset;
    AlignedIn(pos, nbits);
  }

  lemma AlignedIn(pos: nat, nbits: nat)
    requires nbits == 1 || nbits == 2 || nbits == 4 || nbits == 8 || nbits == 16 || nbits == WORD
    requires pos % nbits == 0
    ensures pos % WORD + nbits <= WORD
  {
    if nbits == 2 {
      Aligned2(pos);
    } else if nbits == 4 {
      Aligned4(pos);
    } else if nbits == 8 {
      Aligned8(pos);
    } else if nbits == 16 {
      Aligned16(pos);
    }
  }

  lemma Aligned2(pos: nat)
    requires pos % 2 == 0
    ensures pos % 32 <= 30
  {
  }

  lemma Aligned4(pos: nat)
    requires pos % 4 == 0
    ensures pos % 32 <= 28
  {
  }

  lemma Aligned8(pos: nat)
    requires pos % 8 == 0
    ensures pos % 32 <= 24
  {
  }

  lemma Aligned16(pos: nat)
    requires pos % 16 == 0
    ensures pos % 32 <= 16
  {
  }

  lemma Large(pos: nat, m: nat)
    requires m >= 1 && pos % (WORD * m) == 0
    ensures pos % WORD == 0
  {
    var q := pos / (WORD * m);
    assert pos == q * (WORD * m) == (q * m) * WORD;
    ModUnique(pos, WORD, q * m, 0);
  }

  datatype Op = IsFree | Alloc | Release

  /** __reg_op() */
  method RegOp(words: array<nat>, pos: nat, order: nat, op: Op) returns (ret: nat)
    requires Words(words[..]) && Region(WORD * words.Length, pos, order)
    modifies words
    ensures Words(words[..])
    ensures op.IsFree? ==> words[..] == old(words[..]) && ret == if Free(View(words[..]), pos, order) then 1 else 0
    ensures op.Alloc? ==> Filled(old(View(words[..])), View(words[..]), pos, order, true) && ret == 0
    ensures op.Release? ==> Filled(old(View(words[..])), View(words[..]), pos, order, false) && ret == 0
  {
    hide View, Free, Filled, Words, Spanned, Within, Masked;
    var index, nlongs, mask := Layout(pos, order);
    ret := 0;
    match op {
      case IsFree =>
        var free := MaskFree(words, index, nlongs, mask);
        FreeByMask(words[..], pos, order, index, nlongs, mask);
        if free {
          ret := 1;
        }
      case Alloc =>
        MaskSet(words, index, nlongs, mask);
        FilledByMask(old(words[..]), words[..], pos, order, index, nlongs, mask, true);
      case Release =>
        MaskClear(words, index, nlongs, mask);
        FilledByMask(old(words[..]), words[..], pos, order, index, nlongs, mask, false);
    }
  }

  /** The region's bits have the value `b`, the others are as before. */
  ghost predicate Filled(was: Bitmap, now: Bitmap, pos: nat, order: nat, b: bool) {
    |now| == |was| && forall k: nat :: k < |now| ==> now[k] == if Within(k, pos, order) then b else was[k]
  }

  ghost predicate Spanned(pos: nat, order: nat, index: nat, nlongs: nat, mask: nat) {
    forall k: nat :: Within(k, pos, order) <==> index <= k / WORD < index + nlongs && Bit(mask, k % WORD)
  }

  function Put(w: nat, mask: nat, b: bool): nat {
    if b then Or(w, mask) else And(w, Xor(mask, Pow2(WORD) - 1))
  }

  ghost predicate Masked(was: seq<nat>, now: seq<nat>, index: nat, nlongs: nat, mask: nat, b: bool) {
    |now| == |was| && forall i :: 0 <= i < |now| ==> now[i] == if index <= i < index + nlongs then Put(was[i], mask, b) else was[i]
  }

  method MaskFree(words: array<nat>, index: nat, nlongs: nat, mask: nat) returns (free: bool)
    requires index + nlongs <= words.Length
    ensures free <==> forall i :: index <= i < index + nlongs ==> And(words[i], mask) == 0
  {
    hide And;
    for i := 0 to nlongs
      invariant forall j :: index <= j < index + i ==> And(words[j], mask) == 0
    {
      if And(words[index + i], mask) != 0 {
        return false;
      }
    }
    return true;
  }

  method MaskSet(words: array<nat>, index: nat, nlongs: nat, mask: nat)
    requires index + nlongs <= words.Length
    modifies words
    ensures Masked(old(words[..]), words[..], index, nlongs, mask, true)
  {
    hide Or;
    for i := 0 to nlongs
      invariant Masked(old(words[..]), words[..], index, i, mask, true)
    {
      words[index + i] := Or(words[index + i], mask);
    }
  }

  method MaskClear(words: array<nat>, index: nat, nlongs: nat, mask: nat)
    requires index + nlongs <= words.Length
    modifies words
    ensures Masked(old(words[..]), words[..], index, nlongs, mask, false)
  {
    hide And, Xor, Pow2;
    for i := 0 to nlongs
      invariant Masked(old(words[..]), words[..], index, i, mask, false)
    {
      words[index + i] := And(words[index + i], Xor(mask, Pow2(WORD) - 1));
    }
  }

  lemma PutBit(w: nat, mask: nat, b: bool, i: nat)
    requires i < WORD
    ensures Bit(Put(w, mask, b), i) == if Bit(mask, i) then b else Bit(w, i)
  {
    hide Or, And, Xor, Bit, Pow2;
    if b {
      BitOr(w, mask, i);
    } else {
      BitAnd(w, Xor(mask, Pow2(WORD) - 1), i);
      BitXor(mask, Pow2(WORD) - 1, i);
      OnesBits(WORD, WORD, i);
    }
  }

  lemma PutBelow(w: nat, mask: nat, b: bool)
    requires w < Pow2(WORD) && mask < Pow2(WORD)
    ensures Put(w, mask, b) < Pow2(WORD)
  {
    hide Or, And, Xor, Bit, Pow2;
    forall i: nat | WORD <= i
      ensures !Bit(Put(w, mask, b), i)
    {
      BitOr(w, mask, i);
      BitAnd(w, Xor(mask, Pow2(WORD) - 1), i);
      BitAbove(w, WORD, i);
      BitAbove(mask, WORD, i);
    }
    NoBitAbove(Put(w, mask, b), WORD);
  }

  lemma FilledByMask(was: seq<nat>, now: seq<nat>, pos: nat, order: nat, index: nat, nlongs: nat, mask: nat, b: bool)
    requires Words(was) && mask < Pow2(WORD) && Masked(was, now, index, nlongs, mask, b)
    requires Spanned(pos, order, index, nlongs, mask)
    ensures Words(now) && Filled(View(was), View(now), pos, order, b)
  {
    hide Put, Within, Bit, Pow2;
    forall i | 0 <= i < |now|
      ensures now[i] < Pow2(WORD)
    {
      PutBelow(was[i], mask, b);
    }
    forall k: nat | k < |View(now)|
      ensures View(now)[k] == if Within(k, pos, order) then b else View(was)[k]
    {
      PutBit(was[k / WORD], mask, b, k % WORD);
    }
  }

  lemma CommonBit(w: nat, mask: nat, b: nat)
    requires Bit(w, b) && Bit(mask, b)
    ensures And(w, mask) != 0
  {
    hide And;
    BitAnd(w, mask, b);
    BitZero(b);
  }

  lemma AndZero(w: nat, mask: nat)
    requires mask < Pow2(WORD)
    ensures And(w, mask) == 0 <==> forall b: nat :: b < WORD ==> !(Bit(w, b) && Bit(mask, b))
  {
    hide And, Bit, Pow2;
    forall b: nat
      ensures Bit(And(w, mask), b) == (Bit(w, b) && Bit(mask, b)) && !Bit(0, b) && (b >= WORD ==> !Bit(mask, b))
    {
      BitAnd(w, mask, b);
      BitZero(b);
      if b >= WORD {
        BitAbove(mask, WORD, b);
      }
    }
    if forall b: nat :: b < WORD ==> !(Bit(w, b) && Bit(mask, b)) {
      SameBitsEqual(And(w, mask), 0);
    } else {
      var b: nat :| b < WORD && Bit(w, b) && Bit(mask, b);
      CommonBit(w, mask, b);
    }
  }

  lemma FreeByMask(w: seq<nat>, pos: nat, order: nat, index: nat, nlongs: nat, mask: nat)
    requires mask < Pow2(WORD) && index + nlongs <= |w| && Spanned(pos, order, index, nlongs, mask)
    ensures Free(View(w), pos, order) <==> forall i :: index <= i < index + nlongs ==> And(w[i], mask) == 0
  {
    hide And, Within, Bit, Pow2;
    if forall i :: index <= i < index + nlongs ==> And(w[i], mask) == 0 {
      forall k: nat | k < |View(w)| && Within(k, pos, order)
        ensures !View(w)[k]
      {
        var b := k % WORD;
        assert And(w[k / WORD], mask) == 0;
        AndZero(w[k / WORD], mask);
        assert !(Bit(w[k / WORD], b) && Bit(mask, b));
      }
    }
    if Free(View(w), pos, order) {
      forall i | index <= i < index + nlongs
        ensures And(w[i], mask) == 0
      {
        forall b: nat | b < WORD
          ensures !(Bit(w[i], b) && Bit(mask, b))
        {
          var k := WORD * i + b;
          assert k / WORD == i && k % WORD == b;
          assert View(w)[k] == Bit(w[i], b);
        }
        AndZero(w[i], mask);
      }
    }
  }

  // --- runs of allocations and releases ---

  /** The live regions are aligned, inside, apart, and with the bits set from the start they are the bits set. */
  ghost predicate Inv(bm: Bitmap, bits: nat, base: Bitmap, live: set<(nat, nat)>) {
    && bits <= |bm| == |base|
    && (forall r :: r in live ==> Region(bits, r.0, r.1))
    && (forall r, s, k: nat :: r in live && s in live && Within(k, r.0, r.1) && Within(k, s.0, s.1) ==> r == s)
    && (forall r, k: nat :: r in live && k < |base| && Within(k, r.0, r.1) ==> !base[k])
    && (forall k: nat :: k < |bm| ==> bm[k] == (base[k] || Covered(live, k)))
  }

  ghost predicate Covered(live: set<(nat, nat)>, k: nat) {
    exists r :: r in live && Within(k, r.0, r.1)
  }

  lemma Added(was: Bitmap, now: Bitmap, bits: nat, base: Bitmap, live: set<(nat, nat)>, pos: nat, order: nat)
    requires Inv(was, bits, base, live) && Region(bits, pos, order) && Free(was, pos, order)
    requires Filled(was, now, pos, order, true)
    ensures Inv(now, bits, base, live + {(pos, order)}) && (pos, order) !in live
  {
    hide Region;
    var r := (pos, order);
    forall k: nat, s | s in live && k < |was| && Within(k, pos, order)
      ensures !Within(k, s.0, s.1)
    {
    }
    InsideRegion(bits, pos, order);
    assert Within(pos, pos, order) && (r in live ==> Covered(live, pos));
    forall k: nat | k < |now|
      ensures now[k] == (base[k] || Covered(live + {r}, k))
    {
      CoveredMore(live, r, k);
    }
  }

  lemma InsideRegion(bits: nat, pos: nat, order: nat)
    requires Region(bits, pos, order)
    ensures forall k: nat :: Within(k, pos, order) ==> k < bits
  {
  }

  lemma CoveredMore(live: set<(nat, nat)>, r: (nat, nat), k: nat)
    ensures Covered(live + {r}, k) <==> Covered(live, k) || Within(k, r.0, r.1)
  {
    if Within(k, r.0, r.1) {
      assert r in live + {r};
    }
    if Covered(live, k) {
      var s :| s in live && Within(k, s.0, s.1);
      assert s in live + {r};
    }
  }

  lemma Dropped(was: Bitmap, now: Bitmap, bits: nat, base: Bitmap, live: set<(nat, nat)>, pos: nat, order: nat)
    requires Inv(was, bits, base, live) && (pos, order) in live && Filled(was, now, pos, order, false)
    ensures Inv(now, bits, base, live - {(pos, order)})
  {
    hide Region;
    var r := (pos, order);
    forall k: nat | k < |now|
      ensures now[k] == (base[k] || Covered(live - {r}, k))
    {
      CoveredMore(live - {r}, r, k);
      assert live - {r} + {r} == live;
    }
  }

  /** A bitmap of `bits` bits whose regions are allocated and released by the calls below. */
  class RegionMap {
    const words: array<nat>
    const bits: nat
    ghost const base: Bitmap
    ghost var live: set<(nat, nat)>

    ghost predicate Valid()
      reads this, words
    {
      Words(words[..]) && Inv(View(words[..]), bits, base, live)
    }

    constructor (words: array<nat>, bits: nat)
      requires Words(words[..]) && bits <= WORD * words.Length
      ensures this.words == words && this.bits == bits && base == View(words[..]) && live == {} && Valid()
    {
      this.words, this.bits := words, bits;
      base, live := View(words[..]), {};
    }

    /** One region operation, with its effect on the live regions. */
    method Apply(pos: nat, order: nat, op: Op) returns (ret: nat)
      requires Valid() && Region(bits, pos, order)
      requires op.Alloc? ==> Free(View(words[..]), pos, order)
      requires op.Release? ==> (pos, order) in live
      modifies words, `live
      ensures Valid()
      ensures op.IsFree? ==> words[..] == old(words[..]) && live == old(live)
      ensures op.IsFree? ==> ret == if Free(View(words[..]), pos, order) then 1 else 0
      ensures op.Alloc? ==> live == old(live) + {(pos, order)} && (pos, order) !in old(live) && ret == 0
      ensures op.Release? ==> live == old(live) - {(pos, order)} && ret == 0
    {
      hide View, Free, Filled, Words, Within;
      ghost var was := View(words[..]);
      ret := RegOp(words, pos, order, op);
      match op {
        case IsFree =>
        case Alloc =>
          Added(was, View(words[..]), bits, base, live, pos, order);
          live := live + {(pos, order)};
        case Release =>
          Dropped(was, View(words[..]), bits, base, live, pos, order);
          live := live - {(pos, order)};
      }
    }

    /** bitmap_find_free_region(): the lowest free region, or -ENOMEM exactly when there is none. */
    method FindFreeRegion(order: nat) returns (res: int)
      requires Valid()
      modifies words, `live
      ensures Valid()
      ensures res >= 0 ==> Region(bits, res, order) && old(Free(View(words[..]), res, order))
      ensures res >= 0 ==> forall p: nat :: p < res && Region(bits, p, order) ==> !old(Free(View(words[..]), p, order))
      ensures res >= 0 ==> live == old(live) + {(res, order)} && (res, order) !in old(live)
      ensures res < 0 ==> res == -12 && words[..] == old(words[..]) && live == old(live)
      ensures res < 0 <==> forall p: nat :: Region(bits, p, order) ==> !old(Free(View(words[..]), p, order))
    {
      hide View, Free, Filled, Words, Inv, Pow2;
      var pos, end := 0, Pow2(order);
      ModUnique(0, Pow2(order), 0, 0);
      while end <= bits
        invariant end == pos + Pow2(order) && words[..] == old(words[..]) && live == old(live) && Valid()
        invariant pos % Pow2(order) == 0
        invariant forall p: nat :: p < pos && Region(bits, p, order) ==> !Free(View(words[..]), p, order)
        decreases bits - pos
      {
        var free := Apply(pos, order, IsFree);
        if free != 1 {
          NextRegion(pos, order);
          pos, end := end, end + Pow2(order);
          continue;
        }
        var _ := Apply(pos, order, Alloc);
        return pos;
      }
      return -ENOMEM;
    }

    /** bitmap_allocate_region(): takes the region, or fails exactly when it is not free. */
    method AllocateRegion(pos: nat, order: nat) returns (res: int)
      requires Valid() && Region(bits, pos, order)
      modifies words, `live
      ensures Valid()
      ensures res == if old(Free(View(words[..]), pos, order)) then 0 else -16
      ensures res == 0 ==> live == old(live) + {(pos, order)} && (pos, order) !in old(live)
      ensures res != 0 ==> words[..] == old(words[..]) && live == old(live)
    {
      hide View, Free, Filled, Words, Inv, Region;
      var free := Apply(pos, order, IsFree);
      if free != 1 {
        return -EBUSY;
      }
      res := Apply(pos, order, Alloc);
    }

    /** bitmap_release_region() */
    method ReleaseRegion(pos: nat, order: nat)
      requires Valid() && (pos, order) in live
      modifies words, `live
      ensures Valid() && live == old(live) - {(pos, order)}
    {
      hide View, Free, Filled, Words, Region;
      var _ := Apply(pos, order, Release);
    }

    /** Releasing what was just allocated restores the bitmap. */
    method AllocateRelease(pos: nat, order: nat) returns (res: int)
      requires Valid() && Region(bits, pos, order)
      modifies words, `live
      ensures Valid() && View(words[..]) == old(View(words[..])) && live == old(live)
    {
      hide View, Free, Filled, Words, Region, Inv;
      res := AllocateRegion(pos, order);
      if res == 0 {
        ReleaseRegion(pos, order);
        assert live == old(live);
        Determined(View(words[..]), old(View(words[..])), bits, base, live);
      }
    }
  }

  const ENOMEM := 12
  const EBUSY := 16

  lemma Determined(a: Bitmap, b: Bitmap, bits: nat, base: Bitmap, live: set<(nat, nat)>)
    requires Inv(a, bits, base, live) && Inv(b, bits, base, live)
    ensures a == b
  {
  }

  lemma NextRegion(pos: nat, order: nat)
    requires pos % Pow2(order) == 0
    ensures (pos + Pow2(order)) % Pow2(order) == 0
    ensures forall p: nat :: p % Pow2(order) == 0 && p < pos + Pow2(order) ==> p <= pos
  {
    hide Pow2;
    var n := Pow2(order);
    var q := pos / n;
    assert pos == q * n;
    assert pos + n == (q + 1) * n + 0;
    ModUnique(pos + n, n, q + 1, 0);
    forall p: nat | p % n == 0 && p < pos + n
      ensures p <= pos
    {
      var t := p / n;
      assert p == t * n;
      if q < t {
        Gap(n, q, t);
      }
    }
  }
}
