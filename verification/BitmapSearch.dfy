/** lib/bitmap.c: searching for free areas, and mapping bits by their rank.  A bitmap is the sequence of its bits. */
module BitmapSearch {
  import opened Bits
  import opened BitmapNext

  // --- bitmap_find_next_zero_area_off() ---

  const WORD := 32

  /** An area of `nr` zero bits at `s`, aligned to 2^k at distance `offset`. */
  ghost predicate Area(bm: Bitmap, size: nat, nr: nat, k: nat, offset: nat, s: nat)
    requires size <= |bm|
  {
    s + nr <= size && (s + offset) % Pow2(k) == 0 && forall i :: s <= i < s + nr ==> !bm[i]
  }

  /** __ALIGN_MASK(): the next multiple of 2^k. */
  function AlignMask(x: nat, mask: nat): nat {
    And(x + mask, Xor(mask, Pow2(WORD) - 1))
  }

  lemma Aligned(x: nat, k: nat)
    requires k <= WORD && x + Pow2(k) <= Pow2(WORD)
    ensures
      var r := AlignMask(x, Pow2(k) - 1);
      x <= r < x + Pow2(k) && r % Pow2(k) == 0 && forall s: nat :: s >= x && s % Pow2(k) == 0 ==> s >= r
  {
    hide And, Xor, Pow2, Shl, Shr, Trunc;
    var mask := Pow2(k) - 1;
    var y := x + mask;
    var q := Shr(y, k);
    ClearLow(y, k, WORD);
    Split(y, k);
    TruncBelow(y, k);
    ShlPow2(q, k);
    ModUnique(Shl(q, k), Pow2(k), q, 0);
    forall s: nat | s >= x && s % Pow2(k) == 0
      ensures s >= Shl(q, k)
    {
      NextMultiple(s, q, Pow2(k), x);
    }
  }

  lemma NextMultiple(s: nat, q: nat, n: nat, x: nat)
    requires n >= 1 && s % n == 0 && s >= x && q * n <= x + (n - 1)
    ensures s >= q * n
  {
    var t := s / n;
    assert s == t * n;
    if t < q {
      Gap(n, t, q);
    }
  }

  /** The lowest aligned area from `start0` on, or a number above `size` when there is none. */
  method FindNextZeroArea(bm: Bitmap, size: nat, start0: nat, nr: nat, k: nat, offset: nat) returns (index: nat)
    requires size <= |bm| && nr > 0 && k <= WORD && size + offset + nr + Pow2(k) <= Pow2(WORD)
    ensures index <= size ==> Area(bm, size, nr, k, offset, index) && index >= start0
    ensures index <= size ==> forall s: nat :: start0 <= s < index ==> !Area(bm, size, nr, k, offset, s)
    ensures index > size <==> forall s: nat :: start0 <= s ==> !Area(bm, size, nr, k, offset, s)
  {
    hide Next, AlignMask, Area, Pow2;
    var start, mask := start0, Pow2(k) - 1;
    while true
      invariant start0 <= start
      invariant forall s: nat :: start0 <= s < start ==> !Area(bm, size, nr, k, offset, s)
      decreases size - start
    {
      index := Next(bm, size, start, false);
      Candidates(bm, size, start, nr, k, offset, index);
      index := AlignMask(index + offset, mask) - offset;
      var end := index + nr;
      if end > size {
        AreaFits(bm, size, nr, k, offset);
        return end;
      }
      var i := Next(bm, end, index, true);
      AreaAt(bm, size, nr, k, offset, index, i);
      if i < end {
        start := i + 1;
        continue;
      }
      return index;
    }
  }

  lemma AreaFits(bm: Bitmap, size: nat, nr: nat, k: nat, offset: nat)
    requires size <= |bm|
    ensures forall s: nat :: Area(bm, size, nr, k, offset, s) ==> s + nr <= size
  {
  }

  /** The first set bit from an aligned position on decides. */
  lemma AreaAt(bm: Bitmap, size: nat, nr: nat, k: nat, offset: nat, index: nat, i: nat)
    requires index + nr <= size <= |bm| && (index + offset) % Pow2(k) == 0 && i == Next(bm, index + nr, index, true)
    ensures i == index + nr ==> Area(bm, size, nr, k, offset, index)
    ensures i < index + nr ==> forall s: nat :: index <= s <= i ==> !Area(bm, size, nr, k, offset, s)
  {
    hide Next, Pow2;
    forall s: nat | i < index + nr && index <= s <= i
      ensures !Area(bm, size, nr, k, offset, s)
    {
      assert bm[i];
    }
  }

  /** No area starts before the aligned position after the next zero bit. */
  lemma Candidates(bm: Bitmap, size: nat, start: nat, nr: nat, k: nat, offset: nat, zero: nat)
    requires size <= |bm| && nr > 0 && k <= WORD && size + offset + nr + Pow2(k) <= Pow2(WORD)
    requires zero == Next(bm, size, start, false)
    ensures
      var r := AlignMask(zero + offset, Pow2(k) - 1);
      r >= offset && r % Pow2(k) == 0 && (start <= size ==> r - offset >= start) && (start > size ==> r - offset >= size)
      && forall s: nat :: start <= s && Area(bm, size, nr, k, offset, s) ==> s >= r - offset
  {
    hide AlignMask, Pow2;
    Aligned(zero + offset, k);
    forall s: nat | start <= s && Area(bm, size, nr, k, offset, s)
      ensures s >= AlignMask(zero + offset, Pow2(k) - 1) - offset
    {
      assert !bm[s];
      assert s >= zero;
    }
  }

  // --- rank and select ---

  /** The number of set bits below `k`. */
  function Weight(bm: Bitmap, k: nat): (w: nat)
    requires k <= |bm|
    ensures w <= k
  {
    if k == 0 then 0 else Weight(bm, k - 1) + if bm[k - 1] then 1 else 0
  }

  lemma {:induction false} WeightMono(bm: Bitmap, j: nat, k: nat)
    requires j <= k <= |bm|
    ensures Weight(bm, j) <= Weight(bm, k)
    ensures j < k && bm[j] ==> Weight(bm, j) < Weight(bm, k)
    decreases k
  {
    if j < k {
      WeightMono(bm, j, k - 1);
    }
  }

  /** It is the size of the set of these bits. */
  lemma {:induction false} WeightCounts(bm: Bitmap, k: nat)
    requires k <= |bm|
    ensures Weight(bm, k) == |set i | 0 <= i < k && bm[i]|
  {
    if k > 0 {
      WeightCounts(bm, k - 1);
      var s, t := set i | 0 <= i < k && bm[i], set i | 0 <= i < k - 1 && bm[i];
      assert s == if bm[k - 1] then t + {k - 1} else t;
    }
  }

  /** bitmap_pos_to_ord() */
  function PosToOrd(bm: Bitmap, pos: nat): (ord: int)
    ensures ord == -1 <==> pos >= |bm| || !bm[pos]
  {
    if pos >= |bm| || !bm[pos] then -1 else Weight(bm, pos)
  }

  lemma RankInjective(bm: Bitmap, p: nat, q: nat)
    requires p < |bm| && q < |bm| && bm[p] && bm[q] && Weight(bm, p) == Weight(bm, q)
    ensures p == q
  {
    if p < q {
      WeightMono(bm, p, q);
    } else if q < p {
      WeightMono(bm, q, p);
    }
  }

  /** The position of set bit number `ord`, the size of the bitmap when there are not that many. */
  ghost function Select(bm: Bitmap, ord: nat, k: nat): (pos: nat)
    requires k <= |bm|
    ensures pos <= k
    ensures ord < Weight(bm, k) ==> pos < k && bm[pos] && Weight(bm, pos) == ord
    ensures ord >= Weight(bm, k) ==> pos == k
  {
    if k == 0 then 0
    else if ord < Weight(bm, k - 1) then Select(bm, ord, k - 1)
    else if bm[k - 1] && ord == Weight(bm, k - 1) then k - 1
    else k
  }

  /** bitmap_ord_to_pos() */
  method OrdToPos(bm: Bitmap, ord0: nat) returns (pos: nat)
    ensures pos == Select(bm, ord0, |bm|)
  {
    hide Select, Next;
    var ord: nat := ord0;
    pos := Next(bm, |bm|, 0, true);
    WeightSkip(bm, 0, pos);
    while pos < |bm| && ord != 0
      invariant pos <= |bm| && ord <= ord0 && Weight(bm, pos) == ord0 - ord && (pos < |bm| ==> bm[pos])
      decreases ord
    {
      ord := ord - 1;
      var next := Next(bm, |bm|, pos + 1, true);
      WeightSkip(bm, pos + 1, next);
      pos := next;
    }
    SelectIs(bm, ord0, pos);
  }

  lemma {:induction false} WeightSkip(bm: Bitmap, j: nat, k: nat)
    requires j <= k <= |bm| && forall i :: j <= i < k ==> !bm[i]
    ensures Weight(bm, k) == Weight(bm, j)
    decreases k
  {
    if j < k {
      WeightSkip(bm, j, k - 1);
    }
  }

  lemma SelectIs(bm: Bitmap, ord: nat, pos: nat)
    requires pos <= |bm| && (pos < |bm| ==> bm[pos] && Weight(bm, pos) == ord) && (pos == |bm| ==> Weight(bm, pos) <= ord)
    ensures pos == Select(bm, ord, |bm|)
  {
    hide Select;
    if pos < |bm| {
      WeightMono(bm, pos, |bm|);
      RankInjective(bm, pos, Select(bm, ord, |bm|));
    }
  }

  /** Rank and select undo each other on set bits. */
  lemma RankSelect(bm: Bitmap, pos: nat, ord: nat)
    ensures pos < |bm| && bm[pos] ==> PosToOrd(bm, pos) >= 0 && Select(bm, PosToOrd(bm, pos), |bm|) == pos
    ensures ord < Weight(bm, |bm|) ==> Select(bm, ord, |bm|) < |bm| && PosToOrd(bm, Select(bm, ord, |bm|)) == ord
  {
    hide Select;
    if pos < |bm| && bm[pos] {
      SelectIs(bm, Weight(bm, pos), pos);
    }
  }

  // --- bitmap_remap() ---

  /** Where a bit goes. */
  ghost function Moved(old': Bitmap, new': Bitmap, k: nat): (j: nat)
    requires |old'| == |new'| && k < |old'|
    ensures j < |old'|
  {
    var n, w := PosToOrd(old', k), Weight(new', |new'|);
    if n < 0 || w == 0 then k else SelectBelow(new', n % w); Select(new', n % w, |new'|)
  }

  lemma SelectBelow(bm: Bitmap, ord: nat)
    ensures ord < Weight(bm, |bm|) ==> Select(bm, ord, |bm|) < |bm|
  {
  }

  ghost predicate Image(src: Bitmap, old': Bitmap, new': Bitmap, dst: Bitmap, n: nat)
    requires |src| == |old'| == |new'| == |dst| && n <= |src|
  {
    forall j :: 0 <= j < |dst| ==> dst[j] == Hit(src, old', new', n, j)
  }

  ghost predicate Hit(src: Bitmap, old': Bitmap, new': Bitmap, n: nat, j: nat)
    requires |src| == |old'| == |new'| && n <= |src|
  {
    exists k :: 0 <= k < n && src[k] && Moved(old', new', k) == j
  }

  /** The result has exactly the images of the bits of `src`. */
  method Remap(src: Bitmap, old': Bitmap, new': Bitmap) returns (dst: Bitmap)
    requires |src| == |old'| == |new'|
    ensures |dst| == |src| && Image(src, old', new', dst, |src|)
  {
    hide Select, Weight, Next, Moved;
    dst := seq(|src|, _ => false);
    var w := Weight(new', |new'|);
    var oldbit := Next(src, |src|, 0, true);
    HitSkip(src, old', new', 0, oldbit, dst);
    while oldbit < |src|
      invariant oldbit <= |src| && |dst| == |src| && Image(src, old', new', dst, oldbit) && (oldbit < |src| ==> src[oldbit])
      decreases |src| - oldbit
    {
      var n := PosToOrd(old', oldbit);
      var to := oldbit;
      MovedIs(old', new', oldbit);
      if n >= 0 && w != 0 {
        to := OrdToPos(new', n % w);
      }
      ghost var was := dst;
      dst := dst[to := true];
      HitNext(src, old', new', oldbit, was, dst);
      var next := Next(src, |src|, oldbit + 1, true);
      HitSkip(src, old', new', oldbit + 1, next, dst);
      oldbit := next;
    }
  }

  lemma MovedIs(old': Bitmap, new': Bitmap, k: nat)
    requires |old'| == |new'| && k < |old'|
    ensures
      var n, w := PosToOrd(old', k), Weight(new', |new'|);
      Moved(old', new', k) == if n < 0 || w == 0 then k else Select(new', n % w, |new'|)
  {
  }

  lemma HitNext(src: Bitmap, old': Bitmap, new': Bitmap, n: nat, was: Bitmap, dst: Bitmap)
    requires |src| == |old'| == |new'| == |was| == |dst| && n < |src| && src[n] && Image(src, old', new', was, n)
    requires dst == was[Moved(old', new', n) := true]
    ensures Image(src, old', new', dst, n + 1)
  {
    hide Moved;
    forall j | 0 <= j < |dst|
      ensures dst[j] == Hit(src, old', new', n + 1, j)
    {
      if Hit(src, old', new', n, j) {
        var k :| 0 <= k < n && src[k] && Moved(old', new', k) == j;
        assert 0 <= k < n + 1;
      }
    }
  }

  lemma HitSkip(src: Bitmap, old': Bitmap, new': Bitmap, n: nat, m: nat, dst: Bitmap)
    requires |src| == |old'| == |new'| == |dst| && n <= m <= |src| && forall k :: n <= k < m ==> !src[k]
    ensures n == 0 && (forall j :: 0 <= j < |dst| ==> !dst[j]) ==> Image(src, old', new', dst, m)
    ensures Image(src, old', new', dst, n) ==> Image(src, old', new', dst, m)
  {
    hide Moved;
    forall j | 0 <= j < |dst|
      ensures Hit(src, old', new', n, j) == Hit(src, old', new', m, j)
    {
      if Hit(src, old', new', m, j) {
        var k :| 0 <= k < m && src[k] && Moved(old', new', k) == j;
        assert k < n;
      }
      if Hit(src, old', new', n, j) {
        var k :| 0 <= k < n && src[k] && Moved(old', new', k) == j;
        assert 0 <= k < m;
      }
    }
  }

  ghost predicate Subset(a: Bitmap, b: Bitmap) {
    |a| == |b| && forall k :: 0 <= k < |a| && a[k] ==> b[k]
  }

  /** With equal weights, moving a bit of `old'` to `new'` and back gives the bit. */
  lemma MovedBack(old': Bitmap, new': Bitmap, k: nat)
    requires |old'| == |new'| && Weight(old', |old'|) == Weight(new', |new'|) && k < |old'| && old'[k]
    ensures
      var j := Moved(old', new', k);
      j < |new'| && new'[j] && Moved(new', old', j) == k
  {
    hide Select, Weight, Moved;
    var n := Weight(old', k);
    WeightMono(old', k, |old'|);
    MovedSmall(old', new', k);
    SelectSet(new', n);
    MovedSmall(new', old', Moved(old', new', k));
    RankSelect(old', k, 0);
  }

  /** Bits outside `old'` stay, as do all when `new'` is empty; the bit of rank n in `old'` goes to that of rank
      n modulo the weight in `new'`. */
  lemma MovedExactly(old': Bitmap, new': Bitmap, k: nat)
    requires |old'| == |new'| && k < |old'|
    ensures
      var j, w := Moved(old', new', k), Weight(new', |new'|);
      if !old'[k] || w == 0 then j == k else new'[j] && Weight(new', j) == Weight(old', k) % w
  {
    hide Select, Weight;
    MovedIs(old', new', k);
    if old'[k] && Weight(new', |new'|) > 0 {
      SelectSet(new', Weight(old', k) % Weight(new', |new'|));
    }
  }

  /** With room for its rank, a bit goes to the bit of the same rank. */
  lemma MovedSmall(old': Bitmap, new': Bitmap, k: nat)
    requires |old'| == |new'| && k < |old'| && old'[k] && Weight(old', k) < Weight(new', |new'|)
    ensures Moved(old', new', k) == Select(new', Weight(old', k), |new'|)
  {
    hide Select, Weight;
    MovedIs(old', new', k);
    ModUnique(Weight(old', k), Weight(new', |new'|), 0, Weight(old', k));
  }

  lemma SelectSet(bm: Bitmap, ord: nat)
    requires ord < Weight(bm, |bm|)
    ensures
      var pos := Select(bm, ord, |bm|);
      pos < |bm| && bm[pos] && Weight(bm, pos) == ord
  {
  }

  /** Remapping a subset of `old'` to `new'` and back, with equal weights, is the identity. */
  method RemapRoundTrip(src: Bitmap, old': Bitmap, new': Bitmap) returns (back: Bitmap)
    requires |old'| == |new'| && Subset(src, old') && Weight(old', |old'|) == Weight(new', |new'|)
    ensures back == src
  {
    var mid := Remap(src, old', new');
    back := Remap(mid, new', old');
    ImageBack(src, old', new', mid, back);
  }

  lemma ImageBack(src: Bitmap, old': Bitmap, new': Bitmap, mid: Bitmap, back: Bitmap)
    requires |old'| == |new'| == |mid| == |back| && Subset(src, old') && Weight(old', |old'|) == Weight(new', |new'|)
    requires Image(src, old', new', mid, |src|) && Image(mid, new', old', back, |mid|)
    ensures back == src
  {
    hide Moved, Weight;
    forall k | 0 <= k < |src|
      ensures back[k] == src[k]
    {
      if src[k] {
        MovedBack(old', new', k);
        var j := Moved(old', new', k);
        assert Hit(src, old', new', |src|, j);
        assert mid[j] && Moved(new', old', j) == k;
        assert Hit(mid, new', old', |mid|, k);
      }
      if back[k] {
        var j :| 0 <= j < |mid| && mid[j] && Moved(new', old', j) == k;
        assert Hit(src, old', new', |src|, j);
        var k' :| 0 <= k' < |src| && src[k'] && Moved(old', new', k') == j;
        MovedBack(old', new', k');
      }
    }
  }

  // --- bitmap_onto() ---

  /** Bit n of the result: n is in `relmap`, and `orig` has the rank of n there. */
  method Onto(orig: Bitmap, relmap: Bitmap) returns (dst: Bitmap)
    requires |orig| == |relmap|
    ensures |dst| == |relmap|
    ensures forall n :: 0 <= n < |dst| ==> dst[n] == (relmap[n] && orig[Weight(relmap, n)])
  {
    hide Next;
    dst := seq(|relmap|, _ => false);
    var m, n := 0, Next(relmap, |relmap|, 0, true);
    WeightSkip(relmap, 0, n);
    while n < |relmap|
      invariant n <= |relmap| && |dst| == |relmap| && m == Weight(relmap, n) && (n < |relmap| ==> relmap[n])
      invariant forall k :: n <= k < |dst| ==> !dst[k]
      invariant forall k :: 0 <= k < n ==> dst[k] == (relmap[k] && orig[Weight(relmap, k)])
      decreases |relmap| - n
    {
      if orig[m] {
        dst := dst[n := true];
      }
      m := m + 1;
      var next := Next(relmap, |relmap|, n + 1, true);
      WeightSkip(relmap, n + 1, next);
      n := next;
    }
  }
}
