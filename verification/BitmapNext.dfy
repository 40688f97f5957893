/** A bitmap as the sequence of its bits, and the search for the next bit. */
module BitmapNext {
  type Bitmap = seq<bool>

  /** find_next_bit() and find_next_zero_bit(): the first bit from `from` on, below `size`, with the value `b`. */
  function Next(bm: Bitmap, size: nat, from: nat, b: bool): (i: nat)
    requires size <= |bm|
    ensures i <= size && (from <= size ==> from <= i) && (i < size ==> from <= i && bm[i] == b)
    ensures forall k :: from <= k < i ==> bm[k] != b
    decreases size - from
  {
    if from >= size then size else if bm[from] == b then from else Next(bm, size, from + 1, b)
  }
}
