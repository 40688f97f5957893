/**
 lib/btree.c: keys are arrays of machine words, most significant word first.  The tree
 itself works on their numeric values; this module is why it may.
 */
module BTreeKeys {
  /** The number a word array stands for, `w` being one more than the largest word. */
  ghost function Value(w: nat, key: seq<nat>): nat {
    if key == [] then 0 else Value(w, key[..|key| - 1]) * w + key[|key| - 1]
  }

  ghost predicate Words(w: nat, key: seq<nat>) {
    forall i :: 0 <= i < |key| ==> key[i] < w
  }

  ghost function Pow(w: nat, k: nat): nat {
    if k == 0 then 1 else Pow(w, k - 1) * w
  }

  /** A smaller leading part outweighs the last words. */
  lemma Carry(w: nat, u: nat, v: nat, x: nat, y: nat)
    requires u < v && x < w
    ensures u * w + x < v * w + y
  {
    assert v * w == u * w + w + (v - u - 1) * w;
    assert (v - u - 1) * w >= 0;
  }

  /** Equal leading words, then a smaller word: a smaller number, whatever follows. */
  lemma {:induction false} ValueLess(w: nat, a: seq<nat>, b: seq<nat>, i: nat)
    requires Words(w, a) && Words(w, b) && i < |a| == |b|
    requires a[..i] == b[..i] && a[i] < b[i]
    ensures Value(w, a) < Value(w, b)
  {
    var m := |a| - 1;
    var a', b' := a[..m], b[..m];
    if i == m {
      assert a' == b';
    } else {
      assert a'[..i] == a[..i] && b'[..i] == b[..i];
      ValueLess(w, a', b', i);
      Carry(w, Value(w, a'), Value(w, b'), a[m], b[m]);
    }
  }

  /** longcmp(): comparing word by word compares the numbers. */
  method LongCmp(w: nat, a: seq<nat>, b: seq<nat>) returns (r: int)
    requires Words(w, a) && Words(w, b) && |a| == |b|
    ensures r == -1 <==> Value(w, a) < Value(w, b)
    ensures r == 0 <==> Value(w, a) == Value(w, b)
    ensures r == 0 <==> a == b
    ensures r == 1 <==> Value(w, a) > Value(w, b)
  {
    var i := 0;
    while i < |a|
      invariant 0 <= i <= |a| && a[..i] == b[..i]
    {
      if a[i] < b[i] {
        ValueLess(w, a, b, i);
        return -1;
      }
      if a[i] > b[i] {
        ValueLess(w, b, a, i);
        return 1;
      }
      i := i + 1;
    }
    assert a == a[..i] == b[..i] == b;
    return 0;
  }

  /** The borrow: decrementing number by number. */
  ghost function Decremented(w: nat, key: seq<nat>): seq<nat> {
    if key == [] || w == 0 then key
    else
      var m := |key| - 1;
      if key[m] > 0 then key[m := key[m] - 1] else Decremented(w, key[..m]) + [w - 1]
  }

  /** The last word is zero: it becomes the largest one and the words before it, `v`, lose one. */
  lemma Borrow(w: nat, v: nat, p: nat, x: int)
    requires w > 0 && x == if v == 0 then p - 1 else v - 1
    ensures x * w + (w - 1) == if v * w == 0 then p * w - 1 else v * w - 1
  {
  }

  lemma Product(v: nat, w: nat)
    ensures v * w >= 0
  {
  }

  lemma {:induction false} DecrementedWords(w: nat, key: seq<nat>)
    requires Words(w, key)
    ensures |Decremented(w, key)| == |key| && Words(w, Decremented(w, key))
  {
    if key != [] {
      DecrementedWords(w, key[..|key| - 1]);
    }
  }

  lemma {:induction false} DecrementedValue(w: nat, key: seq<nat>)
    requires Words(w, key)
    ensures |Decremented(w, key)| == |key| && Words(w, Decremented(w, key))
    ensures Value(w, Decremented(w, key)) == if Value(w, key) == 0 then Pow(w, |key|) - 1 else Value(w, key) - 1
  {
    DecrementedWords(w, key);
    if key != [] {
      var m := |key| - 1;
      var d, v := Decremented(w, key), Value(w, key[..m]);
      if key[m] > 0 {
        assert d[..m] == key[..m];
        Product(v, w);
      } else {
        DecrementedValue(w, key[..m]);
        assert d[..m] == Decremented(w, key[..m]);
        Borrow(w, v, Pow(w, m), Value(w, d[..m]));
      }
    }
  }

  /** dec_key(): one less, and all ones for zero.  The words are updated from the last one on. */
  method DecKey(w: nat, key: seq<nat>) returns (d: seq<nat>)
    requires Words(w, key)
    ensures |d| == |key| && Words(w, d)
    ensures Value(w, d) == if Value(w, key) == 0 then Pow(w, |key|) - 1 else Value(w, key) - 1
  {
    hide Value, Pow, Decremented;
    DecrementedValue(w, key);
    d := key;
    BorrowStart(w, key);
    var i := |key| - 1;
    while i >= 0
      invariant -1 <= i < |key| && |d| == |key|
      invariant forall k :: 0 <= k <= i ==> d[k] == key[k]
      invariant Borrowed(w, key, d, i + 1)
      decreases i
    {
      var val := d[i];
      if val != 0 {
        BorrowStop(w, key, d, i);
        d := d[i := val - 1];
        return;
      }
      BorrowOn(w, key, d, i);
      d := d[i := w - 1];
      i := i - 1;
    }
    BorrowEnd(w, key, d);
  }

  /** The words from `i` on are final and the borrow has reached word `i - 1`. */
  ghost predicate Borrowed(w: nat, key: seq<nat>, d: seq<nat>, i: nat) {
    && i <= |key| == |d|
    && Decremented(w, key) == Decremented(w, key[..i]) + d[i..]
  }

  lemma BorrowStart(w: nat, key: seq<nat>)
    ensures Borrowed(w, key, key, |key|)
  {
    assert key[..|key|] == key;
  }

  lemma BorrowEnd(w: nat, key: seq<nat>, d: seq<nat>)
    requires Borrowed(w, key, d, 0)
    ensures d == Decremented(w, key)
  {
    assert d[0..] == d;
  }

  lemma BorrowStop(w: nat, key: seq<nat>, d: seq<nat>, i: nat)
    requires Words(w, key) && Borrowed(w, key, d, i + 1) && key[i] > 0
    requires forall k :: 0 <= k <= i ==> d[k] == key[k]
    ensures d[i := key[i] - 1] == Decremented(w, key)
  {
    assert key[i] < w;
    assert Decremented(w, key[..i + 1]) == key[..i + 1][i := key[i] - 1];
  }

  lemma BorrowOn(w: nat, key: seq<nat>, d: seq<nat>, i: nat)
    requires Words(w, key) && Borrowed(w, key, d, i + 1) && key[i] == 0
    ensures w > 0 && Borrowed(w, key, d[i := w - 1], i)
  {
    assert key[i] < w;
    assert key[..i + 1][..i] == key[..i];
    assert Decremented(w, key[..i + 1]) == Decremented(w, key[..i]) + [w - 1];
    assert d[i := w - 1][i..] == [w - 1] + d[i + 1..];
  }
}
