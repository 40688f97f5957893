/**
 One level of the B+tree, seen as plain sequences.

 A node holds a left-packed list of pairs with strictly descending keys.  Every
 pair of an inner node owns a half-open key interval: from its own key up to the
 key on its left, or up to the upper end of the node's own interval when it is
 the leftmost pair.  `Slot` records that interval; `Expand` turns the intervals
 of the nodes of one level into the intervals of their pairs.
 */
module BTreeSlots {
  import opened Lists

  datatype Pair = Pair(key: nat, val: nat)

  datatype Slot = Slot(lo: nat, hi: nat, val: nat)

  ghost predicate Owns(s: Slot, key: nat) {
    s.lo <= key < s.hi
  }

  ghost predicate Desc(es: seq<Pair>) {
    forall i, j :: 0 <= i < j < |es| ==> es[j].key < es[i].key
  }

  ghost predicate BlockOk(n: nat, es: seq<Pair>, lo: nat, hi: nat) {
    && |es| <= n
    && Desc(es)
    && forall i :: 0 <= i < |es| ==> es[i].val != 0 && lo <= es[i].key < hi
  }

  ghost function Kid(es: seq<Pair>, hi: nat, i: nat): Slot
    requires i < |es|
  {
    Slot(es[i].key, if i == 0 then hi else es[i - 1].key, es[i].val)
  }

  ghost function Kids(es: seq<Pair>, hi: nat): (s: seq<Slot>)
    ensures |s| == |es|
  {
    seq(|es|, i requires 0 <= i < |es| => Kid(es, hi, i))
  }

  /** The intervals of all pairs of the nodes `bs`, whose own intervals are `up`. */
  ghost function Expand(bs: seq<seq<Pair>>, up: seq<Slot>): seq<Slot> {
    if |bs| == 0 || |up| == 0 then [] else Kids(bs[0], up[0].hi) + Expand(bs[1..], up[1..])
  }

  /** Intervals run from high to low and do not overlap. */
  ghost predicate SlotsOk(s: seq<Slot>) {
    && (forall i :: 0 <= i < |s| ==> s[i].lo < s[i].hi)
    && (forall i, j :: 0 <= i < j < |s| ==> s[j].hi <= s[i].lo)
  }

  ghost predicate BlocksOk(n: nat, bs: seq<seq<Pair>>, up: seq<Slot>) {
    && |bs| == |up|
    && forall j :: 0 <= j < |bs| ==> BlockOk(n, bs[j], up[j].lo, up[j].hi)
  }

  /** `t` is `s` with some upper ends raised. */
  ghost predicate Widened(s: seq<Slot>, t: seq<Slot>) {
    && |s| == |t|
    && forall i :: 0 <= i < |s| ==> t[i].lo == s[i].lo && t[i].val == s[i].val && s[i].hi <= t[i].hi
  }

  /** `t` is `s` with some intervals enlarged at either end. */
  ghost predicate Relaxed(s: seq<Slot>, t: seq<Slot>) {
    && |s| == |t|
    && forall i :: 0 <= i < |s| ==> t[i].lo <= s[i].lo && t[i].val == s[i].val && s[i].hi <= t[i].hi
  }

  // --- Expand and concatenation ---

  lemma {:induction false} ExpandAppend(a: seq<seq<Pair>>, b: seq<seq<Pair>>, u: seq<Slot>, v: seq<Slot>)
    requires |a| == |u|
    ensures Expand(a + b, u + v) == Expand(a, u) + Expand(b, v)
  {
    if |a| == 0 {
      assert a + b == b && u + v == v;
    } else {
      ExpandAppend(a[1..], b, u[1..], v);
      assert (a + b)[1..] == a[1..] + b && (u + v)[1..] == u[1..] + v;
      if |b| == 0 && |v| != 0 {
        assert a + b == a;
      }
    }
  }

  /** Where the pairs of node `j` sit in the expanded list. */
  ghost function Offset(bs: seq<seq<Pair>>, up: seq<Slot>, j: nat): nat
    requires j <= |bs| == |up|
  {
    |Expand(bs[..j], up[..j])|
  }

  lemma ExpandAt(bs: seq<seq<Pair>>, up: seq<Slot>, j: nat)
    requires j < |bs| == |up|
    ensures Expand(bs, up)
         == Expand(bs[..j], up[..j]) + Kids(bs[j], up[j].hi) + Expand(bs[j + 1..], up[j + 1..])
  {
    assert bs == bs[..j] + bs[j..] && up == up[..j] + up[j..];
    ExpandAppend(bs[..j], bs[j..], up[..j], up[j..]);
    assert bs[j..][1..] == bs[j + 1..] && up[j..][1..] == up[j + 1..];
  }

  lemma ExpandIndex(bs: seq<seq<Pair>>, up: seq<Slot>, j: nat, i: nat)
    requires j < |bs| == |up| && i < |bs[j]|
    ensures Offset(bs, up, j) + i < |Expand(bs, up)|
    ensures Expand(bs, up)[Offset(bs, up, j) + i] == Kid(bs[j], up[j].hi, i)
  {
    ExpandAt(bs, up, j);
    var a, k, c := Expand(bs[..j], up[..j]), Kids(bs[j], up[j].hi), Expand(bs[j + 1..], up[j + 1..]);
    assert (a + k + c)[|a| + i] == k[i];
  }

  /** Every position of the expanded list belongs to exactly one node. */
  lemma {:induction false} ExpandLocate(bs: seq<seq<Pair>>, up: seq<Slot>, g: nat)
      returns (j: nat, i: nat)
    requires |bs| == |up| && g < |Expand(bs, up)|
    ensures j < |bs| && i < |bs[j]| && g == Offset(bs, up, j) + i
    ensures Expand(bs, up)[g] == Kid(bs[j], up[j].hi, i)
  {
    if g < |bs[0]| {
      j, i := 0, g;
    } else {
      j, i := ExpandLocate(bs[1..], up[1..], g - |bs[0]|);
      j := j + 1;
      assert bs[..j] == [bs[0]] + bs[1..][..j - 1] && up[..j] == [up[0]] + up[1..][..j - 1];
      assert bs[..j][1..] == bs[1..][..j - 1] && up[..j][1..] == up[1..][..j - 1];
      ExpandIndex(bs, up, j, i);
    }
  }

  // --- order of the expanded list ---

  lemma {:induction false} ExpandBelow(n: nat, bs: seq<seq<Pair>>, up: seq<Slot>, b: nat)
    requires BlocksOk(n, bs, up)
    requires forall j :: 0 <= j < |up| ==> up[j].hi <= b
    ensures forall g :: 0 <= g < |Expand(bs, up)| ==> Expand(bs, up)[g].hi <= b
  {
    if |bs| != 0 {
      ExpandBelow(n, bs[1..], up[1..], b);
    }
  }

  lemma {:induction false} ExpandOk(n: nat, bs: seq<seq<Pair>>, up: seq<Slot>)
    requires BlocksOk(n, bs, up) && SlotsOk(up)
    ensures SlotsOk(Expand(bs, up))
    ensures forall g :: 0 <= g < |Expand(bs, up)| ==> Expand(bs, up)[g].val != 0
  {
    if |bs| != 0 {
      ExpandOk(n, bs[1..], up[1..]);
      ExpandBelow(n, bs[1..], up[1..], up[0].lo);
      KidsOk(n, bs[0], up[0].lo, up[0].hi);
      SlotsOkConcat(Kids(bs[0], up[0].hi), Expand(bs[1..], up[1..]), up[0].lo);
    }
  }

  lemma KidsOk(n: nat, es: seq<Pair>, lo: nat, hi: nat)
    requires BlockOk(n, es, lo, hi)
    ensures SlotsOk(Kids(es, hi))
    ensures forall i :: 0 <= i < |es| ==> Kids(es, hi)[i].lo >= lo && Kids(es, hi)[i].val != 0
  {
  }

  lemma SlotsOkConcat(a: seq<Slot>, b: seq<Slot>, mid: nat)
    requires SlotsOk(a) && SlotsOk(b)
    requires forall i :: 0 <= i < |a| ==> a[i].lo >= mid
    requires forall i :: 0 <= i < |b| ==> b[i].hi <= mid
    ensures SlotsOk(a + b)
  {
  }

  /** Non-overlapping intervals have at most one owner per key. */
  lemma OwnerUnique(s: seq<Slot>, i: nat, j: nat, key: nat)
    requires SlotsOk(s) && i < |s| && j < |s| && Owns(s[i], key) && Owns(s[j], key)
    ensures i == j
  {
  }

  /** A key owned below is owned above, by the node that holds the owning pair. */
  lemma OwnerAbove(n: nat, bs: seq<seq<Pair>>, up: seq<Slot>, g: nat, key: nat) returns (j: nat, i: nat)
    requires BlocksOk(n, bs, up) && g < |Expand(bs, up)| && Owns(Expand(bs, up)[g], key)
    ensures j < |bs| && i < |bs[j]| && g == Offset(bs, up, j) + i
    ensures Expand(bs, up)[g] == Kid(bs[j], up[j].hi, i)
    ensures Owns(up[j], key)
  {
    j, i := ExpandLocate(bs, up, g);
    assert BlockOk(n, bs[j], up[j].lo, up[j].hi);
  }

  // --- what changing one level does to the expanded list ---

  lemma {:induction false} ExpandWiden(bs: seq<seq<Pair>>, up: seq<Slot>, up': seq<Slot>)
    requires |bs| == |up| && Relaxed(up, up')
    ensures Widened(Expand(bs, up), Expand(bs, up'))
  {
    if |bs| != 0 {
      ExpandWiden(bs[1..], up[1..], up'[1..]);
    }
  }

  lemma WidenedRefl(a: seq<Slot>)
    ensures Widened(a, a)
  {
  }

  /** Only the upper ends of the nodes' intervals matter to their pairs. */
  lemma {:induction false} ExpandHiOnly(bs: seq<seq<Pair>>, up: seq<Slot>, up': seq<Slot>)
    requires |up| == |up'| && forall j :: 0 <= j < |up| ==> up[j].hi == up'[j].hi
    ensures Expand(bs, up) == Expand(bs, up')
  {
    if |bs| != 0 && |up| != 0 {
      ExpandHiOnly(bs[1..], up[1..], up'[1..]);
    }
  }

  /** Replacing one node's pairs replaces one stretch of the expanded list. */
  lemma ExpandReplace(bs: seq<seq<Pair>>, up: seq<Slot>, j: nat, es: seq<Pair>)
    requires j < |bs| == |up|
    ensures Expand(bs[j := es], up)
         == Expand(bs[..j], up[..j]) + Kids(es, up[j].hi) + Expand(bs[j + 1..], up[j + 1..])
    ensures Offset(bs[j := es], up, j) == Offset(bs, up, j)
  {
    var bs' := bs[j := es];
    ExpandAt(bs', up, j);
    assert bs'[..j] == bs[..j] && bs'[j + 1..] == bs[j + 1..];
  }

  // --- a stretch in the middle of a list ---

  ghost function SplitSlot(s: seq<Slot>, g: nat, key: nat, val: nat): seq<Slot>
    requires g < |s|
  {
    s[..g] + [Slot(key, s[g].hi, val), Slot(s[g].lo, key, s[g].val)] + s[g + 1..]
  }

  ghost function Pairs(s: seq<Slot>): seq<Pair> {
    seq(|s|, i requires 0 <= i < |s| => Pair(s[i].lo, s[i].val))
  }

  lemma SplitMid(a: seq<Slot>, k: seq<Slot>, c: seq<Slot>, i: nat, key: nat, val: nat)
    requires i < |k|
    ensures SplitSlot(a + k + c, |a| + i, key, val) == a + SplitSlot(k, i, key, val) + c
  {
    var s := a + k + c;
    assert s[..|a| + i] == a + k[..i] && s[|a| + i + 1..] == k[i + 1..] + c;
  }

  lemma UpdateMid(a: seq<Slot>, k: seq<Slot>, c: seq<Slot>, i: nat, x: Slot)
    requires i < |k|
    ensures (a + k + c)[|a| + i := x] == a + k[i := x] + c
  {
  }

  lemma MidAt(a: seq<Slot>, k: seq<Slot>, c: seq<Slot>, i: nat)
    requires i < |k|
    ensures |a| + i < |a + k + c| && (a + k + c)[|a| + i] == k[i]
  {
  }

  lemma RemoveMid(a: seq<Slot>, k: seq<Slot>, c: seq<Slot>, i: nat)
    requires i < |k|
    ensures RemoveAt(a + k + c, |a| + i) == a + RemoveAt(k, i) + c
  {
    var s := a + k + c;
    assert s[..|a| + i] == a + k[..i] && s[|a| + i + 1..] == k[i + 1..] + c;
  }

  lemma PairsInsertMid(a: seq<Slot>, k: seq<Slot>, c: seq<Slot>, k': seq<Slot>, i: nat, p: Pair)
    requires i <= |k| && Pairs(k') == InsertAt(Pairs(k), i, p)
    ensures Pairs(a + k' + c) == InsertAt(Pairs(a + k + c), |a| + i, p)
  {
    assert forall x: seq<Slot>, y: seq<Slot> :: Pairs(x + y) == Pairs(x) + Pairs(y);
    var s := Pairs(a + k + c);
    assert s == Pairs(a) + Pairs(k) + Pairs(c);
    assert s[..|a| + i] == Pairs(a) + Pairs(k)[..i] && s[|a| + i..] == Pairs(k)[i..] + Pairs(c);
  }

  lemma Regroup(a: seq<Slot>, b: seq<Slot>, c: seq<Slot>, d: seq<Slot>)
    ensures a + b + (c + d) == a + (b + c) + d
  {
  }

  lemma WidenedConcat(a: seq<Slot>, b: seq<Slot>, a': seq<Slot>, b': seq<Slot>)
    requires Widened(a, a') && Widened(b, b')
    ensures Widened(a + b, a' + b')
  {
  }

  // --- one node ---

  lemma KidsLower(n: nat, es: seq<Pair>, lo: nat, hi: nat, key: nat)
    requires BlockOk(n, es, lo, hi) && es != [] && lo <= key < es[|es| - 1].key
    ensures
      var last := |es| - 1;
      var es' := es[last := Pair(key, es[last].val)];
      BlockOk(n, es', lo, hi) && Kids(es', hi) == Kids(es, hi)[last := Kid(es, hi, last).(lo := key)]
  {
  }

  lemma PairsKids(es: seq<Pair>, hi: nat)
    ensures Pairs(Kids(es, hi)) == es
  {
  }

  lemma BlockInsert(n: nat, es: seq<Pair>, lo: nat, hi: nat, i: nat, key: nat, val: nat)
    requires BlockOk(n, es, lo, hi) && i <= |es| < n && lo <= key < hi && val != 0
    requires i > 0 ==> key < es[i - 1].key
    requires i < |es| ==> es[i].key < key
    ensures BlockOk(n, InsertAt(es, i, Pair(key, val)), lo, hi)
  {
    DescInsert(es, i, Pair(key, val));
  }

  lemma DescInsert(es: seq<Pair>, i: nat, e: Pair)
    requires Desc(es) && i <= |es|
    requires i > 0 ==> e.key < es[i - 1].key
    requires i < |es| ==> es[i].key < e.key
    ensures Desc(InsertAt(es, i, e))
  {
    var es' := InsertAt(es, i, e);
    forall a, b | 0 <= a < b < |es'|
      ensures es'[b].key < es'[a].key
    {
      assert es'[a] == if a < i then es[a] else if a == i then e else es[a - 1];
      assert es'[b] == if b < i then es[b] else if b == i then e else es[b - 1];
    }
  }

  lemma KidsInsert(es: seq<Pair>, hi: nat, i: nat, key: nat, val: nat)
    requires i < |es|
    ensures Kids(InsertAt(es, i, Pair(key, val)), hi) == SplitSlot(Kids(es, hi), i, key, val)
  {
    var a, b := Kids(InsertAt(es, i, Pair(key, val)), hi), SplitSlot(Kids(es, hi), i, key, val);
    forall k | 0 <= k < |a|
      ensures a[k] == b[k]
    {
    }
  }

  lemma KidsRemove(n: nat, es: seq<Pair>, lo: nat, hi: nat, i: nat)
    requires BlockOk(n, es, lo, hi) && i < |es|
    ensures
      var es' := RemoveAt(es, i);
      && BlockOk(n, es', lo, hi)
      && Widened(RemoveAt(Kids(es, hi), i), Kids(es', hi))
      && (i + 1 < |es| ==> Kids(es', hi)[i].hi == Kids(es, hi)[i].hi)
  {
    BlockRemove(n, es, lo, hi, i);
    var es' := RemoveAt(es, i);
    var s, t := RemoveAt(Kids(es, hi), i), Kids(es', hi);
    forall k | 0 <= k < |s|
      ensures t[k].lo == s[k].lo && t[k].val == s[k].val && s[k].hi <= t[k].hi
    {
      assert t[k] == Kid(es', hi, k) && s[k] == Kid(es, hi, if k < i then k else k + 1);
    }
  }

  lemma BlockRemove(n: nat, es: seq<Pair>, lo: nat, hi: nat, i: nat)
    requires BlockOk(n, es, lo, hi) && i < |es|
    ensures BlockOk(n, RemoveAt(es, i), lo, hi)
  {
    var es' := RemoveAt(es, i);
    assert forall k :: 0 <= k < |es'| ==> es'[k] == if k < i then es[k] else es[k + 1];
  }

  lemma KidsMerge(n: nat, l: seq<Pair>, r: seq<Pair>, lslot: Slot, rslot: Slot, lo: nat, hi: nat)
    requires BlockOk(n, l, lslot.lo, lslot.hi) && BlockOk(n, r, rslot.lo, rslot.hi) && |l| + |r| <= n
    requires rslot.lo < rslot.hi <= lslot.lo < lslot.hi <= hi && lo <= rslot.lo
    ensures BlockOk(n, l + r, lo, hi)
    ensures Widened(Kids(l, lslot.hi) + Kids(r, rslot.hi), Kids(l + r, hi))
  {
    var s, t := Kids(l, lslot.hi) + Kids(r, rslot.hi), Kids(l + r, hi);
    forall k | 0 <= k < |s|
      ensures t[k].lo == s[k].lo && t[k].val == s[k].val && s[k].hi <= t[k].hi
    {
      if k < |l| {
        assert s[k] == Kid(l, lslot.hi, k) && t[k] == Kid(l + r, hi, k);
      } else {
        assert s[k] == Kid(r, rslot.hi, k - |l|) && t[k] == Kid(l + r, hi, k);
      }
    }
  }

  // --- what changing one node does to the expanded list ---

  lemma BlockIn(n: nat, bs: seq<seq<Pair>>, up: seq<Slot>, j: nat)
    requires BlocksOk(n, bs, up) && j < |bs|
    ensures |bs| == |up| && BlockOk(n, bs[j], up[j].lo, up[j].hi)
  {
  }

  lemma BlocksReplace(n: nat, bs: seq<seq<Pair>>, up: seq<Slot>, j: nat, es: seq<Pair>)
    requires BlocksOk(n, bs, up) && j < |bs| && BlockOk(n, es, up[j].lo, up[j].hi)
    ensures BlocksOk(n, bs[j := es], up)
  {
  }

  /** Lowering the last key of a node lowers one interval's lower end. */
  lemma ExpandLower(n: nat, bs: seq<seq<Pair>>, up: seq<Slot>, j: nat, key: nat)
    requires BlocksOk(n, bs, up) && j < |bs| && bs[j] != []
    requires up[j].lo <= key < bs[j][|bs[j]| - 1].key
    ensures
      var last := |bs[j]| - 1;
      var bs' := bs[j := bs[j][last := Pair(key, bs[j][last].val)]];
      var g := Offset(bs, up, j) + last;
      && BlocksOk(n, bs', up)
      && g < |Expand(bs, up)|
      && Expand(bs', up) == Expand(bs, up)[g := Expand(bs, up)[g].(lo := key)]
      && key < Expand(bs, up)[g].hi
  {
    hide Expand, Kids;
    var last := |bs[j]| - 1;
    var es := bs[j][last := Pair(key, bs[j][last].val)];
    KidsLower(n, bs[j], up[j].lo, up[j].hi, key);
    BlocksReplace(n, bs, up, j, es);
    ExpandAt(bs, up, j);
    ExpandReplace(bs, up, j, es);
    ExpandIndex(bs, up, j, last);
    UpdateMid(Expand(bs[..j], up[..j]), Kids(bs[j], up[j].hi), Expand(bs[j + 1..], up[j + 1..]), last,
              Kid(bs[j], up[j].hi, last).(lo := key));
    assert BlockOk(n, bs[j], up[j].lo, up[j].hi);
  }

  /** Inserting a pair in front of another one splits that one's interval. */
  lemma ExpandInsert(bs: seq<seq<Pair>>, up: seq<Slot>, j: nat, i: nat, key: nat, val: nat)
    requires j < |bs| == |up| && i < |bs[j]|
    ensures
      var g := Offset(bs, up, j) + i;
      && g < |Expand(bs, up)|
      && Expand(bs, up)[g] == Kid(bs[j], up[j].hi, i)
      && Expand(bs[j := InsertAt(bs[j], i, Pair(key, val))], up) == SplitSlot(Expand(bs, up), g, key, val)
  {
    ExpandAt(bs, up, j);
    ExpandIndex(bs, up, j, i);
    ExpandReplace(bs, up, j, InsertAt(bs[j], i, Pair(key, val)));
    KidsInsert(bs[j], up[j].hi, i, key, val);
    SplitMid(Expand(bs[..j], up[..j]), Kids(bs[j], up[j].hi), Expand(bs[j + 1..], up[j + 1..]), i, key, val);
  }

  /** Inserting a pair anywhere inserts one pair into the level's list of pairs. */
  lemma PairsInsert(bs: seq<seq<Pair>>, up: seq<Slot>, j: nat, i: nat, p: Pair)
    requires j < |bs| == |up| && i <= |bs[j]|
    ensures
      var g := Offset(bs, up, j) + i;
      && g <= |Expand(bs, up)|
      && Pairs(Expand(bs[j := InsertAt(bs[j], i, p)], up)) == InsertAt(Pairs(Expand(bs, up)), g, p)
  {
    var es, hi := InsertAt(bs[j], i, p), up[j].hi;
    ExpandAt(bs, up, j);
    ExpandReplace(bs, up, j, es);
    PairsKids(bs[j], hi);
    PairsKids(es, hi);
    PairsInsertMid(Expand(bs[..j], up[..j]), Kids(bs[j], hi), Expand(bs[j + 1..], up[j + 1..]), Kids(es, hi), i, p);
  }

  /** Removing a pair leaves the other intervals in place; the right neighbour inherits the gap. */
  lemma ExpandRemove(n: nat, bs: seq<seq<Pair>>, up: seq<Slot>, j: nat, i: nat)
    requires BlocksOk(n, bs, up) && j < |bs| && i < |bs[j]|
    ensures
      var bs' := bs[j := RemoveAt(bs[j], i)];
      var g := Offset(bs, up, j) + i;
      && BlocksOk(n, bs', up)
      && g < |Expand(bs, up)|
      && Widened(RemoveAt(Expand(bs, up), g), Expand(bs', up))
      && (i + 1 < |bs[j]| ==> g < |Expand(bs', up)| && Expand(bs', up)[g].hi == Expand(bs, up)[g].hi)
  {
    hide Expand, Kids, BlocksOk, Widened;
    BlockIn(n, bs, up, j);
    var es := RemoveAt(bs[j], i);
    var hi := up[j].hi;
    KidsRemove(n, bs[j], up[j].lo, hi, i);
    BlocksReplace(n, bs, up, j, es);
    ExpandAt(bs, up, j);
    ExpandReplace(bs, up, j, es);
    var a, c := Expand(bs[..j], up[..j]), Expand(bs[j + 1..], up[j + 1..]);
    var k, k' := Kids(bs[j], hi), Kids(es, hi);
    RemoveMid(a, k, c, i);
    assert |a| == Offset(bs, up, j);
    WidenedRefl(a);
    WidenedRefl(c);
    WidenedConcat(a, RemoveAt(k, i), a, k');
    WidenedConcat(a + RemoveAt(k, i), c, a + k', c);
    MidAt(a, k, c, i);
    if i + 1 < |bs[j]| {
      MidAt(a, k', c, i);
    }
  }

  lemma ExpandAtTwo(bs: seq<seq<Pair>>, up: seq<Slot>, j: nat)
    requires j + 1 < |bs| == |up|
    ensures Expand(bs, up)
         == Expand(bs[..j], up[..j]) + (Kids(bs[j], up[j].hi) + Kids(bs[j + 1], up[j + 1].hi))
            + Expand(bs[j + 2..], up[j + 2..])
  {
    ExpandAt(bs, up, j);
    var u, v := bs[j + 1..], up[j + 1..];
    assert u[1..] == bs[j + 2..] && v[1..] == up[j + 2..];
    assert Expand(u, v) == Kids(u[0], v[0].hi) + Expand(u[1..], v[1..]);
    Regroup(Expand(bs[..j], up[..j]), Kids(bs[j], up[j].hi), Kids(bs[j + 1], up[j + 1].hi), Expand(u[1..], v[1..]));
  }

  lemma KidsSplit(es: seq<Pair>, hi: nat, h: nat)
    requires 0 < h < |es|
    ensures Kids(es, hi) == Kids(es[..h], hi) + Kids(es[h..], es[h - 1].key)
  {
  }

  ghost function SplitBlock(bs: seq<seq<Pair>>, j: nat, h: nat): seq<seq<Pair>>
    requires j < |bs| && h <= |bs[j]|
  {
    bs[..j] + [bs[j][..h], bs[j][h..]] + bs[j + 1..]
  }

  lemma BlocksSplit(n: nat, bs: seq<seq<Pair>>, up: seq<Slot>, j: nat, h: nat, sib: nat)
    requires BlocksOk(n, bs, up) && j < |bs| && 0 < h < |bs[j]|
    ensures BlocksOk(n, SplitBlock(bs, j, h), SplitSlot(up, j, bs[j][h - 1].key, sib))
  {
    var bs', up' := SplitBlock(bs, j, h), SplitSlot(up, j, bs[j][h - 1].key, sib);
    assert BlockOk(n, bs[j], up[j].lo, up[j].hi);
    forall k | 0 <= k < |bs'|
      ensures BlockOk(n, bs'[k], up'[k].lo, up'[k].hi)
    {
      if k < j || k > j + 1 {
        var o := if k < j then k else k - 1;
        assert bs'[k] == bs[o] && up'[k] == up[o] && BlockOk(n, bs[o], up[o].lo, up[o].hi);
      }
    }
  }

  /** Splitting a node together with its interval does not move any pair's interval. */
  lemma ExpandSplit(bs: seq<seq<Pair>>, up: seq<Slot>, j: nat, h: nat, sib: nat)
    requires j < |bs| == |up| && 0 < h < |bs[j]|
    ensures Expand(SplitBlock(bs, j, h), SplitSlot(up, j, bs[j][h - 1].key, sib)) == Expand(bs, up)
  {
    var bs', up' := SplitBlock(bs, j, h), SplitSlot(up, j, bs[j][h - 1].key, sib);
    ExpandAt(bs, up, j);
    ExpandAtTwo(bs', up', j);
    assert bs'[..j] == bs[..j] && bs'[j + 2..] == bs[j + 1..];
    assert up'[..j] == up[..j] && up'[j + 2..] == up[j + 1..];
    KidsSplit(bs[j], up[j].hi, h);
  }

  /** Dropping an empty node together with its interval keeps every pair's interval, at least as wide. */
  lemma ExpandDrop(n: nat, bs: seq<seq<Pair>>, up: seq<Slot>, j: nat, up': seq<Slot>)
    requires BlocksOk(n, bs, up) && j < |bs| && bs[j] == []
    requires Relaxed(RemoveAt(up, j), up')
    ensures BlocksOk(n, RemoveAt(bs, j), up')
    ensures Widened(Expand(bs, up), Expand(RemoveAt(bs, j), up'))
  {
    ExpandAt(bs, up, j);
    ExpandAppend(bs[..j], bs[j + 1..], up[..j], up[j + 1..]);
    ExpandWiden(RemoveAt(bs, j), RemoveAt(up, j), up');
    forall k | 0 <= k < |up'|
      ensures BlockOk(n, RemoveAt(bs, j)[k], up'[k].lo, up'[k].hi)
    {
      var m := if k < j then k else k + 1;
      assert BlockOk(n, bs[m], up[m].lo, up[m].hi);
    }
  }

  ghost function SwapVals(up: seq<Slot>, j: nat): seq<Slot>
    requires j + 1 < |up|
  {
    up[j := up[j].(val := up[j + 1].val)][j + 1 := up[j + 1].(val := up[j].val)]
  }

  ghost function MergeAt(bs: seq<seq<Pair>>, j: nat): seq<seq<Pair>>
    requires j + 1 < |bs|
  {
    bs[..j] + [bs[j] + bs[j + 1]] + bs[j + 2..]
  }

  lemma BlocksMerge(n: nat, bs: seq<seq<Pair>>, up: seq<Slot>, j: nat, up': seq<Slot>)
    requires BlocksOk(n, bs, up) && j + 1 < |bs|
    requires Relaxed(RemoveAt(SwapVals(up, j), j), up')
    requires BlockOk(n, bs[j] + bs[j + 1], up'[j].lo, up'[j].hi)
    ensures BlocksOk(n, MergeAt(bs, j), up')
  {
    var m := MergeAt(bs, j);
    forall k | 0 <= k < |m|
      ensures BlockOk(n, m[k], up'[k].lo, up'[k].hi)
    {
      if k != j {
        var o := if k < j then k else k + 1;
        assert m[k] == bs[o] && BlockOk(n, bs[o], up[o].lo, up[o].hi);
      }
    }
  }

  /** Merging two neighbours under the right one's lower end keeps every pair's interval, at least as wide. */
  lemma ExpandMerge(n: nat, bs: seq<seq<Pair>>, up: seq<Slot>, j: nat, up': seq<Slot>)
    requires BlocksOk(n, bs, up) && SlotsOk(up) && j + 1 < |bs| && |bs[j]| + |bs[j + 1]| <= n
    requires Relaxed(RemoveAt(SwapVals(up, j), j), up') && up[j].hi <= up'[j].hi
    ensures BlocksOk(n, MergeAt(bs, j), up')
    ensures Widened(Expand(bs, up), Expand(MergeAt(bs, j), up'))
  {
    hide Expand, Kids;
    var l, r, m := bs[j], bs[j + 1], MergeAt(bs, j);
    var q := RemoveAt(SwapVals(up, j), j);
    assert q[..j] == up[..j] && q[j + 1..] == up[j + 2..] && q[j].lo == up[j + 1].lo;
    KidsMerge(n, l, r, up[j], up[j + 1], up'[j].lo, up'[j].hi);
    BlocksMerge(n, bs, up, j, up');
    ExpandAtTwo(bs, up, j);
    ExpandAt(m, up', j);
    var a', k', c' := Expand(m[..j], up'[..j]), Kids(m[j], up'[j].hi), Expand(m[j + 1..], up'[j + 1..]);
    assert Widened(Expand(bs[..j], up[..j]), a') by {
      assert m[..j] == bs[..j];
      ExpandWiden(bs[..j], up[..j], up'[..j]);
    }
    assert Widened(Expand(bs[j + 2..], up[j + 2..]), c') by {
      assert m[j + 1..] == bs[j + 2..];
      ExpandWiden(bs[j + 2..], up[j + 2..], up'[j + 1..]);
    }
    var k := Kids(l, up[j].hi) + Kids(r, up[j + 1].hi);
    WidenedConcat(Expand(bs[..j], up[..j]), k, a', k');
    WidenedConcat(Expand(bs[..j], up[..j]) + k, Expand(bs[j + 2..], up[j + 2..]), a' + k', c');
  }
}
