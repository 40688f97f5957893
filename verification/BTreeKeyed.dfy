/**
 The B+tree with its keys and separators, as a value.  Every run on sizes is the run of some list of
 keys, inserted while absent and removed while present.
 */
module BTreeKeyed {
  import opened Lists
  import opened BTreeSizes

  datatype Keyed = KLeaf(keys: seq<nat>) | KNode(seps: seq<nat>, kids: seq<Keyed>)

  function Count(t: Keyed): nat {
    match t
    case KLeaf(keys) => |keys|
    case KNode(_, kids) => |kids|
  }

  /** The numbers of entries. */
  function Sizes(t: Keyed): Shape {
    match t
    case KLeaf(keys) => Leaf(|keys|)
    case KNode(_, kids) => Node(seq(|kids|, i requires 0 <= i < |kids| => Sizes(kids[i])))
  }

  lemma SizesCount(t: Keyed)
    ensures Size(Sizes(t)) == Count(t)
  {
  }

  predicate Formed(t: Keyed) {
    t.KNode? ==> |t.seps| == |t.kids| > 0 && forall i :: 0 <= i < |t.kids| ==> Formed(t.kids[i])
  }

  ghost predicate Has(t: Keyed, key: nat) {
    match t
    case KLeaf(keys) => key in keys
    case KNode(_, kids) => exists i :: 0 <= i < |kids| && Has(kids[i], key)
  }

  /** The first position whose key is not above `key`. */
  function Pos(ks: seq<nat>, key: nat): (i: nat)
    ensures i <= |ks| && (i < |ks| ==> ks[i] <= key) && forall j :: 0 <= j < i ==> key < ks[j]
  {
    if ks == [] || ks[0] <= key then 0 else
      var i := Pos(ks[1..], key) + 1;
      assert forall j :: 1 <= j < i ==> ks[j] == ks[1..][j - 1];
      i
  }

  /** The smallest key or separator of a node. */
  function Low(t: Keyed): nat
    requires Count(t) > 0 && Formed(t)
  {
    match t
    case KLeaf(keys) => keys[|keys| - 1]
    case KNode(seps, _) => seps[|seps| - 1]
  }

  // --- insertion ---

  /** The child that find_level() goes to, and the separators it leaves behind. */
  function Child(seps: seq<nat>, key: nat): (i: nat)
    requires |seps| > 0
    ensures i < |seps|
  {
    if Pos(seps, key) < |seps| then Pos(seps, key) else |seps| - 1
  }

  function Lowered(seps: seq<nat>, key: nat): (r: seq<nat>)
    requires |seps| > 0
    ensures |r| == |seps|
  {
    if Pos(seps, key) < |seps| then seps else seps[|seps| - 1 := key]
  }

  predicate Pieces(r: seq<Keyed>) {
    (|r| == 1 || |r| == 2) && forall j :: 0 <= j < |r| ==> Formed(r[j]) && Count(r[j]) > 0
  }

  function Took(n: nat, seps: seq<nat>, kids: seq<Keyed>, i: nat, r: seq<Keyed>): (p: seq<Keyed>)
    requires n >= 4 && |seps| == |kids| && i < |kids| && Pieces(r)
  {
    if |r| == 1 then [KNode(seps, kids[i := r[0]])]
    else
      var h, ss, ks := n / 2, InsertAt(seps, i, Low(r[0])), Replaced(kids, i, r);
      if |kids| < n then [KNode(ss, ks)]
      else if i < h then [KNode(ss[..h + 1], ks[..h + 1]), KNode(seps[h..], kids[h..])]
      else [KNode(seps[..h], kids[..h]), KNode(ss[h..], ks[h..])]
  }

  lemma TookPieces(n: nat, seps: seq<nat>, kids: seq<Keyed>, i: nat, r: seq<Keyed>)
    requires n >= 4 && |seps| == |kids| && i < |kids| && Pieces(r) && forall j :: 0 <= j < |kids| ==> Formed(kids[j])
    ensures Pieces(Took(n, seps, kids, i, r))
  {
    var ks := Replaced(kids, i, r);
    assert forall j :: 0 <= j < |ks| ==> Formed(ks[j]);
  }

  /** btree_insert_level() */
  function KAdd(n: nat, t: Keyed, key: nat): (r: seq<Keyed>)
    requires n >= 4 && Formed(t)
    ensures Pieces(r)
  {
    match t
    case KLeaf(keys) =>
      var i, h := Pos(keys, key), n / 2;
      var ks := InsertAt(keys, i, key);
      if |keys| < n then [KLeaf(ks)]
      else if i < h then [KLeaf(ks[..h + 1]), KLeaf(keys[h..])]
      else [KLeaf(keys[..h]), KLeaf(ks[h..])]
    case KNode(seps, kids) =>
      var i := Child(seps, key);
      var r := KAdd(n, kids[i], key);
      TookPieces(n, Lowered(seps, key), kids, i, r);
      Took(n, Lowered(seps, key), kids, i, r)
  }

  // --- removal ---

  function KJoined(a: Keyed, b: Keyed): Keyed {
    match (a, b)
    case (KLeaf(j), KLeaf(k)) => KLeaf(j + k)
    case (KNode(s, j), KNode(u, k)) => KNode(s + u, j + k)
    case _ => a
  }

  function KRebalanced(n: nat, seps: seq<nat>, kids: seq<Keyed>, i: nat): Keyed
    requires |seps| == |kids| && i < |kids|
  {
    var m := Count(kids[i]);
    if m >= n / 2 then KNode(seps, kids)
    else if m == 0 then KNode(RemoveAt(seps, i), RemoveAt(kids, i))
    else if i > 0 && m + Count(kids[i - 1]) <= n then
      KNode(RemoveAt(seps, i - 1), kids[..i - 1] + [KJoined(kids[i - 1], kids[i])] + kids[i + 1..])
    else if i + 1 < |kids| && m + Count(kids[i + 1]) <= n then
      KNode(RemoveAt(seps, i), kids[..i] + [KJoined(kids[i], kids[i + 1])] + kids[i + 2..])
    else KNode(seps, kids)
  }

  function KDel(n: nat, t: Keyed, key: nat): Keyed
    requires Formed(t)
  {
    match t
    case KLeaf(keys) =>
      var i := Pos(keys, key);
      if i < |keys| then KLeaf(RemoveAt(keys, i)) else t
    case KNode(seps, kids) =>
      var i := Child(seps, key);
      var c := KDel(n, kids[i], key);
      var ks := kids[i := c];
      if Count(c) < Count(kids[i]) then KRebalanced(n, seps, ks, i) else KNode(seps, ks)
  }

  // --- whole trees ---

  datatype KeyOp = Insert(key: nat) | Remove(key: nat)

  /** btree_insert() wants an absent key, btree_remove() a present one; an inner root without entries admits neither. */
  ghost predicate Allowed(t: Keyed, op: KeyOp) {
    Formed(t) && (op.Insert? <==> !Has(t, op.key))
  }

  function KStep(n: nat, t: Keyed, op: KeyOp): Keyed
    requires n >= 4 && Formed(t)
  {
    match op
    case Insert(key) =>
      var r := KAdd(n, t, key);
      if |r| == 1 then r[0] else KNode([Low(r[0]), Low(r[1])], r)
    case Remove(key) =>
      var u := KDel(n, t, key);
      if u.KNode? && |u.kids| == 1 && Count(u) < Count(t) then u.kids[0] else u
  }

  ghost predicate KRuns(n: nat, t: Keyed, ops: seq<KeyOp>, u: Keyed)
    requires n >= 4
    decreases |ops|
  {
    if ops == [] then t == u else Allowed(t, ops[0]) && KRuns(n, KStep(n, t, ops[0]), ops[1..], u)
  }

  // --- order ---

  ghost predicate Down(s: seq<nat>) {
    forall i, j :: 0 <= i < j < |s| ==> s[j] < s[i]
  }

  ghost function Above(seps: seq<nat>, hi: nat, i: nat): nat
    requires i <= |seps|
  {
    if i == 0 then hi else seps[i - 1]
  }

  /** Keys fall from left to right, and every child keeps to the interval its separators give it. */
  ghost predicate Ordered(t: Keyed, lo: nat, hi: nat) {
    match t
    case KLeaf(keys) => Down(keys) && forall i :: 0 <= i < |keys| ==> lo <= keys[i] < hi
    case KNode(seps, kids) =>
      && |seps| == |kids| && Down(seps) && (forall i :: 0 <= i < |seps| ==> lo <= seps[i] < hi)
      && forall i :: 0 <= i < |kids| ==> Ordered(kids[i], seps[i], Above(seps, hi, i))
  }

  /** All keys and separators are in `m`. */
  ghost predicate Marked(t: Keyed, m: set<nat>) {
    match t
    case KLeaf(keys) => forall i :: 0 <= i < |keys| ==> keys[i] in m
    case KNode(seps, kids) =>
      && (forall i :: 0 <= i < |seps| ==> seps[i] in m) && forall i :: 0 <= i < |kids| ==> Marked(kids[i], m)
  }

  ghost predicate Sparse(m: set<nat>, gap: nat) {
    forall a, b :: a in m && b in m && a < b ==> a + gap <= b
  }

  lemma {:induction false} Wider(t: Keyed, lo: nat, hi: nat, lo': nat, hi': nat)
    requires Ordered(t, lo, hi) && lo' <= lo && hi <= hi'
    ensures Ordered(t, lo', hi')
    decreases t
  {
    if t.KNode? && |t.kids| > 0 {
      Wider(t.kids[0], t.seps[0], hi, t.seps[0], hi');
    }
  }

  lemma {:induction false} MoreMarks(t: Keyed, m: set<nat>, m': set<nat>)
    requires Marked(t, m) && m <= m'
    ensures Marked(t, m')
    decreases t
  {
    if t.KNode? {
      forall i | 0 <= i < |t.kids|
        ensures Marked(t.kids[i], m')
      {
        MoreMarks(t.kids[i], m, m');
      }
    }
  }

  lemma {:induction false} HasMarked(t: Keyed, m: set<nat>, key: nat)
    requires Marked(t, m) && Has(t, key)
    ensures key in m
    decreases t
  {
    if t.KNode? {
      var i :| 0 <= i < |t.kids| && Has(t.kids[i], key);
      HasMarked(t.kids[i], m, key);
    }
  }

  /** A key between separator `i` and the one before it belongs to child `i`. */
  lemma ChildIs(seps: seq<nat>, hi: nat, i: nat, key: nat)
    requires Down(seps) && i < |seps| && seps[i] <= key < Above(seps, hi, i)
    ensures Pos(seps, key) == i && Child(seps, key) == i && Lowered(seps, key) == seps
  {
    var j := Pos(seps, key);
    assert !(j < i);
  }
}
