/** lib/btree.c: whole runs of the public operations, and what the invariant they keep says of every node. */
module BTreeRun {
  import opened BTreeSlots
  import opened BTreeHealth
  import opened BTreeShape
  import opened BTreeInsert
  import opened BTreeRemove
  import opened BTreeMap
  import opened BTreeHome
  import opened BTreeAbsent
  import opened BTreeFloor
  import opened BTree

  /** An insertion comes with the number of allocations that succeed before one fails. */
  datatype Op = InsertOp(key: nat, val: nat, avail: nat) | UpdateOp(key: nat, val: nat) | RemoveOp(key: nat)

  ghost predicate OpOk(lim: nat, op: Op) {
    op.key < lim && (!op.RemoveOp? ==> op.val != 0)
  }

  /** One operation on a finite map; a failed insertion leaves it alone. */
  ghost function Apply(m: map<nat, nat>, op: Op, failed: bool): map<nat, nat> {
    match op
    case InsertOp(k, v, _) => if k in m || failed then m else m[k := v]
    case UpdateOp(k, v) => if k in m then m[k := v] else m
    case RemoveOp(k) => m - {k}
  }

  ghost function Replay(m: map<nat, nat>, ops: seq<Op>, failed: seq<bool>): map<nat, nat>
    requires |ops| == |failed|
  {
    if ops == [] then m
    else
      var k := |ops| - 1;
      Apply(Replay(m, ops[..k], failed[..k]), ops[k], failed[k])
  }

  lemma ReplayStep(m: map<nat, nat>, ops: seq<Op>, failed: seq<bool>, i: nat, f: bool)
    requires i < |ops| && |failed| == i
    ensures Replay(m, ops[..i + 1], failed + [f]) == Apply(Replay(m, ops[..i], failed), ops[i], f)
  {
    assert ops[..i + 1][..i] == ops[..i] && (failed + [f])[..i] == failed;
  }

  /** The operation returns -ENOMEM. */
  ghost predicate Fails(t: Tree, op: Op) {
    op.InsertOp? && op.key !in Contents(t) && Short(t, 1, op.key, op.avail)
  }

  /** One allocation for every level and one more are always enough. */
  lemma EnoughMemory(t: Tree, key: nat, avail: nat)
    requires avail > |t.levels|
    ensures !Short(t, 1, key, avail)
  {
    forall j: nat
      ensures Need(t, 1, j) <= |t.levels| + 1
    {
      NeedBound(t, 1, j);
    }
  }

  /** The trees in between stand for the maps in between, and tell which operations fail. */
  ghost predicate Trace(m: map<nat, nat>, ops: seq<Op>, failed: seq<bool>, trees: seq<Tree>) {
    && |failed| <= |ops| && |trees| == |failed| + 1
    && (forall i :: 0 <= i < |trees| ==> TreeOk(trees[i]) && Contents(trees[i]) == Replay(m, ops[..i], failed[..i]))
    && forall i :: 0 <= i < |failed| ==> (failed[i] <==> Fails(trees[i], ops[i]))
  }

  lemma TraceStart(ops: seq<Op>, t: Tree)
    requires TreeOk(t)
    ensures Trace(Contents(t), ops, [], [t])
  {
    hide TreeOk, Contents;
  }

  lemma TraceNext(m: map<nat, nat>, ops: seq<Op>, failed: seq<bool>, trees: seq<Tree>, f: bool, t: Tree)
    requires Trace(m, ops, failed, trees) && |failed| < |ops| && TreeOk(t)
    requires f <==> Fails(trees[|failed|], ops[|failed|])
    requires Contents(t) == Apply(Contents(trees[|failed|]), ops[|failed|], f)
    ensures Trace(m, ops, failed + [f], trees + [t])
  {
    hide TreeOk, Contents, Fails, Apply, Replay;
    var n, fs, ts := |failed|, failed + [f], trees + [t];
    ReplayStep(m, ops, failed, n, f);
    assert failed[..n] == failed && fs[..n + 1] == fs;
    forall i | 0 <= i < |ts|
      ensures TreeOk(ts[i]) && Contents(ts[i]) == Replay(m, ops[..i], fs[..i])
    {
      assert i <= n ==> fs[..i] == failed[..i] && ts[i] == trees[i];
    }
  }

  /** Any sequence of operations, each one called as its caller must: insertions of absent keys,
      updates and removals of present ones.  `failed[i]` is set when operation `i` returned -ENOMEM. */
  method Run(h: Head, ops: seq<Op>) returns (failed: seq<bool>, ghost trees: seq<Tree>)
    requires h.Valid() && forall i :: 0 <= i < |ops| ==> OpOk(h.lim, ops[i])
    modifies h
    ensures h.Valid() && |failed| == |ops|
    ensures h.Map() == Replay(old(h.Map()), ops, failed)
    ensures Trace(old(h.Map()), ops, failed, trees) && trees[0] == old(h.t) && trees[|ops|] == h.t
    ensures old(NoZero(h.t)) && (forall i :: 0 <= i < |ops| ==> ops[i].key > 0) ==> NoZero(h.t)
  {
    hide Upper, Slots, RootOk, Contents, TreeOk, NoZero, HoldsAll, Fails, Trace;
    failed, trees := [], [h.t];
    var i := 0;
    TraceStart(ops, h.t);
    while i < |ops|
      invariant 0 <= i <= |ops| && |failed| == i && |trees| == i + 1
      invariant h.Valid() && trees[0] == old(h.t) && trees[i] == h.t
      invariant Trace(old(h.Map()), ops, failed, trees)
      invariant old(NoZero(h.t)) && (forall k :: 0 <= k < |ops| ==> ops[k].key > 0) ==> NoZero(h.t)
    {
      assert OpOk(h.lim, ops[i]);
      var f := RunOne(h, ops[i]);
      TraceNext(old(h.Map()), ops, failed, trees, f, h.t);
      failed, trees := failed + [f], trees + [h.t];
      i := i + 1;
    }
    TraceEnd(old(h.Map()), ops, failed, trees);
  }

  lemma TraceEnd(m: map<nat, nat>, ops: seq<Op>, failed: seq<bool>, trees: seq<Tree>)
    requires Trace(m, ops, failed, trees) && |failed| == |ops|
    ensures Contents(trees[|ops|]) == Replay(m, ops, failed)
  {
    hide TreeOk, Contents, Fails, Replay;
    assert ops[..|ops|] == ops && failed[..|ops|] == failed;
  }

  method RunOne(h: Head, op: Op) returns (f: bool)
    requires h.Valid() && OpOk(h.lim, op)
    modifies h
    ensures h.Valid() && h.Map() == Apply(old(h.Map()), op, f) && (f <==> Fails(old(h.t), op))
    ensures old(NoZero(h.t)) && op.key > 0 ==> NoZero(h.t)
  {
    hide Upper, Slots, RootOk, Contents, TreeOk, NoZero, HoldsAll, Short;
    f := false;
    var v := h.Lookup(op.key);
    match op {
      case InsertOp(key, val, avail) =>
        if v == 0 {
          f := h.Insert(key, val, avail);
        }
      case UpdateOp(key, val) =>
        if v != 0 {
          var ok := h.Update(key, val);
        }
      case RemoveOp(key) =>
        if v != 0 {
          var old', stray := h.Remove(key, 0, 0);
        }
    }
  }

  /** After a run from the empty tree that never names key 0, btree_get_prev() returns nothing exactly when
      no smaller key is stored. */
  method RunThenPrev(pairs: nat, keys: nat, ops: seq<Op>, key: nat) returns (h: Head, val: nat, k: nat)
    requires GoodFanout(pairs) && 0 < key < keys
    requires forall i :: 0 <= i < |ops| ==> OpOk(keys, ops[i]) && ops[i].key > 0
    ensures fresh(h) && h.Valid()
    ensures val == 0 <==> forall x :: x in h.Map() ==> x >= key
    ensures val != 0 ==> k < key && k in h.Map() && h.Map()[k] == val && forall x :: x in h.Map() && x < key ==> x <= k
  {
    hide Upper, Slots, RootOk, Contents, TreeOk, NoZero, HoldsAll, ZeroRoot, SmallerStored;
    h := new Head(pairs, keys);
    var failed;
    ghost var trees;
    failed, trees := Run(h, ops);
    val, k := h.GetPrev(key);
    PrevSeen(h.t, key);
  }

  lemma PrevSeen(t: Tree, key: nat)
    requires TreeOk(t)
    ensures SmallerStored(t, key) <==> exists x :: x in Contents(t) && x < key
  {
    hide Upper, Contents, Stored;
    UpperOne(t);
    forall x: nat
      ensures x in Contents(t) <==> Stored(t, x)
    {
      StoredContents(t, x);
    }
  }

  lemma UpperOne(t: Tree)
    requires TreeOk(t)
    ensures Upper(t, 1)
  {
  }

  // --- an absent key 0 that btree_update() finds ---

  lemma {:induction false} ExpandAtLeast(bs: seq<seq<Pair>>, up: seq<Slot>)
    requires |bs| == |up| && forall j :: 0 <= j < |bs| ==> |bs[j]| >= 1
    ensures |Expand(bs, up)| >= |up|
  {
    if |bs| > 0 {
      ExpandAtLeast(bs[1..], up[1..]);
    }
  }

  /** A tree with inner nodes has two pairs or more on every level. */
  lemma {:induction false} TwoSlots(t: Tree, l: nat)
    requires TreeOk(t) && 1 <= l <= |t.levels| && |t.levels| >= 2
    ensures |Slots(t, l)| >= 2
    decreases |t.levels| - l
  {
    hide Expand, HealthyLevel, BlocksOk;
    UpperWeakenTo(t, 1, l);
    if l == |t.levels| {
      TopSlots(t, l);
    } else {
      TwoSlots(t, l + 1);
      assert LevelOk(t, l);
      ExpandAtLeast(Blocks(t, l), Slots(t, l + 1));
    }
  }

  lemma TwoKeys(t: Tree)
    requires TreeOk(t) && |t.levels| >= 1 && |Slots(t, 1)| >= 2
    ensures exists x, y :: x in Contents(t) && y in Contents(t) && x != y
  {
    hide Upper, Contents, Slots;
    UpperOne(t);
    UpperSlotsOk(t, 1);
    var s := Slots(t, 1);
    var x, y := s[0].lo, s[1].lo;
    assert s[1].hi <= s[0].lo && s[1].lo < s[1].hi;
    StoredContents(t, x);
    StoredContents(t, y);
    assert x in Contents(t) && y in Contents(t) && x != y;
  }

  lemma OneKeyHole(t: Tree, k: nat)
    requires TreeOk(t) && Contents(t).Keys == {k}
    ensures ZeroHole(t)
  {
    hide Upper, Contents, Expand;
    UpperOne(t);
    StoredContents(t, k);
    assert k in Contents(t);
    if |t.levels| >= 2 {
      TwoSlots(t, 1);
    }
    if |Slots(t, 1)| >= 2 {
      TwoKeys(t);
    }
    assert |t.levels| == 1;
    TopSlots(t, 1);
    TopLevel(t);
    assert Slots(t, 2)[0] == Slot(0, t.lim, t.root) && Blocks(t, 1)[0] == t.cells[t.root].es;
    assert Owns(Slots(t, 2)[0], 0);
  }

  /** With a single key stored, other than 0, btree_update() of key 0 stores a second pair. */
  method UpdateFindsZero(h: Head, k: nat, val: nat) returns (ok: bool)
    requires h.Valid() && h.Map().Keys == {k} && k != 0 && val != 0
    modifies h
    ensures h.Valid() && ok && h.Map() == old(h.Map())[0 := val]
  {
    hide Upper, Slots, RootOk, Contents, HoldsAll, ZeroHole;
    OneKeyHole(h.t, k);
    LimPositive(h.t);
    ok := h.Update(0, val);
  }

  lemma OneKeyMistaken(t: Tree, k: nat, beyond: nat)
    requires TreeOk(t) && Contents(t).Keys == {k} && k != 0
    ensures Mistaken(t, 0, beyond)
  {
    hide Upper, Contents, Slots;
    OneKeyHole(t, k);
    var j :| 0 <= j < |t.levels[0]| && j < |Slots(t, 2)| && Owns(Slots(t, 2)[j], 0) && |Blocks(t, 1)[j]| < t.n;
    UpperOne(t);
    UpperWeaken(t, 1);
    UpperSlotsOk(t, 2);
    ZeroLast(Slots(t, 2), j);
    assert Home(t, 1, 0, j);
    forall i | 0 <= i < |Blocks(t, 1)[j]|
      ensures 0 < Blocks(t, 1)[j][i].key
    {
      AbsentInLeaf(t, j, i, 0);
    }
    assert Confused(t.n, Blk(t, 1, j), 0, beyond);
  }

  lemma ZeroLast(s: seq<Slot>, j: nat)
    requires SlotsOk(s) && j < |s| && Owns(s[j], 0)
    ensures j + 1 == |s|
  {
    var k := if j + 1 < |s| then j + 1 else j;
    assert s[k].lo < s[k].hi;
  }

  lemma AbsentInLeaf(t: Tree, j: nat, i: nat, key: nat)
    requires TreeOk(t) && key !in Contents(t) && |t.levels| > 0 && j < |t.levels[0]| && i < |Blocks(t, 1)[j]|
    ensures Blocks(t, 1)[j][i].key != key
  {
    hide Expand, BlocksOk, HealthyAbove, Contents;
    assert LevelOk(t, 1);
    ExpandIndex(Blocks(t, 1), Slots(t, 2), j, i);
    StoredAt(t, Below(t, 1, j, i));
  }

  /** With a single key stored, other than 0, btree_remove() of key 0 returns NULL and takes that key away; a second
      call clears the pair in front of the empty leaf. */
  method RemoveTakesOther(h: Head, k: nat, beyond: nat, next: nat) returns (val: nat, stray: bool)
    requires h.Valid() && h.Map().Keys == {k} && k != 0
    modifies h
    ensures h.Valid() && !stray && h.Map() == map[]
  {
    hide Upper, Slots, RootOk, Contents, HoldsAll, Mistaken, TreeOk;
    OneKeyMistaken(h.t, k, beyond);
    LimPositive(h.t);
    ghost var m := h.Map();
    assert k in m;
    val, stray := h.Remove(0, beyond, next);
    assert m - {k} == map[];
  }

  lemma LimPositive(t: Tree)
    requires TreeOk(t)
    ensures 0 < t.lim
  {
  }

  // --- what the invariant says ---

  /** Pair `i` of an inner node points at a live, non-empty node one level down, whose keys lie between
      the pair's own key and the previous one. */
  lemma ChildKeys(t: Tree, l: nat, q: nat, i: nat)
    requires TreeOk(t) && 2 <= l <= |t.levels| && q < |Lv(t, l)| && i < |Blk(t, l, q)|
    ensures
      var b := Blk(t, l, q);
      var c := Es(t, b[i].val);
      && b[i].val in Lv(t, l - 1) && 1 <= |c| <= t.n && Desc(b) && Desc(c)
      && forall k :: 0 <= k < |c| ==> b[i].key <= c[k].key && (i > 0 ==> c[k].key < b[i - 1].key)
  {
    hide Expand, HealthyLevel;
    assert LevelOk(t, l) && LevelOk(t, l - 1);
    ExpandIndex(Blocks(t, l), Slots(t, l + 1), q, i);
    var j := Below(t, l, q, i);
    assert BlockOk(t.n, Blocks(t, l - 1)[j], Slots(t, l)[j].lo, Slots(t, l)[j].hi);
    assert BlockOk(t.n, Blocks(t, l)[q], Slots(t, l + 1)[q].lo, Slots(t, l + 1)[q].hi);
  }

  /** No node is lost: every live node but the root hangs off exactly one pair. */
  lemma OneParent(t: Tree, p: nat) returns (l: nat, q: nat, i: nat)
    requires TreeOk(t) && p in t.cells && p != t.root
    ensures 2 <= l <= |t.levels| && q < |Lv(t, l)| && i < |Blk(t, l, q)| && Blk(t, l, q)[i].val == p
    ensures forall q', i' :: 0 <= q' < |Lv(t, l)| && 0 <= i' < |Blk(t, l, q')| && Blk(t, l, q')[i'].val == p ==>
      q' == q && i' == i
  {
    hide Expand, HealthyLevel, BlocksOk;
    var c := t.cells[p].lvl;
    assert LevelOk(t, c);
    var j :| 0 <= j < |t.levels[c - 1]| && t.levels[c - 1][j] == p;
    if c == |t.levels| {
      TopLevel(t);
    }
    l := c + 1;
    assert LevelOk(t, l);
    q, i := ParentExists(t, c, j);
    ParentChild(t, c, j, q, i, i);
    forall q', i' | 0 <= q' < |Lv(t, l)| && 0 <= i' < |Blk(t, l, q')| && Blk(t, l, q')[i'].val == p
      ensures q' == q && i' == i
    {
      ParentUnique(t, c, j, q, i, q', i');
    }
  }

  /** In a node with several children some child has two entries or more, so emptying children never
      leaves a lone child with a lone entry. */
  lemma NotAllSingle(t: Tree, l: nat, q: nat) returns (i: nat)
    requires TreeOk(t) && 2 <= l <= |t.levels| && q < |Lv(t, l)| && |Blk(t, l, q)| >= 2
    ensures i < |Blk(t, l, q)| && |Es(t, Blk(t, l, q)[i].val)| >= 2
  {
    hide Expand, BlocksOk;
    assert HealthyAbove(t, l - 1);
    var b := Blk(t, l, q);
    var f := Flags(b, Singles(t, l - 1));
    assert FlagsOk(t.n, f);
    i := if t.n < 6 then if f[0] then 1 else 0 else FalseAt(f);
    assert !f[i];
    ChildKeys(t, l, q, i);
  }

  ghost function FalseAt(f: seq<bool>): (i: nat)
    requires exists i :: 0 <= i < |f| && !f[i]
    ensures i < |f| && !f[i]
  {
    var i :| 0 <= i < |f| && !f[i];
    i
  }

  /** With four or five pairs per node, two neighbouring children hold at least three entries. */
  lemma NeighboursHoldThree(t: Tree, l: nat, q: nat, i: nat)
    requires TreeOk(t) && t.n < 6 && 2 <= l <= |t.levels| && q < |Lv(t, l)| && i + 1 < |Blk(t, l, q)|
    ensures |Es(t, Blk(t, l, q)[i].val)| + |Es(t, Blk(t, l, q)[i + 1].val)| >= 3
  {
    hide Expand, BlocksOk;
    assert HealthyAbove(t, l - 1);
    var f := Flags(Blk(t, l, q), Singles(t, l - 1));
    assert FlagsOk(t.n, f);
    assert !f[i] || !f[i + 1];
    ChildKeys(t, l, q, i);
    ChildKeys(t, l, q, i + 1);
  }
}
