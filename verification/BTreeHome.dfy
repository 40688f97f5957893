/**
 lib/btree.c: the node that find_level() ends in, told from the tree before the descent, and how many nodes an
 insertion has to allocate.
 */
module BTreeHome {
  import opened BTreeSlots
  import opened BTreeHealth
  import opened BTreeShape
  import opened BTreeInsert

  /** The descent ends in node `j` of level `l`: the last one whose interval does not lie below the key. */
  ghost predicate Home(t: Tree, l: nat, key: nat, j: nat) {
    && 1 <= l <= |t.levels| && j < |t.levels[l - 1]| && j < |Slots(t, l + 1)|
    && key < Slots(t, l + 1)[j].hi && (j + 1 < |Slots(t, l + 1)| ==> Slots(t, l + 1)[j + 1].hi <= key)
  }

  lemma {:induction false} ExpandLength(bs: seq<seq<Pair>>, up: seq<Slot>, up': seq<Slot>)
    requires |bs| == |up| == |up'|
    ensures |Expand(bs, up)| == |Expand(bs, up')|
  {
    if |bs| > 0 {
      ExpandLength(bs[1..], up[1..], up'[1..]);
    }
  }

  lemma HiKept(bs: seq<seq<Pair>>, up: seq<Slot>, up': seq<Slot>, k: nat)
    requires k < |bs| == |up| == |up'| && Expand(bs, up) == Expand(bs, up') && bs[k] != []
    ensures up'[k].hi == up[k].hi
  {
    hide Expand;
    ExpandLength(bs[..k], up[..k], up'[..k]);
    ExpandIndex(bs, up, k, 0);
    ExpandIndex(bs, up', k, 0);
  }

  /** A descent to level `l` has lowered separators only. */
  ghost predicate Lowered(t0: Tree, t: Tree, l: nat) {
    && 1 <= l <= |t.levels| && Upper(t0, l) && Upper(t, l) && DescentKeeps(t0, t, l) && Slots(t, l) == Slots(t0, l)
  }

  lemma LoweredLevel(t0: Tree, t: Tree, l: nat)
    requires Lowered(t0, t, l)
    ensures Blocks(t, l) == Blocks(t0, l) && |Slots(t, l + 1)| == |Slots(t0, l + 1)| == |t.levels[l - 1]|
    ensures t.n == t0.n && t.levels == t0.levels && LevelOk(t0, l)
  {
    hide Expand, BlocksOk, HealthyAbove;
    assert LevelOk(t0, l) && LevelOk(t, l);
  }

  lemma LoweredHi(t0: Tree, t: Tree, l: nat, k: nat)
    requires Lowered(t0, t, l) && k < |Slots(t, l + 1)| && |Slots(t, l + 1)| == |Slots(t0, l + 1)|
    ensures Slots(t0, l + 1)[k].hi == Slots(t, l + 1)[k].hi
  {
    LoweredLevel(t0, t, l);
    if l < |t.levels| {
      hide Expand, BlocksOk, HealthyAbove;
      assert LevelOk(t0, l);
      HiKept(Blocks(t, l), Slots(t, l + 1), Slots(t0, l + 1), k);
    }
  }

  lemma HomeIs(t0: Tree, t: Tree, l: nat, j: nat, p: nat, key: nat)
    requires Lowered(t0, t, l) && At(t, l, j, p, key)
    ensures Home(t0, l, key, j) && Blk(t0, l, j) == t.cells[p].es && t0.n == t.n
  {
    hide Expand, BlocksOk, HealthyLevel, NoStrays, OnLevel, NoDup, RootOk, DescentKeeps;
    LoweredLevel(t0, t, l);
    LoweredHi(t0, t, l, j);
    UpperWeaken(t, l);
    UpperSlotsOk(t, l + 1);
    if j + 1 < |Slots(t, l + 1)| {
      LoweredHi(t0, t, l, j + 1);
      assert Slots(t, l + 1)[j + 1].hi <= Slots(t, l + 1)[j].lo;
    }
  }

  lemma HomeUnique(t: Tree, l: nat, key: nat, j: nat, j': nat)
    requires Upper(t, l) && Home(t, l, key, j) && Home(t, l, key, j')
    ensures j == j'
  {
    hide Expand, BlocksOk, HealthyLevel, NoStrays, OnLevel, NoDup, RootOk, Slots;
    UpperWeaken(t, l);
    UpperSlotsOk(t, l + 1);
    HiFalls(Slots(t, l + 1), if j < j' then j + 1 else j', j');
    HiFalls(Slots(t, l + 1), if j' < j then j' + 1 else j, j);
  }

  lemma HiFalls(s: seq<Slot>, a: nat, b: nat)
    requires SlotsOk(s) && a <= b < |s|
    ensures s[b].hi <= s[a].hi
  {
  }

  // --- allocations ---

  /** The node that position `g` of the level below hangs off. */
  ghost function Locate(bs: seq<seq<Pair>>, g: nat): nat {
    if bs == [] || g < |bs[0]| then 0 else 1 + Locate(bs[1..], g - |bs[0]|)
  }

  /** The nodes that an insertion into node `j` of level `l` asks for: one for every full node on the way up, and one for
      a new root if all of them are full. */
  ghost function Need(t: Tree, l: nat, j: nat): nat
    decreases |t.levels| + 1 - l
  {
    if l < 1 || l > |t.levels| then 1
    else if |Blk(t, l, j)| < t.n then 0
    else 1 + Need(t, l + 1, if l < |t.levels| then Locate(Blocks(t, l + 1), j) else 0)
  }

  /** An insertion on level `l` fails when only `avail` allocations succeed. */
  ghost predicate Short(t: Tree, l: nat, key: nat, avail: nat) {
    if l > |t.levels| then avail == 0 else exists j: nat :: Home(t, l, key, j) && avail < Need(t, l, j)
  }

  lemma {:induction false} LocateAt(bs: seq<seq<Pair>>, up: seq<Slot>, j: nat, i: nat)
    requires j < |bs| == |up| && i < |bs[j]|
    ensures Locate(bs, Offset(bs, up, j) + i) == j
  {
    if j > 0 {
      LocateAt(bs[1..], up[1..], j - 1, i);
      assert bs[..j][1..] == bs[1..][..j - 1] && up[..j][1..] == up[1..][..j - 1];
    }
  }

  lemma {:induction false} LocateSizes(bs: seq<seq<Pair>>, bs': seq<seq<Pair>>, g: nat)
    requires |bs| == |bs'| && forall k :: 0 <= k < |bs| ==> |bs[k]| == |bs'[k]|
    ensures Locate(bs, g) == Locate(bs', g)
  {
    if bs != [] && g >= |bs[0]| {
      LocateSizes(bs[1..], bs'[1..], g - |bs[0]|);
    }
  }

  /** The nodes of level `l` and above have as many pairs as before. */
  ghost predicate SameSizes(t: Tree, t': Tree, l: nat) {
    && t'.n == t.n && t'.levels == t.levels
    && forall k: nat, i: nat :: l <= k && i < |Lv(t, k)| ==> |Blk(t', k, i)| == |Blk(t, k, i)|
  }

  lemma {:induction false} NeedKept(t: Tree, t': Tree, l: nat, j: nat)
    requires l >= 1 && SameSizes(t, t', l)
    ensures Need(t', l, j) == Need(t, l, j)
    decreases |t.levels| + 1 - l
  {
    if l <= |t.levels| {
      assert |Blk(t', l, j)| == |Blk(t, l, j)|;
      if l < |t.levels| {
        var bs, bs' := Blocks(t, l + 1), Blocks(t', l + 1);
        assert forall k :: 0 <= k < |bs| ==> bs[k] == Blk(t, l + 1, k) && bs'[k] == Blk(t', l + 1, k);
        LocateSizes(bs, bs', j);
        NeedKept(t, t', l + 1, Locate(bs, j));
      }
    }
  }

  lemma LoweredSizes(t0: Tree, t: Tree, l: nat)
    requires Lowered(t0, t, l)
    ensures SameSizes(t0, t, l)
  {
    hide Expand, Slots, Upper;
  }

  /** Decided at the node that was found. */
  lemma ShortAt(t0: Tree, t: Tree, l: nat, j: nat, p: nat, key: nat, avail: nat)
    requires Lowered(t0, t, l) && At(t, l, j, p, key)
    ensures Short(t0, l, key, avail) <==> avail < Need(t, l, j)
    ensures Need(t, l, j) == 0 <==> |t.cells[p].es| < t.n
  {
    hide Home, Slots, Upper, LevelOk;
    HomeIs(t0, t, l, j, p, key);
    AtBlock(t, l, j, p, key);
    LoweredSizes(t0, t, l);
    NeedKept(t0, t, l, j);
    if Short(t0, l, key, avail) {
      var j': nat :| Home(t0, l, key, j') && avail < Need(t0, l, j');
      HomeUnique(t0, l, key, j, j');
    }
  }

  /** The parent of a node is where the descent for one of its keys ends. */
  lemma HomeAbove(t: Tree, l: nat, j: nat, p: nat, key: nat, i: nat)
    requires Upper(t, l) && l < |t.levels| && At(t, l, j, p, key) && i < |t.cells[p].es|
    ensures Home(t, l + 1, t.cells[p].es[i].key, Locate(Blocks(t, l + 1), j))
  {
    hide Expand, BlocksOk, HealthyLevel, NoStrays, OnLevel, NoDup, RootOk, Locate, HealthyAbove;
    var bs, up, k := Blocks(t, l + 1), Slots(t, l + 2), t.cells[p].es[i].key;
    AtBlock(t, l, j, p, key);
    assert LevelOk(t, l + 1);
    UpperWeaken(t, l);
    UpperWeaken(t, l + 1);
    UpperSlotsOk(t, l + 2);
    var q, m := ExpandLocate(bs, up, j);
    LocateAt(bs, up, q, m);
    HomeKid(t.n, bs, up, q, m, k);
  }

  lemma HomeKid(n: nat, bs: seq<seq<Pair>>, up: seq<Slot>, q: nat, m: nat, k: nat)
    requires BlocksOk(n, bs, up) && SlotsOk(up) && q < |bs| && m < |bs[q]| && Owns(Kid(bs[q], up[q].hi, m), k)
    ensures q < |up| && k < up[q].hi && (q + 1 < |up| ==> up[q + 1].hi <= k)
  {
    assert BlockOk(n, bs[q], up[q].lo, up[q].hi);
    assert q + 1 < |up| ==> up[q + 1].hi <= up[q].lo;
  }

  lemma WithNodeSizes(t: Tree, l: nat, s: nat)
    requires 1 <= l && s !in t.cells
    ensures SameSizes(t, WithNode(t, s, l), l + 1)
  {
  }

  lemma WithNodeHome(t: Tree, l: nat, s: nat, key: nat, j: nat)
    requires Upper(t, l) && l < |t.levels| && s !in t.cells && Home(t, l + 1, key, j)
    ensures Home(WithNode(t, s, l), l + 1, key, j) && Upper(WithNode(t, s, l), l + 1)
  {
    hide Expand, Upper, Slots;
    WithNodeAgree(t, s, l);
    UpperWeakenTo(t, l, l + 1);
    SlotsAgree(t, WithNode(t, s, l), l + 1, l + 2);
  }

  /** What a full node asks for: a node of its own and what the level above needs to take it in. */
  lemma ShortAbove(t: Tree, l: nat, j: nat, p: nat, s: nat, key: nat, avail: nat)
    requires Upper(t, l) && At(t, l, j, p, key) && |t.cells[p].es| == t.n >= 4 && s !in t.cells && avail >= 1
    ensures avail < Need(t, l, j) <==> Short(WithNode(t, s, l), l + 1, t.cells[p].es[t.n / 2 - 1].key, avail - 1)
  {
    hide Slots, LevelOk, Home;
    AtBlock(t, l, j, p, key);
    var t', k := WithNode(t, s, l), t.cells[p].es[t.n / 2 - 1].key;
    if l < |t.levels| {
      var q := Locate(Blocks(t, l + 1), j);
      HomeAbove(t, l, j, p, key, t.n / 2 - 1);
      WithNodeHome(t, l, s, k, q);
      WithNodeSizes(t, l, s);
      NeedKept(t, t', l + 1, q);
      hide Upper;
      if Short(t', l + 1, k, avail - 1) {
        var q': nat :| Home(t', l + 1, k, q') && avail - 1 < Need(t', l + 1, q');
        HomeUnique(t', l + 1, k, q, q');
      }
    } else {
      assert Need(t, l, j) == 2;
    }
  }

  lemma {:induction false} NeedBound(t: Tree, l: nat, j: nat)
    requires 1 <= l <= |t.levels| + 1
    ensures Need(t, l, j) <= |t.levels| + 2 - l
    decreases |t.levels| + 1 - l
  {
    if l <= |t.levels| {
      NeedBound(t, l + 1, if l < |t.levels| then Locate(Blocks(t, l + 1), j) else 0);
    }
  }

  lemma FullNeeds(t: Tree, l: nat, j: nat, p: nat, key: nat)
    requires At(t, l, j, p, key) && |t.cells[p].es| == t.n
    ensures Need(t, l, j) >= 1
  {
    hide Slots, LevelOk;
    AtBlock(t, l, j, p, key);
  }

  lemma ShortTop(t: Tree, l: nat, key: nat, avail: nat)
    requires l > |t.levels|
    ensures Short(t, l, key, avail) <==> avail == 0
  {
  }

  lemma FoundShort(t0: Tree, t: Tree, l: nat, j: nat, p: nat, key: nat, avail: nat, singles: set<nat>)
    requires Inserting(t0, t, l, key, singles) && Upper(t0, l) && DescentKeeps(t0, t, l) && Slots(t, l) == Slots(t0, l)
    requires At(t, l, j, p, key)
    ensures Short(t0, l, key, avail) <==> avail < Need(t, l, j)
    ensures Need(t, l, j) == 0 <==> |t.cells[p].es| < t.n
  {
    hide Short, Need, At, Slots, Upper, DescentKeeps;
    ShortAt(t0, t, l, j, p, key, avail);
  }
}
