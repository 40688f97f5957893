/** What an insertion on one level does to the tree: growing, splitting, adding a pair. */
module BTreeInsert {
  import opened Lists
  import opened BTreeSlots
  import opened BTreeHealth
  import opened BTreeShape

  /** The nodes and levels below `l` are the same in both trees. */
  ghost predicate SameBelow(t: Tree, t': Tree, l: nat) {
    && t'.n == t.n && t'.lim == t.lim
    && l <= |t.levels| + 1 && l <= |t'.levels| + 1
    && (forall i :: 0 <= i < |t.levels| && i + 1 < l ==> t'.levels[i] == t.levels[i])
    && (forall q :: q in t.cells && t.cells[q].lvl < l ==> q in t'.cells && t'.cells[q] == t.cells[q])
    && (forall q :: q in t'.cells && t'.cells[q].lvl < l ==> q in t.cells && t'.cells[q] == t.cells[q])
  }

  lemma SameBelowTrans(t: Tree, t': Tree, t'': Tree, l: nat)
    requires SameBelow(t, t', l) && SameBelow(t', t'', l)
    ensures SameBelow(t, t'', l)
  {
  }

  ghost predicate Absent(s: seq<Slot>, key: nat) {
    forall g :: 0 <= g < |s| ==> s[g].lo != key
  }

  ghost function LastKey(es: seq<Pair>): nat {
    if es == [] then 0 else es[|es| - 1].key
  }

  /** The intervals that an insertion on level `l` starts from; a level about to be
      added on top holds the old root under its smallest key. */
  ghost function Base(t: Tree, l: nat): seq<Slot>
    requires 1 <= l
  {
    if l <= |t.levels| then Slots(t, l) else [Slot(LastKey(Es(t, t.root)), t.lim, t.root)]
  }

  ghost predicate SplitOf(s: seq<Slot>, base: seq<Slot>, key: nat, val: nat) {
    forall g :: 0 <= g < |base| && Owns(base[g], key) ==> s == SplitSlot(base, g, key, val)
  }

  // --- growing ---

  ghost function GrownEs(t: Tree): seq<Pair> {
    if |t.levels| == 0 then [] else [Pair(LastKey(Es(t, t.root)), t.root)]
  }

  /** btree_grow(): a new top level whose only child is the old root. */
  ghost function Grown(t: Tree, p: nat): Tree {
    Tree(t.n, t.lim, t.cells[p := Cell(|t.levels| + 1, GrownEs(t))], t.levels + [[p]], p)
  }

  lemma GrowUpper(t: Tree, p: nat, l: nat)
    requires Upper(t, l) && l == |t.levels| + 1 && p !in t.cells && p != 0
    requires |t.levels| > 0 ==> t.root != 0 && LastKey(Es(t, t.root)) < t.lim
    ensures Upper(Grown(t, p), l)
    ensures |t.levels| > 0 ==> Slots(Grown(t, p), l) == Base(t, l)
    ensures |t.levels| == 0 ==> Slots(Grown(t, p), l) == []
    ensures SameBelow(t, Grown(t, p), l)
  {
    GrowLevel(t, p, l);
    GrowSlots(t, p, l);
    hide HealthyAbove, HealthyLevel, LevelOk, NoStrays, Slots;
  }

  lemma GrowSlots(t: Tree, p: nat, l: nat)
    requires l == |t.levels| + 1 && p !in t.cells && p != 0
    requires |t.levels| > 0 ==> t.root != 0
    ensures Slots(Grown(t, p), l) == if |t.levels| > 0 then Base(t, l) else []
  {
    var t' := Grown(t, p);
    var es := GrownEs(t);
    assert Slots(t', l + 1) == [Slot(0, t.lim, p)];
    assert Blocks(t', l) == [es];
    assert Slots(t', l) == Kids(es, t.lim) + Expand([], []) == Kids(es, t.lim) by {
      assert [es][1..] == [] && [Slot(0, t.lim, p)][1..] == [];
    }
  }

  lemma GrowLevel(t: Tree, p: nat, l: nat)
    requires Upper(t, l) && l == |t.levels| + 1 && p !in t.cells && p != 0
    requires |t.levels| > 0 ==> t.root != 0 && LastKey(Es(t, t.root)) < t.lim
    ensures LevelOk(Grown(t, p), l) && NoStrays(Grown(t, p), l)
  {
    hide HealthyAbove, HealthyLevel, Expand, Kids;
    var t' := Grown(t, p);
    var es := GrownEs(t);
    assert Slots(t', l + 1) == [Slot(0, t.lim, p)];
    assert Blocks(t', l) == [es];
    assert BlockOk(t.n, es, 0, t.lim);
  }

  // --- adding a pair ---

  lemma InsertUpper(t: Tree, l: nat, j: nat, p: nat, i: nat, key: nat, val: nat)
    requires Upper(t, l) && At(t, l, j, p, key) && IsPos(t.cells[p].es, key, i) && |t.cells[p].es| < t.n
    requires i < |t.cells[p].es| ==> t.cells[p].es[i].key != key
    requires val != 0 && (l < |t.levels| ==> |t.cells[p].es| >= 1)
    ensures Upper(SetEs(t, p, InsertAt(t.cells[p].es, i, Pair(key, val))), l)
  {
    hide Expand, HealthyLevel, Singles, BlocksOk, LevelOk;
    AtBlock(t, l, j, p, key);
    BlockInsert(t.n, t.cells[p].es, Slots(t, l + 1)[j].lo, Slots(t, l + 1)[j].hi, i, key, val);
    SetEsUpper(t, l, j, p, InsertAt(t.cells[p].es, i, Pair(key, val)));
  }

  lemma InsertSlots(t: Tree, l: nat, j: nat, p: nat, i: nat, key: nat, val: nat)
    requires Upper(t, l) && At(t, l, j, p, key) && IsPos(t.cells[p].es, key, i)
    ensures
      var t' := SetEs(t, p, InsertAt(t.cells[p].es, i, Pair(key, val)));
      var g := Below(t, l, j, i);
      && g <= |Slots(t, l)|
      && Pairs(Slots(t', l)) == InsertAt(Pairs(Slots(t, l)), g, Pair(key, val))
      && (Owned(Slots(t, l), key) ==> SplitOf(Slots(t', l), Slots(t, l), key, val))
  {
    hide Expand, HealthyLevel, Singles, BlocksOk, LevelOk, Kid, HealthyAbove, NoStrays;
    var es := t.cells[p].es;
    AtBlock(t, l, j, p, key);
    SetEsFrame(t, l, j, p, InsertAt(es, i, Pair(key, val)));
    PairsInsert(Blocks(t, l), Slots(t, l + 1), j, i, Pair(key, val));
    PosOwner(t, l, j, i, key);
    if i < |es| {
      ExpandInsert(Blocks(t, l), Slots(t, l + 1), j, i, key, val);
      UpperSlotsOk(t, l);
      OnlyOwner(Slots(t, l), Below(t, l, j, i), key, val);
    }
  }

  lemma OnlyOwner(s: seq<Slot>, g: nat, key: nat, val: nat)
    requires SlotsOk(s) && g < |s| && Owns(s[g], key)
    ensures SplitOf(SplitSlot(s, g, key, val), s, key, val)
  {
    forall k | 0 <= k < |s| && Owns(s[k], key)
      ensures k == g
    {
      OwnerUnique(s, g, k, key);
    }
  }

  lemma FlagsInsert(es: seq<Pair>, i: nat, p: Pair, singles: set<nat>)
    requires i <= |es| && p.val !in singles
    ensures Flags(InsertAt(es, i, p), singles) == InsertAt(Flags(es, singles), i, false)
  {
  }

  lemma InsertHealthy(t: Tree, l: nat, j: nat, p: nat, i: nat, key: nat, val: nat, singles: set<nat>)
    requires Upper(t, l) && At(t, l, j, p, key) && i <= |t.cells[p].es|
    requires HealthyLevel(t, l, singles) && val !in singles && (|t.cells[p].es| >= 1 || singles == {})
    ensures HealthyLevel(SetEs(t, p, InsertAt(t.cells[p].es, i, Pair(key, val))), l, singles)
  {
    var es := t.cells[p].es;
    FlagsInsert(es, i, Pair(key, val), singles);
    assert Blocks(t, l)[j] == es;
    if |es| >= 1 {
      HealthyInsert(t.n, Flags(es, singles), i);
    }
    FlagsSame(t, l, j, p, InsertAt(es, i, Pair(key, val)), singles);
  }

  // --- splitting ---

  /** The node `p`, number `j` of level `l`, gives its first half to the new node `s` on its left. */
  ghost function SplitNode(t: Tree, l: nat, j: nat, p: nat, s: nat, es: seq<Pair>, h: nat): Tree
    requires 1 <= l <= |t.levels| && j <= |t.levels[l - 1]| && h <= |es|
  {
    t.(cells := t.cells[s := Cell(l, es[..h])][p := Cell(l, es[h..])],
       levels := t.levels[l - 1 := InsertAt(t.levels[l - 1], j, s)])
  }

  ghost function WithNode(t: Tree, s: nat, l: nat): Tree {
    t.(cells := t.cells[s := Cell(l, [])])
  }

  /** The state between asking the level above for room and moving the pairs:
      `t` before, `t1` after the level above has taken in the new node `s`. */
  ghost predicate Splitting(t: Tree, t1: Tree, l: nat, j: nat, p: nat, s: nat, key: nat) {
    && Upper(t, l) && At(t, l, j, p, key) && |t.cells[p].es| == t.n && s !in t.cells && s != 0
    && Upper(t1, l + 1) && l < |t1.levels|
    && SameBelow(WithNode(t, s, l), t1, l + 1)
    && HealthyLevel(t1, l + 1, Singles(t, l))
    && SplitOf(Slots(t1, l + 1), Base(t, l + 1), t.cells[p].es[t.n / 2 - 1].key, s)
  }

  /** The base intervals fit the level just as well as its own. */
  lemma BaseFits(t: Tree, l: nat, j: nat, p: nat, key: nat)
    requires Upper(t, l) && At(t, l, j, p, key) && |t.cells[p].es| == t.n
    ensures
      var base := Base(t, l + 1);
      && j < |base| == |Slots(t, l + 1)| && BlocksOk(t.n, Blocks(t, l), base) && base[j].val == p
      && ValsAre(base, t.levels[l - 1]) && 4 <= t.n
      && Owns(base[j], t.cells[p].es[t.n / 2 - 1].key)
      && Expand(Blocks(t, l), base) == Slots(t, l)
      && base[j].lo < t.cells[p].es[t.n / 2 - 1].key
  {
    hide Expand, HealthyLevel, HealthyAbove, NoStrays;
    AtBlock(t, l, j, p, key);
    var es := t.cells[p].es;
    if l == |t.levels| {
      TopLevel(t);
      assert Slots(t, l + 1) == [Slot(0, t.lim, t.root)];
      assert BlockOk(t.n, es, LastKey(es), t.lim);
    }
    ExpandHiOnly(Blocks(t, l), Slots(t, l + 1), Base(t, l + 1));
    assert es[t.n - 1].key < es[t.n / 2 - 1].key;
  }

  lemma SplitValues(n: nat, bs: seq<seq<Pair>>, base: seq<Slot>, ps: seq<nat>, j: nat, h: nat, s: nat)
    requires BlocksOk(n, bs, base) && ValsAre(base, ps) && j < |bs| && 0 < h < |bs[j]|
    ensures
      var up := SplitSlot(base, j, bs[j][h - 1].key, s);
      && BlocksOk(n, SplitBlock(bs, j, h), up) && Expand(SplitBlock(bs, j, h), up) == Expand(bs, base)
      && ValsAre(up, InsertAt(ps, j, s))
  {
    hide Expand;
    BlocksSplit(n, bs, base, j, h, s);
    ExpandSplit(bs, base, j, h, s);
    var up, ps' := SplitSlot(base, j, bs[j][h - 1].key, s), InsertAt(ps, j, s);
    forall g | 0 <= g < |up|
      ensures up[g].val == ps'[g]
    {
      assert g < j ==> up[g] == base[g] && ps'[g] == ps[g];
      assert g > j + 1 ==> up[g] == base[g - 1] && ps'[g] == ps[g - 1];
    }
  }

  lemma SplitSlots(t: Tree, t1: Tree, l: nat, j: nat, p: nat, s: nat, key: nat)
    requires Splitting(t, t1, l, j, p, s, key)
    ensures 1 <= l < |t1.levels| && t1.levels[l - 1] == t.levels[l - 1] && j < |t1.levels[l - 1]| && 4 <= t.n
    ensures
      var bs, up := SplitBlock(Blocks(t, l), j, t.n / 2), Slots(t1, l + 1);
      BlocksOk(t.n, bs, up) && Expand(bs, up) == Slots(t, l) && ValsAre(up, InsertAt(t.levels[l - 1], j, s))
  {
    hide Expand, HealthyLevel, Singles, LevelOk, Upper, BlocksOk, ValsAre;
    BaseFits(t, l, j, p, key);
    AtBlock(t, l, j, p, key);
    assert Slots(t1, l + 1) == SplitSlot(Base(t, l + 1), j, t.cells[p].es[t.n / 2 - 1].key, s);
    SplitValues(t.n, Blocks(t, l), Base(t, l + 1), t.levels[l - 1], j, t.n / 2, s);
  }

  lemma InsertAtIn(ps: seq<nat>, j: nat, s: nat, q: nat)
    requires j <= |ps|
    ensures q in InsertAt(ps, j, s) <==> q in ps || q == s
  {
    var ps' := InsertAt(ps, j, s);
    assert ps'[j] == s;
    if q in ps {
      var k :| 0 <= k < |ps| && ps[k] == q;
      assert ps'[if k < j then k else k + 1] == q;
    }
  }

  lemma SplitStrays(t: Tree, t1: Tree, l: nat, j: nat, p: nat, s: nat)
    requires 1 <= l < |t1.levels| && l <= |t.levels| && t1.levels[l - 1] == t.levels[l - 1]
    requires j < |t.levels[l - 1]| && p == t.levels[l - 1][j] && t.n / 2 <= |Es(t, p)|
    requires NoStrays(t, l) && NoStrays(t1, l + 1) && SameBelow(WithNode(t, s, l), t1, l + 1)
    ensures NoStrays(SplitNode(t1, l, j, p, s, Es(t, p), t.n / 2), l)
  {
    var t2 := SplitNode(t1, l, j, p, s, Es(t, p), t.n / 2);
    forall q | q in t2.cells && t2.cells[q].lvl >= l
      ensures 1 <= t2.cells[q].lvl <= |t2.levels| && q in t2.levels[t2.cells[q].lvl - 1]
    {
      InsertAtIn(t.levels[l - 1], j, s, q);
    }
  }

  lemma SplitFrame(t: Tree, t1: Tree, l: nat, j: nat, p: nat, s: nat, key: nat)
    requires Splitting(t, t1, l, j, p, s, key)
    ensures 1 <= l < |t1.levels| && t1.levels[l - 1] == t.levels[l - 1] && j < |t1.levels[l - 1]|
    ensures
      var t2 := SplitNode(t1, l, j, p, s, t.cells[p].es, t.n / 2);
      AgreeFrom(t1, t2, l + 1) && NoStrays(t2, l) && SameBelow(t, t2, l)
  {
    hide Expand, HealthyLevel, Singles, LevelOk, Slots, Base, NoStrays, SplitOf, Owns, HealthyAbove;
    SplitStrays(t, t1, l, j, p, s);
  }

  lemma NoDupInsert(ps: seq<nat>, j: nat, s: nat)
    requires NoDup(ps) && s !in ps && j <= |ps|
    ensures NoDup(InsertAt(ps, j, s))
  {
    var ps' := InsertAt(ps, j, s);
    assert forall k :: 0 <= k < |ps'| ==> ps'[k] == if k < j then ps[k] else if k == j then s else ps[k - 1];
  }

  /** Inserting `s` with the first half and leaving `p` the second half splits one block. */
  lemma SplitBlocksIs(t: Tree, t2: Tree, l: nat, j: nat, p: nat, s: nat, h: nat)
    requires 1 <= l <= |t.levels| && l <= |t2.levels| && LevelOk(t, l) && j < |t.levels[l - 1]|
    requires p == t.levels[l - 1][j] && s !in t.cells && h <= |t.cells[p].es|
    requires t2.levels[l - 1] == InsertAt(t.levels[l - 1], j, s)
    requires s in t2.cells && t2.cells[s] == Cell(l, t.cells[p].es[..h])
    requires p in t2.cells && t2.cells[p] == Cell(l, t.cells[p].es[h..])
    requires forall q :: q in t.cells && t.cells[q].lvl == l && q != p ==> q in t2.cells && t2.cells[q] == t.cells[q]
    ensures OnLevel(t2, t2.levels[l - 1], l) && NoDup(t2.levels[l - 1])
    ensures Blocks(t2, l) == SplitBlock(Blocks(t, l), j, h)
  {
    hide Expand, HealthyLevel, Singles, Slots, Upper, BlocksOk, BlockOk;
    var ps, ps' := t.levels[l - 1], t2.levels[l - 1];
    assert s !in ps;
    NoDupInsert(ps, j, s);
    forall k | 0 <= k < |ps'|
      ensures ps'[k] in t2.cells && t2.cells[ps'[k]].lvl == l
      ensures Blocks(t2, l)[k] == SplitBlock(Blocks(t, l), j, h)[k]
    {
      if k < j {
        assert ps'[k] == ps[k] && ps[k] != p;
      } else if k > j + 1 {
        assert ps'[k] == ps[k - 1] && ps[k - 1] != p;
      }
    }
  }

  lemma SplitSizes(n: nat, bs: seq<seq<Pair>>, j: nat)
    requires j < |bs| && |bs[j]| == n >= 4 && forall k :: 0 <= k < |bs| ==> |bs[k]| >= 1
    ensures forall k :: 0 <= k < |SplitBlock(bs, j, n / 2)| ==> |SplitBlock(bs, j, n / 2)[k]| >= 1
  {
    var bs' := SplitBlock(bs, j, n / 2);
    forall k | 0 <= k < |bs'|
      ensures |bs'[k]| >= 1
    {
      assert k < j ==> bs'[k] == bs[k];
      assert k > j + 1 ==> bs'[k] == bs[k - 1];
    }
  }

  lemma SplitSingles(t: Tree, t2: Tree, l: nat, j: nat, p: nat, s: nat, h: nat)
    requires 1 <= l <= |t.levels| && l <= |t2.levels| && LevelOk(t, l) && j < |t.levels[l - 1]|
    requires p == t.levels[l - 1][j] && s !in t.cells && 2 <= h && h + 2 <= |t.cells[p].es|
    requires t2.levels[l - 1] == InsertAt(t.levels[l - 1], j, s)
    requires s in t2.cells && t2.cells[s] == Cell(l, t.cells[p].es[..h])
    requires p in t2.cells && t2.cells[p] == Cell(l, t.cells[p].es[h..])
    requires forall q :: q in t.cells && t.cells[q].lvl == l && q != p ==> q in t2.cells && t2.cells[q] == t.cells[q]
    ensures Singles(t2, l) <= Singles(t, l)
  {
    var ps, ps' := t.levels[l - 1], t2.levels[l - 1];
    forall q | q in Singles(t2, l)
      ensures q in Singles(t, l)
    {
      assert q in ps || q == s;
    }
  }

  lemma SplitHealthyAbove(t: Tree, t1: Tree, l: nat, j: nat, p: nat, s: nat, key: nat)
    requires Splitting(t, t1, l, j, p, s, key) && t1.levels[l - 1] == t.levels[l - 1] && 4 <= t.n
    requires AgreeFrom(t1, SplitNode(t1, l, j, p, s, t.cells[p].es, t.n / 2), l + 1)
    ensures HealthyAbove(SplitNode(t1, l, j, p, s, t.cells[p].es, t.n / 2), l)
  {
    hide Expand, BlocksOk, Base, SplitOf, FlagsOk, Slots, HealthyLevel, Singles, AgreeFrom, NoStrays, Owns, Owned;
    var t2 := SplitNode(t1, l, j, p, s, t.cells[p].es, t.n / 2);
    assert LevelOk(t1, l + 1);
    BlocksAgree(t1, t2, l + 1, l + 1);
    BlocksHealthy(t1, t2, l + 1, Singles(t, l));
    SplitSingles(t, t2, l, j, p, s, t.n / 2);
    HealthyLevelMono(t2, l + 1, Singles(t, l), Singles(t2, l));
  }

  /** Splitting a full node keeps the invariant and moves no pair of its level. */
  lemma SplitUpper(t: Tree, t1: Tree, l: nat, j: nat, p: nat, s: nat, key: nat)
    requires Splitting(t, t1, l, j, p, s, key)
    ensures 1 <= l < |t1.levels| && j < |t1.levels[l - 1]|
    ensures
      var t2 := SplitNode(t1, l, j, p, s, t.cells[p].es, t.n / 2);
      Upper(t2, l) && Slots(t2, l) == Slots(t, l) && LevelOk(t2, l)
  {
    hide Expand, HealthyLevel, BlocksOk, AgreeFrom, NoStrays, Base, SplitOf, ValsAre, Singles, Owns, NoDup, OnLevel;
    SplitFrame(t, t1, l, j, p, s, key);
    var t2 := SplitNode(t1, l, j, p, s, t.cells[p].es, t.n / 2);
    SplitSlots(t, t1, l, j, p, s, key);
    UpperAgree(t1, t2, l + 1);
    SplitBlocksIs(t, t2, l, j, p, s, t.n / 2);
    AtBlock(t, l, j, p, key);
    if l == |t.levels| {
      TopLevel(t);
    }
    SplitSizes(t.n, Blocks(t, l), j);
    SplitHealthyAbove(t, t1, l, j, p, s, key);
    UpperExtend(t2, l);
  }

  lemma FlagsSlice(es: seq<Pair>, h: nat, singles: set<nat>)
    requires h <= |es|
    ensures Flags(es[..h], singles) == Flags(es, singles)[..h]
    ensures Flags(es[h..], singles) == Flags(es, singles)[h..]
  {
  }

  lemma SplitHealthyBlocks(n: nat, bs: seq<seq<Pair>>, j: nat, singles: set<nat>)
    requires GoodFanout(n) && j < |bs| && |bs[j]| == n
    requires forall k :: 0 <= k < |bs| ==> FlagsOk(n, Flags(bs[k], singles))
    ensures forall k :: 0 <= k < |SplitBlock(bs, j, n / 2)| ==> FlagsOk(n, Flags(SplitBlock(bs, j, n / 2)[k], singles))
  {
    var bs' := SplitBlock(bs, j, n / 2);
    FlagsSlice(bs[j], n / 2, singles);
    HealthySplit(n, Flags(bs[j], singles));
    forall k | 0 <= k < |bs'|
      ensures FlagsOk(n, Flags(bs'[k], singles))
    {
      assert k < j ==> bs'[k] == bs[k];
      assert k > j + 1 ==> bs'[k] == bs[k - 1];
    }
  }

  lemma SplitHealthy(t: Tree, t1: Tree, l: nat, j: nat, p: nat, s: nat, key: nat, singles: set<nat>)
    requires Splitting(t, t1, l, j, p, s, key) && HealthyLevel(t, l, singles)
    requires 1 <= l < |t1.levels| && t1.levels[l - 1] == t.levels[l - 1]
    ensures HealthyLevel(SplitNode(t1, l, j, p, s, t.cells[p].es, t.n / 2), l, singles)
  {
    hide Expand, BlocksOk, Base, SplitOf, Slots, Singles, Flags, FlagsOk;
    var t2 := SplitNode(t1, l, j, p, s, t.cells[p].es, t.n / 2);
    AtBlock(t, l, j, p, key);
    SplitBlocksIs(t, t2, l, j, p, s, t.n / 2);
    SplitHealthyBlocks(t.n, Blocks(t, l), j, singles);
  }

  /** No node that a descent for `key` can end at on level `l` is full. */
  ghost predicate Roomy(t: Tree, l: nat, key: nat)
    requires 1 <= l <= |t.levels|
  {
    || (forall j :: 0 <= j < |t.levels[l - 1]| ==> |Blocks(t, l)[j]| < t.n)
    || (&& Owned(Slots(t, l + 1), key)
        && forall j :: 0 <= j < |t.levels[l - 1]| && j < |Slots(t, l + 1)| && Owns(Slots(t, l + 1)[j], key) ==>
             |Blocks(t, l)[j]| < t.n)
  }

  ghost predicate OwnersAmong(s: seq<Slot>, key: nat, j: nat) {
    forall g :: 0 <= g < |s| && Owns(s[g], key) ==> g == j || g == j + 1
  }

  lemma SplitOwners(base: seq<Slot>, up: seq<Slot>, j: nat, k: nat, s: nat, key: nat)
    requires SlotsOk(base) && j < |base| && Owns(base[j], key) && Owns(base[j], k) && base[j].lo < k
    requires up == SplitSlot(base, j, k, s)
    ensures Owned(up, key) && OwnersAmong(up, key, j)
  {
    assert Owns(up[if k <= key then j else j + 1], key);
    forall g | 0 <= g < |up| && g != j && g != j + 1
      ensures !Owns(up[g], key)
    {
      if g < j {
        assert up[g] == base[g];
      } else {
        assert up[g] == base[g - 1];
      }
    }
  }

  lemma SplitRoomy(t: Tree, t1: Tree, l: nat, j: nat, p: nat, s: nat, key: nat)
    requires Splitting(t, t1, l, j, p, s, key)
    requires 1 <= l < |t1.levels| && t1.levels[l - 1] == t.levels[l - 1]
    ensures Roomy(SplitNode(t1, l, j, p, s, t.cells[p].es, t.n / 2), l, key)
  {
    hide Expand, BlocksOk, HealthyLevel, Singles, AgreeFrom, NoStrays, SlotsOk, BlockOk;
    var t2 := SplitNode(t1, l, j, p, s, t.cells[p].es, t.n / 2);
    SplitBlocksIs(t, t2, l, j, p, s, t.n / 2);
    assert |Blocks(t2, l)[j]| < t.n && |Blocks(t2, l)[j + 1]| < t.n;
    if l == |t.levels| {
      TopLevel(t);
    } else {
      SplitRoomyMid(t, t1, l, j, p, s, key);
    }
  }

  lemma SplitRoomyMid(t: Tree, t1: Tree, l: nat, j: nat, p: nat, s: nat, key: nat)
    requires Splitting(t, t1, l, j, p, s, key) && l < |t.levels|
    requires 1 <= l < |t1.levels| && t1.levels[l - 1] == t.levels[l - 1]
    ensures
      var t2 := SplitNode(t1, l, j, p, s, t.cells[p].es, t.n / 2);
      Owned(Slots(t2, l + 1), key) && OwnersAmong(Slots(t2, l + 1), key, j)
  {
    hide Expand, BlocksOk, HealthyLevel, Singles, AgreeFrom, NoStrays, SlotsOk, BlockOk, SameBelow, LevelOk, Slots, HealthyAbove, Owned, OwnersAmong;
    var t2 := SplitNode(t1, l, j, p, s, t.cells[p].es, t.n / 2);
    SplitFrame(t, t1, l, j, p, s, key);
    UpperAgree(t1, t2, l + 1);
    BaseFits(t, l, j, p, key);
    UpperWeaken(t, l);
    UpperSlotsOk(t, l + 1);
    SplitOwners(Slots(t, l + 1), Slots(t2, l + 1), j, t.cells[p].es[t.n / 2 - 1].key, s, key);
  }

  lemma RoomyFound(t: Tree, t': Tree, l: nat, j: nat, p: nat, key: nat)
    requires 1 <= l <= |t.levels| && Roomy(t, l, key) && DescentKeeps(t, t', l) && At(t', l, j, p, key)
    requires Owned(Slots(t, l + 1), key) ==> t' == t
    ensures |t'.cells[p].es| < t.n
  {
    AtBlock(t', l, j, p, key);
    assert Blocks(t, l)[j] == t'.cells[p].es;
  }

  // --- the procedure as a whole ---

  ghost predicate InsertReady(t: Tree, l: nat, key: nat, val: nat, singles: set<nat>) {
    && 1 <= l <= |t.levels| + 1 && Upper(t, l) && val != 0 && val !in singles && key < t.lim
    && (l <= |t.levels| ==> RootOk(t) && HealthyLevel(t, l, singles) && Absent(Slots(t, l), key))
    && (1 < l <= |t.levels| ==> Owned(Slots(t, l), key))
    && (1 < l == |t.levels| + 1 ==> t.root != 0 && Es(t, t.root) != [] && LastKey(Es(t, t.root)) < key)
    && (l == 1 ==> singles == {})
  }

  /** The pairs stored in the tree, largest key first. */
  ghost function Entries(t: Tree): seq<Pair> {
    if |t.levels| == 0 then [] else Pairs(Slots(t, 1))
  }

  ghost predicate InsertedPair(es: seq<Pair>, es': seq<Pair>, p: Pair) {
    exists g :: 0 <= g <= |es| && es' == InsertAt(es, g, p)
  }

  ghost predicate InsertDone(t: Tree, t': Tree, l: nat, key: nat, val: nat, singles: set<nat>) {
    && 1 <= l <= |t'.levels| && Upper(t', l) && RootOk(t') && HealthyLevel(t', l, singles) && SameBelow(t, t', l)
    && (l > 1 ==> SplitOf(Slots(t', l), Base(t, l), key, val))
    && (l == 1 ==> InsertedPair(Entries(t), Entries(t'), Pair(key, val)))
  }

  /** What holds each time the procedure looks for the node to insert into. */
  ghost predicate Inserting(t: Tree, t': Tree, l: nat, key: nat, singles: set<nat>) {
    && 1 <= l <= |t'.levels| && Upper(t', l) && HealthyLevel(t', l, singles) && SameBelow(t, t', l)
    && (l < |t'.levels| ==> RootOk(t')) && (l > 1 ==> |Es(t', t'.root)| >= 1)
    && Absent(Slots(t', l), key)
    && (l > 1 ==> Slots(t', l) == Base(t, l) && Owned(Slots(t', l), key))
    && (l == 1 ==> Pairs(Slots(t', l)) == Entries(t) && singles == {})
  }

  lemma InsertStart(t: Tree, l: nat, key: nat, val: nat, singles: set<nat>)
    requires InsertReady(t, l, key, val, singles) && l <= |t.levels|
    ensures Inserting(t, t, l, key, singles)
  {
    hide Expand, HealthyLevel, LevelOk;
  }

  lemma GrowHealthy(t: Tree, p: nat, l: nat, singles: set<nat>)
    requires 1 <= l == |t.levels| + 1
    ensures HealthyLevel(Grown(t, p), l, singles)
    ensures |Blocks(Grown(t, p), l)| == 1 && |Blocks(Grown(t, p), l)[0]| <= 1
  {
    assert Blocks(Grown(t, p), l) == [GrownEs(t)];
  }

  lemma InsertStartGrown(t: Tree, p: nat, l: nat, key: nat, val: nat, singles: set<nat>)
    requires InsertReady(t, l, key, val, singles) && l == |t.levels| + 1 && p !in t.cells && p != 0
    ensures Inserting(t, Grown(t, p), l, key, singles) && Roomy(Grown(t, p), l, key)
  {
    hide Expand, HealthyLevel, LevelOk;
    GrowUpper(t, p, l);
    GrowHealthy(t, p, l, singles);
    if l > 1 {
      assert Base(t, l)[0] == Slot(LastKey(Es(t, t.root)), t.lim, t.root);
      assert Owns(Base(t, l)[0], key);
    }
  }

  lemma InsertFinish(t0: Tree, t: Tree, l: nat, j: nat, p: nat, i: nat, key: nat, val: nat, singles: set<nat>)
    requires Inserting(t0, t, l, key, singles) && At(t, l, j, p, key) && IsPos(t.cells[p].es, key, i)
    requires |t.cells[p].es| < t.n && val != 0 && val !in singles
    ensures InsertDone(t0, SetEs(t, p, InsertAt(t.cells[p].es, i, Pair(key, val))), l, key, val, singles)
  {
    hide Expand, HealthyLevel, BlocksOk, SplitOf, Absent;
    var t' := SetEs(t, p, InsertAt(t.cells[p].es, i, Pair(key, val)));
    InsertDistinct(t, l, j, p, i, key);
    NodeNonempty(t, l, j, p, key);
    InsertUpper(t, l, j, p, i, key, val);
    InsertSlots(t, l, j, p, i, key, val);
    InsertHealthy(t, l, j, p, i, key, val, singles);
    InsertRoot(t, l, j, p, i, Pair(key, val));
    SetEsBelow(t0, t, l, p, InsertAt(t.cells[p].es, i, Pair(key, val)));
  }

  /** BUG_ON: two identical keys are not allowed. */
  lemma InsertDistinct(t: Tree, l: nat, j: nat, p: nat, i: nat, key: nat)
    requires Upper(t, l) && At(t, l, j, p, key) && IsPos(t.cells[p].es, key, i) && Absent(Slots(t, l), key)
    ensures i < |t.cells[p].es| ==> t.cells[p].es[i].key != key
  {
    hide Expand, HealthyLevel, BlocksOk, LevelOk;
    AtBlock(t, l, j, p, key);
    PosOwner(t, l, j, i, key);
  }

  lemma NodeNonempty(t: Tree, l: nat, j: nat, p: nat, key: nat)
    requires Upper(t, l) && At(t, l, j, p, key) && (l > 1 ==> |Es(t, t.root)| >= 1)
    ensures l < |t.levels| || l > 1 ==> |t.cells[p].es| >= 1
  {
    AtBlock(t, l, j, p, key);
    if l == |t.levels| {
      TopLevel(t);
    }
  }

  lemma InsertRoot(t: Tree, l: nat, j: nat, p: nat, i: nat, e: Pair)
    requires 1 <= l <= |t.levels| && LevelOk(t, l) && j < |t.levels[l - 1]| && p == t.levels[l - 1][j]
    requires (l < |t.levels| ==> RootOk(t)) && (l > 1 ==> |Es(t, t.root)| >= 1)
    requires p in t.cells && i <= |t.cells[p].es|
    ensures RootOk(SetEs(t, p, InsertAt(t.cells[p].es, i, e)))
  {
    if l == |t.levels| {
      TopLevel(t);
    }
  }

  lemma SetEsBelow(t0: Tree, t: Tree, l: nat, p: nat, es: seq<Pair>)
    requires SameBelow(t0, t, l) && p in t.cells && t.cells[p].lvl >= l
    ensures SameBelow(t0, SetEs(t, p, es), l)
  {
  }

  lemma InsertSplit(t0: Tree, t: Tree, t1: Tree, l: nat, j: nat, p: nat, s: nat, key: nat, singles: set<nat>)
    requires Inserting(t0, t, l, key, singles) && Splitting(t, t1, l, j, p, s, key) && RootOk(t1)
    requires l < |t1.levels|
    ensures t1.levels[l - 1] == t.levels[l - 1] && j < |t1.levels[l - 1]|
    ensures
      var t2 := SplitNode(t1, l, j, p, s, t.cells[p].es, t.n / 2);
      Inserting(t0, t2, l, key, singles) && Roomy(t2, l, key)
  {
    hide Expand, HealthyLevel, BlocksOk, SplitOf, Absent, Roomy, Base;
    SplitFrame(t, t1, l, j, p, s, key);
    var t2 := SplitNode(t1, l, j, p, s, t.cells[p].es, t.n / 2);
    SplitUpper(t, t1, l, j, p, s, key);
    SplitHealthy(t, t1, l, j, p, s, key, singles);
    SplitRoomy(t, t1, l, j, p, s, key);
    SameBelowTrans(t0, t, t2, l);
    SplitRoot(t, t1, l, j, p, s);
  }

  lemma SplitRoot(t: Tree, t1: Tree, l: nat, j: nat, p: nat, s: nat)
    requires 1 <= l < |t1.levels| && Upper(t1, l + 1) && RootOk(t1) && j <= |t1.levels[l - 1]|
    requires p in t.cells && (p in t1.cells ==> t1.cells[p].lvl == l) && (s in t1.cells ==> t1.cells[s].lvl == l)
    requires t.n / 2 <= |t.cells[p].es|
    ensures RootOk(SplitNode(t1, l, j, p, s, t.cells[p].es, t.n / 2))
  {
    assert LevelOk(t1, |t1.levels|);
    TopLevel(t1);
  }

  lemma WithNodeAgree(t: Tree, s: nat, l: nat)
    requires s !in t.cells && Upper(t, l) && l <= |t.levels|
    ensures AgreeFrom(t, WithNode(t, s, l), l + 1)
    ensures Upper(WithNode(t, s, l), l + 1) && Slots(WithNode(t, s, l), l + 1) == Slots(t, l + 1)
    ensures t.root in t.cells && Es(WithNode(t, s, l), t.root) == Es(t, t.root)
    ensures Base(WithNode(t, s, l), l + 1) == Base(t, l + 1)
  {
    hide Expand, Flags, FlagsOk, HealthyLevel, Singles, BlockOk;
    var t' := WithNode(t, s, l);
    UpperWeaken(t, l);
    assert AgreeFrom(t, t', l + 1);
    UpperAgree(t, t', l + 1);
    assert LevelOk(t, |t.levels|);
    TopLevel(t);
  }

  lemma SeparatorAbsent(s: seq<Slot>, j: nat, key: nat)
    requires SlotsOk(s) && j < |s| && Owns(s[j], key) && s[j].lo < key
    ensures Absent(s, key)
  {
    forall g | 0 <= g < |s|
      ensures s[g].lo != key
    {
      assert g < j ==> s[j].hi <= s[g].lo;
      assert g > j ==> s[g].hi <= s[j].lo;
    }
  }

  lemma RecurseReadyMid(t: Tree, l: nat, j: nat, p: nat, s: nat, key: nat)
    requires Upper(t, l) && At(t, l, j, p, key) && |t.cells[p].es| == t.n >= 4 && l < |t.levels| && s !in t.cells
    ensures
      var k, t' := t.cells[p].es[t.n / 2 - 1].key, WithNode(t, s, l);
      && HealthyLevel(t', l + 1, Singles(t, l)) && Absent(Slots(t', l + 1), k) && Owned(Slots(t', l + 1), k)
  {
    hide Expand, FlagsOk, BlocksOk, BlockOk, HealthyLevel, AgreeFrom, Singles, LevelOk, NoStrays, Slots, Absent, SlotsOk;
    var t' := WithNode(t, s, l);
    WithNodeAgree(t, s, l);
    UpperWeaken(t, l);
    UpperSlotsOk(t, l + 1);
    BaseFits(t, l, j, p, key);
    assert HealthyAbove(t, l) && LevelOk(t, l + 1);
    BlocksAgree(t, t', l + 1, l + 1);
    BlocksHealthy(t, t', l + 1, Singles(t, l));
    SeparatorAbsent(Slots(t, l + 1), j, t.cells[p].es[t.n / 2 - 1].key);
  }

  lemma SeparatorLim(t: Tree, l: nat, j: nat, p: nat, i: nat, key: nat)
    requires Upper(t, l) && At(t, l, j, p, key) && i < |t.cells[p].es|
    ensures t.cells[p].es[i].key < t.lim
  {
    hide Expand, FlagsOk, BlocksOk, HealthyLevel;
    AtBlock(t, l, j, p, key);
    UpperWeaken(t, l);
    UpperSlotsLim(t, l + 1);
  }

  lemma RecurseReadyTop(t: Tree, j: nat, p: nat, s: nat, key: nat)
    requires |t.levels| >= 1 && Upper(t, |t.levels|) && At(t, |t.levels|, j, p, key)
    requires |t.cells[p].es| == t.n >= 4 && s !in t.cells
    ensures p == t.root && LastKey(Es(WithNode(t, s, |t.levels|), t.root)) < t.cells[p].es[t.n / 2 - 1].key
  {
    AtBlock(t, |t.levels|, j, p, key);
    TopLevel(t);
  }

  /** The level above may be asked to take in the new node `s`. */
  lemma RecurseReady(t0: Tree, t: Tree, l: nat, j: nat, p: nat, s: nat, key: nat, singles: set<nat>)
    requires Inserting(t0, t, l, key, singles) && At(t, l, j, p, key) && |t.cells[p].es| == t.n >= 4
    requires s !in t.cells && s != 0 && 0 !in t.cells
    ensures InsertReady(WithNode(t, s, l), l + 1, t.cells[p].es[t.n / 2 - 1].key, s, Singles(t, l))
  {
    hide Expand, FlagsOk, BlocksOk, BlockOk, HealthyLevel, AgreeFrom, Base, Absent, Slots;
    WithNodeAgree(t, s, l);
    SeparatorLim(t, l, j, p, t.n / 2 - 1, key);
    assert s !in Singles(t, l);
    if l < |t.levels| {
      RecurseReadyMid(t, l, j, p, s, key);
    } else {
      RecurseReadyTop(t, j, p, s, key);
    }
  }

  lemma RecurseDone(t: Tree, t1: Tree, l: nat, j: nat, p: nat, s: nat, key: nat)
    requires Upper(t, l) && At(t, l, j, p, key) && |t.cells[p].es| == t.n >= 4 && s !in t.cells && s != 0
    requires InsertDone(WithNode(t, s, l), t1, l + 1, t.cells[p].es[t.n / 2 - 1].key, s, Singles(t, l))
    ensures Splitting(t, t1, l, j, p, s, key) && RootOk(t1) && l < |t1.levels| && p != s
    ensures p in t1.cells && t1.cells[p] == t.cells[p] && s in t1.cells && t1.cells[s] == Cell(l, [])
  {
    hide Expand, FlagsOk, BlocksOk, LevelOk, HealthyLevel, Singles, Slots, SplitOf;
    WithNodeAgree(t, s, l);
  }

  lemma ReadyFacts(t: Tree, l: nat, key: nat, val: nat, singles: set<nat>)
    requires InsertReady(t, l, key, val, singles)
    ensures 4 <= t.n && 1 <= l <= |t.levels| + 1 && val != 0 && val !in singles && key < t.lim && Upper(t, l)
    ensures 1 < l == |t.levels| + 1 ==> t.root in t.cells && t.cells[t.root].es != []
    ensures l == 1 ==> Upper(t, 1) && (|t.levels| == 0 ==> RootOk(t))
    ensures l <= |t.levels| ==> RootOk(t)
  {
  }

  /** A descent does not disturb an insertion in progress. */
  lemma InsertingDescent(t0: Tree, t1: Tree, t: Tree, l: nat, key: nat, singles: set<nat>)
    requires Inserting(t0, t1, l, key, singles) && DescentKeeps(t1, t, l) && Upper(t, l)
    requires Slots(t, l) == Slots(t1, l)
    ensures Inserting(t0, t, l, key, singles)
  {
    hide Expand, FlagsOk, BlocksOk, Slots, Absent, Base;
    assert LevelOk(t1, l);
    assert Blocks(t, l) == Blocks(t1, l);
    assert LevelOk(t1, |t1.levels|);
    TopLevel(t1);
  }

  lemma InsertingOwned(t0: Tree, t: Tree, l: nat, key: nat, singles: set<nat>)
    requires Inserting(t0, t, l, key, singles) && l > 1
    ensures Owned(Slots(t, l + 1), key)
  {
    OwnedAbove(t, l, l + 1, key);
  }

  lemma InsertingFacts(t0: Tree, t: Tree, l: nat, key: nat, singles: set<nat>)
    requires Inserting(t0, t, l, key, singles)
    ensures 4 <= t.n && 1 <= l <= |t.levels| && Upper(t, l) && SameBelow(t0, t, l)
    ensures l < |t.levels| ==> |Es(t, t.root)| >= 1
    ensures l < |t.levels| || l == 1 ==> RootOk(t)
    ensures Absent(Slots(t, l), key)
  {
  }
}
