/** What a removal on one level does to the tree: dropping a pair, shrinking, dropping or merging nodes. */
module BTreeRemove {
  import opened Lists
  import opened BTreeSlots
  import opened BTreeHealth
  import opened BTreeShape
  import opened BTreeInsert

  /** The level is healthy once pair `i` of node `j` is gone. */
  ghost predicate HealthyBut(t: Tree, l: nat, j: nat, i: nat, singles: set<nat>)
    requires 1 <= l <= |t.levels| && j < |t.levels[l - 1]| && i < |Blocks(t, l)[j]|
  {
    && (forall k :: 0 <= k < |t.levels[l - 1]| && k != j ==> FlagsOk(t.n, Flags(Blocks(t, l)[k], singles)))
    && Thinned(t.n, Flags(RemoveAt(Blocks(t, l)[j], i), singles))
  }

  ghost predicate RemoveReady(t: Tree, l: nat, j: nat, i: nat, key: nat, singles: set<nat>) {
    && 1 <= l <= |t.levels| && Upper(t, l) && RootOk(t) && LevelOk(t, l)
    && j < |t.levels[l - 1]| && i < |Blocks(t, l)[j]| && key < t.lim
    && Owns(Kid(Blocks(t, l)[j], Slots(t, l + 1)[j].hi, i), key)
    && HealthyBut(t, l, j, i, singles)
    && (l == 1 ==> Blocks(t, l)[j][i].key == key && singles == {})
  }

  /** The intervals of level `l` after pair number `g` has gone, seen from below. */
  ghost predicate RemovedSlots(t: Tree, t': Tree, l: nat, g: nat, keepHi: bool)
    requires 1 <= l
  {
    && g < |Slots(t, l)|
    && Relaxed(RemoveAt(Slots(t, l), g), Slots(t', l))
    && (l <= |t'.levels| ==> Widened(RemoveAt(Slots(t, l), g), Slots(t', l)))
    && (keepHi ==> g < |Slots(t', l)| && Slots(t, l)[g].hi <= Slots(t', l)[g].hi)
  }

  ghost predicate RemoveDone(t: Tree, t': Tree, l: nat, g: nat, singles: set<nat>, keepHi: bool) {
    && 1 <= l && Upper(t', l) && SameBelow(t, t', l)
    && (l <= |t'.levels| ==> RootOk(t') && HealthyLevel(t', l, singles))
    && (l > |t'.levels| ==> l >= 2 && t'.root !in singles)
    && RemovedSlots(t, t', l, g, keepHi)
  }

  // --- finding the pair ---

  lemma ReadyOwned(t: Tree, l: nat, j: nat, i: nat, key: nat, singles: set<nat>)
    requires RemoveReady(t, l, j, i, key, singles)
    ensures Owns(Slots(t, l + 1)[j], key) && At(t, l, j, t.levels[l - 1][j], key)
    ensures Below(t, l, j, i) < |Slots(t, l)| && Owns(Slots(t, l)[Below(t, l, j, i)], key)
    ensures Slots(t, l)[Below(t, l, j, i)] == Kid(Blocks(t, l)[j], Slots(t, l + 1)[j].hi, i)
    ensures Owned(Slots(t, l + 1), key) && Owned(Slots(t, l), key) && 4 <= t.n
    ensures l < |t.levels| ==> |Es(t, t.root)| >= 1
    ensures l == |t.levels| ==> t.levels[l - 1][j] == t.root && (l >= 2 ==> |Blocks(t, l)[j]| >= 2)
  {
    hide Expand, HealthyLevel, Flags, FlagsOk;
    if l == |t.levels| {
      TopLevel(t);
    }
    ExpandIndex(Blocks(t, l), Slots(t, l + 1), j, i);
    assert BlockOk(t.n, Blocks(t, l)[j], Slots(t, l + 1)[j].lo, Slots(t, l + 1)[j].hi);
  }

  /** The descent ends at the node that holds the pair, and the scan stops at it. */
  lemma RemoveFinds(t: Tree, l: nat, j: nat, i: nat, key: nat, singles: set<nat>, j': nat, p: nat, pos: nat)
    requires RemoveReady(t, l, j, i, key, singles) && At(t, l, j', p, key) && IsPos(t.cells[p].es, key, pos)
    ensures j' == j && p == t.levels[l - 1][j] && pos == i && t.cells[p].es == Blocks(t, l)[j]
  {
    hide Expand, HealthyLevel, Flags, FlagsOk, BlocksOk;
    ReadyOwned(t, l, j, i, key, singles);
    UpperWeaken(t, l);
    UpperSlotsOk(t, l + 1);
    OwnerUnique(Slots(t, l + 1), j, j', key);
    AtBlock(t, l, j, p, key);
    var es := t.cells[p].es;
    assert BlockOk(t.n, es, Slots(t, l + 1)[j].lo, Slots(t, l + 1)[j].hi);
    PosUnique(t.n, es, Slots(t, l + 1)[j].lo, Slots(t, l + 1)[j].hi, key, i, pos);
  }

  lemma PosUnique(n: nat, es: seq<Pair>, lo: nat, hi: nat, key: nat, i: nat, pos: nat)
    requires BlockOk(n, es, lo, hi) && i < |es| && Owns(Kid(es, hi, i), key) && IsPos(es, key, pos)
    ensures pos == i
  {
    assert forall k :: 0 <= k < i ==> key < es[k].key;
  }

  // --- the pair is gone from its node ---

  lemma HealthyThinned(t: Tree, l: nat, j: nat, p: nat, i: nat, singles: set<nat>)
    requires 1 <= l <= |t.levels| && LevelOk(t, l) && j < |t.levels[l - 1]| && p == t.levels[l - 1][j]
    requires i < |Blocks(t, l)[j]| && HealthyBut(t, l, j, i, singles)
    ensures HealthyLevel(SetEs(t, p, RemoveAt(Blocks(t, l)[j], i)), l, singles)
  {
    SetEsBlocks(t, l, j, RemoveAt(Blocks(t, l)[j], i));
  }

  lemma RemoveSlots(t: Tree, l: nat, j: nat, p: nat, i: nat)
    requires 1 <= l <= |t.levels| && Upper(t, l) && LevelOk(t, l) && j < |t.levels[l - 1]| && p == t.levels[l - 1][j]
    requires i < |Blocks(t, l)[j]|
    ensures
      var t' := SetEs(t, p, RemoveAt(Blocks(t, l)[j], i));
      && Upper(t', l + 1) && Slots(t', l + 1) == Slots(t, l + 1)
      && Blocks(t', l) == Blocks(t, l)[j := RemoveAt(Blocks(t, l)[j], i)]
      && BlocksOk(t.n, Blocks(t', l), Slots(t', l + 1))
      && RemovedSlots(t, t', l, Below(t, l, j, i), i + 1 < |Blocks(t, l)[j]|)
  {
    hide Expand, HealthyLevel, Flags, FlagsOk, BlocksOk;
    SetEsFrame(t, l, j, p, RemoveAt(Blocks(t, l)[j], i));
    ExpandRemove(t.n, Blocks(t, l), Slots(t, l + 1), j, i);
  }

  /** The node keeps enough pairs, or it is the root and needs no shrinking. */
  lemma RemovePlain(t: Tree, l: nat, j: nat, p: nat, i: nat, key: nat, singles: set<nat>)
    requires RemoveReady(t, l, j, i, key, singles) && p == t.levels[l - 1][j]
    requires if l < |t.levels| then |Blocks(t, l)[j]| > t.n / 2 else l == 1 || |Blocks(t, l)[j]| > 2
    ensures RemoveDone(t, SetEs(t, p, RemoveAt(Blocks(t, l)[j], i)), l, Below(t, l, j, i), singles, i + 1 < |Blocks(t, l)[j]|)
  {
    hide Expand, HealthyLevel, Flags, FlagsOk, BlocksOk, RemovedSlots, SameBelow;
    var es := RemoveAt(Blocks(t, l)[j], i);
    ReadyOwned(t, l, j, i, key, singles);
    AtBlock(t, l, j, p, key);
    HealthyThinned(t, l, j, p, i, singles);
    RemoveSlots(t, l, j, p, i);
    KidsRemove(t.n, Blocks(t, l)[j], Slots(t, l + 1)[j].lo, Slots(t, l + 1)[j].hi, i);
    SetEsUpper(t, l, j, p, es);
    RemoveSame(t, l, p, es);
    if l == |t.levels| {
      TopLevel(t);
    } else {
      RootAbove(t, l, p, es);
    }
  }

  lemma RemoveSame(t: Tree, l: nat, p: nat, es: seq<Pair>)
    requires 1 <= l <= |t.levels| && p in t.cells && t.cells[p].lvl >= l
    ensures SameBelow(t, SetEs(t, p, es), l)
  {
  }

  lemma RootAbove(t: Tree, l: nat, p: nat, es: seq<Pair>)
    requires 1 <= l < |t.levels| && LevelOk(t, |t.levels|) && p in t.cells && t.cells[p].lvl == l && RootOk(t)
    ensures RootOk(SetEs(t, p, es))
  {
    TopLevel(t);
  }

  // --- shrinking ---

  /** btree_shrink(): the only child of the root becomes the root. */
  ghost function Shrunk(t: Tree, child: nat): Tree
    requires |t.levels| >= 1
  {
    Tree(t.n, t.lim, t.cells - {t.root}, t.levels[..|t.levels| - 1], child)
  }

  lemma RemoveShrinks(t: Tree, l: nat, j: nat, p: nat, i: nat, key: nat, singles: set<nat>)
    requires RemoveReady(t, l, j, i, key, singles) && p == t.levels[l - 1][j]
    requires l == |t.levels| >= 2 && |Blocks(t, l)[j]| == 2
    ensures
      var es := RemoveAt(Blocks(t, l)[j], i);
      RemoveDone(t, Shrunk(SetEs(t, p, es), es[0].val), l, Below(t, l, j, i), singles, i + 1 < |Blocks(t, l)[j]|)
  {
    hide Expand, HealthyLevel;
    var b := Blocks(t, l)[j];
    var es := RemoveAt(b, i);
    var t' := Shrunk(SetEs(t, p, es), es[0].val);
    TopLevel(t);
    assert Slots(t, l + 1) == [Slot(0, t.lim, t.root)];
    assert Blocks(t, l) == [b];
    ExpandSingle(b, Slots(t, l + 1)[0]);
    assert Slots(t, l) == Kids(b, t.lim);
    assert Slots(t', l) == [Slot(0, t.lim, es[0].val)];
    assert Flags(es, singles)[0] == (es[0].val in singles);
    assert BlockOk(t.n, b, 0, t.lim);
    assert Below(t, l, j, i) == i by {
      assert Blocks(t, l)[..0] == [] && Slots(t, l + 1)[..0] == [];
      assert Expand([], []) == [];
    }
    assert Upper(t', l);
  }

  lemma ExpandSingle(b: seq<Pair>, s: Slot)
    ensures Expand([b], [s]) == Kids(b, s.hi)
    ensures Expand([], []) == []
  {
    assert [b][1..] == [] && [s][1..] == [];
  }

  // --- the parent of a node ---

  lemma {:induction false} OffsetStep(bs: seq<seq<Pair>>, up: seq<Slot>, j: nat)
    requires j < |bs| == |up|
    ensures Offset(bs, up, j + 1) == Offset(bs, up, j) + |bs[j]|
  {
    assert bs[..j + 1] == bs[..j] + [bs[j]] && up[..j + 1] == up[..j] + [up[j]];
    ExpandAppend(bs[..j], [bs[j]], up[..j], [up[j]]);
    ExpandSingle(bs[j], up[j]);
  }

  lemma {:induction false} OffsetMono(bs: seq<seq<Pair>>, up: seq<Slot>, j: nat, k: nat)
    requires j < k <= |bs| == |up|
    ensures Offset(bs, up, j) + |bs[j]| <= Offset(bs, up, k)
    decreases k - j
  {
    OffsetStep(bs, up, j);
    if j + 1 < k {
      OffsetMono(bs, up, j + 1, k);
    }
  }

  /** Two different places in a level are two different positions in its list. */
  lemma PlaceUnique(bs: seq<seq<Pair>>, up: seq<Slot>, j: nat, i: nat, j': nat, i': nat)
    requires j < |bs| == |up| && j' < |bs| && i < |bs[j]| && i' < |bs[j']|
    requires Offset(bs, up, j) + i == Offset(bs, up, j') + i'
    ensures j == j' && i == i'
  {
    if j < j' {
      OffsetMono(bs, up, j, j');
    } else if j' < j {
      OffsetMono(bs, up, j', j);
    }
  }

  /** Pair `i` of node `q` on level `l + 1` points at node `j` of level `l`. */
  ghost predicate Parent(t: Tree, l: nat, j: nat, q: nat, i: nat) {
    && 1 <= l < |t.levels| && LevelOk(t, l + 1) && ValsAre(Slots(t, l + 1), t.levels[l - 1])
    && q < |t.levels[l]| && i < |Blocks(t, l + 1)[q]| && j < |t.levels[l - 1]|
    && j == Below(t, l + 1, q, i)
  }

  lemma ParentExists(t: Tree, l: nat, j: nat) returns (q: nat, i: nat)
    requires 1 <= l < |t.levels| && LevelOk(t, l + 1) && ValsAre(Slots(t, l + 1), t.levels[l - 1])
    requires j < |t.levels[l - 1]|
    ensures Parent(t, l, j, q, i)
  {
    q, i := ExpandLocate(Blocks(t, l + 1), Slots(t, l + 2), j);
  }

  lemma ParentChild(t: Tree, l: nat, j: nat, q: nat, i: nat, i': nat)
    requires Parent(t, l, j, q, i) && i' < |Blocks(t, l + 1)[q]|
    ensures 0 <= j + i' - i < |t.levels[l - 1]|
    ensures Blocks(t, l + 1)[q][i'].val == t.levels[l - 1][j + i' - i]
    ensures Slots(t, l + 1)[j + i' - i] == Kid(Blocks(t, l + 1)[q], Slots(t, l + 2)[q].hi, i')
  {
    hide Expand;
    ExpandIndex(Blocks(t, l + 1), Slots(t, l + 2), q, i');
  }

  /** No other pair points at the same child. */
  lemma ParentUnique(t: Tree, l: nat, j: nat, q: nat, i: nat, q': nat, i': nat)
    requires Parent(t, l, j, q, i) && NoDup(t.levels[l - 1]) && q' < |t.levels[l]| && i' < |Blocks(t, l + 1)[q']|
    requires Blocks(t, l + 1)[q'][i'].val == t.levels[l - 1][j]
    ensures q' == q && i' == i
  {
    hide Expand;
    var bs, up := Blocks(t, l + 1), Slots(t, l + 2);
    ExpandIndex(bs, up, q', i');
    assert Offset(bs, up, q') + i' == j;
    PlaceUnique(bs, up, q, i, q', i');
  }

  /** The descent for a key of node `j` ends at its parent, at the pair that points at it. */
  lemma ParentFound(t: Tree, l: nat, j: nat, key: nat, q: nat, pp: nat, i: nat)
    requires 1 <= l < |t.levels| && Upper(t, l + 1) && ValsAre(Slots(t, l + 1), t.levels[l - 1])
    requires j < |t.levels[l - 1]| && Owns(Slots(t, l + 1)[j], key)
    requires At(t, l + 1, q, pp, key) && IsPos(t.cells[pp].es, key, i)
    ensures Parent(t, l, j, q, i) && t.cells[pp].es == Blocks(t, l + 1)[q] && i < |t.cells[pp].es|
    ensures pp == t.levels[l][q]
  {
    hide Expand, HealthyLevel, BlocksOk;
    AtBlock(t, l + 1, q, pp, key);
    assert Owned(Slots(t, l + 1), key);
    PosOwner(t, l + 1, q, i, key);
    UpperSlotsOk(t, l + 1);
    OwnerUnique(Slots(t, l + 1), j, Below(t, l + 1, q, i), key);
  }

  // --- the node stays although it is thin ---

  lemma FlagsAdd(es: seq<Pair>, s: set<nat>, p: nat, i: nat)
    requires i < |es| && es[i].val == p && forall k :: 0 <= k < |es| && k != i ==> es[k].val != p
    ensures Flags(es, s + {p}) == Flags(es, s)[i := true]
  {
  }

  lemma FlagsAddOther(es: seq<Pair>, s: set<nat>, p: nat)
    requires forall k :: 0 <= k < |es| ==> es[k].val != p
    ensures Flags(es, s + {p}) == Flags(es, s)
  {
  }

  /** Neither sibling has room: with one pair left in the node, both siblings are full. */
  ghost predicate NoRoom(t: Tree, l: nat, j: nat, q: nat, i: nat, fill: nat) {
    && (i > 0 ==> j >= 1 && fill + |Blk(t, l, j - 1)| > t.n)
    && (i + 1 < |Blk(t, l + 1, q)| ==> j + 1 < |Lv(t, l)| && fill + |Blk(t, l, j + 1)| > t.n)
  }

  lemma SiblingFlag(t: Tree, l: nat, j: nat, q: nat, i: nat, i': nat)
    requires Parent(t, l, j, q, i) && i' < |Blocks(t, l + 1)[q]| && t.n >= 2
    requires 0 <= j + i' - i < |t.levels[l - 1]| ==> |Blocks(t, l)[j + i' - i]| >= 2
    ensures !Flags(Blocks(t, l + 1)[q], Singles(t, l))[i']
  {
    ParentChild(t, l, j, q, i, i');
  }

  lemma SoleChild(t: Tree, l: nat, j: nat, q: nat, i: nat)
    requires Parent(t, l, j, q, i) && NoDup(t.levels[l - 1])
    ensures
      var b, p := Blocks(t, l + 1)[q], t.levels[l - 1][j];
      b[i].val == p && forall k :: 0 <= k < |b| && k != i ==> b[k].val != p
  {
    hide Expand, LevelOk;
    var b := Blocks(t, l + 1)[q];
    ParentChild(t, l, j, q, i, i);
    forall k | 0 <= k < |b| && k != i
      ensures b[k].val != t.levels[l - 1][j]
    {
      if b[k].val == t.levels[l - 1][j] {
        ParentUnique(t, l, j, q, i, q, k);
      }
    }
  }

  lemma SiblingFlags(t: Tree, l: nat, j: nat, q: nat, i: nat)
    requires Parent(t, l, j, q, i) && NoRoom(t, l, j, q, i, 1) && t.n >= 2
    ensures
      var f := Flags(Blocks(t, l + 1)[q], Singles(t, l));
      (i > 0 ==> !f[i - 1]) && (i + 1 < |f| ==> !f[i + 1])
  {
    hide Expand, LevelOk, Slots;
    if i > 0 {
      SiblingFlag(t, l, j, q, i, i - 1);
    }
    if i + 1 < |Blocks(t, l + 1)[q]| {
      SiblingFlag(t, l, j, q, i, i + 1);
    }
  }

  lemma ThinBlock(t: Tree, l: nat, j: nat, p: nat, q: nat, i: nat)
    requires Upper(t, l) && Parent(t, l, j, q, i) && LevelOk(t, l) && p == t.levels[l - 1][j] && NoRoom(t, l, j, q, i, 1)
    ensures FlagsOk(t.n, Flags(Blocks(t, l + 1)[q], Singles(t, l) + {p}))
  {
    hide Expand, HealthyLevel, BlocksOk, Slots, Singles, NoRoom, FlagsOk;
    var b := Blocks(t, l + 1)[q];
    var f := Flags(b, Singles(t, l));
    SoleChild(t, l, j, q, i);
    FlagsAdd(b, Singles(t, l), p, i);
    assert HealthyAbove(t, l);
    HealthyAt(t, l + 1, Singles(t, l), q);
    SiblingFlags(t, l, j, q, i);
    ThinFlags(t.n, f, i);
  }

  lemma ThinFlags(n: nat, f: seq<bool>, i: nat)
    requires GoodFanout(n) && FlagsOk(n, f) && i < |f|
    requires i > 0 ==> !f[i - 1]
    requires i + 1 < |f| ==> !f[i + 1]
    ensures FlagsOk(n, f[i := true])
  {
    if |f| >= 2 {
      HealthyShrink(n, f, i);
    }
  }

  lemma HealthyAt(t: Tree, l: nat, singles: set<nat>, j: nat)
    requires 1 <= l <= |t.levels| && HealthyLevel(t, l, singles) && j < |t.levels[l - 1]|
    ensures FlagsOk(t.n, Flags(Blocks(t, l)[j], singles))
  {
  }

  lemma ThinLevel(t: Tree, l: nat, j: nat, p: nat, q: nat, i: nat)
    requires Upper(t, l) && Parent(t, l, j, q, i) && LevelOk(t, l) && p == t.levels[l - 1][j] && NoRoom(t, l, j, q, i, 1)
    ensures HealthyLevel(t, l + 1, Singles(t, l) + {p})
  {
    hide Expand, BlocksOk, FlagsOk, Singles;
    ThinBlock(t, l, j, p, q, i);
    assert HealthyAbove(t, l);
    var bs := Blocks(t, l + 1);
    forall k | 0 <= k < |bs|
      ensures FlagsOk(t.n, Flags(bs[k], Singles(t, l) + {p}))
    {
      if k != q {
        var b := bs[k];
        forall i' | 0 <= i' < |b|
          ensures b[i'].val != p
        {
          if b[i'].val == p {
            ParentUnique(t, l, j, q, i, k, i');
          }
        }
        FlagsAddOther(b, Singles(t, l), p);
      }
    }
  }

  lemma SinglesGrow(t: Tree, l: nat, p: nat, es: seq<Pair>)
    requires 1 <= l <= |t.levels| && p in t.cells
    ensures Singles(SetEs(t, p, es), l) <= Singles(t, l) + {p}
    ensures |es| >= 2 ==> Singles(SetEs(t, p, es), l) <= Singles(t, l)
  {
  }

  /** rebalance() finds no sibling to merge with. */
  lemma RemoveThin(t: Tree, l: nat, j: nat, p: nat, i: nat, key: nat, singles: set<nat>, q: nat, qi: nat)
    requires RemoveReady(t, l, j, i, key, singles) && p == t.levels[l - 1][j] && l < |t.levels|
    requires |Blocks(t, l)[j]| >= 2 && Parent(t, l, j, q, qi) && NoRoom(t, l, j, q, qi, |Blocks(t, l)[j]| - 1)
    ensures RemoveDone(t, SetEs(t, p, RemoveAt(Blocks(t, l)[j], i)), l, Below(t, l, j, i), singles, i + 1 < |Blocks(t, l)[j]|)
  {
    hide Expand, HealthyLevel, Flags, FlagsOk, BlocksOk, RemovedSlots, SameBelow, Singles, NoRoom, NoDup, HealthyAbove;
    var es := RemoveAt(Blocks(t, l)[j], i);
    var t' := SetEs(t, p, es);
    ReadyOwned(t, l, j, i, key, singles);
    AtBlock(t, l, j, p, key);
    HealthyThinned(t, l, j, p, i, singles);
    RemoveSlots(t, l, j, p, i);
    KidsRemove(t.n, Blocks(t, l)[j], Slots(t, l + 1)[j].lo, Slots(t, l + 1)[j].hi, i);
    SetEsLevel(t, l, j, p, es);
    assert NoStrays(t', l) by {
      SetEsFrame(t, l, j, p, es);
    }
    ThinHealthy(t, l, j, p, es, q, qi);
    UpperExtend(t', l);
    RemoveSame(t, l, p, es);
    RootAbove(t, l, p, es);
  }

  lemma ThinHealthy(t: Tree, l: nat, j: nat, p: nat, es: seq<Pair>, q: nat, qi: nat)
    requires Upper(t, l) && Parent(t, l, j, q, qi) && LevelOk(t, l) && p == t.levels[l - 1][j]
    requires |es| >= 1 && NoRoom(t, l, j, q, qi, |es|) && p in t.cells && t.cells[p].lvl == l
    ensures HealthyAbove(SetEs(t, p, es), l)
  {
    hide Expand, Flags, FlagsOk, BlocksOk, Singles;
    var t' := SetEs(t, p, es);
    SetEsAbove(t, l, p, es);
    SinglesGrow(t, l, p, es);
    assert HealthyAbove(t, l);
    if |es| == 1 {
      ThinLevel(t, l, j, p, q, qi);
      BlocksHealthy(t, t', l + 1, Singles(t, l) + {p});
      HealthyLevelMono(t', l + 1, Singles(t, l) + {p}, Singles(t', l));
    } else {
      BlocksHealthy(t, t', l + 1, Singles(t, l));
      HealthyLevelMono(t', l + 1, Singles(t, l), Singles(t', l));
    }
  }

  // --- a node leaves its level ---

  ghost function DropNode(t: Tree, l: nat, j: nat, q: nat): Tree
    requires 1 <= l <= |t.levels| && j < |t.levels[l - 1]|
  {
    t.(cells := t.cells - {q}, levels := t.levels[l - 1 := RemoveAt(t.levels[l - 1], j)])
  }

  /** Node `j` of level `l`, called `q`, is about to be freed: `t1` before the levels above
      let go of it, `t2` after. */
  ghost predicate Dropping(t1: Tree, t2: Tree, l: nat, j: nat, q: nat) {
    && 1 <= l <= |t1.levels| && l <= |t2.levels|
    && Upper(t2, l + 1) && SameBelow(t1, t2, l + 1) && NoStrays(t1, l)
    && j < |t1.levels[l - 1]| && q == t1.levels[l - 1][j]
    && OnLevel(t1, t1.levels[l - 1], l) && NoDup(t1.levels[l - 1])
  }

  lemma RemoveAtIn(ps: seq<nat>, j: nat, q: nat)
    requires NoDup(ps) && j < |ps|
    ensures q in RemoveAt(ps, j) <==> q in ps && q != ps[j]
    ensures NoDup(RemoveAt(ps, j))
  {
    var r := RemoveAt(ps, j);
    assert forall k :: 0 <= k < |r| ==> r[k] == if k < j then ps[k] else ps[k + 1];
    if q in ps && q != ps[j] {
      var k :| 0 <= k < |ps| && ps[k] == q;
      assert r[if k < j then k else k - 1] == q;
    }
  }

  lemma DropStrays(t1: Tree, t2: Tree, l: nat, j: nat, q: nat)
    requires Dropping(t1, t2, l, j, q) && t2.levels[l - 1] == t1.levels[l - 1]
    ensures NoStrays(DropNode(t2, l, j, q), l)
  {
    hide LevelOk, HealthyAbove, Slots;
    var t3 := DropNode(t2, l, j, q);
    forall x | x in t3.cells && t3.cells[x].lvl >= l
      ensures 1 <= t3.cells[x].lvl <= |t3.levels| && x in t3.levels[t3.cells[x].lvl - 1]
    {
      RemoveAtIn(t1.levels[l - 1], j, x);
    }
  }

  lemma DropFrame(t1: Tree, t2: Tree, l: nat, j: nat, q: nat)
    requires Dropping(t1, t2, l, j, q)
    ensures 1 <= l <= |t2.levels| && t2.n == t1.n && t2.levels[l - 1] == t1.levels[l - 1]
    ensures
      var t3 := DropNode(t2, l, j, q);
      AgreeFrom(t2, t3, l + 1) && NoStrays(t3, l) && SameBelow(t1, t3, l)
  {
    hide LevelOk, HealthyAbove, Slots, NoStrays;
    DropStrays(t1, t2, l, j, q);
  }

  lemma DroppedLive(t1: Tree, t2: Tree, l: nat, j: nat, q: nat)
    requires Dropping(t1, t2, l, j, q)
    ensures q in t2.cells && t2.cells[q].lvl == l
  {
    hide LevelOk, HealthyAbove, Slots, NoStrays;
    assert q in t1.cells && t1.cells[q].lvl == l;
  }

  lemma DropBlocks(t1: Tree, t2: Tree, l: nat, j: nat, q: nat)
    requires Dropping(t1, t2, l, j, q) && t2.levels[l - 1] == t1.levels[l - 1]
    ensures
      var t3 := DropNode(t2, l, j, q);
      && OnLevel(t3, t3.levels[l - 1], l) && NoDup(t3.levels[l - 1])
      && Blocks(t3, l) == RemoveAt(Blocks(t1, l), j)
  {
    hide LevelOk, HealthyAbove, Slots, NoStrays, Upper;
    var t3 := DropNode(t2, l, j, q);
    var ps, r := t1.levels[l - 1], t3.levels[l - 1];
    RemoveAtIn(ps, j, q);
    forall k | 0 <= k < |r|
      ensures r[k] in t3.cells && t3.cells[r[k]].lvl == l && Blocks(t3, l)[k] == RemoveAt(Blocks(t1, l), j)[k]
    {
      var o := if k < j then k else k + 1;
      assert r[k] == ps[o] && ps[o] != q;
    }
  }

  lemma DropUpper(t1: Tree, t2: Tree, l: nat, j: nat, q: nat, above: set<nat>)
    requires Dropping(t1, t2, l, j, q)
    requires BlocksOk(t1.n, RemoveAt(Blocks(t1, l), j), Slots(t2, l + 1))
    requires ValsAre(Slots(t2, l + 1), RemoveAt(t1.levels[l - 1], j))
    requires forall k :: 0 <= k < |t1.levels[l - 1]| && k != j ==> |Blocks(t1, l)[k]| >= 1
    requires l < |t2.levels| ==> HealthyLevel(t2, l + 1, above)
    requires forall p :: p in t1.levels[l - 1] && p != q && |Es(t1, p)| == 1 ==> p in above
    ensures t2.levels[l - 1] == t1.levels[l - 1]
    ensures
      var t3 := DropNode(t2, l, j, q);
      && Upper(t3, l) && LevelOk(t3, l) && Slots(t3, l) == Expand(RemoveAt(Blocks(t1, l), j), Slots(t2, l + 1))
      && Singles(t3, l) <= above
  {
    hide Expand, HealthyLevel, BlocksOk, AgreeFrom, NoStrays, ValsAre;
    DropFrame(t1, t2, l, j, q);
    var t3 := DropNode(t2, l, j, q);
    UpperAgree(t2, t3, l + 1);
    DropBlocks(t1, t2, l, j, q);
    DropSizes(Blocks(t1, l), j);
    DropSingles(t1, t2, l, j, q, above);
    if l < |t2.levels| {
      DropHealthyAbove(t2, t3, l, above);
    }
    UpperExtend(t3, l);
  }

  lemma DropSizes(bs: seq<seq<Pair>>, j: nat)
    requires j < |bs| && forall k :: 0 <= k < |bs| && k != j ==> |bs[k]| >= 1
    ensures forall k :: 0 <= k < |RemoveAt(bs, j)| ==> |RemoveAt(bs, j)[k]| >= 1
  {
  }

  lemma DropSingles(t1: Tree, t2: Tree, l: nat, j: nat, q: nat, above: set<nat>)
    requires Dropping(t1, t2, l, j, q) && t2.levels[l - 1] == t1.levels[l - 1]
    requires forall p :: p in t1.levels[l - 1] && p != q && |Es(t1, p)| == 1 ==> p in above
    ensures Singles(DropNode(t2, l, j, q), l) <= above
  {
    hide LevelOk, HealthyAbove, Slots, NoStrays, Upper;
    var t3 := DropNode(t2, l, j, q);
    forall p | p in Singles(t3, l)
      ensures p in above
    {
      RemoveAtIn(t1.levels[l - 1], j, p);
      assert p in t1.levels[l - 1] && p != q;
      assert p in t1.cells && t1.cells[p].lvl == l;
    }
  }

  lemma DropHealthyAbove(t2: Tree, t3: Tree, l: nat, above: set<nat>)
    requires 1 <= l < |t2.levels| && Upper(t2, l + 1) && AgreeFrom(t2, t3, l + 1)
    requires HealthyLevel(t2, l + 1, above) && Singles(t3, l) <= above
    ensures HealthyAbove(t3, l)
  {
    hide Expand, BlocksOk, Singles;
    assert LevelOk(t2, l + 1);
    BlocksAgree(t2, t3, l + 1, l + 1);
    BlocksHealthy(t2, t3, l + 1, above);
    HealthyLevelMono(t3, l + 1, above, Singles(t3, l));
  }

  /** Either the levels above are as they should be, or the level has become the top one. */
  lemma DropRoot(t1: Tree, t2: Tree, l: nat, j: nat, q: nat, above: set<nat>)
    requires Dropping(t1, t2, l, j, q) && t2.levels[l - 1] == t1.levels[l - 1]
    requires if l < |t2.levels| then RootOk(t2) else t2.root !in above
    requires
      var t3 := DropNode(t2, l, j, q);
      Upper(t3, l) && LevelOk(t3, l) && Singles(t3, l) <= above
    requires forall k :: 0 <= k < |RemoveAt(Blocks(t1, l), j)| ==> |RemoveAt(Blocks(t1, l), j)[k]| >= 1
    ensures RootOk(DropNode(t2, l, j, q))
  {
    var t3 := DropNode(t2, l, j, q);
    if l < |t2.levels| {
      assert LevelOk(t2, |t2.levels|);
      TopLevel(t2);
      assert q in t1.cells && t1.cells[q].lvl == l;
      assert q in t2.cells && t2.cells[q].lvl == l;
    } else {
      TopLevel(t3);
      DropBlocks(t1, t2, l, j, q);
      assert Blocks(t3, l)[0] == Es(t3, t3.root);
      assert t3.root in t3.levels[l - 1];
    }
  }

  // --- the node has become empty ---

  lemma EmptyFlags(n: nat, b: seq<Pair>, s: set<nat>, p: nat, i: nat)
    requires GoodFanout(n) && FlagsOk(n, Flags(b, s)) && i < |b| && b[i].val in s
    ensures Thinned(n, Flags(RemoveAt(b, i), s - {p}))
  {
    hide Healthy;
    var f := Flags(b, s);
    assert f[i];
    if |b| >= 2 {
      HealthyRemove(n, f, i);
      ThinnedMono(n, RemoveAt(f, i), Flags(RemoveAt(b, i), s - {p}));
    }
  }

  lemma FlagsFewer(n: nat, bs: seq<seq<Pair>>, s: set<nat>, s': set<nat>)
    requires s' <= s && forall k :: 0 <= k < |bs| ==> FlagsOk(n, Flags(bs[k], s))
    ensures forall k :: 0 <= k < |bs| ==> FlagsOk(n, Flags(bs[k], s'))
  {
    hide Healthy;
    forall k | 0 <= k < |bs|
      ensures FlagsOk(n, Flags(bs[k], s'))
    {
      HealthyMono(n, Flags(bs[k], s), Flags(bs[k], s'));
    }
  }

  lemma EmptyHealthy(t: Tree, l: nat, j: nat, p: nat, q: nat, qi: nat)
    requires Parent(t, l, j, q, qi) && p == t.levels[l - 1][j] && |Es(t, p)| == 1
    requires Upper(t, l) && LevelOk(t, l)
    ensures HealthyBut(t, l + 1, q, qi, Singles(t, l) - {p})
  {
    hide Expand, BlocksOk, Healthy, Slots, Flags, FlagsOk, LevelOk;
    assert HealthyAbove(t, l);
    FlagsFewer(t.n, Blocks(t, l + 1), Singles(t, l), Singles(t, l) - {p});
    ParentChild(t, l, j, q, qi, qi);
    assert p in Singles(t, l);
    EmptyFlags(t.n, Blocks(t, l + 1)[q], Singles(t, l), p, qi);
  }

  lemma HealthyButAgree(t: Tree, t': Tree, l: nat, j: nat, i: nat, singles: set<nat>)
    requires 1 <= l <= |t.levels| && t'.levels == t.levels && t'.n == t.n && Blocks(t', l) == Blocks(t, l)
    requires j < |t.levels[l - 1]| && i < |Blocks(t, l)[j]| && HealthyBut(t, l, j, i, singles)
    ensures HealthyBut(t', l, j, i, singles)
  {
  }

  /** The level above may be asked to let go of the empty node. */
  lemma EmptyReady(t: Tree, l: nat, j: nat, p: nat, key: nat, singles: set<nat>, q: nat, qi: nat)
    requires RemoveReady(t, l, j, 0, key, singles) && p == Ptr(t, l, j) && p in t.cells && |Blk(t, l, j)| == 1
    requires l < |t.levels| && Parent(t, l, j, q, qi)
    ensures RemoveReady(SetEs(t, p, []), l + 1, q, qi, key, Singles(t, l) - {p})
    ensures Below(SetEs(t, p, []), l + 1, q, qi) == j
  {
    hide Expand, BlocksOk, Healthy, HealthyLevel, Flags, HealthyBut, Singles, BlockOk, NoStrays, HealthyAbove, NoDup, OnLevel, ValsAre;
    var t1 := SetEs(t, p, []);
    ReadyOwned(t, l, j, 0, key, singles);
    UpperWeakenTo(t, l, l + 1);
    SetEsLeft(t, l, p, []);
    ParentChild(t, l, j, q, qi, qi);
    EmptyHealthy(t, l, j, p, q, qi);
    HealthyButAgree(t, t1, l + 1, q, qi, Singles(t, l) - {p});
    RootAbove(t, l, p, []);
  }

  lemma EmptyDone(t: Tree, t2: Tree, l: nat, j: nat, p: nat, key: nat, singles: set<nat>)
    requires RemoveReady(t, l, j, 0, key, singles) && p == t.levels[l - 1][j] && |Blocks(t, l)[j]| == 1
    requires l < |t.levels| && RemoveDone(SetEs(t, p, []), t2, l + 1, j, Singles(t, l) - {p}, false)
    ensures 1 <= l <= |t2.levels| && t2.levels[l - 1] == t.levels[l - 1] && p in t2.cells && p != t2.root
    ensures RemoveDone(t, DropNode(t2, l, j, p), l, Below(t, l, j, 0), singles, false)
  {
    hide Expand, BlocksOk, HealthyLevel, HealthyBut, Flags, AgreeFrom, NoStrays, Widened, Relaxed;
    var t1 := SetEs(t, p, []);
    var bs, up, up' := Blocks(t, l)[j := []], Slots(t, l + 1), Slots(t2, l + 1);
    ReadyOwned(t, l, j, 0, key, singles);
    HealthyThinned(t, l, j, p, 0, singles);
    assert RemoveAt(Blocks(t, l)[j], 0) == [];
    RemoveSlots(t, l, j, p, 0);
    SetEsFrame(t, l, j, p, []);
    assert RemoveAt(bs, j) == RemoveAt(Blocks(t, l), j);
    ExpandDrop(t.n, bs, up, j, up');
    EmptyVals(up, up', t.levels[l - 1], j);
    assert Dropping(t1, t2, l, j, p);
    EmptySingles(t, t1, l, p);
    DropUpper(t1, t2, l, j, p, Singles(t, l) - {p});
    DropFrame(t1, t2, l, j, p);
    DropSizes(bs, j);
    DropRoot(t1, t2, l, j, p, Singles(t, l) - {p});
    DropHealthy(t1, t2, l, j, p, singles);
    RemoveSame(t, l, p, []);
    SameBelowTrans(t, t1, DropNode(t2, l, j, p), l);
    RemovedThenWidened(t, t1, DropNode(t2, l, j, p), l, Below(t, l, j, 0), false);
    RootStays(t2, l, j, p);
  }

  lemma RootStays(t2: Tree, l: nat, j: nat, q: nat)
    requires 1 <= l <= |t2.levels| && j < |t2.levels[l - 1]| && Upper(DropNode(t2, l, j, q), l)
    ensures q != t2.root
  {
    var t3 := DropNode(t2, l, j, q);
    assert LevelOk(t3, |t3.levels|);
    TopLevel(t3);
  }

  lemma RemovedThenWidened(t: Tree, t1: Tree, t3: Tree, l: nat, g: nat, keepHi: bool)
    requires 1 <= l <= |t.levels| && l <= |t1.levels| && l <= |t3.levels| && RemovedSlots(t, t1, l, g, keepHi)
    requires Widened(Slots(t1, l), Slots(t3, l))
    ensures RemovedSlots(t, t3, l, g, keepHi)
  {
    hide Slots;
  }

  lemma EmptyVals(up: seq<Slot>, up': seq<Slot>, ps: seq<nat>, j: nat)
    requires ValsAre(up, ps) && j < |ps| && Relaxed(RemoveAt(up, j), up')
    ensures ValsAre(up', RemoveAt(ps, j))
  {
    assert forall k :: 0 <= k < |up'| ==> RemoveAt(up, j)[k] == up[if k < j then k else k + 1];
  }

  lemma EmptySingles(t: Tree, t1: Tree, l: nat, p: nat)
    requires 1 <= l <= |t.levels| && p in t.cells && t1 == SetEs(t, p, [])
    ensures forall x :: x in t1.levels[l - 1] && x != p && |Es(t1, x)| == 1 ==> x in Singles(t, l) - {p}
  {
  }

  lemma DropHealthy(t1: Tree, t2: Tree, l: nat, j: nat, q: nat, singles: set<nat>)
    requires Dropping(t1, t2, l, j, q) && t2.levels[l - 1] == t1.levels[l - 1] && HealthyLevel(t1, l, singles)
    ensures HealthyLevel(DropNode(t2, l, j, q), l, singles)
  {
    DropBlocks(t1, t2, l, j, q);
    var bs, bs' := Blocks(t1, l), RemoveAt(Blocks(t1, l), j);
    assert forall k :: 0 <= k < |bs'| ==> bs'[k] == bs[if k < j then k else k + 1];
  }

  // --- two neighbours are merged ---

  /** The two child pointers at `i` and `i + 1` change places; the keys stay. */
  ghost function SwapEs(es: seq<Pair>, i: nat): seq<Pair>
    requires i + 1 < |es|
  {
    es[i := Pair(es[i].key, es[i + 1].val)][i + 1 := Pair(es[i + 1].key, es[i].val)]
  }

  lemma SwapKids(es: seq<Pair>, hi: nat, i: nat)
    requires i + 1 < |es|
    ensures Kids(SwapEs(es, i), hi) == SwapVals(Kids(es, hi), i)
  {
  }

  lemma SwapBlock(n: nat, es: seq<Pair>, lo: nat, hi: nat, i: nat)
    requires BlockOk(n, es, lo, hi) && i + 1 < |es|
    ensures BlockOk(n, SwapEs(es, i), lo, hi)
  {
  }

  lemma SwapMid(a: seq<Slot>, k: seq<Slot>, c: seq<Slot>, i: nat)
    requires i + 1 < |k|
    ensures SwapVals(a + k + c, |a| + i) == a + SwapVals(k, i) + c
  {
  }

  lemma SwapExpand(bs: seq<seq<Pair>>, up: seq<Slot>, q: nat, i: nat)
    requires q < |bs| == |up| && i + 1 < |bs[q]|
    ensures Offset(bs, up, q) + i + 1 < |Expand(bs, up)|
    ensures Expand(bs[q := SwapEs(bs[q], i)], up) == SwapVals(Expand(bs, up), Offset(bs, up, q) + i)
  {
    hide Expand, Kids;
    ExpandAt(bs, up, q);
    ExpandReplace(bs, up, q, SwapEs(bs[q], i));
    SwapKids(bs[q], up[q].hi, i);
    SwapMid(Expand(bs[..q], up[..q]), Kids(bs[q], up[q].hi), Expand(bs[q + 1..], up[q + 1..]), i);
  }

  /** merge(): the left node takes over the right one's pairs, and the parent, number `q` of
      the level above, swaps the pointers at its pairs `qi` and `qi + 1`. */
  ghost function Merged(t: Tree, l: nat, j: nat, q: nat, qi: nat): Tree
    requires 1 <= l < |t.levels| && j + 1 < |t.levels[l - 1]| && q < |t.levels[l]|
    requires t.levels[l - 1][j] in t.cells && t.levels[l][q] in t.cells
    requires qi + 1 < |t.cells[t.levels[l][q]].es|
  {
    var t1 := SetEs(t, t.levels[l - 1][j], Blocks(t, l)[j] + Blocks(t, l)[j + 1]);
    SetEs(t1, t.levels[l][q], SwapEs(t.cells[t.levels[l][q]].es, qi))
  }

  /** Nodes `j` and `j + 1` of level `l` fit into one and have the same parent. */
  ghost predicate Mergeable(t: Tree, l: nat, j: nat, q: nat, qi: nat) {
    && Parent(t, l, j, q, qi) && j + 1 < |t.levels[l - 1]| && qi + 1 < |Blocks(t, l + 1)[q]|
    && t.levels[l - 1][j] in t.cells && t.levels[l][q] in t.cells
    && t.cells[t.levels[l][q]].es == Blocks(t, l + 1)[q]
    && Upper(t, l + 1) && NoStrays(t, l) && OnLevel(t, t.levels[l - 1], l) && NoDup(t.levels[l - 1])
    && BlocksOk(t.n, Blocks(t, l), Slots(t, l + 1))
    && (forall k :: 0 <= k < |t.levels[l - 1]| ==> |Blocks(t, l)[k]| >= 1)
    && |Blocks(t, l)[j]| + |Blocks(t, l)[j + 1]| <= t.n
  }

  lemma MergedPlaces(t: Tree, l: nat, j: nat, q: nat, qi: nat)
    requires Mergeable(t, l, j, q, qi)
    ensures 1 <= l < |t.levels| && j + 1 < |t.levels[l - 1]| && q < |t.levels[l]| && qi + 1 < |Blocks(t, l + 1)[q]|
    ensures t.levels[l - 1][j] in t.cells && t.levels[l - 1][j + 1] in t.cells && t.levels[l][q] in t.cells
    ensures t.cells[t.levels[l][q]].es == Blocks(t, l + 1)[q]
    ensures t.levels[l - 1][j] != t.levels[l - 1][j + 1]
    ensures t.cells[t.levels[l - 1][j]].lvl == l && t.cells[t.levels[l][q]].lvl == l + 1
    ensures t.cells[t.levels[l - 1][j]].es == Blocks(t, l)[j] && t.cells[t.levels[l - 1][j + 1]].es == Blocks(t, l)[j + 1]
    ensures Blocks(t, l + 1)[q][qi].val == t.levels[l - 1][j]
    ensures Blocks(t, l + 1)[q][qi + 1].val == t.levels[l - 1][j + 1]
    ensures |Blocks(t, l)[j]| + |Blocks(t, l)[j + 1]| <= t.n
  {
    hide Expand, BlocksOk, HealthyLevel, Upper, Slots;
    ParentChild(t, l, j, q, qi, qi);
    ParentChild(t, l, j, q, qi, qi + 1);
  }

  /** Changing a node of level `l` leaves everything above as it was. */
  lemma SetEsLeft(t: Tree, l: nat, p: nat, es: seq<Pair>)
    requires 1 <= l < |t.levels| && p in t.cells && t.cells[p].lvl == l && Upper(t, l + 1) && NoStrays(t, l)
    ensures
      var t1 := SetEs(t, p, es);
      && Upper(t1, l + 1) && LevelOk(t1, l + 1) && Slots(t1, l + 2) == Slots(t, l + 2)
      && Blocks(t1, l + 1) == Blocks(t, l + 1)
  {
    hide Expand, HealthyLevel, AgreeFrom, BlocksOk, BlockOk, LevelOk, NoStrays, HealthyAbove, Slots, Blocks;
    var t1 := SetEs(t, p, es);
    SetEsAgree(t, l, p, es);
    UpperAgree(t, t1, l + 1);
    SlotsAgree(t, t1, l + 1, l + 2);
    assert LevelOk(t, l + 1) && LevelOk(t1, l + 1);
    BlocksAgree(t, t1, l + 1, l + 1);
  }

  lemma SwapNode(t: Tree, l: nat, q: nat, pp: nat, i: nat)
    requires 1 <= l <= |t.levels| && Upper(t, l) && LevelOk(t, l) && q < |t.levels[l - 1]| && pp == t.levels[l - 1][q]
    requires i + 1 < |Blocks(t, l)[q]|
    ensures
      var t' := SetEs(t, pp, SwapEs(Blocks(t, l)[q], i));
      && Upper(t', l) && LevelOk(t', l) && Slots(t', l + 1) == Slots(t, l + 1)
      && Blocks(t', l) == Blocks(t, l)[q := SwapEs(Blocks(t, l)[q], i)]
      && Below(t, l, q, i) + 1 < |Slots(t, l)| && Slots(t', l) == SwapVals(Slots(t, l), Below(t, l, q, i))
  {
    hide Expand, HealthyLevel, AgreeFrom, BlocksOk, BlockOk;
    var b := Blocks(t, l)[q];
    BlockAt(t, l, q);
    SwapBlock(t.n, b, Slots(t, l + 1)[q].lo, Slots(t, l + 1)[q].hi, i);
    SetEsUpper(t, l, q, pp, SwapEs(b, i));
    SetEsFrame(t, l, q, pp, SwapEs(b, i));
    SwapExpand(Blocks(t, l), Slots(t, l + 1), q, i);
  }

  lemma MergedAbove(t: Tree, l: nat, j: nat, q: nat, qi: nat)
    requires Mergeable(t, l, j, q, qi)
    ensures
      var tm := Merged(t, l, j, q, qi);
      && Upper(tm, l + 1) && LevelOk(tm, l + 1) && Slots(tm, l + 2) == Slots(t, l + 2)
      && Blocks(tm, l + 1) == Blocks(t, l + 1)[q := SwapEs(Blocks(t, l + 1)[q], qi)]
      && Slots(tm, l + 1) == SwapVals(Slots(t, l + 1), j)
  {
    hide Expand, HealthyLevel, AgreeFrom, BlocksOk, BlockOk, Upper, NoStrays;
    MergedPlaces(t, l, j, q, qi);
    var left, pp := t.levels[l - 1][j], t.levels[l][q];
    var t1 := SetEs(t, left, Blocks(t, l)[j] + Blocks(t, l)[j + 1]);
    SetEsLeft(t, l, left, Blocks(t, l)[j] + Blocks(t, l)[j + 1]);
    SwapNode(t1, l + 1, q, pp, qi);
  }

  lemma BlockAt(t: Tree, l: nat, j: nat)
    requires 1 <= l <= |t.levels| && LevelOk(t, l) && j < |t.levels[l - 1]|
    ensures BlockOk(t.n, Blocks(t, l)[j], Slots(t, l + 1)[j].lo, Slots(t, l + 1)[j].hi)
  {
  }

  lemma MergedLevel(t: Tree, l: nat, j: nat, q: nat, qi: nat)
    requires Mergeable(t, l, j, q, qi)
    ensures
      var tm := Merged(t, l, j, q, qi);
      && tm.levels == t.levels && NoStrays(tm, l) && OnLevel(tm, tm.levels[l - 1], l)
      && Blocks(tm, l) == Blocks(t, l)[j := Blocks(t, l)[j] + Blocks(t, l)[j + 1]]
      && SameBelow(t, tm, l)
  {
    hide Expand, HealthyLevel, BlocksOk, Slots, Upper;
    MergedPlaces(t, l, j, q, qi);
    var tm := Merged(t, l, j, q, qi);
    var ps := t.levels[l - 1];
    assert forall k :: 0 <= k < |ps| && k != j ==> ps[k] != ps[j];
    assert t.levels[l][q] !in ps;
  }

  lemma CollapseFlags(es: seq<Pair>, i: nat, s: set<nat>, s': set<nat>)
    requires i + 1 < |es| && s' <= s && es[i].val !in s'
    ensures
      var g, f := Flags(RemoveAt(SwapEs(es, i), i), s'), Flags(es, s);
      var c := f[..i] + [false] + f[i + 2..];
      |g| == |c| && forall k :: 0 <= k < |g| && g[k] ==> c[k]
  {
  }

  /** The level above is healthy once the pointer to the merged-away node is gone. */
  lemma MergeHealthy(t0: Tree, t: Tree, l: nat, j: nat, q: nat, qi: nat)
    requires Mergeable(t, l, j, q, qi) && 1 <= l < |t0.levels| && HealthyAbove(t0, l)
    requires t0.levels == t.levels && t0.n == t.n && GoodFanout(t.n) && Blocks(t0, l + 1) == Blocks(t, l + 1)
    ensures
      var tm := Merged(t, l, j, q, qi);
      && q < |tm.levels[l]| && qi < |Blocks(tm, l + 1)[q]|
      && HealthyBut(tm, l + 1, q, qi, Singles(t0, l) - {t.levels[l - 1][j], t.levels[l - 1][j + 1]})
  {
    hide Expand, BlocksOk, Healthy, Slots, Upper;
    MergedPlaces(t, l, j, q, qi);
    var s := Singles(t0, l);
    var s' := s - {t.levels[l - 1][j], t.levels[l - 1][j + 1]};
    var tm := Merged(t, l, j, q, qi);
    MergedAbove(t, l, j, q, qi);
    var bs, bs' := Blocks(t, l + 1), Blocks(tm, l + 1);
    forall k | 0 <= k < |bs'| && k != q
      ensures FlagsOk(t.n, Flags(bs'[k], s'))
    {
      HealthyMono(t.n, Flags(bs[k], s), Flags(bs[k], s'));
    }
    var b := bs[q];
    assert b[qi].val == t.levels[l - 1][j] by {
      ParentChild(t, l, j, q, qi, qi);
    }
    CollapseFlags(b, qi, s, s');
    var f := Flags(b, s);
    HealthyCollapse(t.n, f, qi);
    ThinnedMono(t.n, f[..qi] + [false] + f[qi + 2..], Flags(RemoveAt(SwapEs(b, qi), qi), s'));
  }

  /** `t` is `t0` with pair `i` of node `jc` gone from a level that is not the top one. */
  ghost predicate Taken(t0: Tree, t: Tree, l: nat, jc: nat, i: nat, key: nat, singles: set<nat>) {
    && RemoveReady(t0, l, jc, i, key, singles) && l < |t0.levels| && |Blocks(t0, l)[jc]| >= 2
    && t == SetEs(t0, t0.levels[l - 1][jc], RemoveAt(Blocks(t0, l)[jc], i))
    && t.levels == t0.levels
  }

  lemma TakenBounds(t0: Tree, t: Tree, l: nat, jc: nat, i: nat, key: nat, singles: set<nat>)
    requires Taken(t0, t, l, jc, i, key, singles)
    ensures 1 <= l < |t0.levels| && t.levels == t0.levels && t.n == t0.n
    ensures jc < |t0.levels[l - 1]| && i < |Blocks(t0, l)[jc]|
  {
  }

  lemma TakenFacts(t0: Tree, t: Tree, l: nat, jc: nat, i: nat, key: nat, singles: set<nat>)
    requires Taken(t0, t, l, jc, i, key, singles)
    ensures 1 <= l < |t0.levels| && LevelOk(t0, l) && jc < |t0.levels[l - 1]|
    ensures t.levels == t0.levels && t.n == t0.n && Upper(t, l + 1) && LevelOk(t, l + 1) && NoStrays(t, l)
    ensures OnLevel(t, t.levels[l - 1], l) && NoDup(t.levels[l - 1])
    ensures Slots(t, l + 1) == Slots(t0, l + 1) && ValsAre(Slots(t, l + 1), t.levels[l - 1])
    ensures Blocks(t, l) == Blocks(t0, l)[jc := RemoveAt(Blocks(t0, l)[jc], i)]
    ensures BlocksOk(t.n, Blocks(t, l), Slots(t, l + 1)) && Blocks(t, l + 1) == Blocks(t0, l + 1)
    ensures forall k :: 0 <= k < |t.levels[l - 1]| ==> |Blocks(t, l)[k]| >= 1
    ensures RemovedSlots(t0, t, l, Below(t0, l, jc, i), i + 1 < |Blocks(t0, l)[jc]|)
    ensures HealthyLevel(t, l, singles) && HealthyAbove(t0, l) && GoodFanout(t.n) && RootOk(t)
    ensures SameBelow(t0, t, l)
  {
    hide Expand, BlocksOk, HealthyLevel, Flags, RemovedSlots, Slots, Singles;
    var p := t0.levels[l - 1][jc];
    ReadyOwned(t0, l, jc, i, key, singles);
    RemoveSlots(t0, l, jc, p, i);
    SetEsFrame(t0, l, jc, p, RemoveAt(Blocks(t0, l)[jc], i));
    assert LevelOk(t0, l + 1) && LevelOk(t, l + 1);
    SetEsAbove(t0, l, p, RemoveAt(Blocks(t0, l)[jc], i));
    HealthyThinned(t0, l, jc, p, i, singles);
    RootAbove(t0, l, p, RemoveAt(Blocks(t0, l)[jc], i));
    RemoveSame(t0, l, p, RemoveAt(Blocks(t0, l)[jc], i));
  }

  lemma MergeSetup(t0: Tree, t: Tree, l: nat, jc: nat, i: nat, key: nat, singles: set<nat>, j: nat, q: nat, qi: nat)
    requires Taken(t0, t, l, jc, i, key, singles) && Parent(t, l, j, q, qi)
    requires j + 1 < |Lv(t, l)| && qi + 1 < |Blk(t, l + 1, q)| && |Blk(t, l, j)| + |Blk(t, l, j + 1)| <= t.n
    ensures Mergeable(t, l, j, q, qi)
  {
    hide Expand, BlocksOk, HealthyLevel, Flags, RemovedSlots, Slots, Singles, Taken, Upper, NoStrays, SameBelow;
    TakenFacts(t0, t, l, jc, i, key, singles);
  }

  lemma MergedRoot(t: Tree, l: nat, j: nat, q: nat, qi: nat)
    requires Mergeable(t, l, j, q, qi) && RootOk(t)
    ensures RootOk(Merged(t, l, j, q, qi))
  {
    hide Expand, BlocksOk, HealthyLevel, Flags, Slots, HealthyAbove, NoStrays, NoDup, Parent;
    MergedPlaces(t, l, j, q, qi);
    assert LevelOk(t, |t.levels|);
    TopLevel(t);
  }

  /** The level above may be asked to let go of the merged-away node. */
  lemma MergeReady(t0: Tree, t: Tree, l: nat, jc: nat, i: nat, key: nat, singles: set<nat>, j: nat, q: nat, qi: nat)
    requires Taken(t0, t, l, jc, i, key, singles) && Mergeable(t, l, j, q, qi)
    ensures
      var tm, gone := Merged(t, l, j, q, qi), {t.levels[l - 1][j], t.levels[l - 1][j + 1]};
      && RemoveReady(tm, l + 1, q, qi, Blocks(t, l + 1)[q][qi].key, Singles(t0, l) - gone)
      && Below(tm, l + 1, q, qi) == j
  {
    hide Expand, BlocksOk, HealthyLevel, Flags, RemovedSlots, Singles, Taken, HealthyBut, NoStrays, SameBelow, HealthyAbove;
    TakenFacts(t0, t, l, jc, i, key, singles);
    MergedAbove(t, l, j, q, qi);
    MergeHealthy(t0, t, l, j, q, qi);
    MergedRoot(t, l, j, q, qi);
    var tm := Merged(t, l, j, q, qi);
    BlockAt(tm, l + 1, q);
    UpperWeaken(tm, l + 1);
    UpperSlotsLim(tm, l + 2);
    var b, hi := Blocks(tm, l + 1)[q], Slots(tm, l + 2)[q].hi;
    assert b[qi].key == Blocks(t, l + 1)[q][qi].key;
    assert b[qi].key < hi <= tm.lim;
    assert Owns(Kid(b, hi, qi), b[qi].key);
    assert Blocks(tm, l + 1)[..q] == Blocks(t, l + 1)[..q];
    assert HealthyBut(tm, l + 1, q, qi, Singles(t0, l) - {t.levels[l - 1][j], t.levels[l - 1][j + 1]});
  }

  lemma MergeVals(up: seq<Slot>, up': seq<Slot>, ps: seq<nat>, j: nat)
    requires ValsAre(up, ps) && j + 1 < |ps| && Relaxed(RemoveAt(SwapVals(up, j), j), up')
    ensures ValsAre(up', RemoveAt(ps, j + 1))
  {
    var w := SwapVals(up, j);
    assert forall k :: 0 <= k < |up'| ==> RemoveAt(w, j)[k] == w[if k < j then k else k + 1];
  }

  lemma MergeSingles(t0: Tree, t: Tree, l: nat, jc: nat, i: nat, key: nat, singles: set<nat>, j: nat, q: nat, qi: nat)
    requires Taken(t0, t, l, jc, i, key, singles) && Mergeable(t, l, j, q, qi) && (jc == j || jc == j + 1)
    ensures
      var tm, left, right := Merged(t, l, j, q, qi), t.levels[l - 1][j], t.levels[l - 1][j + 1];
      forall x :: x in tm.levels[l - 1] && x != right && |Es(tm, x)| == 1 ==> x in Singles(t0, l) - {left, right}
  {
    hide Expand, BlocksOk, HealthyLevel, Slots, Upper, SameBelow, HealthyBut;
    MergedPlaces(t, l, j, q, qi);
    var tm, left, right := Merged(t, l, j, q, qi), t.levels[l - 1][j], t.levels[l - 1][j + 1];
    var ps := t.levels[l - 1];
    forall x | x in ps && x != right && |Es(tm, x)| == 1
      ensures x in Singles(t0, l) - {left, right}
    {
      assert |Es(tm, left)| >= 2;
      assert x in t.cells && t.cells[x].lvl == l;
    }
  }

  lemma MergedHealthyLevel(n: nat, bs: seq<seq<Pair>>, j: nat, singles: set<nat>)
    requires j + 1 < |bs| && forall k :: 0 <= k < |bs| ==> FlagsOk(n, Flags(bs[k], singles))
    requires FlagsOk(n, Flags(bs[j] + bs[j + 1], singles))
    ensures forall k :: 0 <= k < |MergeAt(bs, j)| ==> FlagsOk(n, Flags(MergeAt(bs, j)[k], singles))
  {
    var m := MergeAt(bs, j);
    forall k | 0 <= k < |m|
      ensures FlagsOk(n, Flags(m[k], singles))
    {
      if k != j {
        assert m[k] == bs[if k < j then k else k + 1];
      }
    }
  }

  lemma FlagsConcat(a: seq<Pair>, b: seq<Pair>, singles: set<nat>)
    ensures Flags(a + b, singles) == Flags(a, singles) + Flags(b, singles)
  {
  }

  /** Merging is only tried when the node that lost a pair is less than half full. */
  lemma MergeFlags(t0: Tree, t: Tree, l: nat, jc: nat, i: nat, key: nat, singles: set<nat>, j: nat, q: nat, qi: nat)
    requires Taken(t0, t, l, jc, i, key, singles) && Mergeable(t, l, j, q, qi) && (jc == j || jc == j + 1)
    requires |Blocks(t, l)[jc]| < t.n / 2
    ensures FlagsOk(t.n, Flags(Blocks(t, l)[j] + Blocks(t, l)[j + 1], singles))
  {
    hide Expand, BlocksOk, RemovedSlots, Singles, NoStrays, SameBelow, HealthyAbove, Slots, LevelOk, Upper, Healthy;
    TakenFacts(t0, t, l, jc, i, key, singles);
    var bs := Blocks(t, l);
    FlagsConcat(bs[j], bs[j + 1], singles);
    HealthyAt(t, l, singles, j);
    HealthyAt(t, l, singles, j + 1);
    assert Thinned(t.n, Flags(bs[jc], singles));
    HealthyMerge(t.n, Flags(bs[j], singles), Flags(bs[j + 1], singles));
  }

  lemma MergedBlocks(t: Tree, tm: Tree, l: nat, j: nat)
    requires 1 <= l <= |t.levels| && tm.levels == t.levels && j + 1 < |t.levels[l - 1]|
    requires Blocks(tm, l) == Blocks(t, l)[j := Blocks(t, l)[j] + Blocks(t, l)[j + 1]]
    ensures RemoveAt(Blocks(tm, l), j + 1) == MergeAt(Blocks(t, l), j)
  {
  }

  lemma MergeSlots(t: Tree, t2: Tree, l: nat, j: nat, q: nat, qi: nat)
    requires Mergeable(t, l, j, q, qi)
    requires RemovedSlots(Merged(t, l, j, q, qi), t2, l + 1, j, true)
    ensures BlocksOk(t.n, MergeAt(Blocks(t, l), j), Slots(t2, l + 1))
    ensures Widened(Expand(Blocks(t, l), Slots(t, l + 1)), Expand(MergeAt(Blocks(t, l), j), Slots(t2, l + 1)))
    ensures ValsAre(Slots(t2, l + 1), RemoveAt(t.levels[l - 1], j + 1))
  {
    hide Expand, BlocksOk, HealthyLevel, NoStrays, LevelOk, Widened, Relaxed, SlotsOk;
    MergedAbove(t, l, j, q, qi);
    UpperSlotsOk(t, l + 1);
    ExpandMerge(t.n, Blocks(t, l), Slots(t, l + 1), j, Slots(t2, l + 1));
    MergeVals(Slots(t, l + 1), Slots(t2, l + 1), t.levels[l - 1], j);
  }

  lemma MergeDropping(t: Tree, t2: Tree, l: nat, j: nat, q: nat, qi: nat, above: set<nat>)
    requires Mergeable(t, l, j, q, qi) && RemoveDone(Merged(t, l, j, q, qi), t2, l + 1, j, above, true)
    ensures Dropping(Merged(t, l, j, q, qi), t2, l, j + 1, t.levels[l - 1][j + 1])
    ensures forall k :: 0 <= k < |t.levels[l - 1]| && k != j + 1 ==> |Blocks(Merged(t, l, j, q, qi), l)[k]| >= 1
  {
    hide Expand, BlocksOk, HealthyLevel, LevelOk, Slots, RemovedSlots;
    MergedLevel(t, l, j, q, qi);
  }

  lemma MergeDone(t0: Tree, t: Tree, t2: Tree, l: nat, jc: nat, i: nat, key: nat, singles: set<nat>,
                  j: nat, q: nat, qi: nat)
    requires Taken(t0, t, l, jc, i, key, singles) && Mergeable(t, l, j, q, qi) && (jc == j || jc == j + 1)
    requires |Blocks(t, l)[jc]| < t.n / 2
    requires
      var gone := {t.levels[l - 1][j], t.levels[l - 1][j + 1]};
      RemoveDone(Merged(t, l, j, q, qi), t2, l + 1, j, Singles(t0, l) - gone, true)
    ensures 1 <= l <= |t2.levels| && t2.levels[l - 1] == t.levels[l - 1]
    ensures t.levels[l - 1][j + 1] in t2.cells && t.levels[l - 1][j + 1] != t2.root
    ensures RemoveDone(t0, DropNode(t2, l, j + 1, t.levels[l - 1][j + 1]), l, Below(t0, l, jc, i), singles,
                       i + 1 < |Blocks(t0, l)[jc]|)
  {
    hide Expand, BlocksOk, HealthyLevel, RemovedSlots, NoStrays, SameBelow, LevelOk, Upper, Widened, Taken, Mergeable, Dropping, ValsAre, RootOk, Singles, MergeAt;
    MergedPlaces(t, l, j, q, qi);
    TakenFacts(t0, t, l, jc, i, key, singles);
    var tm, right := Merged(t, l, j, q, qi), t.levels[l - 1][j + 1];
    var above := Singles(t0, l) - {t.levels[l - 1][j], right};
    MergedLevel(t, l, j, q, qi);
    MergedBlocks(t, tm, l, j);
    MergeSlots(t, t2, l, j, q, qi);
    MergeDropping(t, t2, l, j, q, qi, above);
    MergeSingles(t0, t, l, jc, i, key, singles, j, q, qi);
    DropUpper(tm, t2, l, j + 1, right, above);
    DropFrame(tm, t2, l, j + 1, right);
    DropSizes(Blocks(tm, l), j + 1);
    DropRoot(tm, t2, l, j + 1, right, above);
    MergeFlags(t0, t, l, jc, i, key, singles, j, q, qi);
    MergeHealthyEnd(t, tm, t2, l, j, right, singles);
    RootStays(t2, l, j + 1, right);
    DroppedLive(tm, t2, l, j + 1, right);
    SameBelowTrans(t0, t, tm, l);
    SameBelowTrans(t0, tm, DropNode(t2, l, j + 1, right), l);
    RemovedThenWidened(t0, t, DropNode(t2, l, j + 1, right), l, Below(t0, l, jc, i), i + 1 < |Blocks(t0, l)[jc]|);
  }

  lemma MergeHealthyEnd(t: Tree, tm: Tree, t2: Tree, l: nat, j: nat, right: nat, singles: set<nat>)
    requires 1 <= l <= |t.levels| && tm.levels == t.levels && tm.n == t.n && j + 1 < |t.levels[l - 1]|
    requires Dropping(tm, t2, l, j + 1, right) && t2.levels[l - 1] == tm.levels[l - 1] && t2.n == t.n
    requires RemoveAt(Blocks(tm, l), j + 1) == MergeAt(Blocks(t, l), j) && HealthyLevel(t, l, singles)
    requires FlagsOk(t.n, Flags(Blocks(t, l)[j] + Blocks(t, l)[j + 1], singles))
    ensures HealthyLevel(DropNode(t2, l, j + 1, right), l, singles)
  {
    hide Slots, Upper, FlagsOk, Flags;
    DropBlocks(tm, t2, l, j + 1, right);
    MergedHealthyLevel(t.n, Blocks(t, l), j, singles);
  }

  // --- glue for the procedures ---

  lemma RemoveDoneWeaken(t: Tree, t': Tree, l: nat, g: nat, singles: set<nat>, keepHi: bool, keepHi': bool)
    requires RemoveDone(t, t', l, g, singles, keepHi) && (keepHi' ==> keepHi)
    ensures RemoveDone(t, t', l, g, singles, keepHi')
  {
    hide Upper, SameBelow, HealthyLevel, Slots, Relaxed, Widened;
  }

  ghost predicate HasKey(es: seq<Pair>, key: nat) {
    exists k :: 0 <= k < |es| && es[k].key == key
  }

  /** A key of the node, or the removed key itself, still leads to the node. */
  lemma KeyStillOwned(t0: Tree, t: Tree, l: nat, jc: nat, i: nat, key: nat, singles: set<nat>, key': nat)
    requires Taken(t0, t, l, jc, i, key, singles) && (key' == key || HasKey(Blk(t, l, jc), key'))
    ensures jc < |Slots(t, l + 1)| && Owns(Slots(t, l + 1)[jc], key')
    ensures Owned(Slots(t, l + 1), key') && Owned(Slots(t, l + 2), key') && key' < t.lim
  {
    hide Expand, HealthyLevel, Flags, RemovedSlots, HealthyBut, SameBelow, Slots, LevelOk, Upper, NoStrays, HealthyAbove;
    TakenFacts(t0, t, l, jc, i, key, singles);
    ReadyOwned(t0, l, jc, i, key, singles);
    assert BlockOk(t.n, Blocks(t, l)[jc], Slots(t, l + 1)[jc].lo, Slots(t, l + 1)[jc].hi);
    OwnedAbove(t, l + 1, l + 2, key');
    UpperSlotsLim(t, l + 1);
  }

  lemma RootNonempty(t: Tree)
    requires RootOk(t) && |t.levels| >= 2
    ensures |Es(t, t.root)| >= 1
  {
  }

  lemma MergedSlot(t: Tree, l: nat, j: nat, q: nat, qi: nat)
    requires Mergeable(t, l, j, q, qi)
    ensures
      var tm, pp := Merged(t, l, j, q, qi), t.levels[l][q];
      && tm.levels == t.levels && pp in tm.cells && tm.cells[pp].es == Blocks(tm, l + 1)[q]
      && qi + 1 < |tm.cells[pp].es| && tm.cells[pp].es[qi].key == Blocks(t, l + 1)[q][qi].key
  {
    hide Mergeable, Upper, LevelOk, Slots;
    MergedPlaces(t, l, j, q, qi);
  }

  lemma ReadyParent(t: Tree, l: nat, j: nat, i: nat, key: nat, singles: set<nat>) returns (q: nat, qi: nat)
    requires RemoveReady(t, l, j, i, key, singles) && l < |t.levels|
    ensures Parent(t, l, j, q, qi)
  {
    hide Expand, BlocksOk, HealthyLevel, HealthyBut;
    assert LevelOk(t, l + 1);
    q, qi := ParentExists(t, l, j);
  }

  lemma ParentShift(t: Tree, l: nat, j: nat, q: nat, i: nat)
    requires Parent(t, l, j, q, i) && i > 0
    ensures j > 0 && Parent(t, l, j - 1, q, i - 1)
  {
  }

  lemma TakenBlock(t0: Tree, t: Tree, l: nat, jc: nat, i: nat, key: nat, singles: set<nat>)
    requires Taken(t0, t, l, jc, i, key, singles)
    ensures 1 <= l < |t0.levels| && jc < |t0.levels[l - 1]|
    ensures t.n == t0.n && |Blk(t, l, jc)| == |Blk(t0, l, jc)| - 1
  {
    hide Expand, HealthyBut, Upper, Slots, Below;
    SetEsBlocks(t0, l, jc, RemoveAt(Blocks(t0, l)[jc], i));
  }

  lemma TakenParent(t0: Tree, t: Tree, l: nat, jc: nat, i: nat, key: nat, singles: set<nat>, q: nat, qi: nat)
    requires Taken(t0, t, l, jc, i, key, singles) && Parent(t, l, jc, q, qi)
    ensures Parent(t0, l, jc, q, qi)
    ensures forall k :: 0 <= k < |t.levels[l - 1]| && k != jc ==> Blocks(t0, l)[k] == Blocks(t, l)[k]
    ensures Blocks(t0, l + 1) == Blocks(t, l + 1)
  {
    hide Expand, BlocksOk, HealthyLevel, HealthyBut, RemovedSlots, Flags, SameBelow;
    TakenFacts(t0, t, l, jc, i, key, singles);
    UpperWeakenTo(t0, l, l + 1);
    SetEsLeft(t0, l, t0.levels[l - 1][jc], RemoveAt(Blocks(t0, l)[jc], i));
    assert LevelOk(t0, l + 1);
  }

  /** rebalance() returns without merging. */
  lemma TakenNoRoom(t0: Tree, t: Tree, l: nat, jc: nat, i: nat, key: nat, singles: set<nat>, q: nat, qi: nat)
    requires Taken(t0, t, l, jc, i, key, singles) && Parent(t, l, jc, q, qi)
    requires NoRoom(t, l, jc, q, qi, |Blk(t, l, jc)|)
    ensures NoRoom(t0, l, jc, q, qi, |Blk(t, l, jc)|)
  {
    hide Expand, HealthyBut, Upper, LevelOk, Slots, Below;
    TakenParent(t0, t, l, jc, i, key, singles, q, qi);
    TakenBlock(t0, t, l, jc, i, key, singles);
  }

  lemma ThinDone(t0: Tree, t: Tree, l: nat, jc: nat, i: nat, key: nat, singles: set<nat>, q: nat, qi: nat)
    requires Taken(t0, t, l, jc, i, key, singles) && Parent(t, l, jc, q, qi)
    requires NoRoom(t, l, jc, q, qi, |Blk(t, l, jc)|)
    ensures RemoveDone(t0, t, l, Below(t0, l, jc, i), singles, i + 1 < |Blk(t0, l, jc)|)
  {
    hide Expand, RemoveDone, RemoveReady, NoRoom, Parent, Slots, Below;
    TakenBlock(t0, t, l, jc, i, key, singles);
    TakenParent(t0, t, l, jc, i, key, singles, q, qi);
    TakenNoRoom(t0, t, l, jc, i, key, singles, q, qi);
    RemoveThin(t0, l, jc, t0.levels[l - 1][jc], i, key, singles, q, qi);
  }

  lemma TakenBlocks(t0: Tree, t: Tree, l: nat, jc: nat, i: nat, key: nat, singles: set<nat>, k: nat)
    requires Taken(t0, t, l, jc, i, key, singles) && k < |t.levels[l - 1]|
    ensures t.levels[l - 1][k] in t.cells && Blocks(t, l)[k] == t.cells[t.levels[l - 1][k]].es
    ensures t.cells[t.levels[l - 1][k]].lvl == l
  {
    hide Expand, BlocksOk, HealthyLevel, HealthyBut, RemovedSlots, Flags, SameBelow, Upper;
    TakenFacts(t0, t, l, jc, i, key, singles);
  }

  lemma ParentBounds(t: Tree, l: nat, j: nat, q: nat, i: nat)
    requires Parent(t, l, j, q, i)
    ensures 1 <= l < |t.levels| && q < |t.levels[l]| && j < |t.levels[l - 1]| && i < |Blocks(t, l + 1)[q]|
    ensures i > 0 ==> j >= 1
    ensures i + 1 < |Blocks(t, l + 1)[q]| ==> j + 1 < |t.levels[l - 1]|
  {
    hide Expand, LevelOk, Slots;
    if i + 1 < |Blocks(t, l + 1)[q]| {
      ParentChild(t, l, j, q, i, i + 1);
    }
    if i > 0 {
      ParentChild(t, l, j, q, i, i - 1);
    }
  }

  lemma NoRoomIs(t: Tree, l: nat, j: nat, q: nat, i: nat, fill: nat)
    requires Parent(t, l, j, q, i)
    requires i > 0 ==> fill + |Blk(t, l, j - 1)| > t.n
    requires i + 1 < |Blk(t, l + 1, q)| ==> fill + |Blk(t, l, j + 1)| > t.n
    ensures NoRoom(t, l, j, q, i, fill)
  {
    ParentBounds(t, l, j, q, i);
  }
}
