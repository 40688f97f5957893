/**
 The whole B+tree as a value: which pairs each node holds and which nodes make up
 each level, level 1 being the leaves.  `Upper(t, l)` is the invariant of the levels
 from `l` upwards; the procedures that work on level `l` rely on nothing below it.
 */
module BTreeShape {
  import opened BTreeSlots
  import opened BTreeHealth

  datatype Cell = Cell(lvl: nat, es: seq<Pair>)

  datatype Tree = Tree(n: nat, lim: nat, cells: map<nat, Cell>, levels: seq<seq<nat>>, root: nat)

  ghost function Es(t: Tree, p: nat): seq<Pair> {
    if p in t.cells then t.cells[p].es else []
  }

  ghost function Blocks(t: Tree, l: nat): (bs: seq<seq<Pair>>)
    requires 1 <= l <= |t.levels|
    ensures |bs| == |t.levels[l - 1]|
  {
    seq(|t.levels[l - 1]|, j requires 0 <= j < |t.levels[l - 1]| => Es(t, t.levels[l - 1][j]))
  }

  /** The key intervals of the pairs on level `l`; above the root, the interval of all keys. */
  ghost function Slots(t: Tree, l: nat): seq<Slot>
    requires 1 <= l
    decreases |t.levels| + 1 - l
  {
    if l > |t.levels| then [Slot(0, t.lim, t.root)] else Expand(Blocks(t, l), Slots(t, l + 1))
  }

  ghost predicate NoDup(ps: seq<nat>) {
    forall i, j :: 0 <= i < j < |ps| ==> ps[i] != ps[j]
  }

  ghost predicate ValsAre(s: seq<Slot>, ps: seq<nat>) {
    |s| == |ps| && forall g :: 0 <= g < |s| ==> s[g].val == ps[g]
  }

  ghost predicate OnLevel(t: Tree, ps: seq<nat>, l: nat) {
    forall j :: 0 <= j < |ps| ==> ps[j] in t.cells && t.cells[ps[j]].lvl == l
  }

  /** Level `l` hangs off the pairs above it, and every node keeps to its interval. */
  ghost predicate LevelOk(t: Tree, l: nat)
    requires 1 <= l <= |t.levels|
  {
    var ps, up := t.levels[l - 1], Slots(t, l + 1);
    && ValsAre(up, ps)
    && OnLevel(t, ps, l)
    && NoDup(ps)
    && BlocksOk(t.n, Blocks(t, l), up)
    && (l < |t.levels| ==> forall j :: 0 <= j < |ps| ==> |Blocks(t, l)[j]| >= 1)
  }

  /** Level `l` and its parts, empty outside the tree. */
  ghost function Lv(t: Tree, l: nat): seq<nat> {
    if 1 <= l <= |t.levels| then t.levels[l - 1] else []
  }

  ghost function Ptr(t: Tree, l: nat, j: nat): nat {
    if j < |Lv(t, l)| then Lv(t, l)[j] else 0
  }

  ghost function Blk(t: Tree, l: nat, j: nat): seq<Pair> {
    if j < |Lv(t, l)| then Blocks(t, l)[j] else []
  }

  ghost function Singles(t: Tree, l: nat): set<nat> {
    set p | p in Lv(t, l) && |Es(t, p)| == 1
  }

  ghost function Flags(es: seq<Pair>, singles: set<nat>): seq<bool> {
    seq(|es|, i requires 0 <= i < |es| => es[i].val in singles)
  }

  ghost predicate HealthyLevel(t: Tree, l: nat, singles: set<nat>)
    requires 1 <= l <= |t.levels|
  {
    forall j :: 0 <= j < |t.levels[l - 1]| ==> FlagsOk(t.n, Flags(Blocks(t, l)[j], singles))
  }

  ghost predicate HealthyAbove(t: Tree, l: nat)
    requires 1 <= l < |t.levels|
  {
    HealthyLevel(t, l + 1, Singles(t, l))
  }

  /** No node of level `l` or above lies outside the tree. */
  ghost predicate NoStrays(t: Tree, l: nat) {
    forall p :: p in t.cells && t.cells[p].lvl >= l ==>
      1 <= t.cells[p].lvl <= |t.levels| && p in t.levels[t.cells[p].lvl - 1]
  }

  ghost predicate Upper(t: Tree, l: nat) {
    && GoodFanout(t.n) && 0 < t.lim
    && 1 <= l <= |t.levels| + 1
    && (forall k :: l <= k <= |t.levels| ==> LevelOk(t, k))
    && (forall k :: l <= k < |t.levels| ==> HealthyAbove(t, k))
    && NoStrays(t, l)
  }

  ghost predicate RootOk(t: Tree) {
    |t.levels| >= 2 ==> |Es(t, t.root)| >= 2
  }

  // --- framing: levels below do not matter ---

  ghost predicate AgreeFrom(t: Tree, t': Tree, l: nat) {
    && t.n == t'.n && t.lim == t'.lim && t.root == t'.root
    && |t.levels| == |t'.levels|
    && (forall i :: 0 <= i < |t.levels| && l <= i + 1 ==> t.levels[i] == t'.levels[i])
    && (forall p :: p in t.cells && t.cells[p].lvl >= l ==> p in t'.cells && t'.cells[p] == t.cells[p])
    && (forall p :: p in t'.cells && t'.cells[p].lvl >= l ==> p in t.cells && t'.cells[p] == t.cells[p])
  }

  lemma BlocksAgree(t: Tree, t': Tree, l: nat, k: nat)
    requires 1 <= l <= k <= |t.levels| && AgreeFrom(t, t', l) && LevelOk(t, k)
    ensures Blocks(t, k) == Blocks(t', k)
    ensures Singles(t, k) == Singles(t', k)
  {
  }

  lemma {:induction false} SlotsAgree(t: Tree, t': Tree, l: nat, k: nat)
    requires 1 <= l <= k <= |t.levels| + 1 && AgreeFrom(t, t', l) && Upper(t, l)
    ensures Slots(t, k) == Slots(t', k)
    decreases |t.levels| + 1 - k
  {
    if k <= |t.levels| {
      assert LevelOk(t, k);
      SlotsAgree(t, t', l, k + 1);
      BlocksAgree(t, t', l, k);
    }
  }

  lemma LevelAgree(t: Tree, t': Tree, l: nat, k: nat)
    requires Upper(t, l) && AgreeFrom(t, t', l) && l <= k <= |t.levels| && LevelOk(t, k)
    ensures LevelOk(t', k)
  {
    SlotsAgree(t, t', l, k + 1);
    BlocksAgree(t, t', l, k);
  }

  lemma HealthyAgree(t: Tree, t': Tree, l: nat, k: nat)
    requires Upper(t, l) && AgreeFrom(t, t', l) && l <= k < |t.levels| && HealthyAbove(t, k)
    requires LevelOk(t, k) && LevelOk(t, k + 1)
    ensures HealthyAbove(t', k)
  {
    BlocksAgree(t, t', l, k);
    BlocksAgree(t, t', l, k + 1);
  }

  lemma UpperAgree(t: Tree, t': Tree, l: nat)
    requires Upper(t, l) && AgreeFrom(t, t', l)
    ensures Upper(t', l)
    ensures Slots(t', l) == Slots(t, l)
  {
    SlotsAgree(t, t', l, l);
    forall k | l <= k <= |t.levels|
      ensures LevelOk(t', k)
    {
      LevelAgree(t, t', l, k);
    }
    forall k | l <= k < |t.levels|
      ensures HealthyAbove(t', k)
    {
      assert LevelOk(t, k) && LevelOk(t, k + 1);
      HealthyAgree(t, t', l, k);
    }
  }

  lemma UpperWeaken(t: Tree, l: nat)
    requires Upper(t, l) && l <= |t.levels|
    ensures Upper(t, l + 1)
  {
  }

  /** What has to be shown to add one level to the invariant. */
  lemma UpperExtend(t: Tree, l: nat)
    requires 1 <= l <= |t.levels| && Upper(t, l + 1) && LevelOk(t, l) && NoStrays(t, l)
    requires l < |t.levels| ==> HealthyAbove(t, l)
    ensures Upper(t, l)
  {
  }

  lemma {:induction false} UpperSlotsOk(t: Tree, l: nat)
    requires Upper(t, l)
    ensures SlotsOk(Slots(t, l))
    decreases |t.levels| + 1 - l
  {
    hide Expand, Flags, FlagsOk, HealthyLevel, Singles, BlockOk;
    if l <= |t.levels| {
      UpperWeaken(t, l);
      UpperSlotsOk(t, l + 1);
      assert LevelOk(t, l);
      ExpandOk(t.n, Blocks(t, l), Slots(t, l + 1));
    }
  }

  lemma {:induction false} UpperSlotsLim(t: Tree, l: nat)
    requires Upper(t, l)
    ensures forall g :: 0 <= g < |Slots(t, l)| ==> Slots(t, l)[g].hi <= t.lim
    decreases |t.levels| + 1 - l
  {
    hide Expand, Flags, FlagsOk, HealthyLevel, Singles, BlockOk;
    if l <= |t.levels| {
      UpperWeaken(t, l);
      UpperSlotsLim(t, l + 1);
      assert LevelOk(t, l);
      ExpandBelow(t.n, Blocks(t, l), Slots(t, l + 1), t.lim);
    }
  }

  lemma TopLevel(t: Tree)
    requires |t.levels| >= 1 && LevelOk(t, |t.levels|)
    ensures t.levels[|t.levels| - 1] == [t.root]
    ensures t.root in t.cells && t.cells[t.root].lvl == |t.levels|
  {
    var h := |t.levels|;
    assert Slots(t, h + 1) == [Slot(0, t.lim, t.root)];
    assert t.levels[h - 1][0] == t.root;
  }

  // --- owners ---

  ghost predicate Owned(s: seq<Slot>, key: nat) {
    exists j :: 0 <= j < |s| && Owns(s[j], key)
  }

  /** A key owned on one level is owned on every level above it. */
  lemma {:induction false} OwnedAbove(t: Tree, l: nat, k: nat, key: nat)
    requires Upper(t, l) && l <= k <= |t.levels| + 1 && Owned(Slots(t, l), key)
    ensures Owned(Slots(t, k), key)
    decreases k - l
  {
    hide Expand, HealthyLevel, Singles, BlocksOk;
    if l < k {
      assert LevelOk(t, l);
      var g :| 0 <= g < |Slots(t, l)| && Owns(Slots(t, l)[g], key);
      var j, i := OwnerAbove(t.n, Blocks(t, l), Slots(t, l + 1), g, key);
      UpperWeaken(t, l);
      OwnedAbove(t, l + 1, k, key);
    }
  }

  /** `i` is where a scan for the first key not above `key` stops. */
  ghost predicate IsPos(es: seq<Pair>, key: nat, i: nat) {
    && i <= |es|
    && (forall k :: 0 <= k < i ==> key < es[k].key)
    && (i < |es| ==> es[i].key <= key)
  }

  lemma PosFound(n: nat, bs: seq<seq<Pair>>, up: seq<Slot>, j: nat, i: nat, key: nat)
    requires BlocksOk(n, bs, up) && j < |bs| && i < |bs[j]|
    requires Owns(up[j], key) && IsPos(bs[j], key, i)
    ensures
      var g := Offset(bs, up, j) + i;
      g < |Expand(bs, up)| && Owns(Expand(bs, up)[g], key) && Expand(bs, up)[g] == Kid(bs[j], up[j].hi, i)
  {
    ExpandIndex(bs, up, j, i);
    assert Owns(Kid(bs[j], up[j].hi, i), key);
  }

  lemma PosMissed(n: nat, bs: seq<seq<Pair>>, up: seq<Slot>, j: nat, key: nat)
    requires BlocksOk(n, bs, up) && SlotsOk(up) && j < |bs|
    requires Owns(up[j], key) && IsPos(bs[j], key, |bs[j]|)
    ensures !Owned(Expand(bs, up), key)
  {
    if Owned(Expand(bs, up), key) {
      var g :| 0 <= g < |Expand(bs, up)| && Owns(Expand(bs, up)[g], key);
      var j', i' := OwnerAbove(n, bs, up, g, key);
      OwnerUnique(up, j, j', key);
      assert false;
    }
  }

  /** The scan finds the owner among a node's pairs, and only when there is one. */
  lemma PosOwner(t: Tree, l: nat, j: nat, i: nat, key: nat)
    requires 1 <= l <= |t.levels| && Upper(t, l) && LevelOk(t, l) && j < |t.levels[l - 1]|
    requires Owns(Slots(t, l + 1)[j], key) && IsPos(Blocks(t, l)[j], key, i)
    ensures
      var g := Offset(Blocks(t, l), Slots(t, l + 1), j) + i;
      && (i < |Blocks(t, l)[j]| ==> g < |Slots(t, l)| && Owns(Slots(t, l)[g], key)
                                    && Slots(t, l)[g] == Kid(Blocks(t, l)[j], Slots(t, l + 1)[j].hi, i))
      && (i == |Blocks(t, l)[j]| ==> !Owned(Slots(t, l), key))
  {
    hide Expand, HealthyAbove, NoStrays, BlocksOk, OnLevel, NoDup;
    if i < |Blocks(t, l)[j]| {
      PosFound(t.n, Blocks(t, l), Slots(t, l + 1), j, i, key);
    } else {
      UpperWeaken(t, l);
      UpperSlotsOk(t, l + 1);
      PosMissed(t.n, Blocks(t, l), Slots(t, l + 1), j, key);
    }
  }

  // --- changing the pairs of one node ---

  ghost function SetEs(t: Tree, p: nat, es: seq<Pair>): Tree
    requires p in t.cells
  {
    t.(cells := t.cells[p := Cell(t.cells[p].lvl, es)])
  }

  lemma SetEsAgree(t: Tree, l: nat, p: nat, es: seq<Pair>)
    requires p in t.cells && t.cells[p].lvl == l && NoStrays(t, l)
    ensures AgreeFrom(t, SetEs(t, p, es), l + 1)
    ensures NoStrays(SetEs(t, p, es), l)
  {
  }

  lemma SetEsBlocks(t: Tree, l: nat, j: nat, es: seq<Pair>)
    requires 1 <= l <= |t.levels| && j < |t.levels[l - 1]| && NoDup(t.levels[l - 1])
    requires t.levels[l - 1][j] in t.cells
    ensures Blocks(SetEs(t, t.levels[l - 1][j], es), l) == Blocks(t, l)[j := es]
  {
    var ps := t.levels[l - 1];
    assert forall k :: 0 <= k < |ps| && k != j ==> ps[k] != ps[j];
  }

  lemma SetEsFrame(t: Tree, l: nat, j: nat, p: nat, es: seq<Pair>)
    requires 1 <= l <= |t.levels| && Upper(t, l) && LevelOk(t, l)
    requires j < |t.levels[l - 1]| && p == t.levels[l - 1][j]
    ensures Upper(SetEs(t, p, es), l + 1) && Slots(SetEs(t, p, es), l + 1) == Slots(t, l + 1)
    ensures Blocks(SetEs(t, p, es), l) == Blocks(t, l)[j := es]
    ensures NoStrays(SetEs(t, p, es), l)
  {
    hide Expand, BlocksOk, Flags, FlagsOk, HealthyLevel, Singles;
    var t' := SetEs(t, p, es);
    UpperWeaken(t, l);
    SetEsAgree(t, l, p, es);
    UpperAgree(t, t', l + 1);
    SetEsBlocks(t, l, j, es);
  }

  lemma SetEsAbove(t: Tree, l: nat, p: nat, es: seq<Pair>)
    requires 1 <= l < |t.levels| && p in t.cells && t.cells[p].lvl == l && LevelOk(t, l + 1)
    ensures Blocks(SetEs(t, p, es), l + 1) == Blocks(t, l + 1)
  {
  }

  lemma SetEsLevel(t: Tree, l: nat, j: nat, p: nat, es: seq<Pair>)
    requires 1 <= l <= |t.levels| && Upper(t, l) && LevelOk(t, l)
    requires j < |t.levels[l - 1]| && p == t.levels[l - 1][j]
    requires BlockOk(t.n, es, Slots(t, l + 1)[j].lo, Slots(t, l + 1)[j].hi)
    requires l < |t.levels| ==> |es| >= 1
    ensures LevelOk(SetEs(t, p, es), l)
  {
    SetEsFrame(t, l, j, p, es);
    BlocksReplace(t.n, Blocks(t, l), Slots(t, l + 1), j, es);
  }

  ghost predicate FewerSingles(es: seq<Pair>, es': seq<Pair>) {
    |es'| >= 1 && (|es'| == 1 ==> |es| == 1)
  }

  lemma HealthyLevelMono(t: Tree, l: nat, s: set<nat>, s': set<nat>)
    requires 1 <= l <= |t.levels| && HealthyLevel(t, l, s) && s' <= s
    ensures HealthyLevel(t, l, s')
  {
    forall j | 0 <= j < |t.levels[l - 1]|
      ensures FlagsOk(t.n, Flags(Blocks(t, l)[j], s'))
    {
      HealthyMono(t.n, Flags(Blocks(t, l)[j], s), Flags(Blocks(t, l)[j], s'));
    }
  }

  lemma SetEsHealthy(t: Tree, l: nat, p: nat, es: seq<Pair>)
    requires 1 <= l < |t.levels| && p in t.cells && t.cells[p].lvl == l && LevelOk(t, l + 1)
    requires HealthyAbove(t, l) && FewerSingles(t.cells[p].es, es)
    ensures HealthyAbove(SetEs(t, p, es), l)
  {
    var t' := SetEs(t, p, es);
    SetEsAbove(t, l, p, es);
    assert HealthyLevel(t', l + 1, Singles(t, l));
    HealthyLevelMono(t', l + 1, Singles(t, l), Singles(t', l));
  }

  /** Changing a node's pairs without making it single. */
  lemma SetEsUpper(t: Tree, l: nat, j: nat, p: nat, es: seq<Pair>)
    requires 1 <= l <= |t.levels| && Upper(t, l) && LevelOk(t, l)
    requires j < |t.levels[l - 1]| && p == t.levels[l - 1][j]
    requires BlockOk(t.n, es, Slots(t, l + 1)[j].lo, Slots(t, l + 1)[j].hi)
    requires l < |t.levels| ==> FewerSingles(t.cells[p].es, es)
    ensures Upper(SetEs(t, p, es), l)
  {
    SetEsFrame(t, l, j, p, es);
    SetEsLevel(t, l, j, p, es);
    if l < |t.levels| {
      assert LevelOk(t, l + 1) && HealthyAbove(t, l);
      SetEsHealthy(t, l, p, es);
    }
    UpperExtend(SetEs(t, p, es), l);
  }

  // --- lowering a separator, as the descent for an insertion does ---

  ghost predicate LoLowered(s: seq<Slot>, s': seq<Slot>) {
    && |s| == |s'|
    && forall g :: 0 <= g < |s| ==> s'[g].hi == s[g].hi && s'[g].val == s[g].val && s'[g].lo <= s[g].lo
  }

  lemma LowerLevel(t: Tree, t': Tree, k: nat)
    requires 1 <= k <= |t.levels| && t'.levels == t.levels && t'.n == t.n && LevelOk(t, k)
    requires forall q :: q in t.cells && t.cells[q].lvl == k ==> q in t'.cells && t'.cells[q] == t.cells[q]
    requires LoLowered(Slots(t, k + 1), Slots(t', k + 1))
    ensures LevelOk(t', k) && Slots(t', k) == Slots(t, k) && Blocks(t', k) == Blocks(t, k)
  {
    assert Blocks(t', k) == Blocks(t, k);
    ExpandHiOnly(Blocks(t, k), Slots(t, k + 1), Slots(t', k + 1));
    forall j | 0 <= j < |Blocks(t, k)|
      ensures BlockOk(t.n, Blocks(t', k)[j], Slots(t', k + 1)[j].lo, Slots(t', k + 1)[j].hi)
    {
      assert BlockOk(t.n, Blocks(t, k)[j], Slots(t, k + 1)[j].lo, Slots(t, k + 1)[j].hi);
    }
  }

  /** Below the level where a separator was lowered nothing else moves. */
  lemma {:induction false} LowerBelow(t: Tree, t': Tree, l: nat, k: nat)
    requires Upper(t, l) && l <= k <= |t.levels| && Upper(t', k + 1) && NoStrays(t', l)
    requires t'.n == t.n && t'.levels == t.levels
    requires forall q :: q in t.cells && t.cells[q].lvl <= k ==> q in t'.cells && t'.cells[q] == t.cells[q]
    requires LoLowered(Slots(t, k + 1), Slots(t', k + 1))
    requires k < |t.levels| ==> HealthyLevel(t', k + 1, Singles(t, k))
    ensures Upper(t', l)
    ensures Slots(t', l) == Slots(t, l)
  {
    hide Expand, BlocksOk, Flags, FlagsOk, HealthyLevel, Blocks;
    assert LevelOk(t, k);
    LowerLevel(t, t', k);
    if k < |t.levels| {
      assert HealthyAbove(t', k) by {
        SinglesSame(t, t', k);
      }
    }
    UpperExtend(t', k);
    if l < k {
      assert LevelOk(t, k - 1) && HealthyAbove(t, k - 1);
      BlocksHealthy(t, t', k, Singles(t, k - 1));
      LowerBelow(t, t', l, k - 1);
    }
  }

  lemma SinglesSame(t: Tree, t': Tree, k: nat)
    requires 1 <= k <= |t.levels| && t'.levels == t.levels
    requires forall q :: q in t.levels[k - 1] ==> q in t.cells && q in t'.cells && t'.cells[q] == t.cells[q]
    ensures Singles(t', k) == Singles(t, k)
  {
  }

  lemma BlocksHealthy(t: Tree, t': Tree, k: nat, singles: set<nat>)
    requires 1 <= k <= |t.levels| && k <= |t'.levels| && t'.levels[k - 1] == t.levels[k - 1] && t'.n == t.n
    requires Blocks(t', k) == Blocks(t, k) && HealthyLevel(t, k, singles)
    ensures HealthyLevel(t', k, singles)
  {
  }

  lemma {:induction false} UpperWeakenTo(t: Tree, l: nat, k: nat)
    requires Upper(t, l) && l <= k <= |t.levels| + 1
    ensures Upper(t, k)
  {
  }

  lemma FlagsVals(es: seq<Pair>, es': seq<Pair>, s: set<nat>)
    requires |es| == |es'| && forall i :: 0 <= i < |es| ==> es[i].val == es'[i].val
    ensures Flags(es, s) == Flags(es', s)
  {
  }

  lemma FlagsSame(t: Tree, l: nat, j: nat, p: nat, es: seq<Pair>, singles: set<nat>)
    requires 1 <= l <= |t.levels| && LevelOk(t, l) && HealthyLevel(t, l, singles)
    requires j < |t.levels[l - 1]| && p == t.levels[l - 1][j]
    requires FlagsOk(t.n, Flags(es, singles))
    ensures HealthyLevel(SetEs(t, p, es), l, singles)
  {
    SetEsBlocks(t, l, j, es);
  }

  ghost function LowerLast(es: seq<Pair>, key: nat): seq<Pair>
    requires es != []
  {
    es[|es| - 1 := Pair(key, es[|es| - 1].val)]
  }

  lemma LowerAt(t: Tree, k: nat, j: nat, p: nat, key: nat)
    requires 1 <= k <= |t.levels| && Upper(t, k) && LevelOk(t, k)
    requires j < |t.levels[k - 1]| && p == t.levels[k - 1][j] && t.cells[p].es != []
    requires Owns(Slots(t, k + 1)[j], key) && key < t.cells[p].es[|t.cells[p].es| - 1].key
    ensures
      var es := t.cells[p].es;
      var t', g := SetEs(t, p, LowerLast(es, key)), Offset(Blocks(t, k), Slots(t, k + 1), j) + |es| - 1;
      && 0 <= g < |Slots(t, k)| && key < Slots(t, k)[g].hi && key < Slots(t, k)[g].lo
      && Slots(t, k)[g].val == es[|es| - 1].val
      && Slots(t', k) == Slots(t, k)[g := Slots(t, k)[g].(lo := key)]
  {
    hide Expand, HealthyLevel, Singles, Flags;
    var es, up := t.cells[p].es, Slots(t, k + 1);
    assert Blocks(t, k)[j] == es;
    ExpandLower(t.n, Blocks(t, k), up, j, key);
    ExpandIndex(Blocks(t, k), up, j, |es| - 1);
    SetEsFrame(t, k, j, p, LowerLast(es, key));
  }

  lemma LowerUpper(t: Tree, k: nat, j: nat, p: nat, key: nat)
    requires 1 <= k <= |t.levels| && Upper(t, k) && LevelOk(t, k)
    requires j < |t.levels[k - 1]| && p == t.levels[k - 1][j] && t.cells[p].es != []
    requires Owns(Slots(t, k + 1)[j], key) && key < t.cells[p].es[|t.cells[p].es| - 1].key
    ensures Upper(SetEs(t, p, LowerLast(t.cells[p].es, key)), k)
  {
    hide Expand, HealthyLevel, Singles, Flags;
    var es, up := t.cells[p].es, Slots(t, k + 1);
    assert Blocks(t, k)[j] == es;
    KidsLower(t.n, es, up[j].lo, up[j].hi, key);
    SetEsUpper(t, k, j, p, LowerLast(es, key));
  }

  /** One step of the descent that lowers the last separator of a node on level `k`. */
  lemma LowerStep(t: Tree, l: nat, k: nat, j: nat, p: nat, key: nat)
    requires Upper(t, l) && l < k <= |t.levels| && LevelOk(t, k)
    requires j < |t.levels[k - 1]| && p == t.levels[k - 1][j] && t.cells[p].es != []
    requires Owns(Slots(t, k + 1)[j], key) && key < t.cells[p].es[|t.cells[p].es| - 1].key
    ensures
      var es := t.cells[p].es;
      var t', g := SetEs(t, p, LowerLast(es, key)), Offset(Blocks(t, k), Slots(t, k + 1), j) + |es| - 1;
      && Upper(t', l) && Slots(t', l) == Slots(t, l)
      && 0 <= g < |Slots(t', k)| && Owns(Slots(t', k)[g], key) && Slots(t', k)[g].val == es[|es| - 1].val
  {
    hide Expand, HealthyLevel, Singles, Flags, BlocksOk, Blocks;
    var t' := SetEs(t, p, LowerLast(t.cells[p].es, key));
    UpperWeakenTo(t, l, k);
    LowerAt(t, k, j, p, key);
    LowerUpper(t, k, j, p, key);
    LowerHealthy(t, l, k, j, p, key);
    LowerBelow(t, t', l, k - 1);
  }

  lemma LowerHealthy(t: Tree, l: nat, k: nat, j: nat, p: nat, key: nat)
    requires Upper(t, l) && l < k <= |t.levels| && LevelOk(t, k)
    requires j < |t.levels[k - 1]| && p == t.levels[k - 1][j] && t.cells[p].es != []
    ensures HealthyLevel(SetEs(t, p, LowerLast(t.cells[p].es, key)), k, Singles(t, k - 1))
    ensures NoStrays(SetEs(t, p, LowerLast(t.cells[p].es, key)), l)
  {
    hide Expand, BlocksOk, Slots, FlagsOk, NoDup;
    var es := t.cells[p].es;
    assert HealthyAbove(t, k - 1);
    FlagsVals(es, LowerLast(es, key), Singles(t, k - 1));
    assert Blocks(t, k)[j] == es;
    FlagsSame(t, k, j, p, LowerLast(es, key), Singles(t, k - 1));
  }

  // --- one step down the tree ---

  lemma DescendTop(t: Tree, l: nat, key: nat)
    requires Upper(t, l) && l <= |t.levels| && key < t.lim
    ensures LevelOk(t, |t.levels|) && |t.levels[|t.levels| - 1]| == 1 && t.levels[|t.levels| - 1][0] == t.root
    ensures t.root in t.cells && Owns(Slots(t, |t.levels| + 1)[0], key)
  {
    var h := |t.levels|;
    assert LevelOk(t, h);
    TopLevel(t);
    assert Slots(t, h + 1) == [Slot(0, t.lim, t.root)];
  }

  /** The node that index `j` on level `h` names, with the interval that owns `key`. */
  ghost predicate At(t: Tree, h: nat, j: nat, p: nat, key: nat) {
    && 1 <= h <= |t.levels| && LevelOk(t, h)
    && j < |t.levels[h - 1]| && p == t.levels[h - 1][j] && p in t.cells && t.cells[p].lvl == h
    && j < |Slots(t, h + 1)| && Owns(Slots(t, h + 1)[j], key)
  }

  lemma AtBlock(t: Tree, h: nat, j: nat, p: nat, key: nat)
    requires At(t, h, j, p, key)
    ensures j < |Blocks(t, h)| == |Slots(t, h + 1)| && Blocks(t, h)[j] == t.cells[p].es
    ensures BlocksOk(t.n, Blocks(t, h), Slots(t, h + 1))
    ensures BlockOk(t.n, t.cells[p].es, Slots(t, h + 1)[j].lo, Slots(t, h + 1)[j].hi)
    ensures Slots(t, h + 1)[j].val == p
  {
  }

  lemma AtTop(t: Tree, l: nat, key: nat)
    requires Upper(t, l) && l <= |t.levels| && key < t.lim
    ensures At(t, |t.levels|, 0, t.root, key)
  {
    DescendTop(t, l, key);
  }

  /** The position of pair `i` of node `j` in the list of all pairs of level `h`. */
  ghost function Below(t: Tree, h: nat, j: nat, i: nat): nat {
    if j < |Lv(t, h)| && |Lv(t, h)| == |Slots(t, h + 1)| then Offset(Blocks(t, h), Slots(t, h + 1), j) + i else i
  }

  lemma AtOwned(t: Tree, l: nat, h: nat, g: nat, key: nat)
    requires Upper(t, l) && l < h <= |t.levels| && g < |Slots(t, h)| && Owns(Slots(t, h)[g], key)
    ensures At(t, h - 1, g, Slots(t, h)[g].val, key)
  {
    assert LevelOk(t, h - 1);
  }

  lemma DescendFound(t: Tree, l: nat, h: nat, j: nat, p: nat, i: nat, key: nat)
    requires Upper(t, l) && l < h && At(t, h, j, p, key)
    requires IsPos(t.cells[p].es, key, i) && i < |t.cells[p].es|
    ensures At(t, h - 1, Below(t, h, j, i), t.cells[p].es[i].val, key)
  {
    hide Expand, HealthyLevel, Singles, BlocksOk, LevelOk;
    AtBlock(t, h, j, p, key);
    UpperWeakenTo(t, l, h);
    PosOwner(t, h, j, i, key);
    AtOwned(t, l, h, Below(t, h, j, i), key);
  }

  lemma DescendNone(t: Tree, l: nat, h: nat, j: nat, p: nat, key: nat)
    requires Upper(t, l) && l < h && At(t, h, j, p, key) && |Es(t, t.root)| >= 1
    requires IsPos(t.cells[p].es, key, |t.cells[p].es|)
    ensures !Owned(Slots(t, l + 1), key) && !Owned(Slots(t, l), key)
    ensures t.cells[p].es != [] && key < t.cells[p].es[|t.cells[p].es| - 1].key
  {
    hide Expand, HealthyLevel, Singles, BlocksOk;
    AtBlock(t, h, j, p, key);
    UpperWeakenTo(t, l, h);
    PosOwner(t, h, j, |t.cells[p].es|, key);
    UpperWeaken(t, l);
    if Owned(Slots(t, l + 1), key) {
      OwnedAbove(t, l + 1, h, key);
    }
    if Owned(Slots(t, l), key) {
      OwnedAbove(t, l, h, key);
    }
    if h == |t.levels| {
      TopLevel(t);
    }
  }

  lemma DescendLower(t: Tree, l: nat, h: nat, j: nat, p: nat, key: nat)
    requires Upper(t, l) && l < h && At(t, h, j, p, key)
    requires t.cells[p].es != [] && key < t.cells[p].es[|t.cells[p].es| - 1].key
    ensures
      var es := t.cells[p].es;
      var t' := SetEs(t, p, LowerLast(es, key));
      && Upper(t', l) && Slots(t', l) == Slots(t, l)
      && At(t', h - 1, Below(t, h, j, |es| - 1), es[|es| - 1].val, key)
  {
    hide Expand, HealthyLevel, Singles, BlocksOk, LevelOk;
    AtBlock(t, h, j, p, key);
    LowerStep(t, l, h, j, p, key);
    var es := t.cells[p].es;
    AtOwned(SetEs(t, p, LowerLast(es, key)), l, h, Below(t, h, j, |es| - 1), key);
  }

  /** Everything that a descent to level `l` leaves alone. */
  ghost predicate DescentKeeps(t: Tree, t': Tree, l: nat) {
    && t'.n == t.n && t'.lim == t.lim && t'.root == t.root && t'.levels == t.levels
    && t'.cells.Keys == t.cells.Keys
    && (forall q :: q in t.cells ==> t'.cells[q].lvl == t.cells[q].lvl && |t'.cells[q].es| == |t.cells[q].es|)
    && (forall q :: q in t.cells && t.cells[q].lvl <= l ==> t'.cells[q] == t.cells[q])
  }

  lemma DescentKeepsRefl(t: Tree, l: nat)
    ensures DescentKeeps(t, t, l)
  {
  }

  lemma DescentKeepsTrans(t: Tree, t': Tree, t'': Tree, l: nat)
    requires DescentKeeps(t, t', l) && DescentKeeps(t', t'', l)
    ensures DescentKeeps(t, t'', l)
  {
  }

  lemma DescentKeepsStep(t: Tree, t': Tree, l: nat, p: nat, es: seq<Pair>)
    requires DescentKeeps(t, t', l) && p in t'.cells && t'.cells[p].lvl > l && |es| == |t'.cells[p].es|
    ensures DescentKeeps(t, SetEs(t', p, es), l)
  {
  }
}
