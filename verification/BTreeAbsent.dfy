/** lib/btree.c: what btree_remove() does with a key that is not stored. */
module BTreeAbsent {
  import opened Lists
  import opened BTreeSlots
  import opened BTreeHealth
  import opened BTreeShape
  import opened BTreeInsert
  import opened BTreeRemove
  import opened BTreeMap
  import opened BTreeHome

  /** An absent key below all keys of its leaf is compared with the slot behind them: an unused one, which
      holds 0, or, in a full leaf, the first words of the values, here `beyond`. */
  ghost predicate Confused(n: nat, es: seq<Pair>, key: nat, beyond: nat) {
    (forall i :: 0 <= i < |es| ==> key < es[i].key) && if |es| < n then key == 0 else beyond == key
  }

  /** The least key of the map above `key`. */
  ghost predicate NextKey(m: map<nat, nat>, key: nat, k: nat) {
    k in m && key < k && forall x :: x in m && key < x ==> k <= x
  }

  ghost predicate Mistaken(t: Tree, key: nat, beyond: nat) {
    exists j: nat :: Home(t, 1, key, j) && Confused(t.n, Blk(t, 1, j), key, beyond)
  }

  /** The descent has lowered separators only. */
  ghost predicate Descended(t0: Tree, t: Tree) {
    TreeOk(t0) && TreeOk(t) && Lowered(t0, t, 1)
  }

  /** The leaf that the key belongs to has no unused slot. */
  ghost predicate LeafFull(t: Tree, key: nat) {
    exists j: nat :: Home(t, 1, key, j) && |Blk(t, 1, j)| == t.n
  }

  lemma LeafFullAt(t0: Tree, t: Tree, j: nat, p: nat, key: nat)
    requires Descended(t0, t) && At(t, 1, j, p, key)
    ensures LeafFull(t0, key) <==> |t.cells[p].es| == t.n
  {
    hide Home, At, TreeOk, Slots;
    HomeIs(t0, t, 1, j, p, key);
    if LeafFull(t0, key) {
      var j': nat :| Home(t0, 1, key, j') && |Blk(t0, 1, j')| == t0.n;
      HomeUnique(t0, 1, key, j, j');
    }
  }

  /** Whether the comparison mistakes the slot for the key, decided at the leaf that was found. */
  lemma MistakenAt(t0: Tree, t: Tree, j: nat, p: nat, key: nat, beyond: nat)
    requires Descended(t0, t) && At(t, 1, j, p, key)
    ensures Mistaken(t0, key, beyond) <==> Confused(t.n, t.cells[p].es, key, beyond)
  {
    hide Home, Confused, At, TreeOk, Slots;
    HomeIs(t0, t, 1, j, p, key);
    if Mistaken(t0, key, beyond) {
      var j': nat :| Home(t0, 1, key, j') && Confused(t0.n, Blk(t0, 1, j'), key, beyond);
      HomeUnique(t0, 1, key, j, j');
    }
  }

  /** As if the last pair of the leaf had the key: the tree with that pair renamed. */
  ghost function Renamed(t: Tree, p: nat, key: nat): Tree
    requires p in t.cells && t.cells[p].es != []
  {
    SetEs(t, p, LowerLast(t.cells[p].es, key))
  }

  lemma RenamedOk(t: Tree, j: nat, p: nat, key: nat)
    requires TreeOk(t) && At(t, 1, j, p, key) && t.cells[p].es != [] && IsPos(t.cells[p].es, key, |t.cells[p].es|)
    ensures
      var t1, i := Renamed(t, p, key), |t.cells[p].es| - 1;
      && TreeOk(t1) && Slots(t1, 2) == Slots(t, 2)
      && Blocks(t1, 1) == Blocks(t, 1)[j := LowerLast(t.cells[p].es, key)]
  {
    hide Expand, BlocksOk, HealthyLevel, NoStrays, OnLevel, NoDup;
    var es := t.cells[p].es;
    LowerUpper(t, 1, j, p, key);
    SetEsFrame(t, 1, j, p, LowerLast(es, key));
    SetEsOnLevels(t, p, LowerLast(es, key));
  }

  lemma RenamedSlots(t: Tree, j: nat, p: nat, key: nat)
    requires TreeOk(t) && At(t, 1, j, p, key) && t.cells[p].es != [] && IsPos(t.cells[p].es, key, |t.cells[p].es|)
    ensures
      var t1, i := Renamed(t, p, key), |t.cells[p].es| - 1;
      var g := Below(t, 1, j, i);
      && Below(t1, 1, j, i) == g < |Slots(t, 1)| && Slots(t1, 1) == Slots(t, 1)[g := Slots(t, 1)[g].(lo := key)]
      && Slots(t, 1)[g].lo == t.cells[p].es[i].key
  {
    hide Expand, BlocksOk, HealthyLevel, NoStrays, OnLevel, NoDup;
    AtBlock(t, 1, j, p, key);
    RenamedOk(t, j, p, key);
    LowerAt(t, 1, j, p, key);
    ExpandReplace(Blocks(t, 1), Slots(t, 2), j, LowerLast(t.cells[p].es, key));
    ExpandIndex(Blocks(t, 1), Slots(t, 2), j, |t.cells[p].es| - 1);
  }

  lemma RenamedReady(t: Tree, j: nat, p: nat, key: nat)
    requires TreeOk(t) && At(t, 1, j, p, key) && t.cells[p].es != [] && IsPos(t.cells[p].es, key, |t.cells[p].es|)
    requires key < t.lim
    ensures RemoveReady(Renamed(t, p, key), 1, j, |t.cells[p].es| - 1, key, {})
  {
    hide Expand, HealthyLevel, NoStrays, OnLevel, NoDup, HealthyBut, HealthyAbove, Slots, BlocksOk;
    AtBlock(t, 1, j, p, key);
    RenamedOk(t, j, p, key);
    RemoveTopHealthy(Renamed(t, p, key), j, |t.cells[p].es| - 1);
  }

  /** Taking the last pair away is removing the key from the tree with that pair renamed. */
  lemma RenamedTaken(t: Tree, j: nat, p: nat, key: nat)
    requires TreeOk(t) && At(t, 1, j, p, key) && t.cells[p].es != [] && IsPos(t.cells[p].es, key, |t.cells[p].es|)
    ensures
      var es, t1 := t.cells[p].es, Renamed(t, p, key);
      && j < |Blocks(t1, 1)| && |Blocks(t1, 1)[j]| == |es|
      && SetEs(t, p, RemoveAt(es, |es| - 1)) == SetEs(t1, p, RemoveAt(Blocks(t1, 1)[j], |es| - 1))
  {
    hide TreeOk, Slots;
    AtBlock(t, 1, j, p, key);
    RenamedOk(t, j, p, key);
    var es := t.cells[p].es;
    assert RemoveAt(LowerLast(es, key), |es| - 1) == RemoveAt(es, |es| - 1);
  }

  lemma ContentsIs(t: Tree)
    ensures Contents(t) == ToMap(Entries(t))
  {
  }

  lemma RenamedDone(t: Tree, t': Tree, j: nat, p: nat, key: nat)
    requires TreeOk(t) && At(t, 1, j, p, key) && t.cells[p].es != [] && IsPos(t.cells[p].es, key, |t.cells[p].es|)
    requires
      var t1 := Renamed(t, p, key);
      RemoveDone(t1, t', 1, Below(t1, 1, j, |t.cells[p].es| - 1), {}, false)
    ensures TreeOk(t') && Contents(t') == Contents(t) - {t.cells[p].es[|t.cells[p].es| - 1].key}
  {
    hide Expand, Slots, Below, RemoveDone, Upper, RootOk, AllOnLevels, LevelOk, Contents;
    var t1, es := Renamed(t, p, key), t.cells[p].es;
    var g := Below(t, 1, j, |es| - 1);
    RenamedOk(t, j, p, key);
    RenamedSlots(t, j, p, key);
    RemoveTopDone(t1, t', g);
    EntriesDesc(t);
    EntriesDesc(t1);
    ToMapRemove(Entries(t), g);
    ToMapRemove(Entries(t1), g);
    assert RemoveAt(Entries(t1), g) == RemoveAt(Entries(t), g);
    assert Contents(t) == ToMap(Entries(t)) && Contents(t1) == ToMap(Entries(t1)) by { ContentsIs(t); ContentsIs(t1); }
  }

  // --- the steps of btree_remove() ---

  lemma NoLeaf(t: Tree, key: nat, beyond: nat)
    requires |t.levels| == 0
    ensures key !in Contents(t) && !Mistaken(t, key, beyond)
  {
  }

  lemma FindReady(t: Tree)
    requires TreeOk(t)
    ensures Upper(t, 1) && (|t.levels| > 1 ==> |Es(t, t.root)| >= 1)
  {
  }

  lemma FoundLeaf(t0: Tree, t: Tree, j: nat, p: nat, key: nat, beyond: nat)
    requires TreeOk(t0) && |t0.levels| > 0 && Upper(t, 1) && DescentKeeps(t0, t, 1) && Slots(t, 1) == Slots(t0, 1)
    requires At(t, 1, j, p, key)
    ensures TreeOk(t) && Contents(t) == Contents(t0)
    ensures Mistaken(t0, key, beyond) <==> Confused(t.n, t.cells[p].es, key, beyond)
    ensures LeafFull(t0, key) <==> |t.cells[p].es| == t.n
  {
    RootKept(t0, t);
    hide Upper, Slots, Contents, Mistaken, Confused, At, LeafFull;
    InsertTopFailed(t0, t);
    MistakenAt(t0, t, j, p, key, beyond);
    LeafFullAt(t0, t, j, p, key);
  }

  lemma RootKept(t0: Tree, t: Tree)
    requires TreeOk(t0) && DescentKeeps(t0, t, 1) && |t0.levels| > 0
    ensures RootOk(t)
  {
    hide Expand, BlocksOk, HealthyAbove, Slots;
    TopLevel(t0);
  }

  /** A leaf without the key: it is not stored. */
  lemma AbsentLeaf(t: Tree, j: nat, p: nat, key: nat, pos: nat, beyond: nat)
    requires TreeOk(t) && At(t, 1, j, p, key) && IsPos(t.cells[p].es, key, pos)
    requires pos < |t.cells[p].es| ==> t.cells[p].es[pos].key != key
    ensures key !in Contents(t)
    ensures pos < |t.cells[p].es| ==> !Confused(t.n, t.cells[p].es, key, beyond)
  {
    hide Slots, Contents, TreeOk;
    AtBlock(t, 1, j, p, key);
    LeafMiss(t, j, p, key);
  }

  lemma FoundPair(t: Tree, j: nat, p: nat, key: nat, i: nat)
    requires TreeOk(t) && At(t, 1, j, p, key) && i < |t.cells[p].es| && t.cells[p].es[i].key == key && key < t.lim
    ensures key in Contents(t) && Contents(t)[key] == t.cells[p].es[i].val
    ensures RemoveReady(t, 1, j, i, key, {}) && Blk(t, 1, j) == t.cells[p].es
    ensures Below(t, 1, j, i) < |Slots(t, 1)| && Slots(t, 1)[Below(t, 1, j, i)].lo == key
  {
    hide Expand, HealthyLevel, NoStrays, OnLevel, NoDup, HealthyBut, HealthyAbove, Slots, BlocksOk, Contents;
    AtBlock(t, 1, j, p, key);
    LeafLookup(t, j, p, key, i);
    RemoveTopHealthy(t, j, i);
  }

  lemma EmptyLeaf(t: Tree, j: nat, p: nat, key: nat)
    requires TreeOk(t) && At(t, 1, j, p, key) && t.cells[p].es == []
    ensures Contents(t) == map[]
  {
    AtBlock(t, 1, j, p, key);
    assert |t.levels| == 1;
    TopLevel(t);
    assert Blocks(t, 1) == [[]];
    ExpandSingle([], Slots(t, 2)[0]);
    assert Slots(t, 1) == [] && Entries(t) == [];
  }

  /** The pair that is taken away instead has the next greater key. */
  lemma NextPair(t: Tree, j: nat, p: nat, key: nat)
    requires TreeOk(t) && At(t, 1, j, p, key) && t.cells[p].es != [] && IsPos(t.cells[p].es, key, |t.cells[p].es|)
    ensures
      var k := t.cells[p].es[|t.cells[p].es| - 1].key;
      NextKey(Contents(t), key, k)
  {
    hide Expand, Slots, Below, Upper, RootOk, AllOnLevels, LevelOk, Contents;
    var t1, es := Renamed(t, p, key), t.cells[p].es;
    var g, k := Below(t, 1, j, |es| - 1), es[|es| - 1].key;
    FindReady(t);
    RenamedSlots(t, j, p, key);
    StoredAt(t, g);
    RenamedOk(t, j, p, key);
    FindReady(t1);
    UpperSlotsOk(t, 1);
    UpperSlotsOk(t1, 1);
    forall x | x in Contents(t) && key < x
      ensures k <= x
    {
      StoredContents(t, x);
      var h :| 0 <= h < |Slots(t, 1)| && Slots(t, 1)[h].lo == x;
      NextSlot(Slots(t, 1), g, h, key);
    }
  }

  lemma NextSlot(s: seq<Slot>, g: nat, h: nat, key: nat)
    requires g < |s| && h < |s| && SlotsOk(s) && SlotsOk(s[g := s[g].(lo := key)]) && key < s[h].lo
    ensures s[g].lo <= s[h].lo
  {
    var s1 := s[g := s[g].(lo := key)];
    assert s1[g].lo == key && s1[h].hi == s[h].hi && s[g].lo < s[g].hi;
  }
}
