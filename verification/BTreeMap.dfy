/** The finite map a tree stands for, and what a descent without changes learns about it. */
module BTreeMap {
  import opened Lists
  import opened BTreeSlots
  import opened BTreeHealth
  import opened BTreeShape
  import opened BTreeInsert
  import opened BTreeRemove

  ghost function ToMap(es: seq<Pair>): map<nat, nat> {
    if es == [] then map[] else ToMap(es[1..])[es[0].key := es[0].val]
  }

  ghost predicate AllOnLevels(t: Tree) {
    forall p :: p in t.cells ==> t.cells[p].lvl >= 1
  }

  ghost predicate TreeOk(t: Tree) {
    GoodFanout(t.n) && 0 < t.lim && Upper(t, 1) && RootOk(t) && AllOnLevels(t)
  }

  lemma SameBelowOne(t: Tree, t': Tree)
    requires SameBelow(t, t', 1) && AllOnLevels(t)
    ensures AllOnLevels(t')
  {
  }

  lemma SetEsOnLevels(t: Tree, p: nat, es: seq<Pair>)
    requires AllOnLevels(t) && p in t.cells
    ensures AllOnLevels(SetEs(t, p, es))
  {
  }

  ghost function Contents(t: Tree): map<nat, nat> {
    ToMap(Entries(t))
  }

  lemma HasKeyTail(es: seq<Pair>, key: nat)
    requires es != []
    ensures HasKey(es, key) <==> es[0].key == key || HasKey(es[1..], key)
  {
    if HasKey(es, key) {
      var k :| 0 <= k < |es| && es[k].key == key;
      assert k > 0 ==> es[1..][k - 1].key == key;
    }
    if HasKey(es[1..], key) {
      var k :| 0 <= k < |es[1..]| && es[1..][k].key == key;
      assert es[k + 1].key == key;
    }
  }

  lemma {:induction false} ToMapKeys(es: seq<Pair>, key: nat)
    ensures key in ToMap(es) <==> HasKey(es, key)
  {
    if es != [] {
      ToMapKeys(es[1..], key);
      HasKeyTail(es, key);
    }
  }

  lemma {:induction false} ToMapAt(es: seq<Pair>, i: nat)
    requires Desc(es) && i < |es|
    ensures es[i].key in ToMap(es) && ToMap(es)[es[i].key] == es[i].val
  {
    if i > 0 {
      assert es[1..][i - 1] == es[i];
      ToMapAt(es[1..], i - 1);
    }
  }

  lemma {:induction false} ToMapInsert(es: seq<Pair>, g: nat, p: Pair)
    requires g <= |es| && !HasKey(es, p.key)
    ensures ToMap(InsertAt(es, g, p)) == ToMap(es)[p.key := p.val]
  {
    var es' := InsertAt(es, g, p);
    if g == 0 {
      assert es'[1..] == es;
    } else {
      assert es'[1..] == InsertAt(es[1..], g - 1, p) && es'[0] == es[0];
      assert !HasKey(es[1..], p.key) by {
        assert forall k :: 0 <= k < |es[1..]| ==> es[1..][k] == es[k + 1];
      }
      ToMapInsert(es[1..], g - 1, p);
      assert es[0].key != p.key;
    }
  }

  lemma DescAbsent(es: seq<Pair>, g: nat)
    requires g < |es| && Desc(es)
    ensures !HasKey(RemoveAt(es, g), es[g].key)
  {
    var es' := RemoveAt(es, g);
    assert forall i :: 0 <= i < |es'| ==> es'[i] == if i < g then es[i] else es[i + 1];
  }

  lemma ToMapRemove(es: seq<Pair>, g: nat)
    requires g < |es| && Desc(es)
    ensures ToMap(RemoveAt(es, g)) == ToMap(es) - {es[g].key}
    ensures es[g].key in ToMap(es) && ToMap(es)[es[g].key] == es[g].val
  {
    hide ToMap, Desc;
    var es' := RemoveAt(es, g);
    assert es == InsertAt(es', g, es[g]);
    DescAbsent(es, g);
    ToMapInsert(es', g, es[g]);
    ToMapKeys(es', es[g].key);
  }

  /** Changing the value of one pair. */
  lemma ToMapUpdate(es: seq<Pair>, g: nat, val: nat)
    requires g < |es| && Desc(es)
    ensures ToMap(es[g := Pair(es[g].key, val)]) == ToMap(es)[es[g].key := val]
  {
    hide ToMap, Desc;
    var es', r := es[g := Pair(es[g].key, val)], RemoveAt(es, g);
    DescAbsent(es, g);
    assert es' == InsertAt(r, g, es'[g]) && es == InsertAt(r, g, es[g]);
    ToMapInsert(r, g, es'[g]);
    ToMapInsert(r, g, es[g]);
  }

  lemma EntriesDesc(t: Tree)
    requires Upper(t, 1)
    ensures Desc(Entries(t))
  {
    if |t.levels| > 0 {
      UpperSlotsOk(t, 1);
      var s := Slots(t, 1);
      forall i, j | 0 <= i < j < |s|
        ensures s[j].lo < s[i].lo
      {
        assert s[j].hi <= s[i].lo && s[j].lo < s[j].hi;
      }
    }
  }

  // --- stored keys and their owners ---

  ghost predicate Stored(t: Tree, key: nat) {
    |t.levels| > 0 && exists g :: 0 <= g < |Slots(t, 1)| && Slots(t, 1)[g].lo == key
  }

  lemma StoredContents(t: Tree, key: nat)
    requires Upper(t, 1)
    ensures key in Contents(t) <==> Stored(t, key)
  {
    ToMapKeys(Entries(t), key);
    if |t.levels| > 0 {
      var s, es := Slots(t, 1), Entries(t);
      assert forall g :: 0 <= g < |s| ==> es[g].key == s[g].lo;
    }
  }

  lemma StoredAt(t: Tree, g: nat)
    requires Upper(t, 1) && |t.levels| > 0 && g < |Slots(t, 1)|
    ensures Stored(t, Slots(t, 1)[g].lo) && Slots(t, 1)[g].lo in Contents(t)
    ensures Contents(t)[Slots(t, 1)[g].lo] == Slots(t, 1)[g].val
  {
    EntriesDesc(t);
    ToMapAt(Entries(t), g);
  }

  lemma StoredOwned(t: Tree, l: nat, key: nat)
    requires Upper(t, 1) && Stored(t, key) && 1 <= l <= |t.levels| + 1
    ensures Owned(Slots(t, l), key)
  {
    var g :| 0 <= g < |Slots(t, 1)| && Slots(t, 1)[g].lo == key;
    UpperSlotsOk(t, 1);
    assert Owns(Slots(t, 1)[g], key);
    OwnedAbove(t, 1, l, key);
  }

  /** What the leaf reached by a descent says about the key. */
  lemma LeafLookup(t: Tree, j: nat, p: nat, key: nat, i: nat)
    requires TreeOk(t) && At(t, 1, j, p, key) && i < |t.cells[p].es| && t.cells[p].es[i].key == key
    ensures key in Contents(t) && Contents(t)[key] == t.cells[p].es[i].val
    ensures Below(t, 1, j, i) < |Slots(t, 1)| && Slots(t, 1)[Below(t, 1, j, i)].lo == key
  {
    hide Expand, HealthyLevel, BlocksOk;
    AtBlock(t, 1, j, p, key);
    ExpandIndex(Blocks(t, 1), Slots(t, 2), j, i);
    StoredAt(t, Below(t, 1, j, i));
  }

  lemma LeafHas(t: Tree, j: nat, p: nat, key: nat)
    requires TreeOk(t) && At(t, 1, j, p, key) && Stored(t, key)
    ensures HasKey(t.cells[p].es, key)
  {
    hide Expand, HealthyLevel, BlocksOk;
    var g :| 0 <= g < |Slots(t, 1)| && Slots(t, 1)[g].lo == key;
    UpperSlotsOk(t, 1);
    assert LevelOk(t, 1);
    var j', i' := OwnerAbove(t.n, Blocks(t, 1), Slots(t, 2), g, key);
    UpperWeaken(t, 1);
    UpperSlotsOk(t, 2);
    OwnerUnique(Slots(t, 2), j, j', key);
    AtBlock(t, 1, j, p, key);
    assert t.cells[p].es[i'].key == key;
  }

  lemma LeafMiss(t: Tree, j: nat, p: nat, key: nat)
    requires TreeOk(t) && At(t, 1, j, p, key) && !HasKey(t.cells[p].es, key)
    ensures key !in Contents(t) && !Stored(t, key)
  {
    hide Expand, HealthyLevel, BlocksOk, Slots, Stored, HasKey, Contents;
    StoredContents(t, key);
    if Stored(t, key) {
      LeafHas(t, j, p, key);
    }
  }

  lemma DescentMiss(t: Tree, h: nat, j: nat, p: nat, key: nat)
    requires TreeOk(t) && 1 < h && At(t, h, j, p, key) && IsPos(t.cells[p].es, key, |t.cells[p].es|)
    ensures key !in Contents(t) && !Stored(t, key) && !Owned(Slots(t, 2), key)
  {
    hide Expand, HealthyLevel, BlocksOk;
    RootNonempty(t);
    DescendNone(t, 1, h, j, p, key);
    StoredContents(t, key);
    if Stored(t, key) {
      StoredOwned(t, 1, key);
    }
  }

  // --- looking for a predecessor ---

  /** A node without keys up to `key` rules out its whole interval up to `key`. */
  lemma MissBetween(t: Tree, h: nat, j: nat, p: nat, key: nat, k: nat)
    requires TreeOk(t) && At(t, h, j, p, key) && IsPos(t.cells[p].es, key, |t.cells[p].es|)
    requires Slots(t, h + 1)[j].lo <= k <= key
    ensures !Stored(t, k)
  {
    hide Expand, HealthyLevel, BlocksOk;
    assert At(t, h, j, p, k) && IsPos(t.cells[p].es, k, |t.cells[p].es|);
    if h > 1 {
      DescentMiss(t, h, j, p, k);
    } else {
      LeafMiss(t, j, p, k);
    }
  }

  /** The pair a scan of the right leaf stops at is the largest one up to `key`. */
  lemma LeafFound(t: Tree, j: nat, p: nat, i: nat, key: nat, k: nat)
    requires TreeOk(t) && At(t, 1, j, p, key) && IsPos(t.cells[p].es, key, i) && i < |t.cells[p].es|
    requires t.cells[p].es[i].key < k <= key
    ensures !Stored(t, k)
  {
    hide Expand, HealthyLevel, BlocksOk;
    UpperSlotsOk(t, 1);
    AtBlock(t, 1, j, p, key);
    PosOwner(t, 1, j, i, key);
    InsideSlot(Slots(t, 1), Below(t, 1, j, i), k);
  }

  lemma InsideSlot(s: seq<Slot>, g: nat, k: nat)
    requires SlotsOk(s) && g < |s| && s[g].lo < k < s[g].hi
    ensures forall i :: 0 <= i < |s| ==> s[i].lo != k
  {
  }

  // --- the public operations on the whole tree ---

  lemma NoSingles(t: Tree, l: nat)
    requires 1 <= l <= |t.levels| && GoodFanout(t.n)
    ensures HealthyLevel(t, l, {})
  {
    forall j | 0 <= j < |Blocks(t, l)|
      ensures FlagsOk(t.n, Flags(Blocks(t, l)[j], {}))
    {
      HealthyNone(t.n, Flags(Blocks(t, l)[j], {}));
    }
  }

  lemma InsertTop(t: Tree, key: nat, val: nat)
    requires TreeOk(t) && key < t.lim && val != 0 && key !in Contents(t)
    ensures InsertReady(t, 1, key, val, {})
  {
    hide Expand, HealthyLevel, LevelOk;
    StoredContents(t, key);
    if |t.levels| > 0 {
      NoSingles(t, 1);
    }
  }

  lemma UpperFacts(t: Tree, l: nat)
    requires Upper(t, l)
    ensures GoodFanout(t.n) && 0 < t.lim
  {
  }

  lemma InsertTopDone(t: Tree, t': Tree, key: nat, val: nat)
    requires TreeOk(t) && key !in Contents(t) && InsertDone(t, t', 1, key, val, {})
    ensures TreeOk(t') && Contents(t') == Contents(t)[key := val]
  {
    hide Expand, HealthyLevel, LevelOk, Upper, Slots, SameBelow;
    var es := Entries(t);
    var g :| 0 <= g <= |es| && Entries(t') == InsertAt(es, g, Pair(key, val));
    ToMapKeys(es, key);
    ToMapInsert(es, g, Pair(key, val));
    UpperFacts(t', 1);
    SameBelowOne(t, t');
  }

  /** A failed insertion may have lowered separators; the stored pairs are the same. */
  lemma InsertTopFailed(t: Tree, t': Tree)
    requires Upper(t', 1) && RootOk(t') && DescentKeeps(t, t', 1) && AllOnLevels(t)
    requires |t'.levels| > 0 ==> Slots(t', 1) == Slots(t, 1)
    ensures TreeOk(t') && Contents(t') == Contents(t)
  {
  }

  lemma SlotNonempty(s: seq<Slot>, g: nat)
    requires SlotsOk(s) && g < |s|
    ensures s[g].lo < s[g].hi
  {
  }

  lemma RemoveTopHealthy(t: Tree, j: nat, i: nat)
    requires |t.levels| > 0 && GoodFanout(t.n) && j < |t.levels[0]| && i < |Blocks(t, 1)[j]|
    ensures HealthyBut(t, 1, j, i, {})
  {
    NoSingles(t, 1);
    HealthyNone(t.n, Flags(RemoveAt(Blocks(t, 1)[j], i), {}));
  }

  lemma RemoveTopDone(t: Tree, t': Tree, g: nat)
    requires TreeOk(t) && |t.levels| > 0 && g < |Slots(t, 1)| && RemoveDone(t, t', 1, g, {}, false)
    ensures TreeOk(t') && Contents(t') == Contents(t) - {Slots(t, 1)[g].lo}
  {
    hide Expand, HealthyLevel, LevelOk, Upper, Slots, SameBelow;
    EntriesDesc(t);
    ToMapRemove(Entries(t), g);
    assert Pairs(Slots(t', 1)) == RemoveAt(Pairs(Slots(t, 1)), g);
    UpperFacts(t', 1);
    SameBelowOne(t, t');
  }

  ghost function SetValAt(es: seq<Pair>, i: nat, val: nat): seq<Pair>
    requires i < |es|
  {
    es[i := Pair(es[i].key, val)]
  }

  lemma KidsSetVal(es: seq<Pair>, hi: nat, i: nat, val: nat)
    requires i < |es|
    ensures Kids(SetValAt(es, i, val), hi) == Kids(es, hi)[i := Kid(es, hi, i).(val := val)]
  {
  }

  lemma UpdateUpper(t: Tree, j: nat, p: nat, key: nat, i: nat, val: nat)
    requires TreeOk(t) && At(t, 1, j, p, key) && i < |t.cells[p].es| && val != 0
    ensures
      var t' := SetEs(t, p, SetValAt(t.cells[p].es, i, val));
      TreeOk(t') && Slots(t', 2) == Slots(t, 2) && Blocks(t', 1) == Blocks(t, 1)[j := t'.cells[p].es]
  {
    hide Expand, HealthyLevel, BlocksOk, Kids, Slots, OnLevel, NoDup, NoStrays;
    var es := t.cells[p].es;
    var es' := SetValAt(es, i, val);
    AtBlock(t, 1, j, p, key);
    assert BlockOk(t.n, es', Slots(t, 2)[j].lo, Slots(t, 2)[j].hi);
    SetEsUpper(t, 1, j, p, es');
    SetEsFrame(t, 1, j, p, es');
    SetEsOnLevels(t, p, es');
  }

  lemma UpdateLevel(t: Tree, j: nat, p: nat, key: nat, i: nat, val: nat)
    requires TreeOk(t) && At(t, 1, j, p, key) && i < |t.cells[p].es| && val != 0
    ensures
      var t' := SetEs(t, p, SetValAt(t.cells[p].es, i, val));
      var g := Below(t, 1, j, i);
      && TreeOk(t') && g < |Slots(t, 1)|
      && Slots(t', 1) == Slots(t, 1)[g := Slots(t, 1)[g].(val := val)]
  {
    hide Expand, HealthyLevel, BlocksOk, Kids, TreeOk;
    var es := t.cells[p].es;
    var es' := SetValAt(es, i, val);
    var bs, up := Blocks(t, 1), Slots(t, 2);
    AtBlock(t, 1, j, p, key);
    UpdateUpper(t, j, p, key, i, val);
    ExpandAt(bs, up, j);
    ExpandReplace(bs, up, j, es');
    ExpandIndex(bs, up, j, i);
    KidsSetVal(es, up[j].hi, i, val);
    UpdateMid(Expand(bs[..j], up[..j]), Kids(es, up[j].hi), Expand(bs[j + 1..], up[j + 1..]), i,
              Kid(es, up[j].hi, i).(val := val));
  }

  lemma UpdateTop(t: Tree, j: nat, p: nat, key: nat, i: nat, val: nat)
    requires TreeOk(t) && At(t, 1, j, p, key) && i < |t.cells[p].es| && t.cells[p].es[i].key == key && val != 0
    ensures
      var t' := SetEs(t, p, SetValAt(t.cells[p].es, i, val));
      TreeOk(t') && Contents(t') == Contents(t)[key := val]
  {
    hide Expand, HealthyLevel, BlocksOk, LevelOk, Upper, Slots, Below;
    var t' := SetEs(t, p, SetValAt(t.cells[p].es, i, val));
    UpdateLevel(t, j, p, key, i, val);
    LeafLookup(t, j, p, key, i);
    EntriesDesc(t);
    var g := Below(t, 1, j, i);
    assert Entries(t') == Entries(t)[g := Pair(key, val)];
    ToMapUpdate(Entries(t), g, val);
    SetEsOnLevels(t, p, SetValAt(t.cells[p].es, i, val));
  }

  /** Storing into the first unused slot of the leaf that owns key 0 adds the pair (0, val). */
  lemma UpdateZero(t: Tree, j: nat, p: nat, val: nat)
    requires TreeOk(t) && At(t, 1, j, p, 0) && |t.cells[p].es| < t.n && 0 !in Contents(t) && val != 0
    ensures
      var t' := SetEs(t, p, t.cells[p].es + [Pair(0, val)]);
      TreeOk(t') && Contents(t') == Contents(t)[0 := val]
  {
    hide Expand, HealthyLevel, BlocksOk, LevelOk, Upper, Slots, Below;
    var es := t.cells[p].es;
    StoredContents(t, 0);
    ZeroPos(t, j, p);
    assert InsertAt(es, |es|, Pair(0, val)) == es + [Pair(0, val)];
    InsertTop(t, 0, val);
    InsertStart(t, 1, 0, val, {});
    InsertFinish(t, t, 1, j, p, |es|, 0, val, {});
    InsertTopDone(t, SetEs(t, p, es + [Pair(0, val)]), 0, val);
  }

  lemma ZeroPos(t: Tree, j: nat, p: nat)
    requires TreeOk(t) && At(t, 1, j, p, 0) && 0 !in Contents(t)
    ensures IsPos(t.cells[p].es, 0, |t.cells[p].es|) && 0 < t.lim
  {
    hide Slots;
    var es := t.cells[p].es;
    forall k | 0 <= k < |es|
      ensures 0 < es[k].key
    {
      if es[k].key == 0 {
        LeafLookup(t, j, p, 0, k);
      }
    }
  }

  /** The leaf that owns key 0 exists and has an unused slot. */
  ghost predicate ZeroHole(t: Tree) {
    && |t.levels| > 0
    && exists j :: 0 <= j < |t.levels[0]| && j < |Slots(t, 2)| && Owns(Slots(t, 2)[j], 0) && |Blocks(t, 1)[j]| < t.n
  }

  lemma ZeroHoleIs(t: Tree, j: nat, p: nat)
    requires TreeOk(t) && At(t, 1, j, p, 0)
    ensures ZeroHole(t) <==> |t.cells[p].es| < t.n
  {
    hide Expand, HealthyLevel, BlocksOk, LevelOk, Upper;
    AtBlock(t, 1, j, p, 0);
    if ZeroHole(t) {
      var j' :| 0 <= j' < |t.levels[0]| && j' < |Slots(t, 2)| && Owns(Slots(t, 2)[j'], 0) && |Blocks(t, 1)[j']| < t.n;
      ZeroOwner(t, j, j');
    }
  }

  lemma ZeroOwner(t: Tree, j: nat, j': nat)
    requires TreeOk(t) && |t.levels| > 0 && j < |Slots(t, 2)| && j' < |Slots(t, 2)|
    requires Owns(Slots(t, 2)[j], 0) && Owns(Slots(t, 2)[j'], 0)
    ensures j == j'
  {
    hide Expand, HealthyLevel, BlocksOk, LevelOk, Slots;
    UpperWeaken(t, 1);
    UpperSlotsOk(t, 2);
    OwnerUnique(Slots(t, 2), j, j', 0);
  }

  lemma EmptyTree(t: Tree, key: nat)
    requires |t.levels| == 0
    ensures key !in Contents(t) && !ZeroHole(t)
  {
  }

  lemma ZeroHoleNone(t: Tree)
    requires !Owned(Slots(t, 2), 0)
    ensures !ZeroHole(t)
  {
  }

  // --- separators and the smallest of them ---

  /** With a separator 0 in the root every key has an owner there. */
  ghost predicate ZeroRoot(t: Tree) {
    |t.levels| >= 2 && LastKey(Es(t, t.root)) == 0
  }

  ghost predicate SmallerStored(t: Tree, key: nat) {
    exists k: nat :: k < key && Stored(t, k)
  }

  /** A separator 0 on any inner level lies below a separator 0 on every level above it. */
  lemma {:induction false} ZeroSlotAbove(t: Tree, l: nat, h: nat, g: nat) returns (g': nat)
    requires Upper(t, l) && 1 <= l <= h <= |t.levels| && g < |Slots(t, l)| && Slots(t, l)[g].lo == 0
    ensures g' < |Slots(t, h)| && Slots(t, h)[g'].lo == 0
    decreases h - l
  {
    hide Expand, HealthyLevel, BlocksOk;
    if l == h {
      g' := g;
    } else {
      UpperSlotsOk(t, l);
      SlotNonempty(Slots(t, l), g);
      assert LevelOk(t, l);
      var j, i := OwnerAbove(t.n, Blocks(t, l), Slots(t, l + 1), g, 0);
      UpperWeaken(t, l);
      g' := ZeroSlotAbove(t, l + 1, h, j);
    }
  }

  lemma TopSlots(t: Tree, l: nat)
    requires l == |t.levels| >= 1 && Upper(t, l)
    ensures LevelOk(t, l) && t.root in t.cells && Slots(t, l) == Kids(t.cells[t.root].es, t.lim)
    ensures BlockOk(t.n, t.cells[t.root].es, 0, t.lim)
  {
    assert LevelOk(t, l);
    TopLevel(t);
    assert Slots(t, l + 1) == [Slot(0, t.lim, t.root)];
    assert Blocks(t, l) == [t.cells[t.root].es];
    ExpandSingle(t.cells[t.root].es, Slot(0, t.lim, t.root));
    assert BlockOk(t.n, Blocks(t, l)[0], 0, t.lim);
  }

  lemma ZeroSlotRoot(t: Tree, l: nat, g: nat)
    requires TreeOk(t) && 2 <= l <= |t.levels| && g < |Slots(t, l)| && Slots(t, l)[g].lo == 0
    ensures ZeroRoot(t)
  {
    hide Expand, HealthyLevel, BlocksOk, LevelOk;
    UpperWeakenTo(t, 1, l);
    var g' := ZeroSlotAbove(t, l, |t.levels|, g);
    UpperWeakenTo(t, 1, |t.levels|);
    TopSlots(t, |t.levels|);
    var es := t.cells[t.root].es;
    assert es[g'].key == 0;
    DescLast(es, g');
  }

  lemma DescLast(es: seq<Pair>, g: nat)
    requires Desc(es) && g < |es|
    ensures es[|es| - 1].key <= es[g].key
  {
  }

  lemma RootMiss(t: Tree, key: nat)
    requires RootOk(t) && IsPos(Es(t, t.root), key, |Es(t, t.root)|)
    ensures !ZeroRoot(t)
  {
  }

  lemma EmptyMap(t: Tree)
    requires |t.levels| == 0
    ensures Contents(t) == map[]
  {
  }

  /** Inner nodes hold pairs, and the largest key leads to the first of them. */
  lemma AtFirst(t: Tree, h: nat, j: nat, p: nat)
    requires TreeOk(t) && 1 < h && At(t, h, j, p, t.lim - 1)
    ensures t.cells[p].es != [] && IsPos(t.cells[p].es, t.lim - 1, 0)
  {
    hide Expand, HealthyLevel, Slots;
    RootNonempty(t);
    NodeNonempty(t, h, j, p, t.lim - 1);
    UpperWeakenTo(t, 1, h);
    SeparatorLim(t, h, j, p, 0, t.lim - 1);
  }

  lemma LeafNonempty(t: Tree, j: nat, p: nat, key: nat)
    requires TreeOk(t) && At(t, 1, j, p, key) && |t.levels| >= 2
    ensures t.cells[p].es != []
  {
    hide Expand, HealthyLevel, Slots;
    NodeNonempty(t, 1, j, p, key);
  }

  lemma LastIs(t: Tree, j: nat, p: nat)
    requires TreeOk(t) && At(t, 1, j, p, t.lim - 1)
    ensures t.cells[p].es == [] <==> Contents(t) == map[]
    ensures t.cells[p].es != [] ==>
      var e := t.cells[p].es[0];
      e.key in Contents(t) && Contents(t)[e.key] == e.val && forall k :: k in Contents(t) ==> k <= e.key
  {
    hide Expand, HealthyLevel, Slots, Contents, LevelOk, Upper;
    var es := t.cells[p].es;
    if es == [] {
      if |t.levels| >= 2 {
        LeafNonempty(t, j, p, t.lim - 1);
      }
      forall k: nat
        ensures k !in Contents(t)
      {
        LastNone(t, j, p, k);
      }
    } else {
      SeparatorLim(t, 1, j, p, 0, t.lim - 1);
      var e := es[0];
      assert At(t, 1, j, p, e.key) by {
        LastAt(t, j, p, e.key);
      }
      LeafLookup(t, j, p, e.key, 0);
      forall k: nat | k in Contents(t)
        ensures k <= e.key
      {
        LastNone(t, j, p, k);
      }
    }
  }

  lemma LastAt(t: Tree, j: nat, p: nat, key: nat)
    requires TreeOk(t) && At(t, 1, j, p, t.lim - 1) && t.cells[p].es != [] && t.cells[p].es[0].key == key
    ensures At(t, 1, j, p, key)
  {
    AtBlock(t, 1, j, p, t.lim - 1);
  }

  lemma LastNone(t: Tree, j: nat, p: nat, k: nat)
    requires TreeOk(t) && At(t, 1, j, p, t.lim - 1) && (t.cells[p].es == [] ==> |t.levels| == 1)
    ensures if t.cells[p].es == [] then k !in Contents(t) else k in Contents(t) ==> k <= t.cells[p].es[0].key
  {
    hide Expand, HealthyLevel;
    StoredContents(t, k);
    if Stored(t, k) {
      UpperSlotsLim(t, 1);
      UpperSlotsOk(t, 1);
      var g :| 0 <= g < |Slots(t, 1)| && Slots(t, 1)[g].lo == k;
      SlotNonempty(Slots(t, 1), g);
      if t.cells[p].es == [] {
        assert Slots(t, 2) == [Slot(0, t.lim, t.root)];
        MissBetween(t, 1, j, p, t.lim - 1, k);
      } else if t.cells[p].es[0].key < k {
        SeparatorLim(t, 1, j, p, 0, t.lim - 1);
        LeafFound(t, j, p, 0, t.lim - 1, k);
      }
    }
  }

  /** No stored key lies between `lo` and `hi`, ends included. */
  ghost predicate NoneStored(t: Tree, lo: nat, hi: nat) {
    forall x :: lo <= x <= hi ==> !Stored(t, x)
  }

  lemma MissAll(t: Tree, h: nat, j: nat, p: nat, key: nat)
    requires TreeOk(t) && At(t, h, j, p, key) && IsPos(t.cells[p].es, key, |t.cells[p].es|)
    ensures NoneStored(t, Slots(t, h + 1)[j].lo, key) && Slots(t, h + 1)[j].lo <= key
    ensures h == |t.levels| ==> Slots(t, h + 1)[j].lo == 0 && !ZeroRoot(t)
    ensures h < |t.levels| && Slots(t, h + 1)[j].lo == 0 ==> ZeroRoot(t)
  {
    hide Expand, HealthyLevel;
    forall x: nat | Slots(t, h + 1)[j].lo <= x <= key
      ensures !Stored(t, x)
    {
      MissBetween(t, h, j, p, key, x);
    }
    if h == |t.levels| {
      TopLevel(t);
      RootMiss(t, key);
    } else if Slots(t, h + 1)[j].lo == 0 {
      ZeroSlotRoot(t, h + 1, j);
    }
  }

  lemma FoundAll(t: Tree, j: nat, p: nat, i: nat, key: nat)
    requires TreeOk(t) && At(t, 1, j, p, key) && IsPos(t.cells[p].es, key, i) && i < |t.cells[p].es|
    ensures
      var e := t.cells[p].es[i];
      e.key <= key && e.key in Contents(t) && Contents(t)[e.key] == e.val && NoneStored(t, e.key + 1, key)
  {
    hide Expand, HealthyLevel, Contents;
    var e := t.cells[p].es[i];
    AtBlock(t, 1, j, p, key);
    assert At(t, 1, j, p, e.key);
    LeafLookup(t, j, p, e.key, i);
    forall x: nat | e.key + 1 <= x <= key
      ensures !Stored(t, x)
    {
      LeafFound(t, j, p, i, key, x);
    }
  }

  lemma DescendLo(t: Tree, h: nat, j: nat, p: nat, i: nat, key: nat)
    requires TreeOk(t) && At(t, h, j, p, key) && i < |t.cells[p].es|
    ensures Below(t, h, j, i) < |Slots(t, h)| && Slots(t, h)[Below(t, h, j, i)].lo == t.cells[p].es[i].key
  {
    hide Expand, HealthyLevel, BlocksOk;
    AtBlock(t, h, j, p, key);
    ExpandIndex(Blocks(t, h), Slots(t, h + 1), j, i);
  }

  /** The largest key of all is never missed in a tree with inner nodes. */
  lemma TopKeyHits(t: Tree, h: nat, j: nat, p: nat, key: nat)
    requires TreeOk(t) && At(t, h, j, p, key) && IsPos(t.cells[p].es, key, |t.cells[p].es|) && |t.levels| >= 2
    ensures key + 1 != t.lim
  {
    hide Expand, HealthyLevel, Slots, LevelOk;
    if key + 1 == t.lim {
      if h > 1 {
        AtFirst(t, h, j, p);
      } else {
        LeafNonempty(t, j, p, key);
        SeparatorLim(t, 1, j, p, 0, key);
      }
    }
  }

  lemma StoredLim(t: Tree, key: nat)
    requires TreeOk(t) && Stored(t, key)
    ensures key < t.lim
  {
    hide Expand, HealthyLevel, LevelOk;
    var g :| 0 <= g < |Slots(t, 1)| && Slots(t, 1)[g].lo == key;
    UpperSlotsLim(t, 1);
    UpperSlotsOk(t, 1);
    SlotNonempty(Slots(t, 1), g);
  }

  lemma PrevFound(t: Tree, key: nat, cur: nat, k: nat)
    requires TreeOk(t) && k < cur <= key && k in Contents(t) && NoneStored(t, k + 1, cur - 1)
    requires cur < key ==> NoneStored(t, cur, key - 1)
    ensures SmallerStored(t, key) && forall x :: x in Contents(t) && x < key ==> x <= k
  {
    hide Stored, Contents, Upper, RootOk;
    StoredContents(t, k);
    forall x: nat | x in Contents(t) && x < key
      ensures x <= k
    {
      StoredContents(t, x);
    }
  }

  lemma PrevNone(t: Tree, key: nat, cur: nat)
    requires TreeOk(t) && cur <= key && (cur > 0 ==> NoneStored(t, 0, cur - 1)) && (cur < key ==> NoneStored(t, cur, key - 1))
    ensures !SmallerStored(t, key)
  {
    hide Stored, Upper, RootOk;
  }

  lemma PrevWrapped(t: Tree, k: nat)
    requires TreeOk(t) && NoneStored(t, k + 1, t.lim - 1)
    ensures forall x :: x in Contents(t) ==> x <= k
  {
    hide Stored, Contents, Upper, RootOk;
    forall x: nat | x in Contents(t)
      ensures x <= k
    {
      StoredContents(t, x);
      StoredLim(t, x);
    }
  }

  lemma PrevEmpty(t: Tree, key: nat)
    requires |t.levels| == 0
    ensures !SmallerStored(t, key) && !ZeroRoot(t)
  {
  }

  lemma JoinNone(t: Tree, lo: nat, mid: nat, hi: nat)
    requires lo < mid <= hi && NoneStored(t, lo, mid - 1) && (mid < hi ==> NoneStored(t, mid, hi - 1))
    ensures NoneStored(t, lo, hi - 1)
  {
    hide Stored;
  }
}
