/** No key and no separator of the tree is 0, as long as no operation is called with key 0. */
module BTreeFloor {
  import opened Lists
  import opened BTreeSlots
  import opened BTreeShape
  import opened BTreeInsert
  import opened BTreeRemove
  import opened BTreeMap

  ghost predicate Positive(es: seq<Pair>) {
    forall i :: 0 <= i < |es| ==> es[i].key > 0
  }

  ghost predicate NoZero(t: Tree) {
    forall p :: p in t.cells ==> Positive(t.cells[p].es)
  }

  lemma NoZeroSet(t: Tree, p: nat, es: seq<Pair>)
    requires p in t.cells && NoZero(t) && Positive(es)
    ensures NoZero(SetEs(t, p, es))
  {
    hide Positive;
  }

  lemma NoZeroLower(t: Tree, p: nat, key: nat)
    requires p in t.cells && t.cells[p].es != [] && NoZero(t) && key > 0
    ensures NoZero(SetEs(t, p, LowerLast(t.cells[p].es, key)))
  {
    NoZeroSet(t, p, LowerLast(t.cells[p].es, key));
  }

  lemma NoZeroInsert(t: Tree, p: nat, i: nat, e: Pair)
    requires p in t.cells && i <= |t.cells[p].es| && NoZero(t) && e.key > 0
    ensures NoZero(SetEs(t, p, InsertAt(t.cells[p].es, i, e)))
  {
    NoZeroSet(t, p, InsertAt(t.cells[p].es, i, e));
  }

  lemma NoZeroRemove(t: Tree, p: nat, i: nat)
    requires p in t.cells && i < |t.cells[p].es| && NoZero(t)
    ensures NoZero(SetEs(t, p, RemoveAt(t.cells[p].es, i)))
  {
    NoZeroSet(t, p, RemoveAt(t.cells[p].es, i));
  }

  lemma NoZeroGrown(t: Tree, p: nat)
    requires NoZero(t) && (|t.levels| > 0 ==> t.root in t.cells && t.cells[t.root].es != [])
    ensures NoZero(Grown(t, p))
  {
    assert Positive(GrownEs(t));
    hide Positive;
  }

  lemma NoZeroSplit(t: Tree, l: nat, j: nat, p: nat, s: nat, h: nat)
    requires NoZero(t) && p in t.cells && 1 <= l <= |t.levels| && j <= |t.levels[l - 1]| && h <= |t.cells[p].es|
    ensures NoZero(SplitNode(t, l, j, p, s, t.cells[p].es, h))
  {
    var es := t.cells[p].es;
    assert Positive(es[..h]) && Positive(es[h..]);
    hide Positive;
  }

  lemma NoZeroDrop(t: Tree, l: nat, j: nat, q: nat)
    requires NoZero(t) && 1 <= l <= |t.levels| && j < |t.levels[l - 1]|
    ensures NoZero(DropNode(t, l, j, q))
  {
    hide Positive;
  }

  lemma NoZeroShrunk(t: Tree, child: nat)
    requires NoZero(t) && |t.levels| >= 1
    ensures NoZero(Shrunk(t, child))
  {
    hide Positive;
  }

  lemma NoZeroMerged(t: Tree, l: nat, j: nat, q: nat, qi: nat)
    requires 1 <= l < |t.levels| && j + 1 < |t.levels[l - 1]| && q < |t.levels[l]|
    requires t.levels[l - 1][j] in t.cells && t.levels[l][q] in t.cells && qi + 1 < |t.cells[t.levels[l][q]].es|
    requires NoZero(t)
    ensures NoZero(Merged(t, l, j, q, qi))
  {
    var left, parent := t.levels[l - 1][j], t.levels[l][q];
    var both := Blocks(t, l)[j] + Blocks(t, l)[j + 1];
    assert Positive(Es(t, left)) && Positive(Es(t, t.levels[l - 1][j + 1]));
    assert Positive(both);
    NoZeroSet(t, left, both);
    var es := t.cells[parent].es;
    assert Positive(SwapEs(es, qi));
    NoZeroSet(SetEs(t, left, both), parent, SwapEs(es, qi));
  }

  lemma NoZeroAt(t: Tree, p: nat, i: nat)
    requires NoZero(t) && p in t.cells && i < |t.cells[p].es|
    ensures t.cells[p].es[i].key > 0
  {
    assert Positive(t.cells[p].es);
  }

  lemma NoZeroStored(t: Tree, p: nat, i: nat, val: nat)
    requires NoZero(t) && p in t.cells && i < |t.cells[p].es|
    ensures NoZero(SetEs(t, p, SetValAt(t.cells[p].es, i, val)))
  {
    NoZeroSet(t, p, SetValAt(t.cells[p].es, i, val));
  }

  /** Then the root has no separator 0. */
  lemma NoZeroRoot(t: Tree)
    requires TreeOk(t) && NoZero(t)
    ensures !ZeroRoot(t)
  {
    if |t.levels| >= 2 {
      var l := |t.levels|;
      UpperWeakenTo(t, 1, l);
      TopSlots(t, l);
      assert Positive(t.cells[t.root].es);
    }
  }
}
