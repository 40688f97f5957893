/** The limits of the B+tree, in terms of the keys that are inserted and removed. */
module BTreeExact {
  import opened Lists
  import Bits
  import opened BTreeHealth
  import opened BTreeSizes
  import opened BTreeKeyed
  import opened BTreeRealize
  import opened BTreeSound
  import opened BTreeOdd

  // --- from keys to sizes ---

  /** The path that a key takes. */
  function Path(t: Keyed, key: nat): (path: seq<nat>)
    requires Formed(t)
  {
    match t
    case KLeaf(_) => []
    case KNode(seps, kids) => [Child(seps, key)] + Path(kids[Child(seps, key)], key)
  }

  lemma {:induction false} PathLeads(t: Keyed, key: nat)
    requires Formed(t)
    ensures Leads(Sizes(t), Path(t, key))
    decreases t
  {
    if t.KNode? {
      var i := Child(t.seps, key);
      PathLeads(t.kids[i], key);
      assert Path(t, key)[1..] == Path(t.kids[i], key);
    }
  }

  lemma TookSizes(n: nat, seps: seq<nat>, kids: seq<Keyed>, i: nat, r: seq<Keyed>)
    requires n >= 4 && |seps| == |kids| <= n && i < |kids| && Pieces(r)
    ensures AllSizes(Took(n, seps, kids, i, r)) == Received(n, AllSizes(kids), i, AllSizes(r))
  {
    hide Sizes, Formed;
    var h := n / 2;
    if |r| == 1 {
      SizesNode(seps, kids[i := r[0]]);
      assert AllSizes(kids[i := r[0]]) == AllSizes(kids)[i := AllSizes(r)[0]];
    } else {
      var ss, ks := InsertAt(seps, i, Low(r[0])), Replaced(kids, i, r);
      SizesReplaced(kids, i, r);
      SizesNode(ss, ks);
      if |kids| == n {
        SizesCut(kids, h);
        SizesCut(ks, h);
        SizesCut(ks, h + 1);
        SizesNode(ss[..h + 1], ks[..h + 1]);
        SizesNode(seps[h..], kids[h..]);
        SizesNode(seps[..h], kids[..h]);
        SizesNode(ss[h..], ks[h..]);
      }
    }
  }

  lemma {:induction false} ProjectAdd(n: nat, t: Keyed, key: nat) returns (low: bool)
    requires n >= 4 && Formed(t) && Small(n, Sizes(t))
    ensures Leads(Sizes(t), Path(t, key)) && AllSizes(KAdd(n, t, key)) == Added(n, Sizes(t), Path(t, key), low)
    decreases t
  {
    PathLeads(t, key);
    match t
    case KLeaf(keys) =>
      low := Pos(keys, key) >= n / 2;
      hide Pos;
    case KNode(seps, kids) =>
      var i := Child(seps, key);
      SmallKid(n, seps, kids, i);
      low := ProjectAdd(n, kids[i], key);
      hide Added, AllSizes, Small, Received;
      TookSizes(n, Lowered(seps, key), kids, i, KAdd(n, kids[i], key));
      SizesNode(seps, kids);
      AddedUnder(n, AllSizes(kids), i, Path(kids[i], key), low);
      AllSizesAt(kids, i);
  }

  lemma AllSizesAt(kids: seq<Keyed>, i: nat)
    requires i < |kids|
    ensures AllSizes(kids)[i] == Sizes(kids[i])
  {
  }

  lemma {:induction false} ProjectDel(n: nat, t: Keyed, key: nat)
    requires n >= 4 && Formed(t)
    ensures
      var u, path := KDel(n, t, key), Path(t, key);
      Leads(Sizes(t), path) && (Sizes(u) == Sizes(t) || (LeafKeys(Sizes(t), path) > 0 && Sizes(u) == Deleted(n, Sizes(t), path)))
    decreases t
  {
    PathLeads(t, key);
    match t
    case KLeaf(keys) =>
      hide Pos;
    case KNode(seps, kids) =>
      var i := Child(seps, key);
      ProjectDel(n, kids[i], key);
      hide Rebalanced, KRebalanced, Pos;
      var c := KDel(n, kids[i], key);
      SizesCount(c);
      SizesCount(kids[i]);
      RebSizes(n, seps, kids[i := c], i);
      SizesNode(seps, kids);
      SizesNode(seps, kids[i := c]);
      assert AllSizes(kids[i := c]) == AllSizes(kids)[i := Sizes(c)];
      assert Path(t, key)[1..] == Path(kids[i], key);
  }

  lemma ProjectStep(n: nat, t: Keyed, op: KeyOp)
    requires n >= 4 && Formed(t) && Small(n, Sizes(t))
    ensures Reach(n, Sizes(t), Sizes(KStep(n, t, op))) && Small(n, Sizes(KStep(n, t, op)))
  {
    hide Reach, KAdd, KDel, Added, Deleted, Small;
    var path := Path(t, op.key);
    ReachSelf(n, Sizes(t));
    if op.Insert? {
      var low := ProjectAdd(n, t, op.key);
      var r := KAdd(n, t, op.key);
      assert |r| == 1 || |r| == 2;
      if |r| == 2 {
        SizesNode([Low(r[0]), Low(r[1])], r);
      }
      ReachStep(n, Sizes(t), Add(path, low));
      StepSmall(n, Sizes(t), Add(path, low));
    } else {
      ProjectDel(n, t, op.key);
      var u := KDel(n, t, op.key);
      SizesCount(u);
      SizesCount(t);
      if u.KNode? {
        SizesNode(u.seps, u.kids);
      }
      if Sizes(u) != Sizes(t) {
        ReachStep(n, Sizes(t), Del(path));
        StepSmall(n, Sizes(t), Del(path));
      }
    }
  }

  lemma {:induction false} ProjectRun(n: nat, t: Keyed, ks: seq<KeyOp>, u: Keyed)
    requires n >= 4 && Small(n, Sizes(t)) && KRuns(n, t, ks, u)
    ensures Reach(n, Sizes(t), Sizes(u))
    decreases |ks|
  {
    hide Reach, KStep, Small;
    if ks == [] {
      ReachSelf(n, Sizes(t));
    } else {
      ProjectStep(n, t, ks[0]);
      ProjectRun(n, KStep(n, t, ks[0]), ks[1..], u);
      ReachTrans(n, Sizes(t), Sizes(KStep(n, t, ks[0])), Sizes(u));
    }
  }

  // --- the limits ---

  const START := KLeaf([])

  /** The trees that insertions of absent keys and removals of present ones lead to. */
  ghost predicate Reachable(n: nat, u: Keyed)
    requires n >= 4
  {
    exists ks :: KRuns(n, START, ks, u)
  }

  lemma ReachableSizes(n: nat, u: Keyed)
    requires n >= 4 && Reachable(n, u)
    ensures Reach(n, EMPTY, Sizes(u))
  {
    var ks :| KRuns(n, START, ks, u);
    ProjectRun(n, START, ks, u);
  }

  lemma SizesReachable(n: nat, s: Shape) returns (u: Keyed)
    requires n >= 4 && Reach(n, EMPTY, s)
    ensures Reachable(n, u) && Sizes(u) == s && (Count(u) == 0 ==> u == START || u == KNode([], []))
  {
    var ops :| CanRun(n, EMPTY, ops) && Run(n, EMPTY, ops) == s;
    var lim := Bits.Pow2(|ops|);
    var ks;
    ks, u := RealizeRun(n, START, lim, {lim}, |ops|, ops);
  }

  /** An inner root without entries, on which the next insertion stops at BUG_ON, is reached exactly
      when the number of pairs per node is odd and seven or more. */
  lemma BreaksIff(n: nat)
    requires n >= 4
    ensures Reachable(n, KNode([], [])) <==> !GoodFanout(n)
    ensures !GoodFanout(n) <==> n >= 7 && n % 2 == 1
  {
    if Reachable(n, KNode([], [])) {
      ReachableSizes(n, KNode([], []));
      NeverBreaksIff(n);
      assert Broken(Sizes(KNode([], [])));
    }
    if !GoodFanout(n) {
      OddBreaks(n);
      var u := SizesReachable(n, Node([]));
    }
  }

  /** Neighbouring children hold three entries together in every tree reached exactly when there are fewer
      than six pairs per node. */
  lemma SiblingsIff(n: nat)
    requires n >= 4
    ensures (forall u :: Reachable(n, u) ==> ThreeTogether(Sizes(u))) <==> n < 6
  {
    AlwaysThreeIff(n);
    if n < 6 {
      forall u | Reachable(n, u)
        ensures ThreeTogether(Sizes(u))
      {
        ReachableSizes(n, u);
      }
    } else {
      var s := TwoSingleLeaves(n);
      var u := SizesReachable(n, s);
    }
  }

  // --- a separator 0 without a key 0 ---

  lemma {:induction false} RunsSnoc(n: nat, t: Keyed, ks: seq<KeyOp>, u: Keyed, op: KeyOp)
    requires n >= 4 && KRuns(n, t, ks, u) && Allowed(u, op)
    ensures KRuns(n, t, ks + [op], KStep(n, u, op))
    decreases |ks|
  {
    hide KStep;
    if ks == [] {
      assert ([op])[1..] == [] && ks + [op] == [op];
    } else {
      assert (ks + [op])[1..] == ks[1..] + [op];
      RunsSnoc(n, KStep(n, t, ks[0]), ks[1..], u, op);
    }
  }

  lemma ReachableStep(n: nat, u: Keyed, op: KeyOp)
    requires n >= 4 && Reachable(n, u) && Allowed(u, op)
    ensures Reachable(n, KStep(n, u, op))
  {
    var ks :| KRuns(n, START, ks, u);
    RunsSnoc(n, START, ks, u, op);
  }

  /** k, k - 1, ..., 1 */
  function Falling(k: nat): (s: seq<nat>)
    ensures |s| == k && forall i :: 0 <= i < k ==> s[i] == k - i
  {
    seq(k, i => k - i)
  }

  lemma {:induction false} Filled(n: nat, k: nat)
    requires n >= 4 && k <= n
    ensures Reachable(n, KLeaf(Falling(k)))
    decreases k
  {
    hide Reachable;
    if k == 0 {
      FromStart(n);
      assert Falling(0) == [];
    } else {
      Filled(n, k - 1);
      var t := KLeaf(Falling(k - 1));
      assert Pos(t.keys, k) == 0;
      assert InsertAt(t.keys, 0, k) == Falling(k);
      assert KAdd(n, t, k) == [KLeaf(Falling(k))];
      ReachableStep(n, t, Insert(k));
    }
  }

  lemma FromStart(n: nat)
    requires n >= 4
    ensures Reachable(n, START)
  {
    assert KRuns(n, START, [], START);
  }

  /** The two leaves of 1 to n, with or without a last key 0, below the separators n - n / 2 + 1 and 0. */
  function ZeroTree(n: nat, last: seq<nat>): Keyed {
    var h := n / 2;
    KNode([n - h + 1, 0], [KLeaf(Falling(n)[..h]), KLeaf(Falling(n)[h..] + last)])
  }

  lemma ZeroInserted(n: nat)
    requires n >= 4
    ensures Reachable(n, ZeroTree(n, [0]))
  {
    hide Reachable, Pos;
    var f, h := Falling(n), n / 2;
    Filled(n, n);
    PosEnd(f, 0);
    assert InsertAt(f, n, 0) == f + [0] && (f + [0])[h..] == f[h..] + [0];
    assert KAdd(n, KLeaf(f), 0) == [KLeaf(f[..h]), KLeaf(f[h..] + [0])];
    assert Allowed(KLeaf(f), Insert(0));
    ReachableStep(n, KLeaf(f), Insert(0));
  }

  lemma ZeroRemoved(n: nat)
    requires n >= 4
    ensures Reachable(n, ZeroTree(n, []))
  {
    hide Reachable, Pos;
    var t, h := ZeroTree(n, [0]), n / 2;
    ZeroInserted(n);
    var b := t.kids[1];
    PosSecond(n - h + 1);
    PosLast(b.keys);
    assert b.keys[n - h] == 0;
    assert RemoveAt(b.keys, n - h) == Falling(n)[h..] + [];
    assert Has(t.kids[1], 0) && Has(t, 0) && Formed(t);
    assert t.kids[1 := KLeaf(Falling(n)[h..] + [])] == ZeroTree(n, []).kids;
    assert KDel(n, t, 0) == ZeroTree(n, []);
    ReachableStep(n, t, Remove(0));
  }

  /** What a descent of btree_get_prev() ends with: a key, a separator to start over from, or neither. */
  datatype Descent = Hit(key: nat) | Again(sep: nat) | Miss

  function Attempt(t: Keyed, key: nat, retry: Descent): Descent
    requires Formed(t)
  {
    match t
    case KLeaf(keys) =>
      if Pos(keys, key) < |keys| then Hit(keys[Pos(keys, key)]) else retry
    case KNode(seps, kids) =>
      var i := Pos(seps, key);
      if i < |seps| then Attempt(kids[i], key, Again(seps[i])) else retry
  }

  /** btree_get_prev() with at most `retries` new descents; keys are below `lim`, and dec_key() wraps around. */
  function GetPrev(t: Keyed, lim: nat, key: nat, retries: nat): Descent
    requires Formed(t) && lim > 0
    decreases retries
  {
    var d := Attempt(t, if key == 0 then lim - 1 else key - 1, Miss);
    if d.Again? && retries > 0 then GetPrev(t, lim, d.sep, retries - 1) else d
  }

  /** Inserting 1, 2, ..., n and 0 and removing 0 leaves a separator 0 in the root and no key 0: there the
      predecessor of the smallest key, 1, is the greatest one. */
  lemma ZeroSeparator(n: nat, lim: nat)
    requires 4 <= n < lim
    ensures
      var u := ZeroTree(n, []);
      Reachable(n, u) && u.seps[1] == 0 && Has(u, 1) && Has(u, n) && !Has(u, 0) && GetPrev(u, lim, 1, 1) == Hit(n)
  {
    hide Reachable, GetPrev;
    ZeroRemoved(n);
    ZeroPrev(n, lim);
    var u, h := ZeroTree(n, []), n / 2;
    assert u.kids[1].keys[n - h - 1] == 1 && Has(u.kids[1], 1);
    assert u.kids[0].keys[0] == n && Has(u.kids[0], n);
    assert !Has(u.kids[0], 0) && !Has(u.kids[1], 0);
  }

  lemma ZeroPrev(n: nat, lim: nat)
    requires 4 <= n < lim
    ensures GetPrev(ZeroTree(n, []), lim, 1, 1) == Hit(n)
  {
    hide Pos;
    var u, h := ZeroTree(n, []), n / 2;
    var a, b := u.kids[0], u.kids[1];
    PosSecond(n - h + 1);
    PosEnd(b.keys, 0);
    assert Attempt(u, 0, Miss) == Attempt(b, 0, Again(0)) == Again(0);
    PosStart(u.seps, lim - 1);
    PosStart(a.keys, lim - 1);
    assert Attempt(u, lim - 1, Miss) == Attempt(a, lim - 1, Again(n - h + 1)) == Hit(n);
  }

  lemma PosStart(ks: seq<nat>, key: nat)
    requires |ks| > 0 && ks[0] <= key
    ensures Pos(ks, key) == 0
  {
  }

  lemma PosEnd(ks: seq<nat>, key: nat)
    requires forall i :: 0 <= i < |ks| ==> key < ks[i]
    ensures Pos(ks, key) == |ks|
  {
  }

  lemma PosSecond(a: nat)
    requires a > 0
    ensures Pos([a, 0], 0) == 1
  {
  }

  lemma PosLast(ks: seq<nat>)
    requires |ks| > 0 && ks[|ks| - 1] == 0 && forall i :: 0 <= i < |ks| - 1 ==> ks[i] > 0
    ensures Pos(ks, 0) == |ks| - 1
  {
  }
}
