/**
 What every run keeps, by the number of pairs per node, and for which numbers it does not.
 */
module BTreeSound {
  import opened Lists
  import opened BTreeSlots
  import opened BTreeHealth
  import opened BTreeSizes
  import opened BTreeDrive
  import opened BTreeRows
  import opened BTreeMoves
  import opened BTreeOdd

  ghost function Singles(kids: seq<Shape>): (f: seq<bool>)
    ensures |f| == |kids| && forall i :: 0 <= i < |f| ==> f[i] == (Size(kids[i]) == 1)
  {
    seq(|kids|, i requires 0 <= i < |kids| => Size(kids[i]) == 1)
  }

  /** A subtree of `k` levels: all leaves on the lowest, no node empty, and the single children as `Healthy` says. */
  ghost predicate Good(n: nat, s: Shape, k: nat) {
    if k <= 1 then k == 1 && s.Leaf? && 1 <= s.keys <= n
    else
      && s.Node? && 1 <= |s.kids| <= n && FlagsOk(n, Singles(s.kids))
      && forall i :: 0 <= i < |s.kids| ==> Good(n, s.kids[i], k - 1)
  }

  /** A whole tree: an inner root has two children or more. */
  ghost predicate Sound(n: nat, s: Shape, k: nat) {
    if k <= 1 then k == 1 && s.Leaf? && s.keys <= n
    else Good(n, s, k) && |s.kids| >= 2
  }

  /** A node that has just lost an entry, perhaps its last. */
  ghost predicate Thin(n: nat, s: Shape, k: nat) {
    if k <= 1 then k == 1 && s.Leaf? && s.keys <= n
    else
      && s.Node? && |s.kids| <= n && Thinned(n, Singles(s.kids))
      && forall i :: 0 <= i < |s.kids| ==> Good(n, s.kids[i], k - 1)
  }

  lemma ThinGood(n: nat, s: Shape, k: nat)
    requires Thin(n, s, k) && Size(s) >= 1
    ensures Good(n, s, k)
  {
  }

  // --- insertion ---

  lemma ReplaceOne(n: nat, kids: seq<Shape>, k: nat, i: nat, c: Shape)
    requires k >= 2 && Good(n, Node(kids), k) && i < |kids| && Good(n, c, k - 1) && (Size(c) == 1 ==> Size(kids[i]) == 1)
    ensures Good(n, Node(kids[i := c]), k)
  {
    HealthyMono(n, Singles(kids), Singles(kids[i := c]));
  }

  /** One child of a list is replaced by two that are not single. */
  lemma ReplaceTwo(n: nat, kids: seq<Shape>, k: nat, i: nat, r: seq<Shape>)
    requires k >= 2 && GoodFanout(n) && i < |kids| < n && FlagsOk(n, Singles(kids)) && |r| == 2
    requires forall j :: 0 <= j < |kids| ==> Good(n, kids[j], k - 1)
    requires forall j :: 0 <= j < 2 ==> Good(n, r[j], k - 1) && Size(r[j]) >= 2
    ensures Good(n, Node(Replaced(kids, i, r)), k)
  {
    hide Good, Size, Healthy;
    var f, ks := Singles(kids), Replaced(kids, i, r);
    var g := f[i := false];
    HealthyMono(n, f, g);
    HealthyInsert(n, g, i);
    assert Singles(ks) == InsertAt(g, i, false);
    forall j | 0 <= j < |ks|
      ensures Good(n, ks[j], k - 1)
    {
      assert ks[j] == if j < i then kids[j] else if j < i + 2 then r[j - i] else kids[j - 1];
    }
    GoodIs(n, ks, k);
  }

  lemma GoodIs(n: nat, ks: seq<Shape>, k: nat)
    requires k >= 2 && 1 <= |ks| <= n && FlagsOk(n, Singles(ks)) && forall i :: 0 <= i < |ks| ==> Good(n, ks[i], k - 1)
    ensures Good(n, Node(ks), k)
  {
  }

  lemma SplitGood(n: nat, kids: seq<Shape>, k: nat)
    requires k >= 2 && GoodFanout(n) && Good(n, Node(kids), k) && |kids| == n
    ensures
      var h := n / 2;
      && 2 <= h < n - 1 && Good(n, Node(kids[..h]), k) && Good(n, Node(kids[h..]), k)
      && FlagsOk(n, Singles(kids[..h])) && FlagsOk(n, Singles(kids[h..]))
  {
    var h, f := n / 2, Singles(kids);
    HealthySplit(n, f);
    assert Singles(kids[..h]) == f[..h] && Singles(kids[h..]) == f[h..];
  }

  lemma {:induction false} AddedGood(n: nat, s: Shape, k: nat, path: seq<nat>, low: bool)
    requires GoodFanout(n) && Good(n, s, k) && Leads(s, path)
    ensures
      var r := Added(n, s, path, low);
      && (forall j :: 0 <= j < |r| ==> Good(n, r[j], k))
      && (|r| == 1 ==> Size(r[0]) >= Size(s)) && (|r| == 2 ==> Size(r[0]) >= 2 && Size(r[1]) >= 2)
    decreases k
  {
    if k > 1 {
      var kids, i := s.kids, path[0];
      AddedGood(n, kids[i], k - 1, path[1..], low);
      ReceivedGood(n, kids, k, i, Added(n, kids[i], path[1..], low));
    }
  }

  lemma ReceivedGood(n: nat, kids: seq<Shape>, k: nat, i: nat, r: seq<Shape>)
    requires k >= 2 && GoodFanout(n) && Good(n, Node(kids), k) && i < |kids| && (|r| == 1 || |r| == 2)
    requires forall j :: 0 <= j < |r| ==> Good(n, r[j], k - 1)
    requires (|r| == 1 ==> Size(r[0]) >= Size(kids[i])) && (|r| == 2 ==> Size(r[0]) >= 2 && Size(r[1]) >= 2)
    ensures
      var p := Received(n, kids, i, r);
      && (forall j :: 0 <= j < |p| ==> Good(n, p[j], k))
      && (|p| == 1 ==> Size(p[0]) >= |kids|) && (|p| == 2 ==> Size(p[0]) >= 2 && Size(p[1]) >= 2)
  {
    hide Good, FlagsOk, Singles;
    KidsGood(n, kids, k);
    if |r| == 1 {
      ReplaceOne(n, kids, k, i, r[0]);
    } else if |kids| < n {
      FlagsGood(n, kids, k);
      ReplaceTwo(n, kids, k, i, r);
    } else {
      ReceivedFull(n, kids, k, i, r);
    }
  }

  lemma ReceivedFull(n: nat, kids: seq<Shape>, k: nat, i: nat, r: seq<Shape>)
    requires k >= 2 && GoodFanout(n) && Good(n, Node(kids), k) && i < |kids| == n && |r| == 2
    requires forall j :: 0 <= j < 2 ==> Good(n, r[j], k - 1) && Size(r[j]) >= 2
    ensures
      var p := Received(n, kids, i, r);
      |p| == 2 && forall j :: 0 <= j < 2 ==> Good(n, p[j], k) && Size(p[j]) >= 2
  {
    hide Good, FlagsOk, Singles;
    var h := n / 2;
    KidsGood(n, kids, k);
    SplitGood(n, kids, k);
    if i < h {
      ReplaceTwo(n, kids[..h], k, i, r);
      assert Replaced(kids, i, r)[..h + 1] == Replaced(kids[..h], i, r);
    } else {
      ReplaceTwo(n, kids[h..], k, i - h, r);
      assert Replaced(kids, i, r)[h..] == Replaced(kids[h..], i - h, r);
    }
  }

  lemma FlagsGood(n: nat, kids: seq<Shape>, k: nat)
    requires k >= 2 && Good(n, Node(kids), k)
    ensures FlagsOk(n, Singles(kids))
  {
  }

  // --- deletion ---

  lemma JoinGood(n: nat, a: Shape, b: Shape, k: nat)
    requires k >= 1 && GoodFanout(n) && Good(n, a, k) && Good(n, b, k) && Size(a) + Size(b) <= n
    requires (Size(a) < n / 2 && Thin(n, a, k)) || (Size(b) < n / 2 && Thin(n, b, k))
    ensures Good(n, Joined(a, b), k) && Size(Joined(a, b)) == Size(a) + Size(b)
  {
    if k > 1 {
      hide Healthy, Singles;
      HealthyMerge(n, Singles(a.kids), Singles(b.kids));
      SinglesJoin(a.kids, b.kids);
      forall i | 0 <= i < |a.kids + b.kids|
        ensures Good(n, (a.kids + b.kids)[i], k - 1)
      {
        assert (a.kids + b.kids)[i] == if i < |a.kids| then a.kids[i] else b.kids[i - |a.kids|];
      }
    }
  }

  lemma SinglesJoin(a: seq<Shape>, b: seq<Shape>)
    ensures Singles(a + b) == Singles(a) + Singles(b)
  {
    hide Size;
  }

  /** Children `i` and `i + 1` have become one. */
  lemma CollapseGood(n: nat, kids: seq<Shape>, k: nat, i: nat, c: Shape)
    requires k >= 2 && GoodFanout(n) && Good(n, Node(kids), k) && i + 1 < |kids| && Good(n, c, k - 1) && Size(c) >= 2
    ensures Thin(n, Node(kids[..i] + [c] + kids[i + 2..]), k)
  {
    var f, ks := Singles(kids), kids[..i] + [c] + kids[i + 2..];
    HealthyCollapse(n, f, i);
    hide Healthy, Thinned, Size;
    assert Singles(ks) == f[..i] + [false] + f[i + 2..];
    assert forall j :: 0 <= j < |kids| ==> Good(n, kids[j], k - 1);
    hide Good;
    forall j | 0 <= j < |ks|
      ensures Good(n, ks[j], k - 1)
    {
      assert ks[j] == if j < i then kids[j] else if j == i then c else kids[j + 1];
    }
  }

  lemma RemoveGood(n: nat, kids: seq<Shape>, k: nat, i: nat)
    requires k >= 2 && GoodFanout(n) && Good(n, Node(kids), k) && i < |kids| && Size(kids[i]) == 1
    ensures Thin(n, Node(Replaced(kids, i, [])), k)
  {
    var f, ks := Singles(kids), Replaced(kids, i, []);
    assert Singles(ks) == RemoveAt(f, i);
    if |kids| >= 2 {
      HealthyRemove(n, f, i);
    }
  }

  /** Child `i` has lost an entry and is not merged. */
  lemma StayGood(n: nat, kids: seq<Shape>, k: nat, i: nat, c: Shape)
    requires k >= 2 && GoodFanout(n) && Good(n, Node(kids), k) && i < |kids| && Good(n, c, k - 1)
    requires Size(c) == Size(kids[i]) - 1
    requires Size(c) >= 2 || ((i > 0 ==> Size(kids[i - 1]) >= 2) && (i + 1 < |kids| ==> Size(kids[i + 1]) >= 2))
    ensures Good(n, Node(kids[i := c]), k)
  {
    var f, g := Singles(kids), Singles(kids[i := c]);
    if Size(c) == 1 {
      assert g == f[i := true];
      if |kids| >= 2 {
        HealthyShrink(n, f, i);
      }
    } else {
      assert g == f;
    }
  }

  lemma RebalancedGood(n: nat, kids: seq<Shape>, k: nat, i: nat, c: Shape)
    requires k >= 2 && GoodFanout(n) && Good(n, Node(kids), k) && i < |kids| && Thin(n, c, k - 1)
    requires Size(c) == Size(kids[i]) - 1
    ensures
      var ks := Rebalanced(n, kids[i := c], i);
      if |ks| == |kids| then Good(n, Node(ks), k) else |ks| == |kids| - 1 && Thin(n, Node(ks), k)
  {
    hide Good, Thin, Joined;
    var k1 := kids[i := c];
    KidsGood(n, kids, k);
    if Size(c) == 0 {
      RemoveGood(n, kids, k, i);
      assert Replaced(k1, i, []) == Replaced(kids, i, []);
    } else {
      ThinGood(n, c, k - 1);
      if Size(c) < n / 2 && i > 0 && Size(c) + Size(kids[i - 1]) <= n {
        JoinGood(n, kids[i - 1], c, k - 1);
        CollapseGood(n, kids, k, i - 1, Joined(kids[i - 1], c));
        assert k1[..i - 1] == kids[..i - 1] && k1[i + 1..] == kids[i + 1..];
      } else if Size(c) < n / 2 && i + 1 < |kids| && Size(c) + Size(kids[i + 1]) <= n {
        JoinGood(n, c, kids[i + 1], k - 1);
        CollapseGood(n, kids, k, i, Joined(c, kids[i + 1]));
        assert k1[..i] == kids[..i] && k1[i + 2..] == kids[i + 2..];
      } else {
        StayGood(n, kids, k, i, c);
      }
    }
  }

  lemma KidsGood(n: nat, kids: seq<Shape>, k: nat)
    requires k >= 2 && Good(n, Node(kids), k)
    ensures 1 <= |kids| <= n && forall i :: 0 <= i < |kids| ==> Good(n, kids[i], k - 1) && 1 <= Size(kids[i]) <= n
  {
  }

  lemma {:induction false} DeletedGood(n: nat, s: Shape, k: nat, path: seq<nat>)
    requires GoodFanout(n) && Good(n, s, k) && Leads(s, path)
    ensures
      var t := Deleted(n, s, path);
      if Size(t) == Size(s) then Good(n, t, k) else Size(t) == Size(s) - 1 && Thin(n, t, k)
    decreases k
  {
    if k > 1 {
      hide FlagsOk, Rebalanced;
      var kids, i := s.kids, path[0];
      DeletedGood(n, kids[i], k - 1, path[1..]);
      var c := Deleted(n, kids[i], path[1..]);
      if Size(c) == Size(kids[i]) {
        ReplaceOne(n, kids, k, i, c);
      } else {
        RebalancedGood(n, kids, k, i, c);
      }
    }
  }

  // --- whole runs ---

  lemma StepSound(n: nat, s: Shape, k: nat, op: Op) returns (k': nat)
    requires GoodFanout(n) && Sound(n, s, k) && Enabled(s, op)
    ensures Sound(n, Step(n, s, op), k')
  {
    if op.Add? {
      k' := AddSound(n, s, k, op.path, op.low);
    } else {
      k' := DelSound(n, s, k, op.path);
    }
  }

  lemma AddSound(n: nat, s: Shape, k: nat, path: seq<nat>, low: bool) returns (k': nat)
    requires GoodFanout(n) && Sound(n, s, k) && Leads(s, path)
    ensures Sound(n, Step(n, s, Add(path, low)), k')
  {
    k' := k;
    if Size(s) == 0 {
      assert Added(n, s, path, low) == [Leaf(1)];
    } else {
      hide FlagsOk, Added;
      AddedGood(n, s, k, path, low);
      var r := Added(n, s, path, low);
      if |r| == 2 {
        PairGood(n, r, k);
        k' := k + 1;
      }
    }
  }

  lemma PairGood(n: nat, r: seq<Shape>, k: nat)
    requires GoodFanout(n) && k >= 1 && |r| == 2 && forall j :: 0 <= j < 2 ==> Good(n, r[j], k) && Size(r[j]) >= 2
    ensures Good(n, Node(r), k + 1)
  {
    hide Healthy;
    HealthyNone(n, Singles(r));
  }

  lemma DelSound(n: nat, s: Shape, k: nat, path: seq<nat>) returns (k': nat)
    requires GoodFanout(n) && Sound(n, s, k) && Enabled(s, Del(path))
    ensures Sound(n, Step(n, s, Del(path)), k')
  {
    hide Healthy, Deleted;
    k' := k;
    DeletedRoot(n, s, k, path);
    DeletedGood(n, s, k, path);
    var t := Deleted(n, s, path);
    if t.Node? && |t.kids| == 1 && Size(t) < Size(s) {
      assert !Singles(t.kids)[0];
      k' := k - 1;
    }
  }

  lemma DeletedRoot(n: nat, s: Shape, k: nat, path: seq<nat>)
    requires Sound(n, s, k) && Enabled(s, Del(path))
    ensures Good(n, s, k)
  {
  }

  lemma {:induction false} RunSound(n: nat, s: Shape, k: nat, ops: seq<Op>) returns (k': nat)
    requires GoodFanout(n) && Sound(n, s, k) && CanRun(n, s, ops)
    ensures Sound(n, Run(n, s, ops), k')
    decreases |ops|
  {
    k' := k;
    if ops != [] {
      var k1 := StepSound(n, s, k, ops[0]);
      k' := RunSound(n, Step(n, s, ops[0]), k1, ops[1..]);
    }
  }

  /** In every tree that a run reaches all leaves are on one level, no node is empty, and an inner root has two children. */
  lemma ReachSound(n: nat, s: Shape) returns (k: nat)
    requires GoodFanout(n) && Reach(n, EMPTY, s)
    ensures Sound(n, s, k)
  {
    var ops :| CanRun(n, EMPTY, ops) && Run(n, EMPTY, ops) == s;
    k := RunSound(n, EMPTY, 1, ops);
  }

  ghost predicate NeverBreaks(n: nat) {
    forall s :: Reach(n, EMPTY, s) ==> !Broken(s)
  }

  /** No run breaks the tree exactly when there are four, five, or an even number of pairs per node. */
  lemma NeverBreaksIff(n: nat)
    requires n >= 4
    ensures NeverBreaks(n) <==> GoodFanout(n)
  {
    if GoodFanout(n) {
      forall s | Reach(n, EMPTY, s)
        ensures !Broken(s)
      {
        var k := ReachSound(n, s);
      }
    } else {
      OddBreaks(n);
      assert Broken(Node([]));
    }
  }

  // --- neighbouring children ---

  /** Any two neighbouring children hold three entries together. */
  ghost predicate ThreeTogether(s: Shape) {
    s.Node? ==>
      && (forall i, j :: 0 <= i < |s.kids| && j == i + 1 < |s.kids| ==> Size(s.kids[i]) + Size(s.kids[j]) >= 3)
      && forall i :: 0 <= i < |s.kids| ==> ThreeTogether(s.kids[i])
  }

  ghost predicate AlwaysThree(n: nat) {
    forall s :: Reach(n, EMPTY, s) ==> ThreeTogether(s)
  }

  lemma {:induction false} GoodThree(n: nat, s: Shape, k: nat)
    requires n < 6 && Good(n, s, k)
    ensures ThreeTogether(s)
    decreases k
  {
    if k > 1 {
      var f := Singles(s.kids);
      forall i | 0 <= i < |s.kids|
        ensures ThreeTogether(s.kids[i]) && Size(s.kids[i]) >= 1
      {
        GoodThree(n, s.kids[i], k - 1);
      }
      forall i, j | 0 <= i < |s.kids| && j == i + 1 < |s.kids|
        ensures Size(s.kids[i]) + Size(s.kids[j]) >= 3
      {
        assert !f[i] || !f[i + 1];
      }
    }
  }

  /** From six pairs on, a run leads to two neighbouring leaves with one key each. */
  lemma TwoSingleLeaves(n: nat) returns (s: Shape)
    requires n >= 6
    ensures Reach(n, EMPTY, s) && !ThreeTogether(s)
  {
    hide At, Is, Reach;
    var h, k := n / 2, 2;
    var y, z;
    s, y, z := TwoRowsReached(n, k);
    var g := Row(0, 0, z);
    assert [Row(0, 0, y), g] == Rows([], [Row(0, 0, y)], [g]);
    s := GrowR(n, EMPTY, s, k, [], Row(0, 0, y), [g], n);
    s := SplitR(n, EMPTY, s, k, [], Row(0, 0, n), [g], Row(0, 0, h), Row(0, 0, n - h + 1));
    assert Rows([], [Row(0, 0, h), Row(0, 0, n - h + 1)], [g]) == Rows([], [Row(0, 0, h)], [Row(0, 0, n - h + 1), g]);
    s := FlipL(n, EMPTY, s, k, [], Row(0, 0, h), [Row(0, 0, n - h + 1), g]);
    var a := Row(h - 1, 1, 0);
    assert Rows([], [a], [Row(0, 0, n - h + 1), g]) == Rows([a], [Row(0, 0, n - h + 1)], [g]);
    s := FlipF(n, EMPTY, s, k, [a], Row(0, 0, n - h + 1), [g]);
    assert Rows([a], [Row(0, 1, n - h)], [g]) == [a, Row(0, 1, n - h)] + [g];
    s := Squeeze(n, h, EMPTY, s, k, a, n - h, [g]);
    PairIn(n, s, k, h, [g]);
  }

  lemma PairIn(n: nat, s: Shape, k: nat, h: nat, rest: seq<Row>)
    requires h >= 2 && At(n, EMPTY, s, k, [Row(h - 1, 2, h - 2)] + rest)
    ensures Reach(n, EMPTY, s) && !ThreeTogether(s)
  {
    hide Reach;
    var b := s.kids[0];
    assert Is(n, b, k, ([Row(h - 1, 2, h - 2)] + rest)[0]);
    assert Size(b.kids[h - 1]) == 1 && Size(b.kids[h]) == 1;
    assert !ThreeTogether(b);
  }

  /** Neighbours always hold three entries together exactly when there are fewer than six pairs per node. */
  lemma AlwaysThreeIff(n: nat)
    requires n >= 4
    ensures AlwaysThree(n) <==> n < 6
  {
    if n < 6 {
      forall s | Reach(n, EMPTY, s)
        ensures ThreeTogether(s)
      {
        var k := ReachSound(n, s);
        if k > 1 {
          GoodThree(n, s, k);
        }
      }
    } else {
      var s := TwoSingleLeaves(n);
    }
  }
}
