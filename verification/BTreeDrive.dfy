/** How a run of insertions and deletions makes a node of the tree grow, split or lose entries. */
module BTreeDrive {
  import opened BTreeSizes

  /** A subtree of `k` levels without empty or overfull nodes. */
  ghost predicate Tree(n: nat, s: Shape, k: nat) {
    if k <= 1 then k == 1 && s.Leaf? && 1 <= s.keys <= n
    else s.Node? && 1 <= |s.kids| <= n && forall i :: 0 <= i < |s.kids| ==> Tree(n, s.kids[i], k - 1)
  }

  /** More entries for a node, up to any number that fits. */
  lemma {:induction false} GrowTo(n: nat, s: Shape, k: nat, m: nat) returns (t: Shape)
    requires n >= 4 && Tree(n, s, k) && Size(s) <= m <= n
    ensures Quiet(n, s, t) && Tree(n, t, k) && Size(t) == m
    decreases k, m - Size(s)
  {
    if Size(s) == m {
      t := s;
      QuietSelf(n, s);
    } else if k == 1 {
      var u := Leaf(s.keys + 1);
      QuietStep(n, s, Add([], false));
      t := GrowTo(n, u, k, m);
      QuietTrans(n, s, u, t);
    } else {
      var u := GrowAt(n, s.kids, 0, k);
      t := GrowTo(n, Node(u), k, m);
      QuietTrans(n, s, Node(u), t);
    }
  }

  /** Child `i` is made to split. */
  lemma {:induction false} GrowAt(n: nat, kids: seq<Shape>, i: nat, k: nat) returns (ks: seq<Shape>)
    requires n >= 4 && k >= 2 && Tree(n, Node(kids), k) && |kids| < n && i < |kids|
    ensures Quiet(n, Node(kids), Node(ks)) && Tree(n, Node(ks), k) && |ks| == |kids| + 1
    ensures ks[..i] == kids[..i] && ks[i + 2..] == kids[i + 1..] && Size(ks[i]) >= 2 && Size(ks[i + 1]) >= 2
    decreases k, 0
  {
    hide Quiet, Splits;
    var c := GrowTo(n, kids[i], k - 1, n);
    var r := SplitFull(n, c, k - 1);
    QuietSplits(n, kids[i], c, r);
    SplitUp(n, kids, i, r);
    ks := Replaced(kids, i, r);
    TwoTrees(n, kids, i, r, k);
  }

  lemma TwoTrees(n: nat, kids: seq<Shape>, i: nat, r: seq<Shape>, k: nat)
    requires k >= 2 && i < |kids| && |r| == 2 && Tree(n, r[0], k - 1) && Tree(n, r[1], k - 1)
    requires forall j :: 0 <= j < |kids| ==> Tree(n, kids[j], k - 1)
    ensures
      var ks := Replaced(kids, i, r);
      && |ks| == |kids| + 1 && ks[..i] == kids[..i] && ks[i] == r[0] && ks[i + 1] == r[1] && ks[i + 2..] == kids[i + 1..]
      && forall j :: 0 <= j < |ks| ==> Tree(n, ks[j], k - 1)
  {
    hide Tree;
    var ks := Replaced(kids, i, r);
    forall j | 0 <= j < |ks|
      ensures Tree(n, ks[j], k - 1)
    {
      assert ks[j] == if j < i then kids[j] else if j < i + 2 then r[j - i] else kids[j - 1];
    }
  }

  /** A full node is split into two halves. */
  lemma {:induction false} SplitFull(n: nat, s: Shape, k: nat) returns (r: seq<Shape>)
    requires n >= 4 && Tree(n, s, k) && Size(s) == n
    ensures Splits(n, s, r) && |r| == 2 && Tree(n, r[0], k) && Tree(n, r[1], k) && Size(r[0]) >= 2 && Size(r[1]) >= 2
    decreases k, 1
  {
    if k == 1 {
      QuietSelf(n, s);
      r := Added(n, s, [], false);
      assert Enabled(s, Add([], false));
    } else {
      r := SplitAt(n, s.kids, 0, k);
    }
  }

  /** Child `i` of a full node is made to split, and the node with it. */
  lemma {:induction false} SplitAt(n: nat, kids: seq<Shape>, i: nat, k: nat) returns (r: seq<Shape>)
    requires n >= 4 && k >= 2 && Tree(n, Node(kids), k) && |kids| == n && i < n
    ensures Splits(n, Node(kids), r) && |r| == 2 && Tree(n, r[0], k) && Tree(n, r[1], k)
    ensures SplitHalves(n, kids, i, r)
    decreases k, 0
  {
    hide Quiet, Splits;
    var c := GrowTo(n, kids[i], k - 1, n);
    var r' := SplitFull(n, c, k - 1);
    QuietSplits(n, kids[i], c, r');
    SplitUp(n, kids, i, r');
    var h, ks := n / 2, Replaced(kids, i, r');
    r := if i < h then [Node(ks[..h + 1]), Node(kids[h..])] else [Node(kids[..h]), Node(ks[h..])];
    TwoTrees(n, kids, i, r', k);
    HalvesAre(n, kids, i, ks, r);
  }

  lemma HalvesAre(n: nat, kids: seq<Shape>, i: nat, ks: seq<Shape>, r: seq<Shape>)
    requires n >= 4 && |kids| == n && DoubledAt(kids, i, ks)
    requires
      var h := n / 2;
      r == if i < h then [Node(ks[..h + 1]), Node(kids[h..])] else [Node(kids[..h]), Node(ks[h..])]
    ensures SplitHalves(n, kids, i, r)
  {
    var h := n / 2;
    forall j | 0 <= j < |ks|
      ensures j < i ==> ks[j] == kids[j]
      ensures j >= i + 2 ==> ks[j] == kids[j - 1]
    {
      if j < i {
        assert ks[..i][j] == kids[..i][j];
      } else if j >= i + 2 {
        assert ks[i + 2..][j - i - 2] == kids[i + 1..][j - i - 2];
      }
    }
  }

  /** The half that holds child `i` has two children with two entries or more in its place. */
  ghost predicate SplitHalves(n: nat, kids: seq<Shape>, i: nat, r: seq<Shape>) {
    var h := n / 2;
    && |r| == 2 && r[0].Node? && r[1].Node? && |kids| == n && i < n
    && (i < h ==> r[1].kids == kids[h..] && DoubledAt(kids[..h], i, r[0].kids))
    && (i >= h ==> r[0].kids == kids[..h] && DoubledAt(kids[h..], i - h, r[1].kids))
  }

  ghost predicate DoubledAt(kids: seq<Shape>, i: nat, ks: seq<Shape>) {
    && i < |kids| && |ks| == |kids| + 1 && ks[..i] == kids[..i] && ks[i + 2..] == kids[i + 1..]
    && Size(ks[i]) >= 2 && Size(ks[i + 1]) >= 2
  }

  /** A node is made to lose an entry. */
  lemma {:induction false} LoseOne(n: nat, s: Shape, k: nat) returns (t: Shape)
    requires n >= 4 && Tree(n, s, k)
    ensures Loses(n, s, t) && Size(t) == Size(s) - 1 && (Size(t) > 0 ==> Tree(n, t, k))
    decreases k, 1, 0
  {
    if k == 1 {
      QuietSelf(n, s);
      t := Leaf(s.keys - 1);
      assert Enabled(s, Del([])) && t == Deleted(n, s, []);
    } else {
      var ks := Drive(n, s.kids, 0, k);
      t := Node(ks);
    }
  }

  /** The same child or one with more entries. */
  ghost predicate AtLeast(c: Shape, d: Shape) {
    d == c || Size(d) > Size(c)
  }

  /** Child `i` is gone; what it still had is part of a neighbour. */
  ghost predicate Gone(kids: seq<Shape>, i: nat, ks: seq<Shape>) {
    && i < |kids| && |ks| == |kids| - 1
    && (forall p :: 0 <= p < i - 1 ==> ks[p] == kids[p]) && (forall p :: i < p < |ks| ==> ks[p] == kids[p + 1])
    && (i > 0 ==> AtLeast(kids[i - 1], ks[i - 1])) && (i < |ks| ==> AtLeast(kids[i + 1], ks[i]))
  }

  /** Deletions below child `i` go on until the child is gone. */
  lemma {:induction false} Drive(n: nat, kids: seq<Shape>, i: nat, k: nat) returns (ks: seq<Shape>)
    requires n >= 4 && k >= 2 && Tree(n, Node(kids), k) && i < |kids|
    ensures Loses(n, Node(kids), Node(ks)) && Gone(kids, i, ks) && (ks != [] ==> Tree(n, Node(ks), k))
    decreases k, 0, Size(kids[i])
  {
    hide Quiet, Loses, Rebalanced, Gone;
    var c := LoseOne(n, kids[i], k - 1);
    LoseUp(n, kids, i, c);
    var k1 := kids[i := c];
    ks := Rebalanced(n, k1, i);
    DriveLast(n, k1, i, k);
    if |ks| >= |kids| {
      ks := Drive(n, k1, i, k);
      QuietLoses(n, Node(kids), Node(k1), Node(ks));
    }
    GoneAfter(kids, i, c, ks);
  }

  lemma GoneAfter(kids: seq<Shape>, i: nat, c: Shape, ks: seq<Shape>)
    requires i < |kids| && Gone(kids[i := c], i, ks)
    ensures Gone(kids, i, ks)
  {
  }

  lemma DriveLast(n: nat, kids: seq<Shape>, i: nat, k: nat)
    requires n >= 4 && k >= 2 && i < |kids| <= n && (Size(kids[i]) > 0 ==> Tree(n, kids[i], k - 1))
    requires forall j :: 0 <= j < |kids| && j != i ==> Tree(n, kids[j], k - 1)
    ensures
      var ks := Rebalanced(n, kids, i);
      && (|ks| < |kids| ==> Gone(kids, i, ks) && (ks != [] ==> Tree(n, Node(ks), k)))
      && (|ks| >= |kids| ==> ks == kids && Size(kids[i]) > 0)
  {
    var ks := Rebalanced(n, kids, i);
    if |ks| < |kids| && Size(kids[i]) > 0 {
      if i > 0 && Size(kids[i]) + Size(kids[i - 1]) <= n {
        JoinTree(n, kids[i - 1], kids[i], k - 1);
      } else if i + 1 < |kids| {
        JoinTree(n, kids[i], kids[i + 1], k - 1);
      }
    }
  }

  lemma JoinTree(n: nat, a: Shape, b: Shape, k: nat)
    requires k >= 1 && Tree(n, a, k) && Tree(n, b, k)
    ensures Size(Joined(a, b)) == Size(a) + Size(b)
    ensures Size(a) + Size(b) <= n ==> Tree(n, Joined(a, b), k)
  {
  }

  /** A child with one entry is removed at once. */
  lemma RemoveSingle(n: nat, kids: seq<Shape>, i: nat, k: nat)
    requires n >= 4 && k >= 2 && Tree(n, Node(kids), k) && i < |kids| && Size(kids[i]) == 1
    ensures Loses(n, Node(kids), Node(Replaced(kids, i, [])))
  {
    var c := LoseOne(n, kids[i], k - 1);
    LoseUp(n, kids, i, c);
    assert Replaced(kids[i := c], i, []) == Replaced(kids, i, []);
  }

  // --- making a child single ---

  ghost predicate WalledIn(n: nat, kids: seq<Shape>, i: nat) {
    && i < |kids|
    && (i > 0 ==> Size(kids[i - 1]) == n) && (i + 1 < |kids| ==> Size(kids[i + 1]) == n)
  }

  /** Between full neighbours a child can lose all entries but one. */
  lemma {:induction false} Starve(n: nat, kids: seq<Shape>, i: nat, k: nat) returns (c: Shape)
    requires n >= 4 && k >= 2 && Tree(n, Node(kids), k) && WalledIn(n, kids, i)
    ensures Quiet(n, Node(kids), Node(kids[i := c])) && Tree(n, c, k - 1) && Size(c) == 1
    decreases Size(kids[i])
  {
    hide Quiet, Loses;
    if Size(kids[i]) == 1 {
      c := kids[i];
      assert kids[i := c] == kids;
      QuietSelf(n, Node(kids));
    } else {
      var d := LoseOne(n, kids[i], k - 1);
      LoseUp(n, kids, i, d);
      var k1 := kids[i := d];
      assert Rebalanced(n, k1, i) == k1;
      c := Starve(n, k1, i, k);
      assert k1[i := c] == kids[i := c];
      QuietTrans(n, Node(kids), Node(k1), Node(kids[i := c]));
    }
  }

  lemma FillKid(n: nat, kids: seq<Shape>, i: nat, k: nat, m: nat) returns (c: Shape)
    requires n >= 4 && k >= 2 && Tree(n, Node(kids), k) && i < |kids| && Size(kids[i]) <= m <= n
    ensures Quiet(n, Node(kids), Node(kids[i := c])) && Tree(n, c, k - 1) && Size(c) == m
  {
    c := GrowTo(n, kids[i], k - 1, m);
    Lift(n, kids, i, c);
  }

  /** Child `i` becomes single, its neighbours full. */
  lemma MakeSingle(n: nat, kids: seq<Shape>, i: nat, k: nat) returns (ks: seq<Shape>)
    requires n >= 4 && k >= 2 && Tree(n, Node(kids), k) && i < |kids|
    ensures Quiet(n, Node(kids), Node(ks)) && Tree(n, Node(ks), k) && |ks| == |kids| && Size(ks[i]) == 1
    ensures (i > 0 ==> Size(ks[i - 1]) == n) && (i + 1 < |kids| ==> Size(ks[i + 1]) == n)
    ensures forall p :: 0 <= p < |ks| && p + 1 < i ==> ks[p] == kids[p]
    ensures forall p :: i + 1 < p < |ks| ==> ks[p] == kids[p]
  {
    hide Quiet;
    ks := kids;
    QuietSelf(n, Node(kids));
    if i > 0 {
      var c := FillKid(n, ks, i - 1, k, n);
      ks := ks[i - 1 := c];
    }
    if i + 1 < |kids| {
      var k1 := ks;
      var c := FillKid(n, ks, i + 1, k, n);
      ks := ks[i + 1 := c];
      QuietTrans(n, Node(kids), Node(k1), Node(ks));
    }
    var k1 := ks;
    var c := Starve(n, ks, i, k);
    ks := ks[i := c];
    QuietTrans(n, Node(kids), Node(k1), Node(ks));
  }
}
