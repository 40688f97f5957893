/**
 Inner nodes whose children are, from left to right, some with two entries or more, some with a
 single one, and some with two or more again; and what a run can do to a root made of such nodes.
 */
module BTreeRows {
  import opened BTreeSizes
  import opened BTreeDrive

  datatype Row = Row(x: nat, t: nat, y: nat)

  function Len(r: Row): nat {
    r.x + r.t + r.y
  }

  ghost predicate Is(n: nat, b: Shape, k: nat, r: Row) {
    && k >= 2 && b.Node? && Tree(n, b, k) && |b.kids| == Len(r)
    && forall i :: 0 <= i < |b.kids| ==> if r.x <= i < r.x + r.t then Size(b.kids[i]) == 1 else Size(b.kids[i]) >= 2
  }

  /** Without single children it does not matter how the others are divided. */
  lemma Plain(n: nat, b: Shape, k: nat, r: Row)
    requires r.t == 0 && Is(n, b, k, r)
    ensures Is(n, b, k, Row(Len(r), 0, 0)) && Is(n, b, k, Row(0, 0, Len(r)))
  {
  }

  // --- one node ---

  lemma {:induction false} GrowLeft(n: nat, b: Shape, k: nat, r: Row, x: nat) returns (b': Shape)
    requires n >= 4 && Is(n, b, k, r) && 1 <= r.x <= x && x + r.t + r.y <= n
    ensures Quiet(n, b, b') && Is(n, b', k, r.(x := x))
    decreases x - r.x
  {
    hide Quiet;
    if x == r.x {
      b' := b;
      QuietSelf(n, b);
    } else {
      var ks := GrowAt(n, b.kids, 0, k);
      assert forall i :: 2 <= i < |ks| ==> ks[i] == b.kids[i - 1] by { Shifted(b.kids, 0, ks); }
      b' := GrowLeft(n, Node(ks), k, r.(x := r.x + 1), x);
      QuietTrans(n, b, Node(ks), b');
    }
  }

  lemma Shifted(kids: seq<Shape>, i: nat, ks: seq<Shape>)
    requires i < |kids| && |ks| == |kids| + 1 && ks[..i] == kids[..i] && ks[i + 2..] == kids[i + 1..]
    ensures forall j :: 0 <= j < i ==> ks[j] == kids[j]
    ensures forall j :: i + 2 <= j < |ks| ==> ks[j] == kids[j - 1]
  {
    forall j | 0 <= j < i
      ensures ks[j] == kids[j]
    {
      assert ks[..i][j] == kids[..i][j];
    }
    forall j | i + 2 <= j < |ks|
      ensures ks[j] == kids[j - 1]
    {
      assert ks[i + 2..][j - i - 2] == kids[i + 1..][j - i - 2];
    }
  }

  lemma {:induction false} GrowRight(n: nat, b: Shape, k: nat, r: Row, y: nat) returns (b': Shape)
    requires n >= 4 && Is(n, b, k, r) && 1 <= r.y <= y && r.x + r.t + y <= n
    ensures Quiet(n, b, b') && Is(n, b', k, r.(y := y))
    decreases y - r.y
  {
    hide Quiet;
    if y == r.y {
      b' := b;
      QuietSelf(n, b);
    } else {
      var l := |b.kids| - 1;
      var ks := GrowAt(n, b.kids, l, k);
      assert forall i :: 0 <= i < l ==> ks[i] == b.kids[i] by { Shifted(b.kids, l, ks); }
      b' := GrowRight(n, Node(ks), k, r.(y := r.y + 1), y);
      QuietTrans(n, b, Node(ks), b');
    }
  }

  function Min(a: nat, b: nat): nat {
    if a < b then a else b
  }

  function LeftRow(r: Row, h: nat): Row {
    Row(Min(r.x, h), Min(r.x + r.t, h) - Min(r.x, h), h - Min(r.x + r.t, h))
  }

  function RightRow(r: Row, h: nat): Row
    requires h <= Len(r)
  {
    Row(r.x - Min(r.x, h), (r.x + r.t - Min(r.x + r.t, h)) - (r.x - Min(r.x, h)), r.y - (h - Min(r.x + r.t, h)))
  }

  /** A full node is split, the new child being in the right half. */
  lemma SplitRight(n: nat, b: Shape, k: nat, r: Row) returns (l: Shape, m: Shape)
    requires n >= 4 && Is(n, b, k, r) && Len(r) == n && r.y >= 1
    ensures Splits(n, b, [l, m]) && Is(n, l, k, LeftRow(r, n / 2))
    ensures var q := RightRow(r, n / 2); Is(n, m, k, q.(y := q.y + 1))
  {
    hide Splits;
    var h, last := n / 2, n - 1;
    var s := SplitAt(n, b.kids, last, k);
    l, m := s[0], s[1];
    assert s == [l, m];
    Shifted(b.kids[h..], last - h, m.kids);
  }

  /** The same with the new child in the left half. */
  lemma SplitLeft(n: nat, b: Shape, k: nat, r: Row) returns (l: Shape, m: Shape)
    requires n >= 4 && Is(n, b, k, r) && Len(r) == n && r.x >= 1
    ensures Splits(n, b, [l, m]) && Is(n, m, k, RightRow(r, n / 2))
    ensures var q := LeftRow(r, n / 2); Is(n, l, k, q.(x := q.x + 1))
  {
    hide Splits;
    var h := n / 2;
    var s := SplitAt(n, b.kids, 0, k);
    l, m := s[0], s[1];
    assert s == [l, m];
    Shifted(b.kids[..h], 0, l.kids);
  }

  lemma DropFirst(n: nat, b: Shape, k: nat, r: Row) returns (b': Shape)
    requires n >= 4 && Is(n, b, k, r) && r.x >= 2
    ensures Loses(n, b, b') && Is(n, b', k, r.(x := r.x - 1))
  {
    hide Loses;
    var ks := Drive(n, b.kids, 0, k);
    b' := Node(ks);
  }

  lemma DropLast(n: nat, b: Shape, k: nat, r: Row) returns (b': Shape)
    requires n >= 4 && Is(n, b, k, r) && r.y >= 2
    ensures Loses(n, b, b') && Is(n, b', k, r.(y := r.y - 1))
  {
    hide Loses;
    var ks := Drive(n, b.kids, |b.kids| - 1, k);
    b' := Node(ks);
  }

  lemma DropSingle(n: nat, b: Shape, k: nat, r: Row) returns (b': Shape)
    requires n >= 4 && Is(n, b, k, r) && r.t >= 1 && Len(r) >= 2
    ensures Loses(n, b, b') && Is(n, b', k, r.(t := r.t - 1))
  {
    hide Loses;
    RemoveSingle(n, b.kids, r.x, k);
    b' := Node(Replaced(b.kids, r.x, []));
  }

  /** A node can lose its only child. */
  lemma DropOnly(n: nat, b: Shape, k: nat)
    requires n >= 4 && Is(n, b, k, Row(0, 1, 0))
    ensures Loses(n, b, Node([]))
  {
    hide Loses;
    RemoveSingle(n, b.kids, 0, k);
    assert Replaced(b.kids, 0, []) == [];
  }

  lemma FlipFirst(n: nat, b: Shape, k: nat, r: Row) returns (b': Shape)
    requires n >= 4 && Is(n, b, k, r) && r.x == 0 && r.t == 0 && r.y >= 1
    ensures Quiet(n, b, b') && Is(n, b', k, Row(0, 1, r.y - 1))
  {
    hide Quiet, Tree, Size;
    var ks := MakeSingle(n, b.kids, 0, k);
    b' := Node(ks);
    forall p | 1 <= p < |ks|
      ensures Size(ks[p]) >= 2
    {
      assert p == 1 || ks[p] == b.kids[p];
    }
    FirstSingle(n, ks, k, r.y - 1);
  }

  lemma FirstSingle(n: nat, ks: seq<Shape>, k: nat, y: nat)
    requires k >= 2 && Tree(n, Node(ks), k) && |ks| == 1 + y && Size(ks[0]) == 1
    requires forall p :: 1 <= p < |ks| ==> Size(ks[p]) >= 2
    ensures Is(n, Node(ks), k, Row(0, 1, y))
  {
    hide Tree, Size;
  }

  lemma FlipLast(n: nat, b: Shape, k: nat, r: Row) returns (b': Shape)
    requires n >= 4 && Is(n, b, k, r) && r.t == 0 && r.y == 0 && r.x >= 1
    ensures Quiet(n, b, b') && Is(n, b', k, Row(r.x - 1, 1, 0))
  {
    hide Quiet, Tree, Size;
    var ks := MakeSingle(n, b.kids, |b.kids| - 1, k);
    b' := Node(ks);
    forall p | 0 <= p < |ks| - 1
      ensures Size(ks[p]) >= 2
    {
      assert p == |ks| - 2 || ks[p] == b.kids[p];
    }
    LastSingle(n, ks, k, r.x - 1);
  }

  lemma LastSingle(n: nat, ks: seq<Shape>, k: nat, x: nat)
    requires k >= 2 && Tree(n, Node(ks), k) && |ks| == x + 1 && Size(ks[x]) == 1
    requires forall p :: 0 <= p < x ==> Size(ks[p]) >= 2
    ensures Is(n, Node(ks), k, Row(x, 1, 0))
  {
    hide Tree, Size;
  }

  // --- the root ---

  ghost predicate State(n: nat, s: Shape, k: nat, rows: seq<Row>) {
    && s.Node? && 2 <= |rows| <= n && |s.kids| == |rows|
    && forall j :: 0 <= j < |rows| ==> Is(n, s.kids[j], k, rows[j])
  }

  lemma {:induction false} QuietRunReach(n: nat, s: Shape, ops: seq<Op>, t: Shape)
    requires QuietRun(n, s, ops, t)
    ensures Reach(n, s, t)
    decreases |ops|
  {
    if ops == [] {
      ReachSelf(n, s);
    } else {
      var u := Next(n, s, ops[0]);
      assert Step(n, s, ops[0]) == u;
      ReachStep(n, s, ops[0]);
      QuietRunReach(n, u, ops[1..], t);
      ReachTrans(n, s, u, t);
    }
  }

  lemma QuietReach(n: nat, s: Shape, t: Shape)
    requires Quiet(n, s, t)
    ensures Reach(n, s, t)
  {
    var ops :| QuietRun(n, s, ops, t);
    QuietRunReach(n, s, ops, t);
  }

  lemma LosesReach(n: nat, s: Shape, t: Shape)
    requires Loses(n, s, t)
    ensures Reach(n, s, if t.Node? && |t.kids| == 1 then t.kids[0] else t)
  {
    var u, path :| Quiet(n, s, u) && Enabled(u, Del(path)) && t == Deleted(n, u, path) && Size(t) < Size(u);
    QuietReach(n, s, u);
    ReachStep(n, u, Del(path));
    ReachTrans(n, s, u, Step(n, u, Del(path)));
  }

  lemma MoveQuiet(n: nat, s: Shape, k: nat, rows: seq<Row>, j: nat, b: Shape, r: Row) returns (s': Shape)
    requires State(n, s, k, rows) && j < |rows| && Quiet(n, s.kids[j], b) && Is(n, b, k, r)
    ensures Reach(n, s, s') && State(n, s', k, rows[j := r])
  {
    hide Quiet, Reach, Is;
    Lift(n, s.kids, j, b);
    s' := Node(s.kids[j := b]);
    QuietReach(n, s, s');
  }

  lemma MoveSplit(n: nat, s: Shape, k: nat, rows: seq<Row>, j: nat, l: Shape, m: Shape, p: Row, q: Row) returns (s': Shape)
    requires State(n, s, k, rows) && j < |rows| < n && Splits(n, s.kids[j], [l, m]) && Is(n, l, k, p) && Is(n, m, k, q)
    ensures Reach(n, s, s') && State(n, s', k, rows[..j] + [p, q] + rows[j + 1..])
  {
    hide Splits, Quiet, Reach, Is;
    SplitUp(n, s.kids, j, [l, m]);
    s' := Node(Replaced(s.kids, j, [l, m]));
    QuietReach(n, s, s');
  }

  /** `c` is the row of `a` and `b` merged. */
  ghost predicate Joins(a: Row, b: Row, c: Row) {
    c.x == a.x && c.t == a.t + b.t && c.y == b.y
  }

  /** rebalance() would leave the node that is now `r` where it is. */
  ghost predicate Stays(n: nat, rows: seq<Row>, j: nat, r: Row)
    requires j < |rows|
  {
    || Len(r) >= n / 2
    || ((j > 0 ==> Len(rows[j - 1]) + Len(r) > n) && (j + 1 < |rows| ==> Len(rows[j + 1]) + Len(r) > n))
  }

  /** What is merged must have its single children side by side. */
  lemma JoinIs(n: nat, a: Shape, b: Shape, k: nat, p: Row, q: Row, c: Row)
    requires Is(n, a, k, p) && Is(n, b, k, q) && Len(p) + Len(q) <= n && p.y == 0 && q.x == 0 && Joins(p, q, c)
    ensures Is(n, Joined(a, b), k, c)
  {
    JoinTree(n, a, b, k);
  }

  lemma LoseReach(n: nat, s: Shape, k: nat, rows: seq<Row>, j: nat, b: Shape) returns (s': Shape)
    requires n >= 4 && State(n, s, k, rows) && j < |rows| && Loses(n, s.kids[j], b)
    requires |Rebalanced(n, s.kids[j := b], j)| >= 2
    ensures s' == Node(Rebalanced(n, s.kids[j := b], j)) && Reach(n, s, s')
  {
    hide Loses, Quiet, Reach, Rebalanced, Is;
    LoseUp(n, s.kids, j, b);
    var ks := Rebalanced(n, s.kids[j := b], j);
    s' := Node(ks);
    if |ks| < |s.kids| {
      LosesReach(n, s, s');
    } else {
      QuietReach(n, s, s');
    }
  }

  /** A node loses a child and keeps its place. */
  lemma MoveLose(n: nat, s: Shape, k: nat, rows: seq<Row>, j: nat, b: Shape, r: Row) returns (s': Shape)
    requires n >= 4 && State(n, s, k, rows) && j < |rows| && Loses(n, s.kids[j], b)
    requires Is(n, b, k, r) && Len(r) > 0 && Stays(n, rows, j, r)
    ensures Reach(n, s, s') && State(n, s', k, rows[j := r])
  {
    hide Loses, Reach, Is, Size;
    SizesAre(n, s, k, rows, j, b, r);
    assert Rebalanced(n, s.kids[j := b], j) == s.kids[j := b];
    s' := LoseReach(n, s, k, rows, j, b);
  }

  /** A node loses a child and is merged with a neighbour: `i` is the left one of the two. */
  lemma MoveJoin(n: nat, s: Shape, k: nat, rows: seq<Row>, j: nat, b: Shape, r: Row, i: nat, q: Row) returns (s': Shape)
    requires n >= 4 && State(n, s, k, rows) && j < |rows| && |rows| >= 3 && Loses(n, s.kids[j], b)
    requires Is(n, b, k, r) && 0 < Len(r) < n / 2 && i <= j <= i + 1 < |rows|
    requires j == i && j > 0 ==> Len(rows[j - 1]) + Len(r) > n
    requires
      var rs := rows[j := r];
      Len(rs[i]) + Len(rs[i + 1]) <= n && rs[i].y == 0 && rs[i + 1].x == 0 && Joins(rs[i], rs[i + 1], q)
    ensures Reach(n, s, s') && State(n, s', k, rows[..i] + [q] + rows[i + 2..])
  {
    hide Loses, Reach, Is, Size, Joined;
    var ks, rs := s.kids[j := b], rows[j := r];
    SizesAre(n, s, k, rows, j, b, r);
    assert Rebalanced(n, ks, j) == ks[..i] + [Joined(ks[i], ks[i + 1])] + ks[i + 2..];
    s' := LoseReach(n, s, k, rows, j, b);
    JoinIs(n, ks[i], ks[i + 1], k, rs[i], rs[i + 1], q);
    JoinedState(n, ks, k, rs, i, q);
    assert rs[..i] == rows[..i] && rs[i + 2..] == rows[i + 2..];
  }

  /** A node that has lost its only child goes. */
  lemma MoveEmpty(n: nat, s: Shape, k: nat, rows: seq<Row>, j: nat) returns (s': Shape)
    requires n >= 4 && State(n, s, k, rows) && j < |rows| && |rows| >= 3 && Loses(n, s.kids[j], Node([]))
    ensures Reach(n, s, s') && State(n, s', k, Replaced(rows, j, []))
  {
    hide Loses, Quiet, Reach, Is;
    LoseUp(n, s.kids, j, Node([]));
    s' := Node(Replaced(s.kids[j := Node([])], j, []));
    LosesReach(n, s, s');
  }

  lemma JoinedState(n: nat, ks: seq<Shape>, k: nat, rows: seq<Row>, i: nat, q: Row)
    requires |ks| == |rows| <= n && i + 1 < |rows| && |rows| >= 3
    requires forall j :: 0 <= j < |rows| ==> Is(n, ks[j], k, rows[j])
    requires Is(n, Joined(ks[i], ks[i + 1]), k, q)
    ensures State(n, Node(ks[..i] + [Joined(ks[i], ks[i + 1])] + ks[i + 2..]), k, rows[..i] + [q] + rows[i + 2..])
  {
    hide Is, Joined;
  }

  lemma SizesAre(n: nat, s: Shape, k: nat, rows: seq<Row>, j: nat, b: Shape, r: Row)
    requires State(n, s, k, rows) && j < |rows| && Is(n, b, k, r)
    ensures Size(b) == Len(r) && forall i :: 0 <= i < |rows| ==> Size(s.kids[i]) == Len(rows[i])
  {
  }
}
