/** Moves of a run, on the rows below the root. */
module BTreeMoves {
  import opened BTreeSizes
  import opened BTreeDrive
  import opened BTreeRows

  /** A run from `s0` has led to a root over these rows. */
  ghost predicate At(n: nat, s0: Shape, s: Shape, k: nat, rows: seq<Row>) {
    Reach(n, s0, s) && State(n, s, k, rows)
  }

  lemma Then(n: nat, s0: Shape, s: Shape, s': Shape, k: nat, rows: seq<Row>)
    requires Reach(n, s0, s) && Reach(n, s, s') && State(n, s', k, rows)
    ensures At(n, s0, s', k, rows)
  {
    ReachTrans(n, s0, s, s');
  }

  ghost function Rows(pre: seq<Row>, mid: seq<Row>, post: seq<Row>): (rows: seq<Row>)
    ensures |rows| == |pre| + |mid| + |post|
    ensures forall i :: 0 <= i < |mid| ==> rows[|pre| + i] == mid[i]
  {
    pre + mid + post
  }

  lemma Quietly(n: nat, s0: Shape, s: Shape, k: nat, pre: seq<Row>, r: Row, post: seq<Row>, b: Shape, r': Row) returns (s': Shape)
    requires At(n, s0, s, k, Rows(pre, [r], post)) && Quiet(n, s.kids[|pre|], b) && Is(n, b, k, r')
    ensures At(n, s0, s', k, Rows(pre, [r'], post))
  {
    hide Quiet, Reach, State, Is;
    s' := MoveQuiet(n, s, k, Rows(pre, [r], post), |pre|, b, r');
    assert Rows(pre, [r], post)[|pre| := r'] == Rows(pre, [r'], post);
    Then(n, s0, s, s', k, Rows(pre, [r'], post));
  }

  lemma KidIs(n: nat, s0: Shape, s: Shape, k: nat, rows: seq<Row>, j: nat)
    requires At(n, s0, s, k, rows) && j < |rows|
    ensures s.Node? && |s.kids| == |rows| && Is(n, s.kids[j], k, rows[j])
  {
  }

  lemma GrowL(n: nat, s0: Shape, s: Shape, k: nat, pre: seq<Row>, r: Row, post: seq<Row>, x: nat) returns (s': Shape)
    requires n >= 4 && At(n, s0, s, k, Rows(pre, [r], post)) && 1 <= r.x <= x && x + r.t + r.y <= n
    ensures At(n, s0, s', k, Rows(pre, [r.(x := x)], post))
  {
    hide Quiet, At, Is;
    KidIs(n, s0, s, k, Rows(pre, [r], post), |pre|);
    var b := GrowLeft(n, s.kids[|pre|], k, r, x);
    s' := Quietly(n, s0, s, k, pre, r, post, b, r.(x := x));
  }

  lemma GrowR(n: nat, s0: Shape, s: Shape, k: nat, pre: seq<Row>, r: Row, post: seq<Row>, y: nat) returns (s': Shape)
    requires n >= 4 && At(n, s0, s, k, Rows(pre, [r], post)) && 1 <= r.y <= y && r.x + r.t + y <= n
    ensures At(n, s0, s', k, Rows(pre, [r.(y := y)], post))
  {
    hide Quiet, At, Is;
    KidIs(n, s0, s, k, Rows(pre, [r], post), |pre|);
    var b := GrowRight(n, s.kids[|pre|], k, r, y);
    s' := Quietly(n, s0, s, k, pre, r, post, b, r.(y := y));
  }

  /** The first child of a row without single ones becomes single. */
  lemma FlipF(n: nat, s0: Shape, s: Shape, k: nat, pre: seq<Row>, r: Row, post: seq<Row>) returns (s': Shape)
    requires n >= 4 && At(n, s0, s, k, Rows(pre, [r], post)) && r.t == 0 && Len(r) >= 1
    ensures At(n, s0, s', k, Rows(pre, [Row(0, 1, Len(r) - 1)], post))
  {
    hide Quiet, At, Is;
    KidIs(n, s0, s, k, Rows(pre, [r], post), |pre|);
    Plain(n, s.kids[|pre|], k, r);
    var b := FlipFirst(n, s.kids[|pre|], k, Row(0, 0, Len(r)));
    s' := Quietly(n, s0, s, k, pre, r, post, b, Row(0, 1, Len(r) - 1));
  }

  lemma FlipL(n: nat, s0: Shape, s: Shape, k: nat, pre: seq<Row>, r: Row, post: seq<Row>) returns (s': Shape)
    requires n >= 4 && At(n, s0, s, k, Rows(pre, [r], post)) && r.t == 0 && Len(r) >= 1
    ensures At(n, s0, s', k, Rows(pre, [Row(Len(r) - 1, 1, 0)], post))
  {
    hide Quiet, At, Is;
    KidIs(n, s0, s, k, Rows(pre, [r], post), |pre|);
    Plain(n, s.kids[|pre|], k, r);
    var b := FlipLast(n, s.kids[|pre|], k, Row(Len(r), 0, 0));
    s' := Quietly(n, s0, s, k, pre, r, post, b, Row(Len(r) - 1, 1, 0));
  }

  lemma Reread(n: nat, s0: Shape, s: Shape, k: nat, pre: seq<Row>, r: Row, post: seq<Row>, r': Row)
    requires At(n, s0, s, k, Rows(pre, [r], post)) && r.t == 0 && r'.t == 0 && Len(r) == Len(r')
    ensures At(n, s0, s, k, Rows(pre, [r'], post))
  {
    hide Reach;
  }

  lemma SplitR(n: nat, s0: Shape, s: Shape, k: nat, pre: seq<Row>, r: Row, post: seq<Row>, p: Row, q: Row) returns (s': Shape)
    requires n >= 4 && At(n, s0, s, k, Rows(pre, [r], post)) && Len(r) == n && r.y >= 1 && |pre| + 1 + |post| < n
    requires p == LeftRow(r, n / 2) && q == RightRow(r, n / 2).(y := RightRow(r, n / 2).y + 1)
    ensures At(n, s0, s', k, Rows(pre, [p, q], post))
  {
    hide Splits, At, Is;
    var rows := Rows(pre, [r], post);
    KidIs(n, s0, s, k, rows, |pre|);
    var l, m := SplitRight(n, s.kids[|pre|], k, r);
    s' := Split(n, s0, s, k, pre, r, post, l, m, p, q);
  }

  lemma SplitL(n: nat, s0: Shape, s: Shape, k: nat, pre: seq<Row>, r: Row, post: seq<Row>, p: Row, q: Row) returns (s': Shape)
    requires n >= 4 && At(n, s0, s, k, Rows(pre, [r], post)) && Len(r) == n && r.x >= 1 && |pre| + 1 + |post| < n
    requires q == RightRow(r, n / 2) && p == LeftRow(r, n / 2).(x := LeftRow(r, n / 2).x + 1)
    ensures At(n, s0, s', k, Rows(pre, [p, q], post))
  {
    hide Splits, At, Is;
    var rows := Rows(pre, [r], post);
    KidIs(n, s0, s, k, rows, |pre|);
    var l, m := SplitLeft(n, s.kids[|pre|], k, r);
    s' := Split(n, s0, s, k, pre, r, post, l, m, p, q);
  }

  lemma Split(n: nat, s0: Shape, s: Shape, k: nat, pre: seq<Row>, r: Row, post: seq<Row>, l: Shape, m: Shape, p: Row, q: Row)
      returns (s': Shape)
    requires At(n, s0, s, k, Rows(pre, [r], post)) && |pre| + 1 + |post| < n
    requires Splits(n, s.kids[|pre|], [l, m]) && Is(n, l, k, p) && Is(n, m, k, q)
    ensures At(n, s0, s', k, Rows(pre, [p, q], post))
  {
    hide Splits, Reach, State, Is;
    var rows := Rows(pre, [r], post);
    s' := MoveSplit(n, s, k, rows, |pre|, l, m, p, q);
    assert rows[..|pre|] == pre && rows[|pre| + 1..] == post;
    Then(n, s0, s, s', k, Rows(pre, [p, q], post));
  }

  // --- losing a child ---

  /** One child less: of the first ones, of the last ones, or of the single ones. */
  ghost predicate Drops(r: Row, r': Row) {
    || (r.x >= 2 && r'.x == r.x - 1 && r'.t == r.t && r'.y == r.y)
    || (r.y >= 2 && r'.x == r.x && r'.t == r.t && r'.y == r.y - 1)
    || (r.t >= 1 && r'.x == r.x && r'.t == r.t - 1 && r'.y == r.y)
  }

  lemma DropsLen(r: Row, r': Row)
    requires Drops(r, r')
    ensures Len(r') == Len(r) - 1
  {
  }

  lemma Drop(n: nat, b: Shape, k: nat, r: Row, r': Row) returns (b': Shape)
    requires n >= 4 && Is(n, b, k, r) && Drops(r, r') && Len(r) >= 2
    ensures Loses(n, b, b') && Is(n, b', k, r')
  {
    hide Loses, Is;
    if r'.x < r.x {
      b' := DropFirst(n, b, k, r);
      assert r.(x := r.x - 1) == r';
    } else if r'.y < r.y {
      b' := DropLast(n, b, k, r);
      assert r.(y := r.y - 1) == r';
    } else {
      b' := DropSingle(n, b, k, r);
      assert r.(t := r.t - 1) == r';
    }
  }

  /** No neighbour has room for the row. */
  ghost predicate Apart(n: nat, pre: seq<Row>, r: Row, post: seq<Row>) {
    && (pre != [] ==> Len(pre[|pre| - 1]) + Len(r) > n)
    && (post != [] ==> Len(post[0]) + Len(r) > n)
  }

  /** The node keeps its place. */
  lemma DropStay(n: nat, s0: Shape, s: Shape, k: nat, pre: seq<Row>, r: Row, post: seq<Row>, r': Row) returns (s': Shape)
    requires n >= 4 && At(n, s0, s, k, Rows(pre, [r], post)) && Drops(r, r')
    requires Len(r) > n / 2 || (Len(r) > 1 && Apart(n, pre, r', post))
    ensures At(n, s0, s', k, Rows(pre, [r'], post))
  {
    hide Loses, Reach, State, Is;
    var rows, j := Rows(pre, [r], post), |pre|;
    KidIs(n, s0, s, k, rows, j);
    assert rows[j := r'] == Rows(pre, [r'], post);
    assert j > 0 ==> rows[j - 1] == pre[|pre| - 1];
    assert j + 1 < |rows| ==> rows[j + 1] == post[0];
    var b := Drop(n, s.kids[j], k, r, r');
    s' := MoveLose(n, s, k, rows, j, b, r');
    Then(n, s0, s, s', k, Rows(pre, [r'], post));
  }

  /** The node is merged into its left neighbour. */
  lemma DropJoinL(n: nat, s0: Shape, s: Shape, k: nat, pre: seq<Row>, a: Row, r: Row, post: seq<Row>, r': Row, q: Row)
      returns (s': Shape)
    requires n >= 4 && At(n, s0, s, k, Rows(pre, [a, r], post)) && Drops(r, r') && |pre| + |post| >= 1
    requires 1 < Len(r) <= n / 2 && Len(a) + Len(r) <= n + 1 && a.y == 0 && r'.x == 0 && Joins(a, r', q)
    ensures At(n, s0, s', k, Rows(pre, [q], post))
  {
    hide Loses, Reach, State, Is, Drops;
    DropsLen(r, r');
    var rows, j := Rows(pre, [a, r], post), |pre| + 1;
    assert rows[j] == r && rows[j - 1] == a;
    KidIs(n, s0, s, k, rows, j);
    var b := Drop(n, s.kids[j], k, r, r');
    s' := MoveJoin(n, s, k, rows, j, b, r', |pre|, q);
    assert rows[..|pre|] + [q] + rows[|pre| + 2..] == Rows(pre, [q], post);
    Then(n, s0, s, s', k, Rows(pre, [q], post));
  }

  /** The node takes in its right neighbour; it has no left one. */
  lemma DropJoinR(n: nat, s0: Shape, s: Shape, k: nat, r: Row, c: Row, post: seq<Row>, r': Row, q: Row) returns (s': Shape)
    requires n >= 4 && At(n, s0, s, k, Rows([], [r, c], post)) && Drops(r, r') && |post| >= 1
    requires 1 < Len(r) <= n / 2 && Len(c) + Len(r) <= n + 1 && r'.y == 0 && c.x == 0 && Joins(r', c, q)
    ensures At(n, s0, s', k, Rows([], [q], post))
  {
    hide Loses, Reach, State, Is, Drops;
    DropsLen(r, r');
    var rows := Rows([], [r, c], post);
    assert rows[0] == r && rows[1] == c;
    KidIs(n, s0, s, k, rows, 0);
    var b := Drop(n, s.kids[0], k, r, r');
    s' := MoveJoin(n, s, k, rows, 0, b, r', 0, q);
    assert rows[..0] + [q] + rows[2..] == Rows([], [q], post);
    Then(n, s0, s, s', k, Rows([], [q], post));
  }

  /** A node with a single child that is single loses it and goes. */
  lemma Vanish(n: nat, s0: Shape, s: Shape, k: nat, pre: seq<Row>, post: seq<Row>) returns (s': Shape)
    requires n >= 4 && At(n, s0, s, k, Rows(pre, [Row(0, 1, 0)], post)) && |pre| + |post| >= 2
    ensures At(n, s0, s', k, pre + post)
  {
    hide Loses, Reach, State, Is;
    var rows, j := Rows(pre, [Row(0, 1, 0)], post), |pre|;
    KidIs(n, s0, s, k, rows, j);
    DropOnly(n, s.kids[j], k);
    s' := MoveEmpty(n, s, k, rows, j);
    assert Replaced(rows, j, []) == pre + post;
    Then(n, s0, s, s', k, pre + post);
  }
}
