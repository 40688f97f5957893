/**
 With an odd number of pairs per node, seven or more, a run of insertions and deletions brings the
 tree to an inner root without entries, on which the next insertion stops at BUG_ON.

 Below, h is half the number of pairs.  A full node is split into h and h + 1 children, and a row of h
 single children at its left end, or of h + 1 at its right end, becomes a node with nothing but single
 children.  Rows of single children grow across the border between two nodes, where the children on
 either side are not neighbours to rebalance().  Nodes that are left between two full ones can be taken
 away, so that nodes with single children come to stand side by side and are merged into a full one.
 When everything around that one is removed it becomes the root.
 */
module BTreeOdd {
  import opened BTreeSizes
  import opened BTreeDrive
  import opened BTreeRows
  import opened BTreeMoves

  ghost predicate Odd(n: nat, h: nat) {
    n == 2 * h + 1 && h >= 3
  }

  /** The right node shrinks until it is merged into the left one. */
  lemma {:induction false} Squeeze(n: nat, h: nat, s0: Shape, s: Shape, k: nat, a: Row, y: nat, rest: seq<Row>) returns (s': Shape)
    requires n / 2 == h && h >= 3 && Len(a) == h && a.y == 0 && y >= h - 1 && |rest| >= 1
    requires At(n, s0, s, k, [a, Row(0, 1, y)] + rest)
    ensures At(n, s0, s', k, [Row(a.x, a.t + 1, h - 2)] + rest)
    decreases y
  {
    hide At;
    var r := Row(0, 1, y);
    if y >= h {
      assert [a, r] + rest == Rows([a], [r], rest);
      var s1 := DropStay(n, s0, s, k, [a], r, rest, Row(0, 1, y - 1));
      assert Rows([a], [Row(0, 1, y - 1)], rest) == [a, Row(0, 1, y - 1)] + rest;
      s' := Squeeze(n, h, s0, s1, k, a, y - 1, rest);
    } else {
      assert [a, r] + rest == Rows([], [a, r], rest);
      s' := DropJoinL(n, s0, s, k, [], a, r, rest, Row(0, 1, y - 1), Row(a.x, a.t + 1, h - 2));
      assert Rows([], [Row(a.x, a.t + 1, h - 2)], rest) == [Row(a.x, a.t + 1, h - 2)] + rest;
    }
  }

  /** One more single child at the end of the left node, until there are h. */
  lemma {:induction false} BuildRun(n: nat, h: nat, s0: Shape, s: Shape, k: nat, t: nat, z: nat, rest: seq<Row>) returns (s': Shape)
    requires Odd(n, h) && t < h <= z && 1 <= |rest| < n - 2
    requires At(n, s0, s, k, [Row(h - t, t, 0), Row(0, 0, z)] + rest)
    ensures At(n, s0, s', k, [Row(1, h, h - 2)] + rest)
    decreases h - t
  {
    hide At;
    var a := Row(h - t, t, 0);
    assert [a, Row(0, 0, z)] + rest == Rows([a], [Row(0, 0, z)], rest);
    var s1 := FlipF(n, s0, s, k, [a], Row(0, 0, z), rest);
    assert Rows([a], [Row(0, 1, z - 1)], rest) == [a, Row(0, 1, z - 1)] + rest;
    s' := Squeeze(n, h, s0, s1, k, a, z - 1, rest);
    if t < h - 1 {
      var b, c := Row(h - t, t + 1, h - 2), Row(h - t - 1, t + 1, h + 1);
      assert [b] + rest == Rows([], [b], rest);
      s' := DropStay(n, s0, s', k, [], b, rest, b.(x := h - t - 1));
      s' := GrowR(n, s0, s', k, [], b.(x := h - t - 1), rest, h + 1);
      s' := SplitR(n, s0, s', k, [], c, rest, Row(h - t - 1, t + 1, 0), Row(0, 0, h + 2));
      assert Rows([], [Row(h - t - 1, t + 1, 0), Row(0, 0, h + 2)], rest) == [Row(h - (t + 1), t + 1, 0), Row(0, 0, h + 2)] + rest;
      s' := BuildRun(n, h, s0, s', k, t + 1, h + 2, rest);
    }
  }

  lemma {:induction false} Trim(n: nat, s0: Shape, s: Shape, k: nat, pre: seq<Row>, r: Row, post: seq<Row>, y: nat) returns (s': Shape)
    requires n >= 4 && At(n, s0, s, k, Rows(pre, [r], post)) && 1 <= y <= r.y && r.x + r.t + y >= n / 2
    ensures At(n, s0, s', k, Rows(pre, [r.(y := y)], post))
    decreases r.y
  {
    hide At, Rows;
    s' := s;
    if y < r.y {
      s' := DropStay(n, s0, s, k, pre, r, post, r.(y := r.y - 1));
      s' := Trim(n, s0, s', k, pre, r.(y := r.y - 1), post, y);
    }
  }

  /** The single children come to the left end of a node. */
  lemma Lead(n: nat, h: nat, s0: Shape, s: Shape, k: nat, rest: seq<Row>) returns (s': Shape)
    requires Odd(n, h) && |rest| < n - 2 && At(n, s0, s, k, [Row(1, h, h - 2)] + rest)
    ensures At(n, s0, s', k, [Row(h, 0, 0), Row(0, h, 2)] + rest)
  {
    hide At;
    assert [Row(1, h, h - 2)] + rest == Rows([], [Row(1, h, h - 2)], rest);
    s' := Trim(n, s0, s, k, [], Row(1, h, h - 2), rest, 1);
    s' := GrowL(n, s0, s', k, [], Row(1, h, 1), rest, h);
    s' := SplitR(n, s0, s', k, [], Row(h, h, 1), rest, Row(h, 0, 0), Row(0, h, 2));
    assert Rows([], [Row(h, 0, 0), Row(0, h, 2)], rest) == [Row(h, 0, 0), Row(0, h, 2)] + rest;
  }

  /** h single children at the left end of a full node. */
  lemma MakeLeading(n: nat, h: nat, s0: Shape, s: Shape, k: nat, z: nat, rest: seq<Row>) returns (s': Shape)
    requires Odd(n, h) && z >= h && 1 <= |rest| < n - 2 && At(n, s0, s, k, [Row(h, 0, 0), Row(0, 0, z)] + rest)
    ensures At(n, s0, s', k, [Row(h, 0, 0), Row(0, h, h + 1)] + rest)
  {
    hide At;
    var a := Row(h, 0, 0);
    s' := BuildRun(n, h, s0, s, k, 0, z, rest);
    s' := Lead(n, h, s0, s', k, rest);
    assert [a, Row(0, h, 2)] + rest == Rows([a], [Row(0, h, 2)], rest);
    s' := GrowR(n, s0, s', k, [a], Row(0, h, 2), rest, h + 1);
    assert Rows([a], [Row(0, h, h + 1)], rest) == [a, Row(0, h, h + 1)] + rest;
  }

  /** h + 1 single children at the right end of a full node. */
  lemma MakeTrailing(n: nat, h: nat, s0: Shape, s: Shape, k: nat, z: nat, rest: seq<Row>) returns (s': Shape)
    requires Odd(n, h) && z >= h && 1 <= |rest| < n - 3 && At(n, s0, s, k, [Row(h, 0, 0), Row(0, 0, z)] + rest)
    ensures At(n, s0, s', k, [Row(h, h + 1, 0), Row(0, 0, h + 2)] + rest)
  {
    hide At;
    var b, c, d := Row(0, h, h + 1), Row(0, h, 0), Row(0, 0, h + 2);
    s' := MakeLeading(n, h, s0, s, k, z, rest);
    assert [Row(h, 0, 0), b] + rest == Rows([], [Row(h, 0, 0)], [b] + rest);
    s' := FlipL(n, s0, s', k, [], Row(h, 0, 0), [b] + rest);
    var a := Row(h - 1, 1, 0);
    assert Rows([], [a], [b] + rest) == Rows([a], [b], rest);
    s' := SplitR(n, s0, s', k, [a], b, rest, c, d);
    assert Rows([a], [c, d], rest) == Rows([], [a, c], [d] + rest);
    s' := DropJoinR(n, s0, s', k, a, c, [d] + rest, Row(h - 2, 1, 0), Row(h - 2, h + 1, 0));
    s' := GrowL(n, s0, s', k, [], Row(h - 2, h + 1, 0), [d] + rest, h);
    assert Rows([], [Row(h, h + 1, 0)], [d] + rest) == [Row(h, h + 1, 0), d] + rest;
  }

  ghost predicate Walled(n: nat, pre: seq<Row>, post: seq<Row>) {
    && (pre != [] ==> Len(pre[|pre| - 1]) == n) && (post != [] ==> Len(post[0]) == n)
  }

  /** Between full neighbours a node shrinks to one child. */
  lemma {:induction false} Shrink(n: nat, s0: Shape, s: Shape, k: nat, pre: seq<Row>, z: nat, post: seq<Row>) returns (s': Shape)
    requires n >= 4 && z >= 1 && Walled(n, pre, post) && At(n, s0, s, k, Rows(pre, [Row(0, 0, z)], post))
    ensures At(n, s0, s', k, Rows(pre, [Row(0, 0, 1)], post))
    decreases z
  {
    hide At, Rows;
    s' := s;
    if z > 1 {
      s' := DropStay(n, s0, s, k, pre, Row(0, 0, z), post, Row(0, 0, z - 1));
      s' := Shrink(n, s0, s', k, pre, z - 1, post);
    }
  }

  /** Between full neighbours a node can be taken away. */
  lemma Erase(n: nat, s0: Shape, s: Shape, k: nat, pre: seq<Row>, r: Row, post: seq<Row>) returns (s': Shape)
    requires n >= 4 && r.t == 0 && Len(r) >= 1 && Walled(n, pre, post) && |pre| + |post| >= 2
    requires At(n, s0, s, k, Rows(pre, [r], post))
    ensures At(n, s0, s', k, pre + post)
  {
    hide At, Rows;
    Reread(n, s0, s, k, pre, r, post, Row(0, 0, Len(r)));
    s' := Shrink(n, s0, s, k, pre, Len(r), post);
    s' := FlipF(n, s0, s', k, pre, Row(0, 0, 1), post);
    s' := Vanish(n, s0, s', k, pre, post);
  }

  /** A node of h + 1 single children comes to stand before a full one. */
  lemma PutSingles(n: nat, h: nat, s0: Shape, s: Shape, k: nat, z: nat, rest: seq<Row>) returns (s': Shape)
    requires Odd(n, h) && z >= h && 1 <= |rest| < n - 3 && Len(rest[0]) == n
    requires At(n, s0, s, k, [Row(h, 0, 0), Row(0, 0, z)] + rest)
    ensures At(n, s0, s', k, [Row(h + 1, 0, 0), Row(0, h + 1, 0)] + rest)
  {
    hide At;
    var f, d, e := Row(h, h + 1, 0), Row(0, 0, h + 2), Row(0, 0, 1);
    s' := MakeTrailing(n, h, s0, s, k, z, rest);
    assert [f, d] + rest == Rows([f], [d], rest);
    s' := Shrink(n, s0, s', k, [f], h + 2, rest);
    assert Rows([f], [e], rest) == Rows([], [f], [e] + rest);
    s' := SplitL(n, s0, s', k, [], f, [e] + rest, Row(h + 1, 0, 0), Row(0, h + 1, 0));
    var pre := [Row(h + 1, 0, 0), Row(0, h + 1, 0)];
    assert Rows([], pre, [e] + rest) == Rows(pre, [e], rest);
    s' := FlipF(n, s0, s', k, pre, e, rest);
    s' := Vanish(n, s0, s', k, pre, rest);
  }

  /** The first node is made full and split. */
  lemma Spread(n: nat, h: nat, s0: Shape, s: Shape, k: nat, r: Row, rest: seq<Row>) returns (s': Shape)
    requires Odd(n, h) && r.t == 0 && 1 <= Len(r) <= n && |rest| < n - 1 && At(n, s0, s, k, [r] + rest)
    ensures At(n, s0, s', k, [Row(h, 0, 0), Row(0, 0, h + 2)] + rest)
  {
    hide At;
    assert [r] + rest == Rows([], [r], rest);
    Reread(n, s0, s, k, [], r, rest, Row(0, 0, Len(r)));
    s' := GrowR(n, s0, s, k, [], Row(0, 0, Len(r)), rest, n);
    s' := SplitR(n, s0, s', k, [], Row(0, 0, n), rest, Row(0, 0, h), Row(0, 0, h + 2));
    var post := [Row(0, 0, h + 2)] + rest;
    assert Rows([], [Row(0, 0, h), Row(0, 0, h + 2)], rest) == Rows([], [Row(0, 0, h)], post);
    Reread(n, s0, s', k, [], Row(0, 0, h), post, Row(h, 0, 0));
    assert Rows([], [Row(h, 0, 0)], post) == [Row(h, 0, 0), Row(0, 0, h + 2)] + rest;
  }

  /** Two nodes of single children side by side are merged. */
  lemma Pool(n: nat, h: nat, s0: Shape, s: Shape, k: nat, pre: seq<Row>, t: nat, c: Row, q: Row, rest: seq<Row>) returns (s': Shape)
    requires Odd(n, h) && 1 <= t <= h + 2 && |pre| >= 1 && |pre| + |rest| < n - 2
    requires Len(c) == n && c.y >= 1 && LeftRow(c, h) == Row(0, h, 0) && q == RightRow(c, h).(y := RightRow(c, h).y + 1)
    requires At(n, s0, s, k, Rows(pre, [Row(0, t, 0), c], rest))
    ensures At(n, s0, s', k, Rows(pre, [Row(0, t + h - 1, 0), q], rest))
  {
    hide At;
    var a, b := Row(0, t, 0), Row(0, h, 0);
    assert Rows(pre, [a, c], rest) == Rows(pre + [a], [c], rest);
    s' := SplitR(n, s0, s, k, pre + [a], c, rest, b, q);
    assert Rows(pre + [a], [b, q], rest) == Rows(pre, [a, b], [q] + rest);
    s' := DropJoinL(n, s0, s', k, pre, a, b, [q] + rest, Row(0, h - 1, 0), Row(0, t + h - 1, 0));
    assert Rows(pre, [Row(0, t + h - 1, 0)], [q] + rest) == Rows(pre, [Row(0, t + h - 1, 0), q], rest);
  }

  /** The good node to the right of 2h single children becomes one more child of theirs. */
  lemma {:induction false} Absorb(n: nat, h: nat, s0: Shape, s: Shape, k: nat, a: Row, z: nat, c: Row) returns (s': Shape)
    requires Odd(n, h) && z >= 2 && Len(c) == n && At(n, s0, s, k, [a, Row(0, 2 * h, 0), Row(0, 0, z), c])
    ensures At(n, s0, s', k, [a, Row(0, 2 * h, 1), c])
    decreases z
  {
    hide At;
    var b, r := Row(0, 2 * h, 0), Row(0, 0, z);
    if z > 2 {
      assert [a, b, r, c] == Rows([a, b], [r], [c]);
      s' := DropStay(n, s0, s, k, [a, b], r, [c], Row(0, 0, z - 1));
      assert Rows([a, b], [Row(0, 0, z - 1)], [c]) == [a, b, Row(0, 0, z - 1), c];
      s' := Absorb(n, h, s0, s', k, a, z - 1, c);
    } else {
      assert [a, b, r, c] == Rows([a], [b, r], [c]);
      s' := DropJoinL(n, s0, s, k, [a], b, r, [c], Row(0, 0, 1), Row(0, 2 * h, 1));
      assert Rows([a], [Row(0, 2 * h, 1)], [c]) == [a, Row(0, 2 * h, 1), c];
    }
  }

  lemma {:induction false} TrimSingles(n: nat, h: nat, s0: Shape, s: Shape, k: nat, pre: seq<Row>, t: nat, post: seq<Row>) returns (s': Shape)
    requires Odd(n, h) && t >= h + 2 && At(n, s0, s, k, Rows(pre, [Row(0, t, 0)], post))
    ensures At(n, s0, s', k, Rows(pre, [Row(0, h + 2, 0)], post))
    decreases t
  {
    hide At, Rows;
    s' := s;
    if t > h + 2 {
      s' := DropStay(n, s0, s, k, pre, Row(0, t, 0), post, Row(0, t - 1, 0));
      s' := TrimSingles(n, h, s0, s', k, pre, t - 1, post);
    }
  }

  // --- the run ---

  lemma FirstHalf(n: nat, h: nat, s0: Shape, s: Shape, k: nat) returns (s': Shape)
    requires Odd(n, h) && At(n, s0, s, k, [Row(h, 0, 0), Row(0, 0, h + 2), Row(0, 0, n)])
    ensures At(n, s0, s', k, [Row(h + 1, 0, 0), Row(0, 2 * h, 1), Row(0, 0, n)])
  {
    hide At;
    var a, c, g := Row(h + 1, 0, 0), Row(0, h, h + 1), Row(0, 0, n);
    assert [Row(h, 0, 0), Row(0, 0, h + 2), g] == [Row(h, 0, 0), Row(0, 0, h + 2)] + [g];
    s' := MakeLeading(n, h, s0, s, k, h + 2, [g]);
    assert [Row(h, 0, 0), c] + [g] == [Row(h, 0, 0)] + [c, g];
    s' := Spread(n, h, s0, s', k, Row(h, 0, 0), [c, g]);
    s' := PutSingles(n, h, s0, s', k, h + 2, [c, g]);
    assert [a, Row(0, h + 1, 0)] + [c, g] == Rows([a], [Row(0, h + 1, 0), c], [g]);
    s' := Pool(n, h, s0, s', k, [a], h + 1, c, Row(0, 0, h + 2), [g]);
    assert Rows([a], [Row(0, 2 * h, 0), Row(0, 0, h + 2)], [g]) == [a, Row(0, 2 * h, 0), Row(0, 0, h + 2), g];
    s' := Absorb(n, h, s0, s', k, a, h + 2, g);
  }

  lemma SecondHalf(n: nat, h: nat, s0: Shape, s: Shape, k: nat) returns (s': Shape)
    requires Odd(n, h) && At(n, s0, s, k, [Row(h + 1, 0, 0), Row(0, 2 * h, 1), Row(0, 0, n)])
    ensures At(n, s0, s', k, [Row(h + 1, 0, 0), Row(0, n, 0), Row(0, 0, h + 2), Row(0, 0, n)])
  {
    hide At;
    var a, x, g, e := Row(h + 1, 0, 0), Row(0, 2 * h, 1), Row(0, 0, n), Row(0, h, 2);
    assert [a, x, g] == [a] + [x, g];
    s' := Spread(n, h, s0, s, k, a, [x, g]);
    s' := PutSingles(n, h, s0, s', k, h + 2, [x, g]);
    assert [a, Row(0, h + 1, 0)] + [x, g] == Rows([a], [Row(0, h + 1, 0), x], [g]);
    s' := Pool(n, h, s0, s', k, [a], h + 1, x, e, [g]);
    assert Rows([a], [Row(0, 2 * h, 0), e], [g]) == Rows([a], [Row(0, 2 * h, 0)], [e, g]);
    s' := TrimSingles(n, h, s0, s', k, [a], 2 * h, [e, g]);
    var b, c := Row(0, h + 2, 0), Row(0, h, h + 1);
    assert Rows([a], [b], [e, g]) == Rows([a, b], [e], [g]);
    s' := GrowR(n, s0, s', k, [a, b], e, [g], h + 1);
    assert Rows([a, b], [c], [g]) == Rows([a], [b, c], [g]);
    s' := Pool(n, h, s0, s', k, [a], h + 2, c, Row(0, 0, h + 2), [g]);
    assert Rows([a], [Row(0, n, 0), Row(0, 0, h + 2)], [g]) == [a, Row(0, n, 0), Row(0, 0, h + 2), g];
  }

  /** Only the full node of single children is left, as the root. */
  lemma AllSingleRoot(n: nat, h: nat, s0: Shape, s: Shape, k: nat) returns (b: Shape)
    requires Odd(n, h) && At(n, s0, s, k, [Row(h + 1, 0, 0), Row(0, n, 0), Row(0, 0, h + 2), Row(0, 0, n)])
    ensures Reach(n, s0, b) && Is(n, b, k, Row(0, n, 0))
  {
    hide At, Is, Reach;
    var a, f, d, g := Row(h + 1, 0, 0), Row(0, n, 0), Row(0, 0, h + 2), Row(0, 0, n);
    assert [a, f, d, g] == Rows([], [a], [f, d, g]);
    var s1 := Erase(n, s0, s, k, [], a, [f, d, g]);
    assert [] + [f, d, g] == Rows([f], [d], [g]);
    s1 := Erase(n, s0, s1, k, [f], d, [g]);
    assert [f] + [g] == Rows([f], [g], []);
    s1 := Shrink(n, s0, s1, k, [f], n, []);
    s1 := FlipF(n, s0, s1, k, [f], Row(0, 0, 1), []);
    assert Rows([f], [Row(0, 1, 0)], []) == [f, Row(0, 1, 0)];
    b := LastTwo(n, s0, s1, k, f);
  }

  lemma LastTwo(n: nat, s0: Shape, s: Shape, k: nat, f: Row) returns (b: Shape)
    requires n >= 4 && At(n, s0, s, k, [f, Row(0, 1, 0)])
    ensures Reach(n, s0, b) && Is(n, b, k, f)
  {
    hide Is, Reach, Loses;
    b := s.kids[0];
    assert Is(n, s.kids[1], k, [f, Row(0, 1, 0)][1]) && Is(n, b, k, [f, Row(0, 1, 0)][0]);
    DropOnly(n, s.kids[1], k);
    LoseUp(n, s.kids, 1, Node([]));
    assert Rebalanced(n, s.kids[1 := Node([])], 1) == [b];
    LosesReach(n, s, Node([b]));
    ReachTrans(n, s0, s, b);
  }

  // --- the end ---

  /** A root with nothing but single children comes down to one of them. */
  lemma {:induction false} Collapse(n: nat, b: Shape, k: nat, t: nat) returns (c: Shape)
    requires n >= 4 && t >= 2 && Is(n, b, k, Row(0, t, 0))
    ensures Reach(n, b, c) && Tree(n, c, k - 1) && Size(c) == 1
    decreases t
  {
    hide Reach, Loses;
    RemoveSingle(n, b.kids, 0, k);
    var ks := Replaced(b.kids, 0, []);
    LosesReach(n, b, Node(ks));
    if t == 2 {
      c := ks[0];
      assert c == b.kids[1];
    } else {
      c := Collapse(n, Node(ks), k, t - 1);
      ReachTrans(n, b, Node(ks), c);
    }
  }

  lemma Emptied(n: nat, c: Shape, k: nat)
    requires n >= 4 && k >= 2 && Tree(n, c, k) && Size(c) == 1
    ensures Reach(n, c, Node([]))
  {
    hide Reach, Loses;
    var ks := Drive(n, c.kids, 0, k);
    assert ks == [];
    LosesReach(n, c, Node([]));
  }

  // --- the beginning ---

  lemma SplitsReach(n: nat, s: Shape, r: seq<Shape>)
    requires Splits(n, s, r)
    ensures Reach(n, s, Node(r))
  {
    var u, path, low :| Quiet(n, s, u) && Enabled(u, Add(path, low)) && r == Added(n, u, path, low) && |r| == 2;
    QuietReach(n, s, u);
    ReachStep(n, u, Add(path, low));
    ReachTrans(n, s, u, Node(r));
  }

  /** A tree becomes one level higher. */
  lemma Rise(n: nat, s: Shape, k: nat) returns (t: Shape)
    requires n >= 4 && Tree(n, s, k)
    ensures Reach(n, s, t) && Tree(n, t, k + 1) && Size(t) == 2
  {
    hide Quiet, Reach, Splits;
    var u := GrowTo(n, s, k, n);
    var r := SplitFull(n, u, k);
    QuietReach(n, s, u);
    SplitsReach(n, u, r);
    ReachTrans(n, s, u, Node(r));
    t := Node(r);
  }

  lemma {:induction false} RiseTo(n: nat, k: nat) returns (t: Shape)
    requires n >= 4 && k >= 1
    ensures Reach(n, EMPTY, t) && Tree(n, t, k) && (k >= 2 ==> Size(t) == 2)
    decreases k
  {
    hide Reach;
    if k == 1 {
      t := Leaf(1);
      ReachStep(n, EMPTY, Add([], false));
      assert Step(n, EMPTY, Add([], false)) == t;
    } else {
      var u := RiseTo(n, k - 1);
      t := Rise(n, u, k - 1);
      ReachTrans(n, EMPTY, u, t);
    }
  }

  /** All children get two entries or more. */
  lemma {:induction false} Fatten(n: nat, b: Shape, k: nat, i: nat) returns (b': Shape)
    requires n >= 4 && k >= 2 && Tree(n, b, k) && i <= |b.kids| && forall j :: 0 <= j < i ==> Size(b.kids[j]) >= 2
    ensures Quiet(n, b, b') && Is(n, b', k, Row(0, 0, |b.kids|))
    decreases |b.kids| - i
  {
    hide Quiet;
    if i == |b.kids| {
      b' := b;
      QuietSelf(n, b);
    } else {
      var c := FillKid(n, b.kids, i, k, if Size(b.kids[i]) < 2 then 2 else Size(b.kids[i]));
      var b1 := Node(b.kids[i := c]);
      b' := Fatten(n, b1, k, i + 1);
      QuietTrans(n, b, b1, b');
    }
  }

  /** A tree of k + 1 levels whose root has two nodes below it, all their children with two entries or more. */
  lemma TwoRowsReached(n: nat, k: nat) returns (s: Shape, y: nat, z: nat)
    requires n >= 4 && k >= 2
    ensures At(n, EMPTY, s, k, [Row(0, 0, y), Row(0, 0, z)]) && 1 <= y <= n && 1 <= z <= n
  {
    hide Quiet, Reach;
    var t := RiseTo(n, k + 1);
    var l := Fatten(n, t.kids[0], k, 0);
    Lift(n, t.kids, 0, l);
    var k1 := t.kids[0 := l];
    var m := Fatten(n, k1[1], k, 0);
    Lift(n, k1, 1, m);
    s := Node(k1[1 := m]);
    QuietTrans(n, t, Node(k1), s);
    QuietReach(n, t, s);
    ReachTrans(n, EMPTY, t, s);
    y, z := |l.kids|, |m.kids|;
  }

  /** A run from the empty tree ends in an inner root without entries. */
  lemma OddBreaks(n: nat)
    requires n >= 7 && n % 2 == 1
    ensures Reach(n, EMPTY, Node([]))
  {
    hide At, Is, Reach;
    var h, k := n / 2, 3;
    var s, y, z := TwoRowsReached(n, k);
    assert [Row(0, 0, y), Row(0, 0, z)] == Rows([Row(0, 0, y)], [Row(0, 0, z)], []);
    s := GrowR(n, EMPTY, s, k, [Row(0, 0, y)], Row(0, 0, z), [], n);
    assert Rows([Row(0, 0, y)], [Row(0, 0, n)], []) == [Row(0, 0, y)] + [Row(0, 0, n)];
    s := Spread(n, h, EMPTY, s, k, Row(0, 0, y), [Row(0, 0, n)]);
    assert [Row(h, 0, 0), Row(0, 0, h + 2)] + [Row(0, 0, n)] == [Row(h, 0, 0), Row(0, 0, h + 2), Row(0, 0, n)];
    s := FirstHalf(n, h, EMPTY, s, k);
    s := SecondHalf(n, h, EMPTY, s, k);
    var b := AllSingleRoot(n, h, EMPTY, s, k);
    var c := Collapse(n, b, k, n);
    ReachTrans(n, EMPTY, b, c);
    Emptied(n, c, k - 1);
    ReachTrans(n, EMPTY, c, Node([]));
  }
}
