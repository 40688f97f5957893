/**
 The B+tree as the numbers of entries in its nodes.  Which leaf an operation works on is
 given by the path to it; what happens on the way back up depends on nothing but sizes.
 */
module BTreeSizes {

  datatype Shape = Leaf(keys: nat) | Node(kids: seq<Shape>)

  function Size(s: Shape): nat {
    match s
    case Leaf(keys) => keys
    case Node(kids) => |kids|
  }

  /** Adding a key to a leaf, in its lower half or its upper half, and deleting one from it. */
  datatype Op = Add(path: seq<nat>, low: bool) | Del(path: seq<nat>)

  predicate Leads(s: Shape, path: seq<nat>) {
    match s
    case Leaf(_) => path == []
    case Node(kids) => path != [] && path[0] < |kids| && Leads(kids[path[0]], path[1..])
  }

  /** The number of keys in the leaf that a path leads to. */
  function LeafKeys(s: Shape, path: seq<nat>): nat
    requires Leads(s, path)
  {
    match s
    case Leaf(keys) => keys
    case Node(kids) => LeafKeys(kids[path[0]], path[1..])
  }

  predicate Enabled(s: Shape, op: Op) {
    Leads(s, op.path) && (op.Del? ==> LeafKeys(s, op.path) > 0)
  }

  function Replaced<T>(s: seq<T>, i: nat, r: seq<T>): seq<T>
    requires i < |s|
  {
    s[..i] + r + s[i + 1..]
  }

  /** A node whose child `i` has become the one or two children `r`. */
  function Received(n: nat, kids: seq<Shape>, i: nat, r: seq<Shape>): (p: seq<Shape>)
    requires i < |kids| && (|r| == 1 || |r| == 2)
    ensures |p| == 1 || |p| == 2
  {
    var h := n / 2;
    if |r| == 1 then [Node(kids[i := r[0]])]
    else if |kids| < n then [Node(Replaced(kids, i, r))]
    else if i < h then [Node(Replaced(kids, i, r)[..h + 1]), Node(kids[h..])]
    else [Node(kids[..h]), Node(Replaced(kids, i, r)[h..])]
  }

  /** btree_insert_level(): the node, or the two halves it was split into. */
  function Added(n: nat, s: Shape, path: seq<nat>, low: bool): (r: seq<Shape>)
    requires Leads(s, path)
    ensures |r| == 1 || |r| == 2
  {
    match s
    case Leaf(keys) =>
      if keys < n then [Leaf(keys + 1)]
      else if low then [Leaf(n / 2), Leaf(n - n / 2 + 1)]
      else [Leaf(n / 2 + 1), Leaf(n - n / 2)]
    case Node(kids) => Received(n, kids, path[0], Added(n, kids[path[0]], path[1..], low))
  }

  /** merge() */
  function Joined(a: Shape, b: Shape): Shape {
    match (a, b)
    case (Leaf(j), Leaf(k)) => Leaf(j + k)
    case (Node(j), Node(k)) => Node(j + k)
    case _ => a
  }

  /** rebalance(), after child `i` has lost an entry. */
  function Rebalanced(n: nat, kids: seq<Shape>, i: nat): seq<Shape>
    requires i < |kids|
  {
    var m := Size(kids[i]);
    if m >= n / 2 then kids
    else if m == 0 then Replaced(kids, i, [])
    else if i > 0 && m + Size(kids[i - 1]) <= n then kids[..i - 1] + [Joined(kids[i - 1], kids[i])] + kids[i + 1..]
    else if i + 1 < |kids| && m + Size(kids[i + 1]) <= n then kids[..i] + [Joined(kids[i], kids[i + 1])] + kids[i + 2..]
    else kids
  }

  /** btree_remove_level() below the root. */
  function Deleted(n: nat, s: Shape, path: seq<nat>): Shape
    requires Leads(s, path)
  {
    match s
    case Leaf(keys) => Leaf(if keys > 0 then keys - 1 else 0)
    case Node(kids) =>
      var c := Deleted(n, kids[path[0]], path[1..]);
      var ks := kids[path[0] := c];
      Node(if Size(c) < Size(kids[path[0]]) then Rebalanced(n, ks, path[0]) else ks)
  }

  /** One operation on the whole tree: a split root gets a parent, a root left with one child gives way to it. */
  function Step(n: nat, s: Shape, op: Op): Shape
    requires Enabled(s, op)
  {
    match op
    case Add(path, low) =>
      var r := Added(n, s, path, low);
      if |r| == 1 then r[0] else Node(r)
    case Del(path) =>
      var t := Deleted(n, s, path);
      if t.Node? && |t.kids| == 1 && Size(t) < Size(s) then t.kids[0] else t
  }

  predicate CanRun(n: nat, s: Shape, ops: seq<Op>)
    decreases |ops|
  {
    ops == [] || (Enabled(s, ops[0]) && CanRun(n, Step(n, s, ops[0]), ops[1..]))
  }

  function Run(n: nat, s: Shape, ops: seq<Op>): Shape
    requires CanRun(n, s, ops)
    decreases |ops|
  {
    if ops == [] then s else Run(n, Step(n, s, ops[0]), ops[1..])
  }

  ghost predicate Reach(n: nat, s: Shape, t: Shape) {
    exists ops :: CanRun(n, s, ops) && Run(n, s, ops) == t
  }

  /** An empty tree, with or without its first node. */
  const EMPTY := Leaf(0)

  /** An inner root without entries: find_level() steps below its first entry and stops at BUG_ON(i < 0). */
  predicate Broken(s: Shape) {
    s == Node([])
  }

  lemma {:induction false} RunAppend(n: nat, s: Shape, a: seq<Op>, b: seq<Op>)
    requires CanRun(n, s, a) && CanRun(n, Run(n, s, a), b)
    ensures CanRun(n, s, a + b) && Run(n, s, a + b) == Run(n, Run(n, s, a), b)
    decreases |a|
  {
    if a == [] {
      assert a + b == b;
    } else {
      assert (a + b)[1..] == a[1..] + b;
      RunAppend(n, Step(n, s, a[0]), a[1..], b);
    }
  }

  lemma ReachTrans(n: nat, s: Shape, t: Shape, u: Shape)
    requires Reach(n, s, t) && Reach(n, t, u)
    ensures Reach(n, s, u)
  {
    var a :| CanRun(n, s, a) && Run(n, s, a) == t;
    var b :| CanRun(n, t, b) && Run(n, t, b) == u;
    RunAppend(n, s, a, b);
  }

  lemma ReachStep(n: nat, s: Shape, op: Op)
    requires Enabled(s, op)
    ensures Reach(n, s, Step(n, s, op))
  {
    assert CanRun(n, Step(n, s, op), []);
    assert [op][1..] == [];
    assert CanRun(n, s, [op]) && Run(n, s, [op]) == Step(n, s, op);
  }

  lemma ReachSelf(n: nat, s: Shape)
    ensures Reach(n, s, s)
  {
    assert CanRun(n, s, []) && Run(n, s, []) == s;
  }

  // --- runs inside one node: its number of entries does not fall, and it is not split ---

  predicate Quietly(n: nat, s: Shape, op: Op) {
    Enabled(s, op) && if op.Add? then |Added(n, s, op.path, op.low)| == 1 else Size(Deleted(n, s, op.path)) >= Size(s)
  }

  function Next(n: nat, s: Shape, op: Op): Shape
    requires Enabled(s, op)
  {
    if op.Add? then Added(n, s, op.path, op.low)[0] else Deleted(n, s, op.path)
  }

  predicate QuietRun(n: nat, s: Shape, ops: seq<Op>, t: Shape)
    decreases |ops|
  {
    if ops == [] then s == t else Quietly(n, s, ops[0]) && QuietRun(n, Next(n, s, ops[0]), ops[1..], t)
  }

  ghost predicate Quiet(n: nat, s: Shape, t: Shape) {
    exists ops :: QuietRun(n, s, ops, t)
  }

  /** After a quiet run one deletion takes an entry away. */
  ghost predicate Loses(n: nat, s: Shape, t: Shape) {
    exists u, path :: Quiet(n, s, u) && Enabled(u, Del(path)) && t == Deleted(n, u, path) && Size(t) < Size(u)
  }

  /** After a quiet run one more key splits the node. */
  ghost predicate Splits(n: nat, s: Shape, r: seq<Shape>) {
    exists u, path, low :: Quiet(n, s, u) && Enabled(u, Add(path, low)) && r == Added(n, u, path, low) && |r| == 2
  }

  lemma QuietSelf(n: nat, s: Shape)
    ensures Quiet(n, s, s)
  {
    assert QuietRun(n, s, [], s);
  }

  lemma {:induction false} QuietAppend(n: nat, s: Shape, a: seq<Op>, t: Shape, b: seq<Op>, u: Shape)
    requires QuietRun(n, s, a, t) && QuietRun(n, t, b, u)
    ensures QuietRun(n, s, a + b, u)
    decreases |a|
  {
    if a == [] {
      assert a + b == b;
    } else {
      assert (a + b)[1..] == a[1..] + b;
      QuietAppend(n, Next(n, s, a[0]), a[1..], t, b, u);
    }
  }

  lemma QuietTrans(n: nat, s: Shape, t: Shape, u: Shape)
    requires Quiet(n, s, t) && Quiet(n, t, u)
    ensures Quiet(n, s, u)
  {
    var a :| QuietRun(n, s, a, t);
    var b :| QuietRun(n, t, b, u);
    QuietAppend(n, s, a, t, b, u);
  }

  lemma QuietStep(n: nat, s: Shape, op: Op)
    requires Quietly(n, s, op)
    ensures Quiet(n, s, Next(n, s, op))
  {
    var t := Next(n, s, op);
    assert QuietRun(n, t, [], t);
    assert [op][1..] == [];
    assert QuietRun(n, s, [op], t);
  }

  lemma QuietLoses(n: nat, s: Shape, t: Shape, u: Shape)
    requires Quiet(n, s, t) && Loses(n, t, u)
    ensures Loses(n, s, u)
  {
    var v, path :| Quiet(n, t, v) && Enabled(v, Del(path)) && u == Deleted(n, v, path) && Size(u) < Size(v);
    QuietTrans(n, s, t, v);
  }

  lemma QuietSplits(n: nat, s: Shape, t: Shape, r: seq<Shape>)
    requires Quiet(n, s, t) && Splits(n, t, r)
    ensures Splits(n, s, r)
  {
    var v, path, low :| Quiet(n, t, v) && Enabled(v, Add(path, low)) && r == Added(n, v, path, low) && |r| == 2;
    QuietTrans(n, s, t, v);
  }

  // --- from a child to its parent ---

  function Under(i: nat, op: Op): Op {
    if op.Add? then Add([i] + op.path, op.low) else Del([i] + op.path)
  }

  lemma UnderEnabled(kids: seq<Shape>, i: nat, op: Op)
    requires i < |kids| && Enabled(kids[i], op)
    ensures Enabled(Node(kids), Under(i, op))
  {
    assert ([i] + op.path)[1..] == op.path;
  }

  lemma {:induction false} LiftRun(n: nat, kids: seq<Shape>, i: nat, ops: seq<Op>, t: Shape)
    requires i < |kids| && QuietRun(n, kids[i], ops, t)
    ensures Quiet(n, Node(kids), Node(kids[i := t]))
    decreases |ops|
  {
    if ops == [] {
      assert kids[i := t] == kids;
      QuietSelf(n, Node(kids));
    } else {
      var op := ops[0];
      var u := Next(n, kids[i], op);
      UnderEnabled(kids, i, op);
      assert ([i] + op.path)[1..] == op.path;
      QuietStep(n, Node(kids), Under(i, op));
      LiftRun(n, kids[i := u], i, ops[1..], t);
      assert kids[i := u][i := t] == kids[i := t];
      QuietTrans(n, Node(kids), Node(kids[i := u]), Node(kids[i := t]));
    }
  }

  lemma Lift(n: nat, kids: seq<Shape>, i: nat, t: Shape)
    requires i < |kids| && Quiet(n, kids[i], t)
    ensures Quiet(n, Node(kids), Node(kids[i := t]))
  {
    var ops :| QuietRun(n, kids[i], ops, t);
    LiftRun(n, kids, i, ops, t);
  }

  lemma LoseUp(n: nat, kids: seq<Shape>, i: nat, t: Shape)
    requires i < |kids| && Loses(n, kids[i], t)
    ensures
      var ks := Rebalanced(n, kids[i := t], i);
      if |ks| < |kids| then Loses(n, Node(kids), Node(ks)) else Quiet(n, Node(kids), Node(ks))
  {
    var u, path :| Quiet(n, kids[i], u) && Enabled(u, Del(path)) && t == Deleted(n, u, path) && Size(t) < Size(u);
    var k1 := kids[i := u];
    Lift(n, kids, i, u);
    UnderEnabled(k1, i, Del(path));
    assert ([i] + path)[1..] == path;
    assert k1[i := t] == kids[i := t];
    var ks := Rebalanced(n, kids[i := t], i);
    assert Deleted(n, Node(k1), [i] + path) == Node(ks);
    if |ks| >= |kids| {
      QuietStep(n, Node(k1), Del([i] + path));
      QuietTrans(n, Node(kids), Node(k1), Node(ks));
    }
  }

  lemma AddedUnder(n: nat, kids: seq<Shape>, i: nat, path: seq<nat>, low: bool)
    requires i < |kids| && Leads(kids[i], path)
    ensures Leads(Node(kids), [i] + path)
    ensures Added(n, Node(kids), [i] + path, low) == Received(n, kids, i, Added(n, kids[i], path, low))
  {
    assert ([i] + path)[1..] == path;
  }

  lemma SplitUp(n: nat, kids: seq<Shape>, i: nat, r: seq<Shape>)
    requires i < |kids| <= n && Splits(n, kids[i], r)
    ensures |r| == 2
    ensures |kids| < n ==> Quiet(n, Node(kids), Node(Replaced(kids, i, r)))
    ensures |kids| == n ==>
      var h, ks := n / 2, Replaced(kids, i, r);
      Splits(n, Node(kids), if i < h then [Node(ks[..h + 1]), Node(kids[h..])] else [Node(kids[..h]), Node(ks[h..])])
  {
    hide Quiet, Leads, LeafKeys, Added;
    var u, path, low :| Quiet(n, kids[i], u) && Enabled(u, Add(path, low)) && r == Added(n, u, path, low) && |r| == 2;
    var k1, op := kids[i := u], Add([i] + path, low);
    Lift(n, kids, i, u);
    AddedUnder(n, k1, i, path, low);
    assert Replaced(k1, i, r) == Replaced(kids, i, r);
    if |kids| < n {
      QuietStep(n, Node(k1), op);
      QuietTrans(n, Node(kids), Node(k1), Node(Replaced(kids, i, r)));
    } else {
      var h := n / 2;
      assert i >= h ==> k1[..h] == kids[..h];
      assert i < h ==> k1[h..] == kids[h..];
      assert Enabled(Node(k1), op);
    }
  }

  // --- no node is overfull, and none below the root is empty ---

  predicate Small(n: nat, s: Shape) {
    Size(s) <= n && (s.Node? ==> forall i :: 0 <= i < |s.kids| ==> Size(s.kids[i]) >= 1 && Small(n, s.kids[i]))
  }

  ghost predicate SmallAll(n: nat, r: seq<Shape>) {
    forall j :: 0 <= j < |r| ==> Size(r[j]) >= 1 && Small(n, r[j])
  }

  lemma {:induction false} AddedSmall(n: nat, s: Shape, path: seq<nat>, low: bool)
    requires n >= 4 && Small(n, s) && Leads(s, path)
    ensures SmallAll(n, Added(n, s, path, low))
    decreases s
  {
    if s.Node? {
      var i := path[0];
      AddedSmall(n, s.kids[i], path[1..], low);
      ReceivedSmall(n, s.kids, i, Added(n, s.kids[i], path[1..], low));
    }
  }

  lemma ReceivedSmall(n: nat, kids: seq<Shape>, i: nat, r: seq<Shape>)
    requires n >= 4 && i < |kids| <= n && (|r| == 1 || |r| == 2) && SmallAll(n, kids) && SmallAll(n, r)
    ensures SmallAll(n, Received(n, kids, i, r))
  {
    if |r| == 2 {
      var ks := Replaced(kids, i, r);
      forall j | 0 <= j < |ks|
        ensures Size(ks[j]) >= 1 && Small(n, ks[j])
      {
        assert ks[j] == if j < i then kids[j] else if j < i + 2 then r[j - i] else kids[j - 1];
      }
    }
  }

  lemma {:induction false} DeletedSmall(n: nat, s: Shape, path: seq<nat>)
    requires n >= 4 && Small(n, s) && Leads(s, path)
    ensures Small(n, Deleted(n, s, path))
    decreases s
  {
    if s.Node? {
      var i := path[0];
      DeletedSmall(n, s.kids[i], path[1..]);
      RebalancedSmall(n, s.kids, i, Deleted(n, s.kids[i], path[1..]));
    }
  }

  lemma RebalancedSmall(n: nat, kids: seq<Shape>, i: nat, c: Shape)
    requires n >= 4 && i < |kids| <= n && SmallAll(n, kids) && Small(n, c)
    ensures Small(n, Node(Rebalanced(n, kids[i := c], i)))
  {
    hide Joined;
    var ks := kids[i := c];
    if Size(c) > 0 {
      if i > 0 {
        JoinedSmall(n, ks[i - 1], c);
      }
      if i + 1 < |ks| {
        JoinedSmall(n, c, ks[i + 1]);
      }
    }
  }

  lemma JoinedSmall(n: nat, a: Shape, b: Shape)
    requires Small(n, a) && Small(n, b) && Size(a) >= 1
    ensures Size(a) + Size(b) <= n ==> Small(n, Joined(a, b)) && Size(Joined(a, b)) >= 1
  {
  }

  lemma StepSmall(n: nat, s: Shape, op: Op)
    requires n >= 4 && Small(n, s) && Enabled(s, op)
    ensures Small(n, Step(n, s, op))
  {
    if op.Add? {
      AddedSmall(n, s, op.path, op.low);
    } else {
      DeletedSmall(n, s, op.path);
    }
  }

  /** Which half a key goes to matters only to a full leaf. */
  lemma {:induction false} HalfIgnored(n: nat, s: Shape, path: seq<nat>, a: bool, b: bool)
    requires Leads(s, path) && LeafKeys(s, path) < n
    ensures Added(n, s, path, a) == Added(n, s, path, b)
    decreases s
  {
    if s.Node? {
      HalfIgnored(n, s.kids[path[0]], path[1..], a, b);
    }
  }

  lemma {:induction false} LeafSmall(n: nat, s: Shape, path: seq<nat>)
    requires Small(n, s) && Leads(s, path)
    ensures LeafKeys(s, path) <= n && (LeafKeys(s, path) == 0 ==> s == Leaf(0))
    decreases s
  {
    if s.Node? {
      LeafSmall(n, s.kids[path[0]], path[1..]);
    }
  }
}
