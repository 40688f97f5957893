/**
 lib/btree.c: the in-memory B+tree.

 `mem` is the memory that holds the nodes: a node address maps to its fixed-size key
 and value arrays, an unused slot holding zeros, and freeing a node removes its
 address, so every access below is proved to hit a live node.  A key argument that
 the source passes by address is a `KeyPtr`, read again at every use, because two of
 the callers pass the address of a key inside a node.
 */
module BTree {
  import opened Lists
  import opened BTreeSlots
  import opened BTreeHealth
  import opened BTreeShape
  import opened BTreeInsert
  import opened BTreeRemove
  import opened BTreeMap
  import opened BTreeHome
  import opened BTreeAbsent
  import opened BTreeFloor

  datatype Node = Node(keys: seq<nat>, vals: seq<nat>)

  datatype KeyPtr = Local(k: nat) | InNode(p: nat, i: nat)

  datatype MaybeKey = NoKey | AKey(k: nat)

  function KeyAt(es: seq<Pair>, i: nat): nat {
    if i < |es| then es[i].key else 0
  }

  function ValAt(es: seq<Pair>, i: nat): nat {
    if i < |es| then es[i].val else 0
  }

  /** The memory image of a node that holds the pairs `es`. */
  ghost predicate Holds(nd: Node, n: nat, es: seq<Pair>) {
    && |es| <= n && |nd.keys| == n && |nd.vals| == n
    && (forall i :: 0 <= i < n ==> nd.keys[i] == KeyAt(es, i))
    && (forall i :: 0 <= i < n ==> nd.vals[i] == ValAt(es, i))
    && (forall i :: 0 <= i < |es| ==> es[i].val != 0)
  }

  ghost predicate HoldsAll(mem: map<nat, Node>, n: nat, cells: map<nat, Cell>) {
    && mem.Keys == cells.Keys
    && forall p :: p in cells ==> Holds(mem[p], n, cells[p].es)
  }

  lemma HoldsAllSet(mem: map<nat, Node>, mem': map<nat, Node>, n: nat, cells: map<nat, Cell>, p: nat, c: Cell)
    requires HoldsAll(mem, n, cells) && p in cells && mem'.Keys == mem.Keys && Holds(mem'[p], n, c.es)
    requires forall q :: q in mem && q != p ==> mem'[q] == mem[q]
    ensures HoldsAll(mem', n, cells[p := c])
  {
  }

  function SetKey(nd: Node, i: nat, key: nat): Node
    requires i < |nd.keys|
  {
    nd.(keys := nd.keys[i := key])
  }

  function SetVal(nd: Node, i: nat, val: nat): Node
    requires i < |nd.vals|
  {
    nd.(vals := nd.vals[i := val])
  }

  /** Shifts the pairs from `pos` on by one slot to the right and stores the new pair at `pos`. */
  method InsertPair(nd: Node, ghost n: nat, ghost es: seq<Pair>, pos: nat, fill: nat, key: nat, val: nat)
      returns (r: Node)
    requires Holds(nd, n, es) && pos <= fill == |es| < n && val != 0
    ensures Holds(r, n, InsertAt(es, pos, Pair(key, val)))
  {
    var ks, vs := nd.keys, nd.vals;
    var i := fill;
    while i > pos
      invariant pos <= i <= fill && |ks| == n && |vs| == n
      invariant forall k {:trigger ks[k]} :: 0 <= k < n ==> ks[k] == nd.keys[if i < k <= fill then k - 1 else k]
      invariant forall k {:trigger vs[k]} :: 0 <= k < n ==> vs[k] == nd.vals[if i < k <= fill then k - 1 else k]
    {
      ks := ks[i := ks[i - 1]];
      vs := vs[i := vs[i - 1]];
      i := i - 1;
    }
    r := Node(ks[pos := key], vs[pos := val]);
    ghost var es' := InsertAt(es, pos, Pair(key, val));
    forall k | 0 <= k < n
      ensures r.keys[k] == KeyAt(es', k) && r.vals[k] == ValAt(es', k)
    {
      assert k != pos ==> r.keys[k] == ks[k] && r.vals[k] == vs[k];
    }
  }

  /** Moves the first half of the full node `nd` into the empty node `s` and the rest to the front. */
  method SplitPairs(nd: Node, s: Node, n: nat, ghost es: seq<Pair>) returns (l: Node, r: Node)
    requires Holds(nd, n, es) && |es| == n >= 2 && Holds(s, n, [])
    ensures Holds(l, n, es[..n / 2]) && Holds(r, n, es[n / 2..])
  {
    var lk, lv, rk, rv := s.keys, s.vals, nd.keys, nd.vals;
    var h := n / 2;
    var i := 0;
    while i < h
      invariant 0 <= i <= h && |lk| == n && |lv| == n && |rk| == n && |rv| == n
      invariant forall k {:trigger lk[k]} :: 0 <= k < n ==> lk[k] == if k < i then nd.keys[k] else 0
      invariant forall k {:trigger lv[k]} :: 0 <= k < n ==> lv[k] == if k < i then nd.vals[k] else 0
      invariant forall k {:trigger rk[k]} :: 0 <= k < n ==>
        rk[k] == if k < i then nd.keys[k + h] else if h <= k < h + i then 0 else nd.keys[k]
      invariant forall k {:trigger rv[k]} :: 0 <= k < n ==>
        rv[k] == if k < i then nd.vals[k + h] else if h <= k < h + i then 0 else nd.vals[k]
    {
      lk, lv := lk[i := rk[i]], lv[i := rv[i]];
      rk, rv := rk[i := rk[i + h]], rv[i := rv[i + h]];
      rk, rv := rk[i + h := 0], rv[i + h := 0];
      i := i + 1;
    }
    if n % 2 == 1 {
      rk, rv := rk[i := rk[n - 1]], rv[i := rv[n - 1]];
      rk, rv := rk[n - 1 := 0], rv[n - 1 := 0];
    }
    l, r := Node(lk, lv), Node(rk, rv);
    SplitImage(nd, l, r, n, es);
  }

  lemma SplitImage(nd: Node, l: Node, r: Node, n: nat, es: seq<Pair>)
    requires Holds(nd, n, es) && |es| == n && |l.keys| == n && |l.vals| == n && |r.keys| == n && |r.vals| == n
    requires forall k {:trigger l.keys[k]} :: 0 <= k < n ==> l.keys[k] == if k < n / 2 then nd.keys[k] else 0
    requires forall k {:trigger l.vals[k]} :: 0 <= k < n ==> l.vals[k] == if k < n / 2 then nd.vals[k] else 0
    requires forall k {:trigger r.keys[k]} :: 0 <= k < n ==> r.keys[k] == if k + n / 2 < n then nd.keys[k + n / 2] else 0
    requires forall k {:trigger r.vals[k]} :: 0 <= k < n ==> r.vals[k] == if k + n / 2 < n then nd.vals[k + n / 2] else 0
    ensures Holds(l, n, es[..n / 2]) && Holds(r, n, es[n / 2..])
  {
  }

  /** Closes the gap at `pos` by shifting the later pairs to the left and clears the last slot. */
  method RemovePair(nd: Node, ghost n: nat, ghost es: seq<Pair>, pos: nat, fill: nat) returns (r: Node)
    requires Holds(nd, n, es) && pos < fill == |es|
    ensures Holds(r, n, RemoveAt(es, pos))
  {
    var ks, vs := nd.keys, nd.vals;
    var i := pos;
    while i < fill - 1
      invariant pos <= i <= fill - 1 && |ks| == n && |vs| == n
      invariant forall k {:trigger ks[k]} :: 0 <= k < n ==> ks[k] == nd.keys[if pos <= k < i then k + 1 else k]
      invariant forall k {:trigger vs[k]} :: 0 <= k < n ==> vs[k] == nd.vals[if pos <= k < i then k + 1 else k]
    {
      ks := ks[i := ks[i + 1]];
      vs := vs[i := vs[i + 1]];
      i := i + 1;
    }
    r := Node(ks[fill - 1 := 0], vs[fill - 1 := 0]);
    ghost var es' := RemoveAt(es, pos);
    forall k | 0 <= k < n
      ensures r.keys[k] == KeyAt(es', k) && r.vals[k] == ValAt(es', k)
    {
      assert k != fill - 1 ==> r.keys[k] == ks[k] && r.vals[k] == vs[k];
    }
  }

  /** Appends the pairs of the node `right` to those of the node `left`. */
  method AppendPairs(left: Node, right: Node, ghost n: nat, ghost ls: seq<Pair>, ghost rs: seq<Pair>, lfill: nat, rfill: nat)
      returns (r: Node)
    requires Holds(left, n, ls) && Holds(right, n, rs) && lfill == |ls| && rfill == |rs| && lfill + rfill <= n
    ensures Holds(r, n, ls + rs)
  {
    var ks, vs := left.keys, left.vals;
    var i := 0;
    while i < rfill
      invariant 0 <= i <= rfill && |ks| == n && |vs| == n
      invariant forall k {:trigger ks[k]} :: 0 <= k < n ==>
        ks[k] == if lfill <= k < lfill + i then right.keys[k - lfill] else left.keys[k]
      invariant forall k {:trigger vs[k]} :: 0 <= k < n ==>
        vs[k] == if lfill <= k < lfill + i then right.vals[k - lfill] else left.vals[k]
    {
      ks := ks[lfill + i := right.keys[i]];
      vs := vs[lfill + i := right.vals[i]];
      i := i + 1;
    }
    r := Node(ks, vs);
    forall k | 0 <= k < n
      ensures r.keys[k] == KeyAt(ls + rs, k) && r.vals[k] == ValAt(ls + rs, k)
    {
    }
  }

  /** setval() on two neighbouring slots. */
  method SwapPointers(nd: Node, ghost n: nat, ghost es: seq<Pair>, i: nat, v: nat, w: nat) returns (r: Node)
    requires Holds(nd, n, es) && i + 1 < |es| && v == es[i + 1].val && w == es[i].val
    ensures Holds(r, n, SwapEs(es, i))
  {
    r := SetVal(nd, i, v);
    r := SetVal(r, i + 1, w);
  }

  lemma StoredHolds(nd: Node, n: nat, es: seq<Pair>, i: nat, val: nat)
    requires Holds(nd, n, es) && i <= |es| && i < n && val != 0
    ensures Holds(SetVal(nd, i, val), n, if i < |es| then SetValAt(es, i, val) else es + [Pair(0, val)])
  {
  }

  lemma FreshAddress(mem: map<nat, Node>)
    ensures exists p: nat :: p != 0 && p !in mem
  {
    var b: nat := 0;
    var s := mem.Keys;
    while s != {}
      invariant forall q :: q in mem && q !in s ==> q <= b
      decreases s
    {
      var q :| q in s;
      b := if q > b then q else b;
      s := s - {q};
    }
    var p: nat := b + 1;
    assert p != 0 && p !in mem;
  }

  class Head {
    const n: nat    // geo->no_pairs
    const lim: nat  // number of key values: keys are the words of a key read as one number
    var mem: map<nat, Node>
    var node: nat
    var height: nat
    ghost var t: Tree

    ghost predicate Valid()
      reads this
    {
      Rep() && TreeOk(t)
    }

    /** The finite map the tree stands for. */
    ghost function Map(): map<nat, nat>
      reads this
    {
      Contents(t)
    }

    constructor (pairs: nat, keys: nat)
      requires GoodFanout(pairs) && 0 < keys
      ensures Valid() && n == pairs && lim == keys && Map() == map[] && NoZero(t)
    {
      n, lim, mem, node, height := pairs, keys, map[], 0, 0;
      t := Tree(pairs, keys, map[], [], 0);
    }

    /** The memory holds exactly the nodes of `t`. */
    ghost predicate Rep()
      reads this
    {
      && t.n == n && t.lim == lim && t.root == node && |t.levels| == height
      && mem.Keys == t.cells.Keys && 0 !in mem && (height == 0 <==> node == 0)
      && HoldsAll(mem, n, t.cells)
    }

    ghost predicate KeyPtrOk(kp: KeyPtr)
      reads this
    {
      kp.InNode? ==> kp.p in t.cells && kp.p in mem && kp.i < |t.cells[kp.p].es|
    }

    function Key(kp: KeyPtr): nat
      reads this
    {
      match kp
      case Local(k) => k
      case InNode(p, i) => if p in mem && i < |mem[p].keys| then mem[p].keys[i] else 0
    }

    method Bval(p: nat, i: nat) returns (v: nat)
      requires Rep() && p in mem && i < n
      ensures v == ValAt(t.cells[p].es, i)
      ensures i < |t.cells[p].es| <==> v != 0
    {
      assert Holds(mem[p], n, t.cells[p].es);
      v := mem[p].vals[i];
    }

    method Bkey(p: nat, i: nat) returns (k: nat)
      requires Rep() && p in mem && i < |t.cells[p].es|
      ensures k == t.cells[p].es[i].key
    {
      assert Holds(mem[p], n, t.cells[p].es);
      k := mem[p].keys[i];
    }

    method GetPos(p: nat, key: nat) returns (i: nat)
      requires Rep() && p in mem
      ensures IsPos(t.cells[p].es, key, i)
      ensures i <= n && |t.cells[p].es| <= n
    {
      ghost var es := t.cells[p].es;
      assert Holds(mem[p], n, es);
      i := 0;
      while i < n
        invariant 0 <= i <= |es|
        invariant forall k :: 0 <= k < i ==> key < es[k].key
      {
        if mem[p].keys[i] <= key {
          break;
        }
        i := i + 1;
      }
    }

    method GetFill(p: nat, start: nat) returns (i: nat)
      requires Rep() && p in mem && start <= |t.cells[p].es|
      ensures i == |t.cells[p].es|
    {
      ghost var es := t.cells[p].es;
      assert Holds(mem[p], n, es);
      i := start;
      while i < n
        invariant start <= i <= |es|
      {
        if mem[p].vals[i] == 0 {
          break;
        }
        i := i + 1;
      }
    }

    /** `mempool_alloc` may fail: `avail` allocations succeed before one does.  A fresh node comes back zeroed. */
    method NodeAlloc(ghost lvl: nat, avail: nat) returns (p: nat)
      requires Rep()
      modifies this`mem, this`t
      ensures Rep() && (p == 0 <==> avail == 0)
      ensures p == 0 ==> t == old(t) && mem == old(mem)
      ensures p != 0 ==> p !in old(t.cells) && t == old(t).(cells := old(t.cells)[p := Cell(lvl, [])])
      ensures p != 0 ==> forall q :: q in old(mem) ==> q in mem && mem[q] == old(mem[q])
      ensures old(NoZero(t)) ==> NoZero(t)
    {
      if avail == 0 {
        return 0;
      }
      FreshAddress(mem);
      p :| p != 0 && p !in mem;
      mem := mem[p := Node(seq(n, i => 0), seq(n, i => 0))];
      t := t.(cells := t.cells[p := Cell(lvl, [])]);
    }

    lemma KeyHeld(kp: KeyPtr)
      requires Rep() && KeyPtrOk(kp)
      ensures Key(kp) == if kp.Local? then kp.k else t.cells[kp.p].es[kp.i].key
    {
      if kp.InNode? {
        assert Holds(mem[kp.p], n, t.cells[kp.p].es);
      }
    }

    /** setkey() on the last pair of a node. */
    method LowerKey(p: nat, i: nat, key: nat)
      requires Rep() && p in mem && i + 1 == |t.cells[p].es|
      modifies this`mem, this`t
      ensures Rep() && mem.Keys == old(mem).Keys
      ensures t == SetEs(old(t), p, LowerLast(old(t).cells[p].es, key))
      ensures old(NoZero(t)) && key > 0 ==> NoZero(t)
    {
      if NoZero(t) && key > 0 {
        NoZeroLower(t, p, key);
      }
      mem := mem[p := SetKey(mem[p], i, key)];
      t := SetEs(t, p, LowerLast(t.cells[p].es, key));
    }

    lemma KeyPositive(kp: KeyPtr)
      requires Rep() && KeyPtrOk(kp)
      ensures NoZero(t) && (kp.Local? ==> kp.k > 0) ==> Key(kp) > 0
    {
      hide HoldsAll;
      KeyHeld(kp);
      if kp.InNode? && NoZero(t) {
        NoZeroAt(t, kp.p, kp.i);
      }
    }

    ghost predicate DescentReady(kp: KeyPtr, level: nat)
      reads this
    {
      && Rep() && 1 <= level <= height && Upper(t, level)
      && (level < height ==> |Es(t, t.root)| >= 1)
      && KeyPtrOk(kp) && (kp.InNode? ==> t.cells[kp.p].lvl <= level)
    }

    /** One level of the descent below. */
    method Descend(kp: KeyPtr, level: nat, h: nat, p: nat, ghost j: nat) returns (q: nat, ghost k: nat)
      requires DescentReady(kp, level) && level < h && At(t, h, j, p, Key(kp))
      modifies this`mem, this`t
      ensures DescentReady(kp, level) && DescentKeeps(old(t), t, level)
      ensures Slots(t, level) == old(Slots(t, level)) && Key(kp) == old(Key(kp))
      ensures At(t, h - 1, k, q, Key(kp))
      ensures old(Owned(Slots(t, level + 1), Key(kp))) ==> t == old(t)
      ensures old(NoZero(t)) && (kp.Local? ==> kp.k > 0) ==> NoZero(t)
    {
      hide Upper, LevelOk, Slots, Below, Owns, HoldsAll, Key, NoZero;
      KeyHeld(kp);
      ghost var key := Key(kp);
      ghost var es := t.cells[p].es;
      var pos := GetPos(p, Key(kp));
      var i: int := pos;
      q := 0;
      if i < n {
        q := Bval(p, i);
      }
      if q == 0 {
        DescendNone(t, level, h, j, p, key);
        DescendLower(t, level, h, j, p, key);
        i := i - 1;
        assert i >= 0;  // BUG_ON(i < 0)
        DescentKeepsStep(t, t, level, p, LowerLast(es, key));
        k := Below(t, h, j, i);
        KeyPositive(kp);
        LowerKey(p, i, Key(kp));
        KeyHeld(kp);
      } else {
        DescendFound(t, level, h, j, p, i, key);
        k := Below(t, h, j, i);
      }
      q := Bval(p, i);
    }

    /** Descends to the node of the given level whose interval owns the key, lowering
        a last separator where the key lies below it. */
    method FindLevel(kp: KeyPtr, level: nat) returns (p: nat, ghost j: nat)
      requires DescentReady(kp, level) && Key(kp) < lim
      modifies this`mem, this`t
      ensures DescentReady(kp, level) && DescentKeeps(old(t), t, level)
      ensures Slots(t, level) == old(Slots(t, level)) && Key(kp) == old(Key(kp))
      ensures At(t, level, j, p, Key(kp)) && p in mem && t.cells[p].lvl == level
      ensures old(Owned(Slots(t, level + 1), Key(kp))) ==> t == old(t)
      ensures old(NoZero(t)) && (kp.Local? ==> kp.k > 0) ==> NoZero(t)
    {
      hide Upper, LevelOk, Slots, Owns, HoldsAll, Key, NoZero;
      p := node;
      j := 0;
      var h := height;
      AtTop(t, level, Key(kp));
      while h > level
        invariant level <= h <= height
        invariant DescentReady(kp, level) && DescentKeeps(old(t), t, level)
        invariant Slots(t, level) == old(Slots(t, level)) && Key(kp) == old(Key(kp))
        invariant At(t, h, j, p, Key(kp))
        invariant old(Owned(Slots(t, level + 1), Key(kp))) ==> t == old(t)
        invariant old(NoZero(t)) && (kp.Local? ==> kp.k > 0) ==> NoZero(t)
      {
        ghost var t1 := t;
        p, j := Descend(kp, level, h, p, j);
        DescentKeepsTrans(old(t), t1, t, level);
        h := h - 1;
      }
    }

    // --- insertion ---

    /** setkey() and setval() on the first slot of an empty node. */
    method SetFirst(p: nat, key: nat, val: nat)
      requires Rep() && p in mem && t.cells[p].es == [] && n > 0 && val != 0
      modifies this`mem, this`t
      ensures Rep() && mem.Keys == old(mem).Keys
      ensures t == SetEs(old(t), p, [Pair(key, val)])
    {
      assert Holds(mem[p], n, []);
      mem := mem[p := SetVal(SetKey(mem[p], 0, key), 0, val)];
      t := SetEs(t, p, [Pair(key, val)]);
    }

    method Grow(avail: nat) returns (ok: bool)
      requires Rep() && n > 0 && (height > 0 ==> node in mem && t.cells[node].es != [])
      modifies this
      ensures Rep() && (ok <==> avail > 0)
      ensures !ok ==> t == old(t)
      ensures ok ==> node !in old(t.cells) && t == Grown(old(t), node)
      ensures old(NoZero(t)) ==> NoZero(t)
    {
      hide HoldsAll, NoZero;
      var p := NodeAlloc(height + 1, avail);
      if p == 0 {
        return false;
      }
      if node != 0 {
        var fill := GetFill(node, 0);
        var last := Bkey(node, fill - 1);
        SetFirst(p, last, node);
      }
      assert t.cells == Grown(old(t), p).cells;
      node := p;
      height := height + 1;
      t := Grown(old(t), p);
      if old(NoZero(t)) {
        NoZeroGrown(old(t), p);
      }
      ok := true;
    }

    /** The shift-and-insert tail of btree_insert_level(). */
    method ShiftInsert(p: nat, pos: nat, fill: nat, kp: KeyPtr, val: nat)
      requires Rep() && p in mem && pos <= fill == |t.cells[p].es| < n && val != 0
      requires KeyPtrOk(kp) && (kp.InNode? ==> kp.p != p)
      modifies this`mem, this`t
      ensures Rep() && mem.Keys == old(mem).Keys
      ensures t == SetEs(old(t), p, InsertAt(old(t).cells[p].es, pos, Pair(old(Key(kp)), val)))
      ensures old(NoZero(t)) && (kp.Local? ==> kp.k > 0) ==> NoZero(t)
    {
      hide NoZero;
      KeyPositive(kp);
      if NoZero(t) && (kp.Local? ==> kp.k > 0) {
        NoZeroInsert(t, p, pos, Pair(Key(kp), val));
      }
      ghost var es := t.cells[p].es;
      assert Holds(mem[p], n, es);
      hide HoldsAll;
      var nd := InsertPair(mem[p], n, es, pos, fill, Key(kp), val);
      hide Holds;
      t := SetEs(t, p, InsertAt(es, pos, Pair(Key(kp), val)));
      HoldsAllSet(mem, mem[p := nd], n, old(t).cells, p, t.cells[p]);
      mem := mem[p := nd];
    }

    /** Gives a freshly split node's first half to its new left neighbour. */
    method MoveHalf(p: nat, s: nat, level: nat, ghost j: nat)
      requires Rep() && p in mem && s in mem && p != s && |t.cells[p].es| == n >= 2 && t.cells[s].es == []
      requires 1 <= level <= height && j <= |t.levels[level - 1]|
      modifies this`mem, this`t
      ensures Rep() && t == SplitNode(old(t), level, j, p, s, old(t).cells[p].es, n / 2)
      ensures mem.Keys == old(mem).Keys
      ensures old(NoZero(t)) ==> NoZero(t)
    {
      hide Holds, NoZero;
      if NoZero(t) {
        NoZeroSplit(t, level, j, p, s, n / 2);
      }
      ghost var es := t.cells[p].es;
      assert Holds(mem[p], n, es) && Holds(mem[s], n, []);
      hide HoldsAll;
      var l, r := SplitPairs(mem[p], mem[s], n, es);
      ghost var cells := t.cells;
      HoldsAllSet(mem, mem[s := l], n, cells, s, Cell(level, es[..n / 2]));
      mem := mem[s := l];
      cells := cells[s := Cell(level, es[..n / 2])];
      HoldsAllSet(mem, mem[p := r], n, cells, p, Cell(level, es[n / 2..]));
      mem := mem[p := r];
      t := SplitNode(t, level, j, p, s, es, n / 2);
    }

    /** mempool_free() of a node that is not part of the tree. */
    method FreeStray(s: nat, ghost t0: Tree)
      requires Rep() && s in mem && s !in t0.cells && t == t0.(cells := t0.cells[s := t.cells[s]])
      modifies this`mem, this`t
      ensures Rep() && t == t0
    {
      mem := mem - {s};
      t := t0;
      assert t.cells.Keys == mem.Keys;
    }

    /** A key pointer below the level being worked on keeps its meaning. */
    lemma KeyKept(kp: KeyPtr, t0: Tree, level: nat)
      requires Rep() && SameBelow(t0, t, level)
      requires kp.InNode? ==> kp.p in t0.cells && t0.cells[kp.p].lvl < level && kp.i < |t0.cells[kp.p].es|
      ensures KeyPtrOk(kp) && (kp.InNode? ==> t.cells[kp.p].lvl < level)
      ensures Key(kp) == if kp.Local? then kp.k else t0.cells[kp.p].es[kp.i].key
    {
      KeyHeld(kp);
    }

    /** btree_insert_level() when the node it has to insert into is full: make room above, then split. */
    method SplitFull(p: nat, level: nat, avail: nat, ghost j: nat, ghost t0: Tree, ghost key: nat, ghost singles: set<nat>)
        returns (err: bool)
      requires Rep() && Inserting(t0, t, level, key, singles) && 1 <= level <= height && n >= 4
      requires At(t, level, j, p, key) && p in mem && |t.cells[p].es| == n
      modifies this
      ensures Rep()
      ensures err <==> avail < Need(old(t), level, j)
      ensures err ==> t == old(t)
      ensures !err ==> level <= height && Inserting(t0, t, level, key, singles) && Roomy(t, level, key)
      ensures old(NoZero(t)) ==> NoZero(t)
      decreases height + 1 - level, 0
    {
      hide NoZero;
      hide HoldsAll, Upper, LevelOk, Slots, HealthyLevel, Key, Roomy, Inserting, InsertReady, InsertDone, Splitting;
      hide SameBelow, RootOk, Singles, Absent, Owns, DescentKeeps, SplitNode, InsertAt, Need, Short;
      ghost var ta := t;
      InsertingFacts(t0, t, level, key, singles);
      FullNeeds(t, level, j, p, key);
      var s := NodeAlloc(level, avail);
      if s == 0 {
        return true;
      }
      ShortAbove(ta, level, j, p, s, key, avail);
      RecurseReady(t0, ta, level, j, p, s, key, singles);
      KeyHeld(InNode(p, n / 2 - 1));
      err := InsertLevel(InNode(p, n / 2 - 1), s, level + 1, avail - 1, Singles(ta, level));
      if err {
        FreeStray(s, ta);
        return true;
      }
      RecurseDone(ta, t, level, j, p, s, key);
      InsertSplit(t0, ta, t, level, j, p, s, key, singles);
      MoveHalf(p, s, level, j);
    }

    /** btree_insert_level(), of whose allocations `avail` succeed. */
    method InsertLevel(kp: KeyPtr, val: nat, level: nat, avail: nat, ghost singles: set<nat>) returns (err: bool)
      requires Rep() && KeyPtrOk(kp) && (kp.InNode? ==> t.cells[kp.p].lvl < level)
      requires InsertReady(t, level, Key(kp), val, singles)
      modifies this
      ensures Rep()
      ensures err <==> Short(old(t), level, old(Key(kp)), avail)
      ensures !err ==> InsertDone(old(t), t, level, old(Key(kp)), val, singles)
      ensures err ==> if level == 1 then DescentKeeps(old(t), t, 1) && Upper(t, 1) && RootOk(t) else t == old(t)
      ensures err && height > 0 ==> Slots(t, level) == old(Slots(t, level))
      ensures old(NoZero(t)) && (kp.Local? ==> kp.k > 0) ==> NoZero(t)
      decreases height + 1 - level, 1
    {
      hide NoZero;
      hide HoldsAll, Upper, LevelOk, Slots, HealthyLevel, Key, Roomy, Inserting, InsertReady, InsertDone;
      hide SameBelow, RootOk, Singles, IsPos, Absent, Owns, At, DescentKeeps, Owned, InsertAt, Short, Need;
      ghost var key, t0, roomy := Key(kp), t, false;
      KeyHeld(kp);
      ReadyFacts(t, level, key, val, singles);
      if height < level {
        DescentKeepsRefl(t, level);
        ShortTop(t, level, key, avail);
        var ok := Grow(avail);
        if !ok {
          return true;
        }
        InsertStartGrown(t0, node, level, key, val, singles);
        roomy := true;
      } else {
        InsertStart(t, level, key, val, singles);
      }
      while true
        invariant Rep() && level <= height && Inserting(t0, t, level, key, singles)
        invariant if roomy then Roomy(t, level, key) && !Short(t0, level, key, avail) else t == t0 && height == old(height)
        invariant old(NoZero(t)) && (kp.Local? ==> kp.k > 0) ==> NoZero(t)
        decreases if roomy then 0 else 1
      {
        ghost var t1 := t;
        InsertingFacts(t0, t, level, key, singles);
        KeyKept(kp, t0, level);
        var p;
        ghost var j;
        p, j := FindLevel(kp, level);
        InsertingDescent(t0, t1, t, level, key, singles);
        var pos := GetPos(p, Key(kp));
        var fill := GetFill(p, pos);
        InsertingFacts(t0, t, level, key, singles);
        InsertDistinct(t, level, j, p, pos, key);
        assert !(pos < fill && t.cells[p].es[pos].key == key);  // BUG_ON
        if roomy {
          RoomyFound(t1, t, level, j, p, key);
        } else {
          FoundShort(t0, t, level, j, p, key, avail, singles);
        }
        if fill != n {
          InsertFinish(t0, t, level, j, p, pos, key, val, singles);
          ShiftInsert(p, pos, fill, kp, val);
          return false;
        }
        if level > 1 {
          InsertingOwned(t0, t1, level, key, singles);
        }
        err := SplitFull(p, level, avail, j, t0, key, singles);
        if err {
          return true;
        }
        roomy := true;
      }
    }

    // --- removal ---

    method TakePair(p: nat, pos: nat, fill: nat)
      requires Rep() && p in mem && pos < fill == |t.cells[p].es|
      modifies this`mem, this`t
      ensures Rep() && mem.Keys == old(mem).Keys
      ensures t == SetEs(old(t), p, RemoveAt(old(t).cells[p].es, pos))
      ensures old(NoZero(t)) ==> NoZero(t)
    {
      hide NoZero;
      if NoZero(t) {
        NoZeroRemove(t, p, pos);
      }
      ghost var es := t.cells[p].es;
      assert Holds(mem[p], n, es);
      var nd := RemovePair(mem[p], n, es, pos, fill);
      t := SetEs(t, p, RemoveAt(es, pos));
      HoldsAllSet(mem, mem[p := nd], n, old(t).cells, p, t.cells[p]);
      mem := mem[p := nd];
    }

    /** mempool_free() of a node that has left its level. */
    method FreeNode(q: nat, level: nat, ghost j: nat)
      requires Rep() && q in mem && q != node && 1 <= level <= height && j < |t.levels[level - 1]|
      modifies this`mem, this`t
      ensures Rep() && t == DropNode(old(t), level, j, q)
      ensures old(NoZero(t)) ==> NoZero(t)
    {
      hide NoZero;
      if NoZero(t) {
        NoZeroDrop(t, level, j, q);
      }
      mem := mem - {q};
      t := DropNode(t, level, j, q);
      assert t.cells.Keys == mem.Keys;
    }

    method Shrink()
      requires Rep() && height >= 2 && node in mem && |t.cells[node].es| == 1
      modifies this
      ensures Rep() && t == Shrunk(old(t), old(t.cells[node].es[0].val))
      ensures old(NoZero(t)) ==> NoZero(t)
    {
      hide NoZero;
      if NoZero(t) {
        NoZeroShrunk(t, t.cells[node].es[0].val);
      }
      var fill := GetFill(node, 0);
      assert fill <= 1;  // BUG_ON(fill > 1)
      assert Holds(mem[node], n, t.cells[node].es);
      var child := Bval(node, 0);
      ghost var cells := t.cells;
      t := Shrunk(t, child);
      mem := mem - {node};
      assert t.cells.Keys == mem.Keys;
      node := child;
      height := height - 1;
    }

    /** The two writes of merge(): the pairs move to the left node, the parent swaps two pointers. */
    method MergeInto(left: nat, lfill: nat, right: nat, rfill: nat, parent: nat, lpos: nat,
                     level: nat, ghost j: nat, ghost q: nat)
      requires Rep() && Mergeable(t, level, j, q, lpos)
      requires left == t.levels[level - 1][j] && right == t.levels[level - 1][j + 1] && parent == t.levels[level][q]
      requires lfill == |Es(t, left)| && rfill == |Es(t, right)|
      modifies this`mem, this`t
      ensures Rep() && mem.Keys == old(mem).Keys && t == Merged(old(t), level, j, q, lpos)
      ensures old(NoZero(t)) ==> NoZero(t)
    {
      hide Mergeable, Holds, NoZero;
      MergedPlaces(t, level, j, q, lpos);
      if NoZero(t) {
        NoZeroMerged(t, level, j, q, lpos);
      }
      ghost var ls, rs := t.cells[left].es, t.cells[right].es;
      assert Holds(mem[left], n, ls) && Holds(mem[right], n, rs);
      var nd := AppendPairs(mem[left], mem[right], n, ls, rs, lfill, rfill);
      ghost var t1 := SetEs(t, left, ls + rs);
      HoldsAllSet(mem, mem[left := nd], n, t.cells, left, t1.cells[left]);
      mem := mem[left := nd];
      assert Holds(mem[parent], n, t1.cells[parent].es);
      var nd2 := SwapPointers(mem[parent], n, t1.cells[parent].es, lpos, right, left);
      ghost var t2 := SetEs(t1, parent, SwapEs(t1.cells[parent].es, lpos));
      HoldsAllSet(mem, mem[parent := nd2], n, t1.cells, parent, t2.cells[parent]);
      mem := mem[parent := nd2];
      t := t2;
    }

    method Merge(level: nat, left: nat, lfill: nat, right: nat, rfill: nat, parent: nat, lpos: nat,
                 ghost t0: Tree, ghost jc: nat, ghost i: nat, ghost key: nat, ghost singles: set<nat>,
                 ghost j: nat, ghost q: nat)
      requires Rep() && Taken(t0, t, level, jc, i, key, singles) && Mergeable(t, level, j, q, lpos)
      requires (jc == j || jc == j + 1) && |Blk(t, level, jc)| < n / 2
      requires left == Ptr(t, level, j) && right == Ptr(t, level, j + 1) && parent == Ptr(t, level + 1, q)
      requires lfill == |Es(t, left)| && rfill == |Es(t, right)|
      modifies this
      ensures Rep()
      ensures RemoveDone(t0, t, level, Below(t0, level, jc, i), singles, i + 1 < |Blk(t0, level, jc)|)
      ensures old(NoZero(t)) ==> NoZero(t)
      decreases height - level, 0
    {
      hide NoZero;
      hide Mergeable, HoldsAll, Taken, RemoveReady, RemoveDone, Merged, DropNode, Upper, Key, SameBelow, LevelOk, Slots;
      hide OnLevel, NoDup, ValsAre, NoStrays, HealthyAbove, HealthyLevel, BlocksOk, RemovedSlots, Singles, RootOk, Below;
      ghost var ta := t;
      TakenFacts(t0, t, level, jc, i, key, singles);
      MergedPlaces(t, level, j, q, lpos);
      MergeReady(t0, t, level, jc, i, key, singles, j, q, lpos);
      MergeInto(left, lfill, right, rfill, parent, lpos, level, j, q);
      ghost var tm := t;
      MergedSlot(ta, level, j, q, lpos);
      KeyHeld(InNode(parent, lpos));
      var gone := RemoveLevel(InNode(parent, lpos), level + 1, q, lpos, Singles(t0, level) - {left, right});
      MergeDone(t0, ta, t, level, jc, i, key, singles, j, q, lpos);
      FreeNode(right, level, j + 1);
    }

    /** rebalance() looks up the parent of the thin node and the pair that points at it. */
    method FindParent(kp: KeyPtr, level: nat, child: nat,
                      ghost t0: Tree, ghost j: nat, ghost i: nat, ghost key: nat, ghost singles: set<nat>)
        returns (parent: nat, ghost q: nat, pi: nat)
      requires Rep() && Taken(t0, t, level, j, i, key, singles) && child == Ptr(t, level, j)
      requires if kp.InNode? then kp.p == child && kp.i == i < |Blk(t, level, j)| else kp.k == key
      modifies this`mem, this`t
      ensures Rep() && t == old(t) && mem.Keys == old(mem).Keys
      ensures parent in mem && Parent(t, level, j, q, pi) && parent == Ptr(t, level + 1, q)
      ensures t.cells[parent].es == Blk(t, level + 1, q) && pi < |t.cells[parent].es| <= n
    {
      hide HoldsAll, RemoveReady, Upper, Key, SameBelow, LevelOk, Slots, Taken, HealthyLevel, HealthyBut, Below, BlocksOk, RemovedSlots;
      hide At, IsPos, DescentKeeps, Owned, NoDup, ValsAre, NoStrays, HealthyAbove, Owns, OnLevel, Parent, RootOk;
      TakenFacts(t0, t, level, j, i, key, singles);
      TakenBlocks(t0, t, level, j, i, key, singles, j);
      RootNonempty(t);
      KeyHeld(kp);
      KeyStillOwned(t0, t, level, j, i, key, singles, Key(kp));
      parent, q := FindLevel(kp, level + 1);
      pi := GetPos(parent, Key(kp));
      ParentFound(t, level, j, Key(kp), q, parent, pi);
      ParentBounds(t, level, j, q, pi);
      ParentChild(t, level, j, q, pi, pi);
      var v := Bval(parent, pi);
      assert v == child;  // BUG_ON
    }

    /** A child of the parent, next to node `j`, and its fill. */
    method Sibling(parent: nat, k: nat, level: nat, ghost pi: nat, ghost q: nat,
                   ghost t0: Tree, ghost j: nat, ghost i: nat, ghost key: nat, ghost singles: set<nat>)
        returns (p: nat, fill: nat)
      requires Rep() && Taken(t0, t, level, j, i, key, singles) && Parent(t, level, j, q, pi)
      requires parent in mem && t.cells[parent].es == Blk(t, level + 1, q) && k < |t.cells[parent].es| <= n
      ensures 0 <= j + k - pi && p == Ptr(t, level, j + k - pi) && fill == |Blk(t, level, j + k - pi)| == |Es(t, p)|
    {
      hide HoldsAll, RemoveReady, Upper, LevelOk, Slots, Taken, Parent, HealthyLevel, HealthyBut, Below, BlocksOk;
      TakenBounds(t0, t, level, j, i, key, singles);
      ParentBounds(t, level, j, q, pi);
      ParentChild(t, level, j, q, pi, k);
      TakenBlocks(t0, t, level, j, i, key, singles, j + k - pi);
      p := Bval(parent, k);
      fill := GetFill(p, 0);
    }

    /** rebalance() of a node that still holds pairs. */
    method RebalanceThin(kp: KeyPtr, level: nat, child: nat, fill: nat,
                         ghost t0: Tree, ghost j: nat, ghost i: nat, ghost key: nat, ghost singles: set<nat>)
      requires Rep() && Taken(t0, t, level, j, i, key, singles) && child == Ptr(t, level, j)
      requires fill == |Blk(t, level, j)| < n / 2
      requires if kp.InNode? then kp.p == child && kp.i == i < fill else kp.k == key
      modifies this
      ensures Rep()
      ensures RemoveDone(t0, t, level, Below(t0, level, j, i), singles, i + 1 < |Blk(t0, level, j)|)
      ensures old(NoZero(t)) ==> NoZero(t)
      decreases height - level, 1
    {
      hide NoZero;
      hide HoldsAll, RemoveReady, RemoveDone, Upper, Key, SameBelow, LevelOk, Slots, Taken, Mergeable, Parent, HealthyLevel, HealthyBut, Below, BlocksOk, RemovedSlots;
      hide NoDup, ValsAre, NoStrays, HealthyAbove, OnLevel, RootOk, NoRoom, GoodFanout, KeyPtrOk;
      TakenBounds(t0, t, level, j, i, key, singles);
      TakenBlocks(t0, t, level, j, i, key, singles, j);
      var parent, pi;
      ghost var q;
      parent, q, pi := FindParent(kp, level, child, t0, j, i, key, singles);
      ParentBounds(t, level, j, q, pi);
      if pi > 0 {
        var left, noLeft := Sibling(parent, pi - 1, level, pi, q, t0, j, i, key, singles);
        if fill + noLeft <= n {
          ParentShift(t, level, j, q, pi);
          MergeSetup(t0, t, level, j, i, key, singles, j - 1, q, pi - 1);
          Merge(level, left, noLeft, child, fill, parent, pi - 1, t0, j, i, key, singles, j - 1, q);
          return;
        }
      }
      var pfill := GetFill(parent, pi);
      if pi + 1 < pfill {
        var right, noRight := Sibling(parent, pi + 1, level, pi, q, t0, j, i, key, singles);
        if fill + noRight <= n {
          MergeSetup(t0, t, level, j, i, key, singles, j, q, pi);
          Merge(level, child, fill, right, noRight, parent, pi, t0, j, i, key, singles, j, q);
          return;
        }
      }
      NoRoomIs(t, level, j, q, pi, fill);
      ThinDone(t0, t, level, j, i, key, singles, q, pi);
    }

    method Rebalance(kp: KeyPtr, level: nat, child: nat, fill: nat,
                     ghost t0: Tree, ghost j: nat, ghost i: nat, ghost key: nat, ghost singles: set<nat>)
      requires Rep() && RemoveReady(t0, level, j, i, key, singles) && level < height == |t0.levels|
      requires child == Ptr(t0, level, j) && i < |Blk(t0, level, j)| && t == SetEs(t0, child, RemoveAt(Blk(t0, level, j), i))
      requires fill + 1 == |Blk(t0, level, j)| && fill < n / 2
      requires if kp.InNode? then kp.p == child && kp.i == i < fill else kp.k == key
      modifies this
      ensures Rep()
      ensures RemoveDone(t0, t, level, Below(t0, level, j, i), singles, i + 1 < |Blk(t0, level, j)|)
      ensures old(NoZero(t)) && (kp.Local? ==> kp.k > 0) ==> NoZero(t)
      decreases height - level, 2
    {
      hide NoZero;
      hide HoldsAll, RemoveDone, Upper, Key, SameBelow, Slots, HealthyLevel, HealthyBut, Below, BlocksOk, RemovedSlots, DropNode, Singles;
      if fill == 0 {
        ghost var q, qi := ReadyParent(t0, level, j, i, key, singles);
        assert RemoveAt(Blocks(t0, level)[j], i) == [];
        EmptyReady(t0, level, j, child, key, singles, q, qi);
        KeyHeld(kp);
        var gone := RemoveLevel(kp, level + 1, q, qi, Singles(t0, level) - {child});
        EmptyDone(t0, t, level, j, child, key, singles);
        FreeNode(child, level, j);
      } else {
        TakenFacts(t0, t, level, j, i, key, singles);
        RebalanceThin(kp, level, child, fill, t0, j, i, key, singles);
      }
    }

    /** btree_remove_level() after the pair has been taken away. */
    method Settle(kp: KeyPtr, level: nat, p: nat, fill: nat,
                  ghost t0: Tree, ghost j: nat, ghost i: nat, ghost key: nat, ghost singles: set<nat>)
      requires Rep() && RemoveReady(t0, level, j, i, key, singles) && height == |t0.levels| && p == Ptr(t0, level, j)
      requires i <= fill == |Blk(t0, level, j)| - 1 && t == SetEs(t0, p, RemoveAt(Blk(t0, level, j), i))
      requires if kp.InNode? then kp.p == p && kp.i == i < fill else kp.k == key
      modifies this
      ensures Rep()
      ensures RemoveDone(t0, t, level, Below(t0, level, j, i), singles, kp.InNode?)
      ensures old(NoZero(t)) && (kp.Local? ==> kp.k > 0) ==> NoZero(t)
      decreases height - level, 3
    {
      hide NoZero;
      hide HoldsAll, RemoveDone, Upper, Key, SameBelow, Slots, HealthyLevel, HealthyBut, Below, BlocksOk, RemovedSlots, Owns, Owned, At, DescentKeeps, RootOk;
      ReadyOwned(t0, level, j, i, key, singles);
      if fill < n / 2 {
        if level < height {
          Rebalance(kp, level, p, fill, t0, j, i, key, singles);
        } else if fill == 1 && height > 1 {
          RemoveShrinks(t0, level, j, p, i, key, singles);
          Shrink();
        } else {
          RemovePlain(t0, level, j, p, i, key, singles);
        }
      } else {
        RemovePlain(t0, level, j, p, i, key, singles);
      }
      RemoveDoneWeaken(t0, t, level, Below(t0, level, j, i), singles, i + 1 < |Blk(t0, level, j)|, kp.InNode?);
    }

    method RemoveLevel(kp: KeyPtr, level: nat, ghost j: nat, ghost i: nat, ghost singles: set<nat>) returns (ret: nat)
      requires Rep() && KeyPtrOk(kp) && RemoveReady(t, level, j, i, Key(kp), singles)
      requires kp.InNode? ==> kp.p == t.levels[level - 1][j] && kp.i == i && i + 1 < |Blocks(t, level)[j]|
      modifies this
      ensures Rep()
      ensures RemoveDone(old(t), t, level, old(Below(t, level, j, i)), singles, kp.InNode?)
      ensures ret == old(Blocks(t, level)[j][i].val)
      ensures old(NoZero(t)) && (kp.Local? ==> kp.k > 0) ==> NoZero(t)
      decreases height - level, 4
    {
      hide NoZero;
      hide HoldsAll, RemoveDone, Upper, Key, SameBelow, Slots, HealthyLevel, HealthyBut, Below, BlocksOk, RemovedSlots, Owns, Owned, At, DescentKeeps, RootOk;
      ghost var t0, key := t, Key(kp);
      ReadyOwned(t, level, j, i, key, singles);
      var p;
      ghost var jj;
      p, jj := FindLevel(kp, level);
      var pos := GetPos(p, Key(kp));
      RemoveFinds(t, level, j, i, key, singles, jj, p, pos);
      var fill := GetFill(p, pos);
      assert level == 1 ==> t.cells[p].es[pos].key == key;  // otherwise NULL would be returned here
      KeyHeld(kp);
      ret := Bval(p, pos);
      TakePair(p, pos, fill);
      Settle(kp, level, p, fill - 1, t0, j, i, key, singles);
    }

    // --- the public operations ---

    /** btree_insert(): fails exactly when one of the allocations it needs does, `avail` being those that succeed before. */
    method Insert(key: nat, val: nat, avail: nat) returns (err: bool)
      requires Valid() && key < lim && val != 0 && key !in Map()
      modifies this
      ensures Valid()
      ensures err <==> Short(old(t), 1, key, avail)
      ensures Map() == if err then old(Map()) else old(Map())[key := val]
      ensures old(NoZero(t)) && key > 0 ==> NoZero(t)
    {
      hide NoZero;
      hide HoldsAll, Upper, Slots, RootOk, Contents, InsertReady, InsertDone, DescentKeeps, Short;
      InsertTop(t, key, val);
      err := InsertLevel(Local(key), val, 1, avail, {});
      if err {
        InsertTopFailed(old(t), t);
      } else {
        InsertTopDone(old(t), t, key, val);
      }
    }

    /** Whether pair `pos` of a leaf has the key, as btree_remove_level() compares them. */
    method SameKey(p: nat, pos: nat, key: nat, beyond: nat) returns (same: bool)
      requires Rep() && p in mem && IsPos(t.cells[p].es, key, pos)
      ensures pos <= n && (pos < |t.cells[p].es| ==> (same <==> t.cells[p].es[pos].key == key))
      ensures pos == |t.cells[p].es| ==> (same <==> Confused(n, t.cells[p].es, key, beyond))
    {
      assert Holds(mem[p], n, t.cells[p].es);
      same := if pos < n then mem[p].keys[pos] == key else beyond == key;
    }

    /** btree_remove(), with level 1 of btree_remove_level().  Behind the keys of a full leaf lie its values:
        `beyond` is what their first words read as a key, `next` the word behind them.  `stray` is set where the pair
        in front of an empty leaf would be cleared.  */
    method Remove(key: nat, beyond: nat, next: nat) returns (val: nat, stray: bool)
      requires Valid() && key < lim
      modifies this
      ensures Valid()
      ensures key in old(Map()) ==> !stray && val == old(Map())[key] && Map() == old(Map()) - {key}
      ensures key !in old(Map()) && !old(Mistaken(t, key, beyond)) ==> !stray && val == 0 && Map() == old(Map())
      ensures key !in old(Map()) && old(Mistaken(t, key, beyond)) ==>
        if old(Map()) == map[] then stray && Map() == map[]
        else !stray && exists k :: NextKey(old(Map()), key, k) && Map() == old(Map()) - {k}
      ensures key !in old(Map()) && old(Mistaken(t, key, beyond)) ==> val == if old(LeafFull(t, key)) then next else 0
      ensures old(NoZero(t)) && key > 0 ==> NoZero(t)
    {
      hide NoZero;
      hide HoldsAll, Upper, Slots, RootOk, Contents, RemoveDone, RemoveReady, At, Below, Mistaken, Confused, TreeOk, DescentKeeps, Owned, LeafFull;
      if height == 0 {
        NoLeaf(t, key, beyond);
        return 0, false;
      }
      ghost var t0 := t;
      FindReady(t);
      var p;
      ghost var j;
      p, j := FindLevel(Local(key), 1);
      FoundLeaf(t0, t, j, p, key, beyond);
      var pos := GetPos(p, key);
      var fill := GetFill(p, pos);
      var same := SameKey(p, pos, key, beyond);
      if !same {
        AbsentLeaf(t, j, p, key, pos, beyond);
        return 0, false;
      }
      if pos < fill {
        val := RemoveFound(key, p, pos, fill, j);
        return val, false;
      }
      val := if pos < n then 0 else next;
      AbsentLeaf(t, j, p, key, pos, beyond);
      if fill == 0 {
        EmptyLeaf(t, j, p, key);
        return val, true;
      }
      NextPair(t, j, p, key);
      RemoveLast(key, p, fill, j);
      stray := false;
    }

    /** The key is pair `pos` of the leaf. */
    method RemoveFound(key: nat, p: nat, pos: nat, fill: nat, ghost j: nat) returns (val: nat)
      requires Valid() && key < lim && At(t, 1, j, p, key) && p in mem && pos < fill == |t.cells[p].es| <= n && t.cells[p].es[pos].key == key
      modifies this
      ensures Valid() && key in old(Map()) && val == old(Map())[key] && Map() == old(Map()) - {key}
      ensures old(NoZero(t)) && key > 0 ==> NoZero(t)
    {
      hide NoZero;
      hide HoldsAll, Upper, Slots, RootOk, Contents, RemoveDone, RemoveReady, Below, LevelOk;
      FoundPair(t, j, p, key, pos);
      ghost var t1 := t;
      val := Bval(p, pos);
      TakePair(p, pos, fill);
      Settle(Local(key), 1, p, fill - 1, t1, j, pos, key, {});
      RemoveTopDone(t1, t, Below(t1, 1, j, pos));
    }

    /** The key is taken to be the pair behind the last one of the leaf: that last one is cleared. */
    method RemoveLast(key: nat, p: nat, fill: nat, ghost j: nat)
      requires Valid() && key < lim && At(t, 1, j, p, key) && p in mem && 0 < fill == |t.cells[p].es| && IsPos(t.cells[p].es, key, fill)
      modifies this
      ensures Valid() && Map() == old(Map()) - {old(t).cells[p].es[fill - 1].key}
      ensures old(NoZero(t)) && key > 0 ==> NoZero(t)
    {
      hide NoZero;
      hide HoldsAll, Upper, Slots, RootOk, Contents, RemoveDone, RemoveReady, Below, LevelOk;
      RenamedReady(t, j, p, key);
      RenamedTaken(t, j, p, key);
      ghost var t1 := Renamed(t, p, key);
      TakePair(p, fill - 1, fill);
      Settle(Local(key), 1, p, fill - 1, t1, j, fill - 1, key, {});
      RenamedDone(old(t), t, j, p, key);
    }

    /** The walk that btree_lookup() and btree_update() share: down to the leaf that owns
        the key, or 0 when some level has no pair for it. */
    method Walk(key: nat) returns (p: nat, ghost j: nat)
      requires Valid() && height > 0 && key < lim
      ensures p != 0 ==> p in mem && At(t, 1, j, p, key)
      ensures p == 0 ==> key !in Map() && !Owned(Slots(t, 2), key)
    {
      hide HoldsAll, Upper, Slots, Contents, LevelOk, Owned, Owns;
      var h := height;
      p, j := node, 0;
      AtTop(t, 1, key);
      while h > 1
        invariant 1 <= h <= height && p in mem && At(t, h, j, p, key)
      {
        var i := GetPos(p, key);
        var child := 0;
        if i < n {
          child := Bval(p, i);
        }
        if child == 0 {
          DescentMiss(t, h, j, p, key);
          return 0, 0;
        }
        DescendFound(t, 1, h, j, p, i, key);
        j := Below(t, h, j, i);
        p := child;
        h := h - 1;
      }
    }

    /** Scans all slots of a node, unused ones included, for an equal key. */
    method FindEqual(p: nat, key: nat) returns (i: nat)
      requires Rep() && p in mem
      ensures i <= n && |t.cells[p].es| <= n
      ensures i < |t.cells[p].es| ==> t.cells[p].es[i].key == key
      ensures i >= |t.cells[p].es| ==> !HasKey(t.cells[p].es, key)
      ensures |t.cells[p].es| <= i < n ==> key == 0 && i == |t.cells[p].es|
      ensures i == n ==> key != 0 || |t.cells[p].es| == n
    {
      ghost var es := t.cells[p].es;
      assert Holds(mem[p], n, es);
      i := 0;
      while i < n
        invariant 0 <= i <= n
        invariant forall k :: 0 <= k < i && k < |es| ==> es[k].key != key
        invariant i > |es| ==> key != 0
      {
        if mem[p].keys[i] == key {
          return;
        }
        i := i + 1;
      }
    }

    method Lookup(key: nat) returns (val: nat)
      requires Valid() && key < lim
      ensures val == if key in Map() then Map()[key] else 0
      ensures val != 0 <==> key in Map()
    {
      hide HoldsAll, Upper, Slots, RootOk;
      if height == 0 {
        return 0;
      }
      var p;
      ghost var j;
      p, j := Walk(key);
      if p == 0 {
        return 0;
      }
      var i := FindEqual(p, key);
      if i == n {
        LeafMiss(t, j, p, key);
        return 0;
      }
      val := Bval(p, i);
      if i < |t.cells[p].es| {
        LeafLookup(t, j, p, key, i);
      } else {
        LeafMiss(t, j, p, key);
      }
    }

    /** Returns false for -ENOENT.  Key 0 is special: unused slots hold key 0, so an absent
        key 0 is found in the first of them and the pair is added. */
    method Update(key: nat, val: nat) returns (ok: bool)
      requires Valid() && key < lim && val != 0
      modifies this`mem, this`t
      ensures Valid()
      ensures ok <==> key in old(Map()) || (key == 0 && old(ZeroHole(t)))
      ensures Map() == if ok then old(Map())[key := val] else old(Map())
      ensures old(NoZero(t)) && key > 0 ==> NoZero(t)
    {
      hide NoZero;
      hide HoldsAll, Upper, Slots, RootOk, Contents, LevelOk, At;
      if height == 0 {
        EmptyTree(t, key);
        return false;
      }
      var p;
      ghost var j;
      p, j := Walk(key);
      if p == 0 {
        if key == 0 {
          ZeroHoleNone(t);
        }
        return false;
      }
      var i := FindEqual(p, key);
      ghost var es := t.cells[p].es;
      if key == 0 {
        ZeroHoleIs(t, j, p);
      }
      if i == n {
        LeafMiss(t, j, p, key);
        return false;
      }
      if i < |es| {
        if NoZero(t) {
          NoZeroStored(t, p, i, val);
        }
        LeafLookup(t, j, p, key, i);
        UpdateTop(t, j, p, key, i, val);
      } else {
        LeafMiss(t, j, p, key);
        UpdateZero(t, j, p, val);
      }
      StoreVal(p, i, key, val);
      ok := true;
    }

    method StoreVal(p: nat, i: nat, ghost key: nat, val: nat)
      requires Rep() && p in mem && i < n && val != 0 && i <= |t.cells[p].es|
      requires if i < |t.cells[p].es| then t.cells[p].es[i].key == key else key == 0
      modifies this`mem, this`t
      ensures Rep()
      ensures t == old(if i < |t.cells[p].es| then SetEs(t, p, SetValAt(t.cells[p].es, i, val))
                       else SetEs(t, p, t.cells[p].es + [Pair(0, val)]))
    {
      ghost var es := t.cells[p].es;
      assert Holds(mem[p], n, es);
      var nd := SetVal(mem[p], i, val);
      StoredHolds(mem[p], n, es, i, val);
      hide Holds;
      t := if i < |es| then SetEs(t, p, SetValAt(es, i, val)) else SetEs(t, p, es + [Pair(0, val)]);
      HoldsAllSet(mem, mem[p := nd], n, old(t).cells, p, t.cells[p]);
      mem := mem[p := nd];
    }

    /** btree_last(): the leftmost pair of the leftmost leaf. */
    method Last() returns (val: nat, key: nat)
      requires Valid()
      ensures val == 0 <==> Map() == map[]
      ensures val != 0 ==> key in Map() && Map()[key] == val && forall k :: k in Map() ==> k <= key
    {
      hide HoldsAll, Upper, Slots, RootOk, Contents, LevelOk;
      if height == 0 {
        EmptyMap(t);
        return 0, 0;
      }
      var h := height;
      var p: nat := node;
      ghost var j: nat := 0;
      AtTop(t, 1, lim - 1);
      while h > 1
        invariant 1 <= h <= height && p in mem && At(t, h, j, p, lim - 1)
      {
        AtFirst(t, h, j, p);
        DescendFound(t, 1, h, j, p, 0, lim - 1);
        j := Below(t, h, j, 0);
        p := Bval(p, 0);
        h := h - 1;
      }
      val := Bval(p, 0);
      LastIs(t, j, p);
      if val != 0 {
        key := Bkey(p, 0);
      } else {
        key := 0;
      }
    }

    /** One pass of btree_get_prev(): the largest stored pair up to `key`, or the separator to retry from. */
    method PrevTry(key: nat) returns (val: nat, k: nat, retry: MaybeKey)
      requires Valid() && height > 0 && key < lim
      ensures val != 0 ==> k in Map() && Map()[k] == val && k <= key && NoneStored(t, k + 1, key)
      ensures val == 0 && retry.AKey? ==> retry.k <= key && NoneStored(t, retry.k, key) && height >= 2
      ensures val == 0 && retry.AKey? && retry.k == 0 ==> ZeroRoot(t)
      ensures val == 0 && retry.NoKey? ==> !ZeroRoot(t) && NoneStored(t, 0, key)
      ensures height >= 2 && key + 1 == lim ==> val != 0
    {
      hide HoldsAll, Upper, RootOk, Contents, LevelOk, NoneStored, Slots, ZeroRoot, Owns;
      val, k, retry := 0, 0, NoKey;
      var h := height;
      var p: nat := node;
      ghost var j: nat := 0;
      AtTop(t, 1, key);
      while h > 1
        invariant 1 <= h <= height && p in mem && At(t, h, j, p, key) && val == 0
        invariant if h == height then retry == NoKey else retry == AKey(Slots(t, h + 1)[j].lo)
      {
        var i := GetPos(p, key);
        var child := 0;
        if i < n {
          child := Bval(p, i);
        }
        if child == 0 {
          MissAll(t, h, j, p, key);
          TopKeyHits(t, h, j, p, key);
          return;
        }
        var sep := Bkey(p, i);
        retry := AKey(sep);
        DescendFound(t, 1, h, j, p, i, key);
        DescendLo(t, h, j, p, i, key);
        j := Below(t, h, j, i);
        p := child;
        h := h - 1;
      }
      var i := GetPos(p, key);
      if i < n {
        val := Bval(p, i);
      }
      if val != 0 {
        FoundAll(t, j, p, i, key);
        k := Bkey(p, i);
      } else {
        MissAll(t, h, j, p, key);
        if height >= 2 {
          TopKeyHits(t, h, j, p, key);
        }
      }
    }

    /** btree_get_prev(): the pair with the greatest key below `key`.  When there is none and the root
        has a separator 0, decrementing that separator wraps around and the greatest pair of all is returned. */
    method GetPrev(key: nat) returns (val: nat, k: nat)
      requires Valid() && key < lim
      ensures key == 0 ==> val == 0
      ensures key > 0 && SmallerStored(t, key) ==>
        val != 0 && k < key && k in Map() && Map()[k] == val && forall x :: x in Map() && x < key ==> x <= k
      ensures key > 0 && !SmallerStored(t, key) ==>
        if ZeroRoot(t) then val != 0 && k in Map() && Map()[k] == val && forall x :: x in Map() ==> x <= k
        else val == 0
      ensures NoZero(t) ==> !ZeroRoot(t)
    {
      if NoZero(t) {
        NoZeroRoot(t);
      }
      hide HoldsAll, Upper, RootOk, Contents, NoneStored, Stored, ZeroRoot, SmallerStored;
      val, k := 0, key;
      if key == 0 {
        return;
      }
      if height == 0 {
        PrevEmpty(t, key);
        return;
      }
      var cur := key;
      while true
        invariant 0 <= cur <= key && (cur < key ==> NoneStored(t, cur, key - 1))
        invariant cur == 0 ==> ZeroRoot(t) && height >= 2
        decreases cur
      {
        var probe := if cur == 0 then lim - 1 else cur - 1;  // dec_key()
        var retry;
        val, k, retry := PrevTry(probe);
        if val != 0 {
          if cur == 0 {
            PrevNone(t, key, 0);
            PrevWrapped(t, k);
          } else {
            PrevFound(t, key, cur, k);
          }
          return;
        }
        if retry.NoKey? {
          PrevNone(t, key, cur);
          return;
        }
        JoinNone(t, retry.k, cur, key);
        cur := retry.k;
      }
    }
  }
}
