/** Every run on sizes is the run of some list of keys. */
module BTreeRealize {
  import opened Lists
  import Bits
  import opened BTreeSizes
  import opened BTreeKeyed

  function LeafAt(t: Keyed, path: seq<nat>): (keys: seq<nat>)
    requires Leads(Sizes(t), path)
  {
    match t
    case KLeaf(keys) => keys
    case KNode(_, kids) => assert Sizes(t).kids[path[0]] == Sizes(kids[path[0]]); LeafAt(kids[path[0]], path[1..])
  }

  lemma {:induction false} LeafAtCount(t: Keyed, path: seq<nat>)
    requires Leads(Sizes(t), path)
    ensures |LeafAt(t, path)| == LeafKeys(Sizes(t), path)
    decreases t
  {
    if t.KNode? {
      assert Sizes(t).kids[path[0]] == Sizes(t.kids[path[0]]);
      LeafAtCount(t.kids[path[0]], path[1..]);
    }
  }

  ghost function AllSizes(r: seq<Keyed>): (s: seq<Shape>)
    ensures |s| == |r| && forall i :: 0 <= i < |r| ==> s[i] == Sizes(r[i])
  {
    seq(|r|, i requires 0 <= i < |r| => Sizes(r[i]))
  }

  lemma SizesNode(seps: seq<nat>, kids: seq<Keyed>)
    ensures Sizes(KNode(seps, kids)) == Node(AllSizes(kids))
  {
  }

  /** What an insertion into a subtree with the interval from `lo` to `hi` returns. */
  ghost predicate Parts(r: seq<Keyed>, lo: nat, hi: nat, m: set<nat>) {
    && Pieces(r) && (forall j :: 0 <= j < |r| ==> Marked(r[j], m))
    && (|r| == 1 ==> Ordered(r[0], lo, hi))
    && (|r| == 2 ==> lo < Low(r[0]) < hi && Low(r[0]) in m && Ordered(r[1], lo, Low(r[0])) && Ordered(r[0], Low(r[0]), hi))
  }

  // --- insertion ---

  lemma LeafPos(keys: seq<nat>, m: set<nat>, gap: nat, hi: nat, j: nat)
    requires Down(keys) && j < |keys| && gap >= 1 && Sparse(m, 2 * gap) && hi in m
    requires forall i :: 0 <= i < |keys| ==> keys[i] in m && keys[i] < hi
    ensures Pos(keys, keys[j] + gap) == j && keys[j] + gap < hi && keys[j] + gap !in m
    ensures j > 0 ==> keys[j] + gap < keys[j - 1]
  {
    hide Pos;
    var key := keys[j] + gap;
    var i := Pos(keys, key);
    forall p | 0 <= p < j
      ensures key < keys[p]
    {
      assert keys[j] < keys[p];
    }
    assert i >= j;
  }

  lemma DownPut(keys: seq<nat>, j: nat, key: nat)
    requires Down(keys) && j <= |keys| && (j > 0 ==> key < keys[j - 1]) && (j < |keys| ==> keys[j] < key)
    ensures Down(InsertAt(keys, j, key))
  {
    var ks := InsertAt(keys, j, key);
    forall a, b | 0 <= a < b < |ks|
      ensures ks[b] < ks[a]
    {
      assert ks[a] == if a < j then keys[a] else if a == j then key else keys[a - 1];
      assert ks[b] == if b < j then keys[b] else if b == j then key else keys[b - 1];
      assert j > 0 && a < j ==> keys[j - 1] <= keys[a];
      assert j < |keys| && b > j ==> keys[b - 1] <= keys[j];
    }
  }

  /** A falling list of keys from `lo` up to `hi`. */
  ghost predicate Keys(ks: seq<nat>, lo: nat, hi: nat, m: set<nat>) {
    Down(ks) && forall i :: 0 <= i < |ks| ==> lo <= ks[i] < hi && ks[i] in m
  }

  lemma KeysLeaf(ks: seq<nat>, lo: nat, hi: nat, m: set<nat>)
    ensures Keys(ks, lo, hi, m) <==> Ordered(KLeaf(ks), lo, hi) && Marked(KLeaf(ks), m)
  {
  }

  lemma KeysPut(keys: seq<nat>, lo: nat, hi: nat, m: set<nat>, j: nat, key: nat)
    requires Keys(keys, lo, hi, m) && j <= |keys| && lo <= key < hi
    requires (j > 0 ==> key < keys[j - 1]) && (j < |keys| ==> keys[j] < key)
    ensures Keys(InsertAt(keys, j, key), lo, hi, m + {key})
  {
    DownPut(keys, j, key);
    hide Down;
    var ks := InsertAt(keys, j, key);
    forall i | 0 <= i < |ks|
      ensures lo <= ks[i] < hi && ks[i] in m + {key}
    {
      assert ks[i] == if i < j then keys[i] else if i == j then key else keys[i - 1];
    }
  }

  /** Cut in two, the last key of the first part separates them. */
  lemma KeysCut(ks: seq<nat>, lo: nat, hi: nat, m: set<nat>, h: nat)
    requires Keys(ks, lo, hi, m) && 0 < h < |ks|
    ensures lo < ks[h - 1] < hi && ks[h - 1] in m
    ensures Keys(ks[..h], ks[h - 1], hi, m) && Keys(ks[h..], lo, ks[h - 1], m)
  {
    assert ks[h] < ks[h - 1];
    var a, b := ks[..h], ks[h..];
    forall i | 0 <= i < |a|
      ensures ks[h - 1] <= a[i] < hi && a[i] in m
    {
      assert a[i] == ks[i];
    }
    forall i | 0 <= i < |b|
      ensures lo <= b[i] < ks[h - 1] && b[i] in m
    {
      assert b[i] == ks[h + i];
    }
  }

  lemma AddLeaf(n: nat, keys: seq<nat>, lo: nat, hi: nat, m: set<nat>, gap: nat, j: nat)
    requires n >= 4 && |keys| <= n && Keys(keys, lo, hi, m)
    requires gap >= 1 && Sparse(m, 2 * gap) && hi in m && j < |keys|
    ensures
      var key := keys[j] + gap;
      && lo <= key < hi && key !in m
      && Parts(KAdd(n, KLeaf(keys), key), lo, hi, m + {key})
      && AllSizes(KAdd(n, KLeaf(keys), key)) == Added(n, Leaf(|keys|), [], j >= n / 2)
  {
    hide Parts, AllSizes, Pos, KAdd, Added;
    var key := keys[j] + gap;
    LeafPos(keys, m, gap, hi, j);
    KeysPut(keys, lo, hi, m, j, key);
    hide Keys, Sparse;
    AddPut(n, keys, lo, hi, m + {key}, key, j);
  }

  lemma AddPut(n: nat, keys: seq<nat>, lo: nat, hi: nat, m: set<nat>, key: nat, j: nat)
    requires n >= 4 && j < |keys| <= n && Pos(keys, key) == j && Keys(InsertAt(keys, j, key), lo, hi, m)
    ensures Parts(KAdd(n, KLeaf(keys), key), lo, hi, m)
    ensures AllSizes(KAdd(n, KLeaf(keys), key)) == Added(n, Leaf(|keys|), [], j >= n / 2)
  {
    hide Keys, Parts, Pos;
    var ks, h := InsertAt(keys, j, key), n / 2;
    if |keys| < n {
      OneLeaf(ks, lo, hi, m);
    } else if j < h {
      TwoLeaves(ks, lo, hi, m, h + 1);
      assert ks[h + 1..] == keys[h..];
    } else {
      TwoLeaves(ks, lo, hi, m, h);
      assert ks[..h] == keys[..h];
    }
  }

  lemma OneLeaf(ks: seq<nat>, lo: nat, hi: nat, m: set<nat>)
    requires Keys(ks, lo, hi, m) && |ks| > 0
    ensures Parts([KLeaf(ks)], lo, hi, m)
  {
  }

  lemma TwoLeaves(ks: seq<nat>, lo: nat, hi: nat, m: set<nat>, h: nat)
    requires Keys(ks, lo, hi, m) && 0 < h < |ks|
    ensures Parts([KLeaf(ks[..h]), KLeaf(ks[h..])], lo, hi, m)
  {
    KeysCut(ks, lo, hi, m, h);
    KeysLeaf(ks[..h], ks[h - 1], hi, m);
    KeysLeaf(ks[h..], lo, ks[h - 1], m);
    hide Keys, Ordered, Marked;
  }

  // --- an inner node ---

  ghost predicate Fits(c: Keyed, lo: nat, hi: nat, m: set<nat>) {
    Ordered(c, lo, hi) && Marked(c, m) && Formed(c)
  }

  ghost predicate Inner(seps: seq<nat>, kids: seq<Keyed>, lo: nat, hi: nat, m: set<nat>) {
    && |seps| == |kids| && Keys(seps, lo, hi, m)
    && forall i :: 0 <= i < |kids| ==> Fits(kids[i], seps[i], Above(seps, hi, i), m)
  }

  lemma InnerIs(seps: seq<nat>, kids: seq<Keyed>, lo: nat, hi: nat, m: set<nat>)
    requires |seps| == |kids| > 0
    ensures Inner(seps, kids, lo, hi, m) <==> Fits(KNode(seps, kids), lo, hi, m)
  {
  }

  lemma PartsFit(r: seq<Keyed>, lo: nat, hi: nat, m: set<nat>)
    requires Parts(r, lo, hi, m) && |r| == 2
    ensures lo < Low(r[0]) < hi && Low(r[0]) in m && Fits(r[0], Low(r[0]), hi, m) && Fits(r[1], lo, Low(r[0]), m)
  {
  }

  lemma InnerPut(seps: seq<nat>, kids: seq<Keyed>, lo: nat, hi: nat, m: set<nat>, i: nat, r: seq<Keyed>, low: nat)
    requires Inner(seps, kids, lo, hi, m) && i < |kids| && |r| == 2 && low in m && seps[i] < low < Above(seps, hi, i)
    requires Fits(r[0], low, Above(seps, hi, i), m) && Fits(r[1], seps[i], low, m)
    ensures Inner(InsertAt(seps, i, low), Replaced(kids, i, r), lo, hi, m)
  {
    var ss, ks := InsertAt(seps, i, low), Replaced(kids, i, r);
    KeysPut(seps, lo, hi, m, i, low);
    assert m + {low} == m;
    hide Fits, Keys;
    forall j | 0 <= j < |ks|
      ensures Fits(ks[j], ss[j], Above(ss, hi, j), m)
    {
      assert ss[j] == if j < i then seps[j] else if j == i then low else seps[j - 1];
      assert ks[j] == if j < i then kids[j] else if j < i + 2 then r[j - i] else kids[j - 1];
      assert j > 0 ==> ss[j - 1] == if j - 1 < i then seps[j - 1] else if j - 1 == i then low else seps[j - 2];
    }
  }

  lemma InnerLeft(seps: seq<nat>, kids: seq<Keyed>, lo: nat, hi: nat, m: set<nat>, h: nat)
    requires Inner(seps, kids, lo, hi, m) && 0 < h < |seps|
    ensures Inner(seps[..h], kids[..h], seps[h - 1], hi, m)
  {
    hide Fits, Keys;
    KeysCut(seps, lo, hi, m, h);
    var sa, ka := seps[..h], kids[..h];
    forall j | 0 <= j < |ka|
      ensures Fits(ka[j], sa[j], Above(sa, hi, j), m)
    {
      assert ka[j] == kids[j] && sa[j] == seps[j] && Above(sa, hi, j) == Above(seps, hi, j);
    }
  }

  lemma InnerRight(seps: seq<nat>, kids: seq<Keyed>, lo: nat, hi: nat, m: set<nat>, h: nat)
    requires Inner(seps, kids, lo, hi, m) && 0 < h < |seps|
    ensures Inner(seps[h..], kids[h..], lo, seps[h - 1], m)
  {
    hide Fits, Keys;
    KeysCut(seps, lo, hi, m, h);
    var sb, kb := seps[h..], kids[h..];
    forall j | 0 <= j < |kb|
      ensures Fits(kb[j], sb[j], Above(sb, seps[h - 1], j), m)
    {
      assert kb[j] == kids[h + j] && sb[j] == seps[h + j] && Above(sb, seps[h - 1], j) == Above(seps, hi, h + j);
    }
  }

  lemma InnerKeys(seps: seq<nat>, kids: seq<Keyed>, lo: nat, hi: nat, m: set<nat>)
    requires Inner(seps, kids, lo, hi, m)
    ensures |seps| == |kids| && Keys(seps, lo, hi, m)
  {
  }

  lemma SizesReplaced(kids: seq<Keyed>, i: nat, r: seq<Keyed>)
    requires i < |kids|
    ensures AllSizes(Replaced(kids, i, r)) == Replaced(AllSizes(kids), i, AllSizes(r))
  {
    hide Sizes;
  }

  lemma SizesCut(kids: seq<Keyed>, h: nat)
    requires h <= |kids|
    ensures AllSizes(kids[..h]) == AllSizes(kids)[..h] && AllSizes(kids[h..]) == AllSizes(kids)[h..]
  {
    hide Sizes;
  }

  lemma OnePart(ss: seq<nat>, ks: seq<Keyed>, lo: nat, hi: nat, m: set<nat>)
    requires Inner(ss, ks, lo, hi, m) && |ks| > 0
    ensures Parts([KNode(ss, ks)], lo, hi, m) && AllSizes([KNode(ss, ks)]) == [Node(AllSizes(ks))]
  {
    InnerIs(ss, ks, lo, hi, m);
    SizesNode(ss, ks);
    hide Ordered, Marked, Inner, Sizes;
  }

  lemma TwoSizes(a: Keyed, b: Keyed)
    ensures AllSizes([a, b]) == [Sizes(a), Sizes(b)]
  {
    hide Sizes;
  }

  lemma TwoFit(a: Keyed, b: Keyed, lo: nat, hi: nat, m: set<nat>, low: nat)
    requires Count(a) > 0 && Count(b) > 0 && Formed(a) && Low(a) == low && lo < low < hi && low in m
    requires Fits(a, low, hi, m) && Fits(b, lo, low, m)
    ensures Parts([a, b], lo, hi, m)
  {
    hide Ordered, Marked;
  }

  lemma FitsFormed(c: Keyed, lo: nat, hi: nat, m: set<nat>)
    requires Fits(c, lo, hi, m)
    ensures Formed(c)
  {
  }

  lemma TwoParts(ss: seq<nat>, ks: seq<Keyed>, lo: nat, hi: nat, m: set<nat>, h: nat)
    requires Inner(ss, ks, lo, hi, m) && 0 < h < |ks| == |ss|
    ensures Parts([KNode(ss[..h], ks[..h]), KNode(ss[h..], ks[h..])], lo, hi, m)
    ensures AllSizes([KNode(ss[..h], ks[..h]), KNode(ss[h..], ks[h..])]) == [Node(AllSizes(ks[..h])), Node(AllSizes(ks[h..]))]
  {
    hide Fits, Inner, Sizes, Keys, AllSizes, Parts, Formed;
    var a, b := KNode(ss[..h], ks[..h]), KNode(ss[h..], ks[h..]);
    TwoSizes(a, b);
    InnerLeft(ss, ks, lo, hi, m, h);
    InnerRight(ss, ks, lo, hi, m, h);
    InnerKeys(ss, ks, lo, hi, m);
    KeysCut(ss, lo, hi, m, h);
    InnerIs(ss[..h], ks[..h], ss[h - 1], hi, m);
    InnerIs(ss[h..], ks[h..], lo, ss[h - 1], m);
    SizesNode(ss[..h], ks[..h]);
    SizesNode(ss[h..], ks[h..]);
    FitsFormed(a, ss[h - 1], hi, m);
    assert ss[..h][h - 1] == ss[h - 1];
    TwoFit(a, b, lo, hi, m, ss[h - 1]);
  }

  /** What a node returns when a child of it was added to. */
  lemma AddNode(n: nat, seps: seq<nat>, kids: seq<Keyed>, lo: nat, hi: nat, m: set<nat>, i: nat, r: seq<Keyed>)
    requires n >= 4 && |kids| <= n && i < |kids| && Inner(seps, kids, lo, hi, m)
    requires Parts(r, seps[i], Above(seps, hi, i), m)
    ensures Parts(Took(n, seps, kids, i, r), lo, hi, m)
    ensures AllSizes(Took(n, seps, kids, i, r)) == Received(n, AllSizes(kids), i, AllSizes(r))
  {
    if |r| == 1 {
      hide Keys, Ordered, Marked, Sizes;
      var ks := kids[i := r[0]];
      assert Fits(r[0], seps[i], Above(seps, hi, i), m);
      OnePart(seps, ks, lo, hi, m);
      assert AllSizes(ks) == AllSizes(kids)[i := AllSizes(r)[0]];
    } else {
      PartsFit(r, seps[i], Above(seps, hi, i), m);
      AddSplit(n, seps, kids, lo, hi, m, i, r);
    }
  }

  lemma AddSplit(n: nat, seps: seq<nat>, kids: seq<Keyed>, lo: nat, hi: nat, m: set<nat>, i: nat, r: seq<Keyed>)
    requires n >= 4 && |seps| == |kids| <= n && i < |kids| && Inner(seps, kids, lo, hi, m) && |r| == 2 && Pieces(r)
    requires Low(r[0]) in m && seps[i] < Low(r[0]) < Above(seps, hi, i)
    requires Fits(r[0], Low(r[0]), Above(seps, hi, i), m) && Fits(r[1], seps[i], Low(r[0]), m)
    ensures Parts(Took(n, seps, kids, i, r), lo, hi, m)
    ensures AllSizes(Took(n, seps, kids, i, r)) == Received(n, AllSizes(kids), i, AllSizes(r))
  {
    hide Inner, Fits, Parts, Sizes, AllSizes, Formed;
    var h, ss, ks := n / 2, InsertAt(seps, i, Low(r[0])), Replaced(kids, i, r);
    InnerPut(seps, kids, lo, hi, m, i, r, Low(r[0]));
    SizesReplaced(kids, i, r);
    if |kids| < n {
      OnePart(ss, ks, lo, hi, m);
    } else if i < h {
      TwoParts(ss, ks, lo, hi, m, h + 1);
      SizesCut(ks, h + 1);
      SizesCut(kids, h);
      assert ss[h + 1..] == seps[h..] && ks[h + 1..] == kids[h..];
    } else {
      TwoParts(ss, ks, lo, hi, m, h);
      SizesCut(ks, h);
      SizesCut(kids, h);
      assert ss[..h] == seps[..h] && ks[..h] == kids[..h];
    }
  }

  lemma {:induction false} InnerMore(seps: seq<nat>, kids: seq<Keyed>, lo: nat, hi: nat, m: set<nat>, m': set<nat>)
    requires Inner(seps, kids, lo, hi, m) && m <= m'
    ensures Inner(seps, kids, lo, hi, m')
  {
    forall i | 0 <= i < |kids|
      ensures Fits(kids[i], seps[i], Above(seps, hi, i), m')
    {
      MoreMarks(kids[i], m, m');
    }
  }

  lemma SmallKid(n: nat, seps: seq<nat>, kids: seq<Keyed>, i: nat)
    requires Small(n, Sizes(KNode(seps, kids))) && i < |kids|
    ensures |kids| <= n && Small(n, Sizes(kids[i]))
  {
    assert Sizes(KNode(seps, kids)).kids[i] == Sizes(kids[i]);
  }

  /** A key next to one that the leaf at the end of the path holds is added to that leaf. */
  lemma {:induction false} RealizeAdd(n: nat, t: Keyed, lo: nat, hi: nat, m: set<nat>, gap: nat, path: seq<nat>, j: nat)
    requires n >= 4 && Fits(t, lo, hi, m) && Small(n, Sizes(t)) && Leads(Sizes(t), path)
    requires gap >= 1 && Sparse(m, 2 * gap) && hi in m && j < |LeafAt(t, path)|
    ensures
      var key := LeafAt(t, path)[j] + gap;
      && lo <= key < hi && key !in m
      && Parts(KAdd(n, t, key), lo, hi, m + {key})
      && AllSizes(KAdd(n, t, key)) == Added(n, Sizes(t), path, j >= n / 2)
    decreases t
  {
    hide Parts, AllSizes, Keys, Sparse, Inner, KAdd, Small, Fits;
    if t.KLeaf? {
      FitsLeaf(t.keys, lo, hi, m);
      SmallLeaf(n, t.keys);
      AddLeaf(n, t.keys, lo, hi, m, gap, j);
    } else {
      var seps, kids, i := t.seps, t.kids, path[0];
      assert Sizes(t).kids[i] == Sizes(kids[i]);
      FitsFormed(t, lo, hi, m);
      InnerIs(seps, kids, lo, hi, m);
      SmallKid(n, seps, kids, i);
      InnerKid(seps, kids, lo, hi, m, i);
      RealizeAdd(n, kids[i], seps[i], Above(seps, hi, i), m, gap, path[1..], j);
      AddUnder(n, seps, kids, lo, hi, m, i, LeafAt(kids[i], path[1..])[j] + gap);
      SizesNode(seps, kids);
    }
  }

  lemma SmallLeaf(n: nat, keys: seq<nat>)
    requires Small(n, Sizes(KLeaf(keys)))
    ensures |keys| <= n
  {
  }

  lemma FitsLeaf(keys: seq<nat>, lo: nat, hi: nat, m: set<nat>)
    requires Fits(KLeaf(keys), lo, hi, m)
    ensures Keys(keys, lo, hi, m)
  {
  }

  lemma InnerKid(seps: seq<nat>, kids: seq<Keyed>, lo: nat, hi: nat, m: set<nat>, i: nat)
    requires Inner(seps, kids, lo, hi, m) && i < |kids| && hi in m
    ensures |seps| == |kids| && lo <= seps[i] && Above(seps, hi, i) <= hi && Above(seps, hi, i) in m && Down(seps)
    ensures Fits(kids[i], seps[i], Above(seps, hi, i), m)
  {
    hide Fits;
  }

  lemma AddUnder(n: nat, seps: seq<nat>, kids: seq<Keyed>, lo: nat, hi: nat, m: set<nat>, i: nat, key: nat)
    requires n >= 4 && Formed(KNode(seps, kids)) && |kids| <= n && i < |kids| && Inner(seps, kids, lo, hi, m) && hi in m
    requires seps[i] <= key < Above(seps, hi, i) && Parts(KAdd(n, kids[i], key), seps[i], Above(seps, hi, i), m + {key})
    ensures lo <= key < hi && Parts(KAdd(n, KNode(seps, kids), key), lo, hi, m + {key})
    ensures AllSizes(KAdd(n, KNode(seps, kids), key)) == Received(n, AllSizes(kids), i, AllSizes(KAdd(n, kids[i], key)))
  {
    hide Parts, AllSizes, Inner, Fits, Down, Pos, Received;
    InnerKid(seps, kids, lo, hi, m, i);
    ChildIs(seps, hi, i, key);
    InnerMore(seps, kids, lo, hi, m, m + {key});
    AddNode(n, seps, kids, lo, hi, m + {key}, i, KAdd(n, kids[i], key));
  }

  // --- removal ---

  /** What a removal returns: as `Fits`, or without entries. */
  ghost predicate Loose(c: Keyed, lo: nat, hi: nat, m: set<nat>) {
    if Count(c) == 0 then c == KLeaf([]) || c == KNode([], []) else Fits(c, lo, hi, m)
  }

  lemma KeysJoin(a: seq<nat>, b: seq<nat>, lo: nat, mid: nat, hi: nat, m: set<nat>)
    requires Keys(a, mid, hi, m) && Keys(b, lo, mid, m) && lo <= mid <= hi
    ensures Keys(a + b, lo, hi, m)
  {
    var ks := a + b;
    forall i | 0 <= i < |ks|
      ensures lo <= ks[i] < hi && ks[i] in m
    {
      assert ks[i] == if i < |a| then a[i] else b[i - |a|];
    }
    forall i, j | 0 <= i < j < |ks|
      ensures ks[j] < ks[i]
    {
      assert ks[i] == if i < |a| then a[i] else b[i - |a|];
      assert ks[j] == if j < |a| then a[j] else b[j - |a|];
    }
  }

  lemma FitsWider(c: Keyed, lo: nat, hi: nat, lo': nat, hi': nat, m: set<nat>)
    requires Fits(c, lo, hi, m) && lo' <= lo && hi <= hi'
    ensures Fits(c, lo', hi', m)
  {
    Wider(c, lo, hi, lo', hi');
  }

  lemma InnerLow(seps: seq<nat>, kids: seq<Keyed>, lo: nat, hi: nat, m: set<nat>, i: nat)
    requires Inner(seps, kids, lo, hi, m) && i < |seps|
    ensures lo <= seps[i] < hi && Fits(kids[i], seps[i], Above(seps, hi, i), m)
  {
    hide Fits;
  }

  lemma InnerJoin(sa: seq<nat>, ka: seq<Keyed>, sb: seq<nat>, kb: seq<Keyed>, lo: nat, mid: nat, hi: nat, m: set<nat>)
    requires Inner(sa, ka, mid, hi, m) && Inner(sb, kb, lo, mid, m) && lo <= mid <= hi && |sa| > 0
    ensures Inner(sa + sb, ka + kb, lo, hi, m)
  {
    hide Fits, Keys;
    KeysJoin(sa, sb, lo, mid, hi, m);
    var ss, ks := sa + sb, ka + kb;
    forall j | 0 <= j < |ks|
      ensures Fits(ks[j], ss[j], Above(ss, hi, j), m)
    {
      hide Inner;
      if j < |sa| {
        InnerLow(sa, ka, mid, hi, m, j);
        assert ss[j] == sa[j] && ks[j] == ka[j] && Above(ss, hi, j) == Above(sa, hi, j);
      } else {
        var i := j - |sa|;
        InnerLow(sb, kb, lo, mid, m, i);
        InnerLow(sa, ka, mid, hi, m, |sa| - 1);
        assert ss[j] == sb[i] && ks[j] == kb[i];
        assert Above(ss, hi, j) == if i == 0 then sa[|sa| - 1] else sb[i - 1];
        FitsWider(ks[j], sb[i], Above(sb, mid, i), sb[i], Above(ss, hi, j), m);
      }
    }
  }

  lemma JoinFits(a: Keyed, b: Keyed, lo: nat, mid: nat, hi: nat, m: set<nat>)
    requires Fits(a, mid, hi, m) && Fits(b, lo, mid, m) && lo <= mid <= hi
    ensures Fits(KJoined(a, b), lo, hi, m)
  {
    hide Fits, Inner, Keys;
    FitsFormed(a, mid, hi, m);
    FitsFormed(b, lo, mid, m);
    match (a, b)
    case (KLeaf(j), KLeaf(k)) =>
      FitsLeaf(j, mid, hi, m);
      FitsLeaf(k, lo, mid, m);
      KeysJoin(j, k, lo, mid, hi, m);
      LeafFits(j + k, lo, hi, m);
    case (KNode(s, j), KNode(u, k)) =>
      InnerIs(s, j, mid, hi, m);
      InnerIs(u, k, lo, mid, m);
      InnerJoin(s, j, u, k, lo, mid, hi, m);
      InnerIs(s + u, j + k, lo, hi, m);
    case _ =>
      FitsWider(a, mid, hi, lo, hi, m);
  }

  lemma LeafFits(keys: seq<nat>, lo: nat, hi: nat, m: set<nat>)
    requires Keys(keys, lo, hi, m)
    ensures Fits(KLeaf(keys), lo, hi, m)
  {
  }

  lemma KeysWithout(ks: seq<nat>, lo: nat, hi: nat, m: set<nat>, i: nat)
    requires Keys(ks, lo, hi, m) && i < |ks|
    ensures Keys(RemoveAt(ks, i), lo, hi, m)
  {
    var w := RemoveAt(ks, i);
    forall j | 0 <= j < |w|
      ensures w[j] == ks[if j < i then j else j + 1]
    {
    }
  }

  /** Entry `i` is taken out; the interval of the next child grows. */
  lemma InnerWithout(seps: seq<nat>, kids: seq<Keyed>, lo: nat, hi: nat, m: set<nat>, i: nat)
    requires Inner(seps, kids, lo, hi, m) && i < |kids|
    ensures Inner(RemoveAt(seps, i), RemoveAt(kids, i), lo, hi, m)
  {
    hide Fits, Keys;
    InnerKeys(seps, kids, lo, hi, m);
    KeysWithout(seps, lo, hi, m, i);
    var ss, ks := RemoveAt(seps, i), RemoveAt(kids, i);
    forall j | 0 <= j < |ks|
      ensures Fits(ks[j], ss[j], Above(ss, hi, j), m)
    {
      var p := if j < i then j else j + 1;
      assert ss[j] == seps[p] && ks[j] == kids[p];
      AboveGrows(seps, lo, hi, m, i, j);
      FitsWider(kids[p], seps[p], Above(seps, hi, p), seps[p], Above(ss, hi, j), m);
    }
  }

  lemma AboveGrows(seps: seq<nat>, lo: nat, hi: nat, m: set<nat>, i: nat, j: nat)
    requires Keys(seps, lo, hi, m) && i < |seps| && j < |seps| - 1
    ensures Above(seps, hi, if j < i then j else j + 1) <= Above(RemoveAt(seps, i), hi, j)
  {
    if j == i && i > 0 {
      assert seps[i] < seps[i - 1];
    }
  }

  /** Children `i` and `i + 1` become one. */
  lemma InnerMerge(seps: seq<nat>, kids: seq<Keyed>, lo: nat, hi: nat, m: set<nat>, i: nat, c: Keyed)
    requires Inner(seps, kids, lo, hi, m) && i + 1 < |kids| && |seps| == |kids| && Fits(c, seps[i + 1], Above(seps, hi, i), m)
    ensures Inner(RemoveAt(seps, i), kids[..i] + [c] + kids[i + 2..], lo, hi, m)
  {
    hide Fits, Keys;
    InnerWithout(seps, kids, lo, hi, m, i);
    var ss, ks, w := RemoveAt(seps, i), kids[..i] + [c] + kids[i + 2..], RemoveAt(kids, i);
    forall j | 0 <= j < |ks|
      ensures Fits(ks[j], ss[j], Above(ss, hi, j), m)
    {
      if j == i {
        assert ss[j] == seps[i + 1] && Above(ss, hi, j) == Above(seps, hi, i);
      } else {
        assert ks[j] == w[j];
      }
    }
  }

  lemma JoinSizes(a: Keyed, b: Keyed)
    ensures Sizes(KJoined(a, b)) == Joined(Sizes(a), Sizes(b))
  {
    if a.KNode? && b.KNode? {
      assert AllSizes(a.kids + b.kids) == AllSizes(a.kids) + AllSizes(b.kids);
      SizesNode(a.seps, a.kids);
      SizesNode(b.seps, b.kids);
      SizesNode(a.seps + b.seps, a.kids + b.kids);
    }
  }

  lemma RebSizes(n: nat, seps: seq<nat>, kids: seq<Keyed>, i: nat)
    requires |seps| == |kids| && i < |kids|
    ensures Sizes(KRebalanced(n, seps, kids, i)) == Node(Rebalanced(n, AllSizes(kids), i))
  {
    hide Sizes, Joined, KJoined;
    SizesCounts(kids);
    var u := KRebalanced(n, seps, kids, i);
    SizesNode(u.seps, u.kids);
    if i > 0 {
      JoinSizes(kids[i - 1], kids[i]);
    }
    if i + 1 < |kids| {
      JoinSizes(kids[i], kids[i + 1]);
    }
    assert AllSizes(u.kids) == Rebalanced(n, AllSizes(kids), i);
  }

  /** rebalance(): the child at `i` has become `c`. */
  lemma DelNode(n: nat, seps: seq<nat>, kids: seq<Keyed>, lo: nat, hi: nat, m: set<nat>, i: nat, c: Keyed)
    requires n >= 4 && Inner(seps, kids, lo, hi, m) && |seps| == |kids| && i < |kids|
    requires Loose(c, seps[i], Above(seps, hi, i), m)
    ensures Loose(KRebalanced(n, seps, kids[i := c], i), lo, hi, m)
  {
    hide Fits, Inner, KJoined;
    var ks := kids[i := c];
    if Count(c) == 0 {
      InnerWithout(seps, kids, lo, hi, m, i);
      assert RemoveAt(ks, i) == RemoveAt(kids, i);
      LooseNode(RemoveAt(seps, i), RemoveAt(kids, i), lo, hi, m);
    } else {
      InnerSet(seps, kids, lo, hi, m, i, c);
      hide Loose;
      if Count(c) < n / 2 && i > 0 && Count(c) + Count(ks[i - 1]) <= n {
        Merging(seps, ks, lo, hi, m, i - 1);
      } else if Count(c) < n / 2 && i + 1 < |ks| && Count(c) + Count(ks[i + 1]) <= n {
        Merging(seps, ks, lo, hi, m, i);
      } else {
        LooseNode(seps, ks, lo, hi, m);
      }
    }
  }

  lemma SizesCounts(ks: seq<Keyed>)
    ensures forall i :: 0 <= i < |ks| ==> Size(AllSizes(ks)[i]) == Count(ks[i])
  {
    forall i | 0 <= i < |ks|
      ensures Size(AllSizes(ks)[i]) == Count(ks[i])
    {
      SizesCount(ks[i]);
    }
  }

  lemma LooseNode(seps: seq<nat>, kids: seq<Keyed>, lo: nat, hi: nat, m: set<nat>)
    requires Inner(seps, kids, lo, hi, m)
    ensures Loose(KNode(seps, kids), lo, hi, m)
  {
    if |kids| > 0 {
      InnerIs(seps, kids, lo, hi, m);
    }
  }

  lemma InnerSet(seps: seq<nat>, kids: seq<Keyed>, lo: nat, hi: nat, m: set<nat>, i: nat, c: Keyed)
    requires Inner(seps, kids, lo, hi, m) && |seps| == |kids| && i < |kids| && Fits(c, seps[i], Above(seps, hi, i), m)
    ensures Inner(seps, kids[i := c], lo, hi, m)
  {
    hide Fits, Keys;
  }

  lemma Merging(seps: seq<nat>, ks: seq<Keyed>, lo: nat, hi: nat, m: set<nat>, i: nat)
    requires Inner(seps, ks, lo, hi, m) && |seps| == |ks| && i + 1 < |ks|
    ensures Loose(KNode(RemoveAt(seps, i), ks[..i] + [KJoined(ks[i], ks[i + 1])] + ks[i + 2..]), lo, hi, m)
  {
    InnerPair(seps, ks, lo, hi, m, i);
    hide Fits, Inner, KJoined, Keys, Loose;
    var c := KJoined(ks[i], ks[i + 1]);
    JoinFits(ks[i], ks[i + 1], seps[i + 1], seps[i], Above(seps, hi, i), m);
    InnerMerge(seps, ks, lo, hi, m, i, c);
    LooseNode(RemoveAt(seps, i), ks[..i] + [c] + ks[i + 2..], lo, hi, m);
  }

  lemma InnerPair(seps: seq<nat>, ks: seq<Keyed>, lo: nat, hi: nat, m: set<nat>, i: nat)
    requires Inner(seps, ks, lo, hi, m) && |seps| == |ks| && i + 1 < |ks|
    ensures seps[i + 1] <= seps[i] <= Above(seps, hi, i)
    ensures Fits(ks[i], seps[i], Above(seps, hi, i), m) && Fits(ks[i + 1], seps[i + 1], seps[i], m)
  {
    hide Fits;
    assert Fits(ks[i + 1], seps[i + 1], Above(seps, hi, i + 1), m);
  }

  /** The first key of the leaf at the end of the path is removed from that leaf. */
  lemma {:induction false} RealizeDel(n: nat, t: Keyed, lo: nat, hi: nat, m: set<nat>, path: seq<nat>)
    requires n >= 4 && Fits(t, lo, hi, m) && Leads(Sizes(t), path) && LeafAt(t, path) != [] && hi in m
    ensures
      var key := LeafAt(t, path)[0];
      lo <= key < hi && Has(t, key) && Loose(KDel(n, t, key), lo, hi, m) && Sizes(KDel(n, t, key)) == Deleted(n, Sizes(t), path)
    decreases t
  {
    hide Loose, Inner, Keys, Fits, KRebalanced, Rebalanced;
    if t.KLeaf? {
      FitsLeaf(t.keys, lo, hi, m);
      DelLeaf(n, t.keys, lo, hi, m);
    } else {
      var seps, kids, i := t.seps, t.kids, path[0];
      assert Sizes(t).kids[i] == Sizes(kids[i]);
      FitsFormed(t, lo, hi, m);
      InnerIs(seps, kids, lo, hi, m);
      InnerKid(seps, kids, lo, hi, m, i);
      RealizeDel(n, kids[i], seps[i], Above(seps, hi, i), m, path[1..]);
      DelUnder(n, seps, kids, lo, hi, m, i, LeafAt(kids[i], path[1..])[0]);
      SizesNode(seps, kids);
    }
  }

  lemma DelLeaf(n: nat, keys: seq<nat>, lo: nat, hi: nat, m: set<nat>)
    requires Keys(keys, lo, hi, m) && |keys| > 0
    ensures lo <= keys[0] < hi && Pos(keys, keys[0]) == 0
    ensures Loose(KDel(n, KLeaf(keys), keys[0]), lo, hi, m)
  {
    KeysWithout(keys, lo, hi, m, 0);
    LeafFits(RemoveAt(keys, 0), lo, hi, m);
  }

  lemma DelUnder(n: nat, seps: seq<nat>, kids: seq<Keyed>, lo: nat, hi: nat, m: set<nat>, i: nat, key: nat)
    requires n >= 4 && Formed(KNode(seps, kids)) && Inner(seps, kids, lo, hi, m) && hi in m && i < |kids|
    requires seps[i] <= key < Above(seps, hi, i)
    requires var c := KDel(n, kids[i], key); Loose(c, seps[i], Above(seps, hi, i), m)
    ensures
      var c, u := KDel(n, kids[i], key), KDel(n, KNode(seps, kids), key);
      && lo <= key < hi && Loose(u, lo, hi, m)
      && Sizes(u) == Node(if Size(Sizes(c)) < Size(Sizes(kids[i])) then Rebalanced(n, AllSizes(kids)[i := Sizes(c)], i)
                          else AllSizes(kids)[i := Sizes(c)])
  {
    hide Inner, Fits, Pos, Sizes, Down, KRebalanced, Rebalanced;
    var c := KDel(n, kids[i], key);
    InnerKid(seps, kids, lo, hi, m, i);
    ChildIs(seps, hi, i, key);
    SizesCount(c);
    SizesCount(kids[i]);
    assert AllSizes(kids[i := c]) == AllSizes(kids)[i := Sizes(c)];
    if Count(c) < Count(kids[i]) {
      DelNode(n, seps, kids, lo, hi, m, i, c);
      RebSizes(n, seps, kids[i := c], i);
    } else {
      if Count(c) == 0 {
        EmptyKid(kids[i], seps[i], Above(seps, hi, i), m, c);
      }
      InnerSet(seps, kids, lo, hi, m, i, c);
      LooseNode(seps, kids[i := c], lo, hi, m);
      SizesNode(seps, kids[i := c]);
    }
  }

  lemma EmptyKid(k: Keyed, lo: nat, hi: nat, m: set<nat>, c: Keyed)
    requires Fits(k, lo, hi, m) && Count(k) == 0 && Loose(c, lo, hi, m) && Count(c) == 0 && (k.KLeaf? ==> c.KLeaf?)
    ensures Fits(c, lo, hi, m)
  {
  }

  // --- steps and runs ---

  /** A whole tree with keys below `lim`. */
  ghost predicate Rooted(n: nat, t: Keyed, lim: nat, m: set<nat>) {
    lim in m && Loose(t, 0, lim, m) && Small(n, Sizes(t))
  }

  lemma KeysTight(ks: seq<nat>, lo: nat, hi: nat, m: set<nat>)
    requires Keys(ks, lo, hi, m) && |ks| > 0
    ensures var low := ks[|ks| - 1]; lo <= low < hi && low in m && Keys(ks, low, hi, m)
  {
  }

  lemma InnerTight(seps: seq<nat>, kids: seq<Keyed>, lo: nat, hi: nat, m: set<nat>)
    requires Inner(seps, kids, lo, hi, m) && |seps| > 0
    ensures Inner(seps, kids, seps[|seps| - 1], hi, m)
  {
    hide Fits, Keys;
    KeysTight(seps, lo, hi, m);
  }

  lemma Tight(t: Keyed, lo: nat, hi: nat, m: set<nat>)
    requires Fits(t, lo, hi, m) && Count(t) > 0
    ensures Formed(t) && lo <= Low(t) < hi && Low(t) in m && Fits(t, Low(t), hi, m)
  {
    hide Fits, Keys, Inner;
    FitsFormed(t, lo, hi, m);
    match t
    case KLeaf(keys) =>
      FitsLeaf(keys, lo, hi, m);
      KeysTight(keys, lo, hi, m);
      LeafFits(keys, keys[|keys| - 1], hi, m);
    case KNode(seps, kids) =>
      InnerIs(seps, kids, lo, hi, m);
      InnerKeys(seps, kids, lo, hi, m);
      KeysTight(seps, lo, hi, m);
      InnerTight(seps, kids, lo, hi, m);
      InnerIs(seps, kids, seps[|seps| - 1], hi, m);
  }

  lemma RootOfTwo(n: nat, r: seq<Keyed>, lim: nat, m: set<nat>)
    requires Parts(r, 0, lim, m) && |r| == 2
    ensures Fits(KNode([Low(r[0]), Low(r[1])], r), 0, lim, m)
  {
    PartsFit(r, 0, lim, m);
    hide Ordered, Marked;
    Tight(r[1], 0, Low(r[0]), m);
    var seps := [Low(r[0]), Low(r[1])];
    assert Keys(seps, 0, lim, m);
    InnerIs(seps, r, 0, lim, m);
  }

  lemma FormedRoot(t: Keyed, lim: nat, m: set<nat>, path: seq<nat>)
    requires Loose(t, 0, lim, m) && Leads(Sizes(t), path) && LeafAt(t, path) != []
    ensures Fits(t, 0, lim, m) && Formed(t)
  {
  }

  lemma RemoveRoot(n: nat, t: Keyed, lim: nat, m: set<nat>, path: seq<nat>) returns (k: KeyOp)
    requires n >= 4 && lim in m && Loose(t, 0, lim, m) && Enabled(Sizes(t), Del(path)) && LeafAt(t, path) != []
    ensures Allowed(t, k) && k.key < lim && Loose(KStep(n, t, k), 0, lim, m)
    ensures Sizes(KStep(n, t, k)) == Step(n, Sizes(t), Del(path))
  {
    hide Fits, KDel, Deleted, Has;
    FormedRoot(t, lim, m, path);
    LeafAtCount(t, path);
    RealizeDel(n, t, 0, lim, m, path);
    k := Remove(LeafAt(t, path)[0]);
    var u := KDel(n, t, k.key);
    SizesCount(u);
    SizesCount(t);
    if u.KNode? && |u.kids| == 1 {
      SizesNode(u.seps, u.kids);
      OnlyKid(u, lim, m);
    }
  }

  lemma OnlyKid(u: Keyed, lim: nat, m: set<nat>)
    requires u.KNode? && |u.kids| == 1 && Fits(u, 0, lim, m)
    ensures Loose(u.kids[0], 0, lim, m)
  {
    var c := u.kids[0];
    FitsWider(c, u.seps[0], lim, 0, lim, m);
  }

  lemma AddRoot(n: nat, t: Keyed, lim: nat, m: set<nat>, gap: nat, path: seq<nat>, low: bool) returns (k: KeyOp)
    requires n >= 4 && lim in m && Loose(t, 0, lim, m) && Leads(Sizes(t), path) && LeafAt(t, path) != [] && Small(n, Sizes(t))
    requires gap >= 1 && Sparse(m, 2 * gap)
    ensures k.Insert? && Formed(t) && k.key < lim && k.key !in m && Allowed(t, k) && Sparse(m + {k.key}, gap)
    ensures Loose(KStep(n, t, k), 0, lim, m + {k.key}) && Sizes(KStep(n, t, k)) == Step(n, Sizes(t), Add(path, low))
  {
    hide Fits, KAdd, Added, Parts, Sparse, Has;
    FormedRoot(t, lim, m, path);
    LeafAtCount(t, path);
    LeafSmall(n, Sizes(t), path);
    var keys := LeafAt(t, path);
    var j := if low then |keys| - 1 else 0;
    if |keys| < n {
      HalfIgnored(n, Sizes(t), path, low, j >= n / 2);
    }
    RealizeAdd(n, t, 0, lim, m, gap, path, j);
    k := Insert(keys[j] + gap);
    LeafMarked(t, 0, lim, m, path, j);
    AbsentKey(t, lim, m, k.key);
    Halfway(m, gap, keys[j]);
    AddedRoot(n, t, lim, m + {k.key}, k.key);
  }

  lemma AddedRoot(n: nat, t: Keyed, lim: nat, m: set<nat>, key: nat)
    requires n >= 4 && Formed(t) && Parts(KAdd(n, t, key), 0, lim, m)
    ensures Loose(KStep(n, t, Insert(key)), 0, lim, m)
    ensures
      var s := AllSizes(KAdd(n, t, key));
      Sizes(KStep(n, t, Insert(key))) == if |s| == 1 then s[0] else Node(s)
  {
    hide KAdd;
    var r := KAdd(n, t, key);
    if |r| == 2 {
      RootOfTwo(n, r, lim, m);
      SizesNode([Low(r[0]), Low(r[1])], r);
    }
  }

  lemma AbsentKey(t: Keyed, lim: nat, m: set<nat>, key: nat)
    requires Fits(t, 0, lim, m) && key !in m
    ensures !Has(t, key)
  {
    if Has(t, key) {
      HasMarked(t, m, key);
    }
  }

  lemma {:induction false} LeafMarked(t: Keyed, lo: nat, hi: nat, m: set<nat>, path: seq<nat>, j: nat)
    requires Fits(t, lo, hi, m) && Leads(Sizes(t), path) && j < |LeafAt(t, path)|
    ensures LeafAt(t, path)[j] in m
    decreases t
  {
    if t.KNode? {
      var i := path[0];
      assert Sizes(t).kids[i] == Sizes(t.kids[i]);
      LeafMarked(t.kids[i], t.seps[i], Above(t.seps, hi, i), m, path[1..], j);
    }
  }

  /** Half a gap above a mark there is room for one more. */
  lemma Halfway(m: set<nat>, gap: nat, k: nat)
    requires Sparse(m, 2 * gap) && k in m
    ensures Sparse(m + {k + gap}, gap)
  {
    var m' := m + {k + gap};
    forall a, b | a in m' && b in m' && a < b
      ensures a + gap <= b
    {
      if a == k + gap {
        assert b in m && k < b ==> k + 2 * gap <= b;
      } else if b == k + gap {
        assert a > k ==> k + 2 * gap <= a;
      } else {
        assert a + 2 * gap <= b;
      }
    }
  }

  /** The first key of an empty tree. */
  lemma EmptyRoot(n: nat, lim: nat, m: set<nat>, gap: nat, low: bool)
    requires n >= 4 && lim in m && gap >= 1 && 2 * gap <= lim && Sparse(m, 2 * gap)
    ensures
      var t, k := KLeaf([]), Insert(lim - gap);
      && Allowed(t, k) && Sparse(m + {lim - gap}, gap) && Loose(KStep(n, t, k), 0, lim, m + {lim - gap})
      && Leads(Sizes(t), []) && Sizes(KStep(n, t, k)) == Step(n, Sizes(t), Add([], low))
  {
    var key := lim - gap;
    assert InsertAt([], 0, key) == [key];
    assert KAdd(n, KLeaf([]), key) == [KLeaf([key])];
    assert Added(n, Leaf(0), [], low) == [Leaf(1)];
    forall a, b | a in m + {key} && b in m + {key} && a < b
      ensures a + gap <= b
    {
      if a == key {
        assert b < lim ==> b + 2 * gap <= lim;
      } else if b == key {
        assert a + 2 * gap <= lim;
      } else {
        assert a + 2 * gap <= b;
      }
    }
  }

  /** One operation on sizes is one operation with a key. */
  lemma RealizeStep(n: nat, t: Keyed, lim: nat, m: set<nat>, gap: nat, op: Op) returns (k: KeyOp, m': set<nat>)
    requires n >= 4 && Rooted(n, t, lim, m) && gap >= 1 && Sparse(m, 2 * gap) && 2 * gap <= lim && Enabled(Sizes(t), op)
    ensures Allowed(t, k) && k.key < lim && Formed(t)
    ensures Sizes(KStep(n, t, k)) == Step(n, Sizes(t), op) && Rooted(n, KStep(n, t, k), lim, m') && Sparse(m', gap)
  {
    hide Fits, KAdd, Added, KDel, Deleted, Loose, Sparse, KStep, Step, Small;
    StepSmall(n, Sizes(t), op);
    LeafAtCount(t, op.path);
    if op.Del? {
      k := RemoveRoot(n, t, lim, m, op.path);
      m' := m;
      Looser(m, gap);
    } else if LeafAt(t, op.path) == [] {
      LeafSmall(n, Sizes(t), op.path);
      EmptyRoot(n, lim, m, gap, op.low);
      k := Insert(lim - gap);
      m' := m + {lim - gap};
      assert t == KLeaf([]);
    } else {
      k := AddRoot(n, t, lim, m, gap, op.path, op.low);
      m' := m + {k.key};
    }
  }

  lemma Looser(m: set<nat>, gap: nat)
    requires Sparse(m, 2 * gap)
    ensures Sparse(m, gap)
  {
  }

  /** Every run on sizes is the run of a list of keys below 2^r, r being the length of the run. */
  lemma {:induction false} RealizeRun(n: nat, t: Keyed, lim: nat, m: set<nat>, r: nat, ops: seq<Op>) returns (ks: seq<KeyOp>, u: Keyed)
    requires n >= 4 && Rooted(n, t, lim, m) && Sparse(m, Bits.Pow2(r)) && Bits.Pow2(r) <= lim && |ops| <= r && CanRun(n, Sizes(t), ops)
    ensures KRuns(n, t, ks, u) && Sizes(u) == Run(n, Sizes(t), ops)
    ensures |ks| == |ops| && (forall i :: 0 <= i < |ks| ==> ks[i].key < lim)
    ensures Count(u) == 0 ==> u == KLeaf([]) || u == KNode([], [])
    decreases |ops|
  {
    hide Fits, Small, Sparse, KStep, Step, Allowed;
    if ops == [] {
      ks, u := [], t;
    } else {
      var gap := Bits.Pow2(r - 1);
      var k, m' := RealizeStep(n, t, lim, m, gap, ops[0]);
      ks, u := RealizeRun(n, KStep(n, t, k), lim, m', r - 1, ops[1..]);
      assert ([k] + ks)[1..] == ks;
      ks := [k] + ks;
    }
  }
}
