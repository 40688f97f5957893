/**
 kernel/resource.c: the tree of address ranges, as a value.  `kids` lists the children of every node of
 the tree in order; the pointers in memory are what `Linked` says about it.
 */
module ResourceTree {
  datatype Res = Res(start: nat, end: nat, parent: nat, child: nat, sibling: nat)

  type Mem = map<nat, Res>
  type Kids = map<nat, seq<nat>>

  function First(ks: seq<nat>): nat {
    if ks == [] then 0 else ks[0]
  }

  /** The node at position `i`, 0 after the last. */
  function At(ks: seq<nat>, i: nat): nat {
    if i < |ks| then ks[i] else 0
  }

  // --- the invariant ---

  ghost predicate ChildOk(mem: Mem, kids: Kids, root: nat, p: nat, i: nat) {
    && p in kids && i < |kids[p]|
    && var k := kids[p][i];
       k in kids && k in mem && k != root && mem[k].parent == p && mem[k].sibling == At(kids[p], i + 1)
  }

  /** The pointers of the nodes spell out `kids`, and every node but the root is in its parent's list. */
  ghost predicate Linked(mem: Mem, kids: Kids, root: nat) {
    && kids.Keys <= mem.Keys && 0 !in mem && root in kids
    && (forall p :: p in kids ==> mem[p].child == First(kids[p]))
    && (forall p, i :: p in kids && 0 <= i < |kids[p]| ==> ChildOk(mem, kids, root, p, i))
    && (forall q :: q in kids && q != root ==> mem[q].parent in kids && q in kids[mem[q].parent])
  }

  /** Children are non-empty ranges inside their parent, in order and disjoint. */
  ghost predicate ListRanged(mem: Mem, p: Res, ks: seq<nat>) {
    && (forall i :: 0 <= i < |ks| ==>
          ks[i] in mem && p.start <= mem[ks[i]].start <= mem[ks[i]].end <= p.end)
    && (forall i, j :: 0 <= i < j < |ks| && ks[i] in mem && ks[j] in mem ==> mem[ks[i]].end < mem[ks[j]].start)
  }

  ghost predicate Ranged(mem: Mem, kids: Kids) {
    kids.Keys <= mem.Keys && forall p :: p in kids ==> ListRanged(mem, mem[p], kids[p])
  }

  /** Every child ranks below its parent. */
  ghost predicate Ranked(kids: Kids, rank: map<nat, nat>) {
    && rank.Keys == kids.Keys
    && forall p, i :: p in kids && 0 <= i < |kids[p]| && kids[p][i] in kids ==> rank[kids[p][i]] < rank[p]
  }

  ghost predicate TreeOk(mem: Mem, kids: Kids, rank: map<nat, nat>, root: nat) {
    Linked(mem, kids, root) && Ranged(mem, kids) && Ranked(kids, rank)
  }

  // --- descendants ---

  /** `d` lies below `p`. */
  ghost predicate Under(kids: Kids, rank: map<nat, nat>, p: nat, d: nat)
    requires Ranked(kids, rank)
    decreases if p in rank then rank[p] else 0
  {
    p in kids && exists i :: 0 <= i < |kids[p]| && kids[p][i] in kids && (kids[p][i] == d || Under(kids, rank, kids[p][i], d))
  }

  ghost predicate Disjoint(a: Res, b: Res) {
    a.end < b.start || b.end < a.start
  }

  ghost predicate Inside(a: Res, b: Res) {
    b.start <= a.start && a.end <= b.end
  }

  /** Disjoint, inside or around. */
  ghost predicate Compatible(a: Res, b: Res) {
    Disjoint(a, b) || Inside(a, b) || Inside(b, a)
  }

  ghost predicate AllCompatible(mem: Mem, kids: Kids, rank: map<nat, nat>, p: nat, new': Res)
    requires Ranked(kids, rank) && kids.Keys <= mem.Keys
  {
    forall d :: Under(kids, rank, p, d) ==> d in kids && Compatible(new', mem[d])
  }

  /** A descendant's range lies inside its ancestor's. */
  lemma {:induction false} UnderInside(mem: Mem, kids: Kids, rank: map<nat, nat>, p: nat, d: nat)
    requires Ranked(kids, rank) && Ranged(mem, kids) && Under(kids, rank, p, d)
    ensures d in kids && p in kids && Inside(mem[d], mem[p]) && mem[d].start <= mem[d].end
    decreases if p in rank then rank[p] else 0
  {
    var i :| 0 <= i < |kids[p]| && kids[p][i] in kids && (kids[p][i] == d || Under(kids, rank, kids[p][i], d));
    assert ListRanged(mem, mem[p], kids[p]);
    if kids[p][i] != d {
      UnderInside(mem, kids, rank, kids[p][i], d);
    }
  }

  lemma UnderChild(kids: Kids, rank: map<nat, nat>, p: nat, i: nat)
    requires Ranked(kids, rank) && p in kids && i < |kids[p]| && kids[p][i] in kids
    ensures Under(kids, rank, p, kids[p][i])
  {
  }

  /** What decides the compatibility of all descendants: the children, and what is below those around `new'`. */
  lemma CompatibleIff(mem: Mem, kids: Kids, rank: map<nat, nat>, root: nat, p: nat, new': Res)
    requires TreeOk(mem, kids, rank, root) && p in kids && new'.start <= new'.end
    requires forall i :: 0 <= i < |kids[p]| ==> Disjoint(new', mem[kids[p][i]]) || Inside(mem[kids[p][i]], new')
    ensures AllCompatible(mem, kids, rank, p, new')
  {
    hide Linked, Ranked, ListRanged;
    LinkedKeys(mem, kids, root);
    forall d | Under(kids, rank, p, d)
      ensures d in kids && Compatible(new', mem[d])
    {
      UnderInside(mem, kids, rank, p, d);
      var i :| 0 <= i < |kids[p]| && kids[p][i] in kids && (kids[p][i] == d || Under(kids, rank, kids[p][i], d));
      if kids[p][i] != d {
        UnderInside(mem, kids, rank, kids[p][i], d);
      }
    }
  }

  lemma LinkedKeys(mem: Mem, kids: Kids, root: nat)
    requires Linked(mem, kids, root)
    ensures kids.Keys <= mem.Keys && 0 !in mem && root in kids
  {
  }

  lemma CompatibleFrom(mem: Mem, kids: Kids, rank: map<nat, nat>, p: nat, i: nat, new': Res, d: nat)
    requires Ranked(kids, rank) && Ranged(mem, kids) && p in kids && i < |kids[p]| && new'.start <= new'.end
    requires kids[p][i] in kids && Inside(new', mem[kids[p][i]])
    requires AllCompatible(mem, kids, rank, kids[p][i], new') && Under(kids, rank, p, d)
    ensures d in kids && Compatible(new', mem[d])
  {
    hide Ranked;
    var j :| 0 <= j < |kids[p]| && kids[p][j] in kids && (kids[p][j] == d || Under(kids, rank, kids[p][j], d));
    if kids[p][j] != d {
      UnderInside(mem, kids, rank, kids[p][j], d);
    }
    assert ListRanged(mem, mem[p], kids[p]);
    assert j != i ==> Disjoint(mem[kids[p][j]], mem[kids[p][i]]);
  }

  /** A child around the new range: only what is below that child matters. */
  lemma CompatibleDescend(mem: Mem, kids: Kids, rank: map<nat, nat>, root: nat, p: nat, i: nat, new': Res)
    requires TreeOk(mem, kids, rank, root) && p in kids && i < |kids[p]| && new'.start <= new'.end
    requires Inside(new', mem[kids[p][i]])
    ensures kids[p][i] in kids
    ensures AllCompatible(mem, kids, rank, p, new') <==> AllCompatible(mem, kids, rank, kids[p][i], new')
  {
    hide Linked;
    var c := kids[p][i];
    ChildAt(mem, kids, root, p, i);
    LinkedKeys(mem, kids, root);
    if AllCompatible(mem, kids, rank, c, new') {
      forall d | Under(kids, rank, p, d)
        ensures d in kids && Compatible(new', mem[d])
      {
        CompatibleFrom(mem, kids, rank, p, i, new', d);
      }
    }
    if AllCompatible(mem, kids, rank, p, new') {
      forall d | Under(kids, rank, c, d)
        ensures d in kids && Compatible(new', mem[d])
      {
        assert Under(kids, rank, p, d);
      }
    }
  }

  // --- splicing a node in ---

  /** `new'` takes the place of the children i..j-1 of `par`, which become its own. */
  ghost function Spliced(kids: Kids, par: nat, i: nat, j: nat, new': nat): Kids {
    if par in kids && i <= j <= |kids[par]| then
      var ks := kids[par];
      kids[par := ks[..i] + [new'] + ks[j..]][new' := ks[i..j]]
    else kids
  }

  /** The pointer changes that go with it. */
  ghost predicate Rewired(mem: Mem, mem': Mem, par: nat, ks: seq<nat>, i: nat, j: nat, new': nat)
    requires i <= j <= |ks|
  {
    && mem'.Keys == mem.Keys
    && forall q :: q in mem ==>
         && mem'[q].start == mem[q].start && mem'[q].end == mem[q].end
         && mem'[q].parent == (if q == new' then par else if q in ks[i..j] then new' else mem[q].parent)
         && mem'[q].child == (if q == new' then First(ks[i..j]) else if q == par && i == 0 then new' else mem[q].child)
         && mem'[q].sibling ==
            (if q == new' then At(ks, j)
             else if i > 0 && q == ks[i - 1] then new'
             else if i < j && q == ks[j - 1] then 0
             else mem[q].sibling)
  }

  lemma KidsDistinct(mem: Mem, kids: Kids, p: nat, i: nat, j: nat)
    requires Ranged(mem, kids) && p in kids && i < |kids[p]| && j < |kids[p]| && kids[p][i] == kids[p][j]
    ensures i == j
  {
    assert ListRanged(mem, mem[p], kids[p]);
  }

  ghost predicate CanSplice(mem: Mem, mem': Mem, kids: Kids, rank: map<nat, nat>, root: nat, par: nat, i: nat, j: nat, new': nat) {
    && TreeOk(mem, kids, rank, root) && par in kids && i <= j <= |kids[par]| && new' in mem && new' !in kids
    && Rewired(mem, mem', par, kids[par], i, j, new')
  }

  lemma ChildAt(mem: Mem, kids: Kids, root: nat, p: nat, i: nat)
    requires Linked(mem, kids, root) && p in kids && i < |kids[p]|
    ensures ChildOk(mem, kids, root, p, i)
  {
  }

  ghost predicate NoDup(ks: seq<nat>) {
    forall i, j :: 0 <= i < j < |ks| ==> ks[i] != ks[j]
  }

  lemma KidsNoDup(mem: Mem, kids: Kids, p: nat)
    requires Ranged(mem, kids) && p in kids
    ensures NoDup(kids[p])
  {
    assert ListRanged(mem, mem[p], kids[p]);
  }

  lemma RewiredAt(mem: Mem, mem': Mem, par: nat, ks: seq<nat>, i: nat, j: nat, new': nat, q: nat)
    requires i <= j <= |ks| && Rewired(mem, mem', par, ks, i, j, new') && q in mem
    ensures q in mem'
    ensures mem'[q].parent == if q == new' then par else if q in ks[i..j] then new' else mem[q].parent
    ensures mem'[q].sibling ==
      if q == new' then At(ks, j)
      else if i > 0 && q == ks[i - 1] then new'
      else if i < j && q == ks[j - 1] then 0
      else mem[q].sibling
  {
  }

  lemma SplicedLists(kids: Kids, par: nat, i: nat, j: nat, new': nat)
    requires par in kids && i <= j <= |kids[par]| && new' !in kids
    ensures
      var kids', ks := Spliced(kids, par, i, j, new'), kids[par];
      && kids'.Keys == kids.Keys + {new'} && kids'[par] == ks[..i] + [new'] + ks[j..] && kids'[new'] == ks[i..j]
      && forall p :: p in kids && p != par ==> kids'[p] == kids[p]
  {
  }

  lemma NotOthers(mem: Mem, kids: Kids, root: nat, par: nat, p: nat, t: nat)
    requires Linked(mem, kids, root) && p in kids && par in kids && p != par && t < |kids[p]|
    ensures kids[p][t] !in kids[par]
  {
    assert ChildOk(mem, kids, root, p, t);
    forall s | 0 <= s < |kids[par]|
      ensures kids[par][s] != kids[p][t]
    {
      assert ChildOk(mem, kids, root, par, s);
    }
  }

  lemma SplicedOther(mem: Mem, mem': Mem, kids: Kids, rank: map<nat, nat>, root: nat, par: nat, i: nat, j: nat, new': nat, p: nat, t: nat)
    requires CanSplice(mem, mem', kids, rank, root, par, i, j, new') && p in kids && p != par && t < |kids[p]|
    ensures ChildOk(mem', Spliced(kids, par, i, j, new'), root, p, t)
  {
    hide Ranged, Ranked, Linked, Rewired, Spliced;
    ChildAt(mem, kids, root, p, t);
    SplicedLists(kids, par, i, j, new');
    RewiredAt(mem, mem', par, kids[par], i, j, new', kids[p][t]);
    NotOthers(mem, kids, root, par, p, t);
  }

  lemma SplicedPar(mem: Mem, mem': Mem, kids: Kids, rank: map<nat, nat>, root: nat, par: nat, i: nat, j: nat, new': nat, t: nat)
    requires CanSplice(mem, mem', kids, rank, root, par, i, j, new') && t < i + 1 + (|kids[par]| - j)
    ensures ChildOk(mem', Spliced(kids, par, i, j, new'), root, par, t)
  {
    hide Ranked, Ranged, Linked, Rewired, Spliced;
    var ks := kids[par];
    LinkedKeys(mem, kids, root);
    KidsNoDup(mem, kids, par);
    SplicedLists(kids, par, i, j, new');
    if t != i {
      var s := if t < i then t else j + t - i - 1;
      ChildAt(mem, kids, root, par, s);
      RewiredAt(mem, mem', par, ks, i, j, new', ks[s]);
    } else {
      RewiredAt(mem, mem', par, ks, i, j, new', new');
    }
  }

  lemma SplicedNew(mem: Mem, mem': Mem, kids: Kids, rank: map<nat, nat>, root: nat, par: nat, i: nat, j: nat, new': nat, t: nat)
    requires CanSplice(mem, mem', kids, rank, root, par, i, j, new') && t < j - i
    ensures ChildOk(mem', Spliced(kids, par, i, j, new'), root, new', t)
  {
    hide Ranked, Ranged, Linked, Rewired, Spliced;
    var ks := kids[par];
    KidsNoDup(mem, kids, par);
    SplicedLists(kids, par, i, j, new');
    ChildAt(mem, kids, root, par, i + t);
    RewiredAt(mem, mem', par, ks, i, j, new', ks[i + t]);
    assert ks[i..j][t] == ks[i + t];
  }

  lemma SplicedParent(mem: Mem, mem': Mem, kids: Kids, rank: map<nat, nat>, root: nat, par: nat, i: nat, j: nat, new': nat, q: nat)
    requires CanSplice(mem, mem', kids, rank, root, par, i, j, new') && (q in kids || q == new') && q != root
    ensures
      var kids' := Spliced(kids, par, i, j, new');
      mem'[q].parent in kids' && q in kids'[mem'[q].parent]
  {
    hide Ranked, Ranged;
    var ks := kids[par];
    if q == new' {
      assert (ks[..i] + [new'] + ks[j..])[i] == new';
    } else if q in ks[i..j] {
    } else if mem[q].parent == par {
      assert q in ks[..i] || q in ks[j..] by {
        assert ks == ks[..i] + ks[i..j] + ks[j..];
      }
    }
  }

  lemma SplicedFirst(mem: Mem, mem': Mem, kids: Kids, rank: map<nat, nat>, root: nat, par: nat, i: nat, j: nat, new': nat, p: nat)
    requires CanSplice(mem, mem', kids, rank, root, par, i, j, new') && (p in kids || p == new')
    ensures p in mem' && mem'[p].child == First(Spliced(kids, par, i, j, new')[p])
  {
    hide Ranked, Ranged;
    SplicedLists(kids, par, i, j, new');
  }

  lemma SplicedChild(mem: Mem, mem': Mem, kids: Kids, rank: map<nat, nat>, root: nat, par: nat, i: nat, j: nat, new': nat, p: nat, t: nat)
    requires CanSplice(mem, mem', kids, rank, root, par, i, j, new') && (p in kids || p == new')
    requires t < |Spliced(kids, par, i, j, new')[p]|
    ensures ChildOk(mem', Spliced(kids, par, i, j, new'), root, p, t)
  {
    hide Ranked, Ranged, Spliced, ChildOk, Linked, Rewired;
    SplicedLists(kids, par, i, j, new');
    if p == new' {
      SplicedNew(mem, mem', kids, rank, root, par, i, j, new', t);
    } else if p == par {
      SplicedPar(mem, mem', kids, rank, root, par, i, j, new', t);
    } else {
      SplicedOther(mem, mem', kids, rank, root, par, i, j, new', p, t);
    }
  }

  lemma SplicedKeys(mem: Mem, mem': Mem, kids: Kids, rank: map<nat, nat>, root: nat, par: nat, i: nat, j: nat, new': nat)
    requires CanSplice(mem, mem', kids, rank, root, par, i, j, new')
    ensures
      var kids' := Spliced(kids, par, i, j, new');
      kids'.Keys == kids.Keys + {new'} && kids'.Keys <= mem'.Keys && 0 !in mem' && root in kids'
  {
    hide Ranked, Ranged;
    SplicedLists(kids, par, i, j, new');
  }

  lemma SplicedLinked(mem: Mem, mem': Mem, kids: Kids, rank: map<nat, nat>, root: nat, par: nat, i: nat, j: nat, new': nat)
    requires CanSplice(mem, mem', kids, rank, root, par, i, j, new')
    ensures Linked(mem', Spliced(kids, par, i, j, new'), root)
  {
    hide CanSplice, Spliced, ChildOk;
    var kids' := Spliced(kids, par, i, j, new');
    SplicedKeys(mem, mem', kids, rank, root, par, i, j, new');
    forall p | p in kids'
      ensures mem'[p].child == First(kids'[p])
    {
      SplicedFirst(mem, mem', kids, rank, root, par, i, j, new', p);
    }
    forall p, t | p in kids' && 0 <= t < |kids'[p]|
      ensures ChildOk(mem', kids', root, p, t)
    {
      SplicedChild(mem, mem', kids, rank, root, par, i, j, new', p, t);
    }
    forall q | q in kids' && q != root
      ensures mem'[q].parent in kids' && q in kids'[mem'[q].parent]
    {
      SplicedParent(mem, mem', kids, rank, root, par, i, j, new', q);
    }
  }

  lemma SplicedOk(mem: Mem, mem': Mem, kids: Kids, rank: map<nat, nat>, root: nat, par: nat, i: nat, j: nat, new': nat)
    requires CanSplice(mem, mem', kids, rank, root, par, i, j, new') && Fits(mem, par, kids[par], i, j, new')
    ensures par in rank && TreeOk(mem', Spliced(kids, par, i, j, new'), Reranked(rank, par, new'), root)
  {
    hide Spliced, Linked, Ranged, Rewired, Fits;
    SplicedLinked(mem, mem', kids, rank, root, par, i, j, new');
    SplicedRanged(mem, mem', kids, rank, root, par, i, j, new');
    LinkedClosed(mem, kids, root);
    SplicedRanked(kids, rank, par, i, j, new');
  }

  /** The new range fits between its neighbours and around the children it takes over. */
  ghost predicate Fits(mem: Mem, par: nat, ks: seq<nat>, i: nat, j: nat, new': nat) {
    && i <= j <= |ks| && new' in mem && par in mem
    && mem[new'].start <= mem[new'].end && Inside(mem[new'], mem[par])
    && (forall t :: 0 <= t < i && ks[t] in mem ==> mem[ks[t]].end < mem[new'].start)
    && (forall t :: i <= t < j && ks[t] in mem ==> Inside(mem[ks[t]], mem[new']))
    && (forall t :: j <= t < |ks| && ks[t] in mem ==> mem[new'].end < mem[ks[t]].start)
  }

  lemma FitsFacts(mem: Mem, par: nat, ks: seq<nat>, i: nat, j: nat, new': nat)
    requires Fits(mem, par, ks, i, j, new')
    ensures i <= j <= |ks| && new' in mem && par in mem
  {
  }

  ghost predicate SameRanges(mem: Mem, mem': Mem) {
    mem'.Keys == mem.Keys && forall q :: q in mem ==> mem'[q].start == mem[q].start && mem'[q].end == mem[q].end
  }

  lemma ListRangedSame(mem: Mem, mem': Mem, p: nat, ks: seq<nat>)
    requires SameRanges(mem, mem') && p in mem && ListRanged(mem, mem[p], ks)
    ensures ListRanged(mem', mem'[p], ks)
  {
  }

  lemma SplicedRanged(mem: Mem, mem': Mem, kids: Kids, rank: map<nat, nat>, root: nat, par: nat, i: nat, j: nat, new': nat)
    requires CanSplice(mem, mem', kids, rank, root, par, i, j, new') && Fits(mem, par, kids[par], i, j, new')
    ensures Ranged(mem', Spliced(kids, par, i, j, new'))
  {
    hide Ranked, Linked, ListRanged, Fits, Spliced;
    LinkedKeys(mem, kids, root);
    SplicedLists(kids, par, i, j, new');
    var kids', ks := Spliced(kids, par, i, j, new'), kids[par];
    assert SameRanges(mem, mem');
    hide Rewired, SameRanges;
    FitsFacts(mem, par, ks, i, j, new');
    forall p | p in kids'
      ensures ListRanged(mem', mem'[p], kids'[p])
    {
      assert ListRanged(mem, mem[par], ks);
      if p == new' {
        SliceRanged(mem, par, ks, i, j, new');
        ListRangedSame(mem, mem', new', ks[i..j]);
      } else if p == par {
        GapRanged(mem, par, ks, i, j, new');
        ListRangedSame(mem, mem', par, ks[..i] + [new'] + ks[j..]);
      } else {
        assert ListRanged(mem, mem[p], kids[p]);
        ListRangedSame(mem, mem', p, kids[p]);
      }
    }
  }

  lemma SliceRanged(mem: Mem, par: nat, ks: seq<nat>, i: nat, j: nat, new': nat)
    requires Fits(mem, par, ks, i, j, new') && ListRanged(mem, mem[par], ks)
    ensures ListRanged(mem, mem[new'], ks[i..j])
  {
    forall t | 0 <= t < j - i
      ensures ks[i..j][t] == ks[i + t]
    {
    }
  }

  lemma GapRanged(mem: Mem, par: nat, ks: seq<nat>, i: nat, j: nat, new': nat)
    requires Fits(mem, par, ks, i, j, new') && ListRanged(mem, mem[par], ks)
    ensures ListRanged(mem, mem[par], ks[..i] + [new'] + ks[j..])
  {
    var l := ks[..i] + [new'] + ks[j..];
    forall t | 0 <= t < |l|
      ensures l[t] in mem && mem[par].start <= mem[l[t]].start <= mem[l[t]].end <= mem[par].end
    {
      assert l[t] == if t < i then ks[t] else if t == i then new' else ks[j + t - i - 1];
    }
    forall s, t | 0 <= s < t < |l|
      ensures mem[l[s]].end < mem[l[t]].start
    {
      assert l[s] == if s < i then ks[s] else if s == i then new' else ks[j + s - i - 1];
      assert l[t] == if t < i then ks[t] else if t == i then new' else ks[j + t - i - 1];
    }
  }

  ghost predicate Closed(kids: Kids) {
    forall p, t :: p in kids && 0 <= t < |kids[p]| ==> kids[p][t] in kids
  }

  lemma LinkedClosed(mem: Mem, kids: Kids, root: nat)
    requires Linked(mem, kids, root)
    ensures Closed(kids)
  {
    forall p, t | p in kids && 0 <= t < |kids[p]|
      ensures kids[p][t] in kids
    {
      assert ChildOk(mem, kids, root, p, t);
    }
  }

  /** Room for the new rank between those of the parent and its children. */
  ghost function Reranked(rank: map<nat, nat>, par: nat, new': nat): map<nat, nat> {
    if par in rank then (map q | q in rank :: 2 * rank[q] + 1)[new' := 2 * rank[par]] else rank
  }

  lemma SplicedRanked(kids: Kids, rank: map<nat, nat>, par: nat, i: nat, j: nat, new': nat)
    requires Ranked(kids, rank) && Closed(kids) && par in kids && i <= j <= |kids[par]| && new' !in kids
    ensures Ranked(Spliced(kids, par, i, j, new'), Reranked(rank, par, new'))
  {
    var kids', rank', ks := Spliced(kids, par, i, j, new'), Reranked(rank, par, new'), kids[par];
    forall p, t | p in kids' && 0 <= t < |kids'[p]| && kids'[p][t] in kids'
      ensures rank'[kids'[p][t]] < rank'[p]
    {
      if p == new' {
        assert kids'[p][t] == ks[i + t];
      } else if p == par {
        assert t != i ==> kids'[p][t] == ks[if t < i then t else j + t - i - 1];
      } else {
        assert kids'[p][t] == kids[p][t];
      }
    }
  }

  // --- taking a node out ---

  /** `old'` leaves the list of `par`, its children take its place. */
  ghost function Unspliced(kids: Kids, par: nat, i: nat, old': nat): Kids {
    if par in kids && old' in kids && i < |kids[par]| then
      var ks := kids[par];
      (kids - {old'})[par := ks[..i] + kids[old'] + ks[i + 1..]]
    else kids
  }

  ghost predicate Unwired(mem: Mem, mem': Mem, par: nat, ks: seq<nat>, i: nat, old': nat, cs: seq<nat>)
    requires i < |ks|
  {
    && mem'.Keys == mem.Keys
    && forall q :: q in mem ==>
         && mem'[q].start == mem[q].start && mem'[q].end == mem[q].end
         && mem'[q].parent == (if q == old' then 0 else if q in cs then par else mem[q].parent)
         && mem'[q].child == (if q == par && i == 0 then At(cs + ks[i + 1..], 0) else mem[q].child)
         && mem'[q].sibling ==
            (if i > 0 && q == ks[i - 1] then At(cs + ks[i + 1..], 0)
             else if cs != [] && q == cs[|cs| - 1] then At(ks, i + 1)
             else mem[q].sibling)
  }

  ghost predicate CanUnsplice(mem: Mem, mem': Mem, kids: Kids, rank: map<nat, nat>, root: nat, par: nat, i: nat, old': nat) {
    && TreeOk(mem, kids, rank, root) && par in kids && i < |kids[par]| && kids[par][i] == old' && old' in kids
    && Unwired(mem, mem', par, kids[par], i, old', kids[old'])
  }

  lemma UnwiredAt(mem: Mem, mem': Mem, par: nat, ks: seq<nat>, i: nat, old': nat, cs: seq<nat>, q: nat)
    requires i < |ks| && Unwired(mem, mem', par, ks, i, old', cs) && q in mem
    ensures q in mem'
    ensures mem'[q].parent == if q == old' then 0 else if q in cs then par else mem[q].parent
    ensures mem'[q].child == if q == par && i == 0 then At(cs + ks[i + 1..], 0) else mem[q].child
    ensures mem'[q].sibling ==
      if i > 0 && q == ks[i - 1] then At(cs + ks[i + 1..], 0)
      else if cs != [] && q == cs[|cs| - 1] then At(ks, i + 1)
      else mem[q].sibling
  {
  }

  lemma UnsplicedLists(kids: Kids, par: nat, i: nat, old': nat)
    requires par in kids && i < |kids[par]| && old' in kids && old' != par
    ensures
      var kids', ks := Unspliced(kids, par, i, old'), kids[par];
      && kids'.Keys == kids.Keys - {old'} && kids'[par] == ks[..i] + kids[old'] + ks[i + 1..]
      && forall p :: p in kids && p != par && p != old' ==> kids'[p] == kids[p]
  {
  }

  lemma UnspliceFacts(mem: Mem, mem': Mem, kids: Kids, rank: map<nat, nat>, root: nat, par: nat, i: nat, old': nat)
    requires CanUnsplice(mem, mem', kids, rank, root, par, i, old')
    ensures old' != par && old' != root && NoDup(kids[par]) && NoDup(kids[old'])
    ensures forall t :: 0 <= t < |kids[old']| ==> kids[old'][t] !in kids[par] && kids[old'][t] != old'
    ensures old' in mem && mem[old'].sibling == At(kids[par], i + 1) && kids.Keys <= mem.Keys && 0 !in mem && root in kids
  {
    hide Ranged, Unwired;
    ChildAt(mem, kids, root, par, i);
    KidsNoDup(mem, kids, par);
    KidsNoDup(mem, kids, old');
    forall t | 0 <= t < |kids[old']|
      ensures kids[old'][t] !in kids[par] && kids[old'][t] != old'
    {
      ChildAt(mem, kids, root, old', t);
      NotOthers(mem, kids, root, par, old', t);
    }
  }

  lemma UnsplicedOther(mem: Mem, mem': Mem, kids: Kids, rank: map<nat, nat>, root: nat, par: nat, i: nat, old': nat, p: nat, t: nat)
    requires CanUnsplice(mem, mem', kids, rank, root, par, i, old') && p in kids && p != par && p != old' && t < |kids[p]|
    ensures ChildOk(mem', Unspliced(kids, par, i, old'), root, p, t)
  {
    hide Ranged, Ranked, Linked, Unwired, Unspliced;
    UnspliceFacts(mem, mem', kids, rank, root, par, i, old');
    ChildAt(mem, kids, root, p, t);
    UnsplicedLists(kids, par, i, old');
    UnwiredAt(mem, mem', par, kids[par], i, old', kids[old'], kids[p][t]);
    NotOthers(mem, kids, root, par, p, t);
    NotOthers(mem, kids, root, old', p, t);
  }

  lemma UnsplicedPar(mem: Mem, mem': Mem, kids: Kids, rank: map<nat, nat>, root: nat, par: nat, i: nat, old': nat, t: nat)
    requires CanUnsplice(mem, mem', kids, rank, root, par, i, old') && t < |kids[par]| - 1 + |kids[old']|
    ensures ChildOk(mem', Unspliced(kids, par, i, old'), root, par, t)
  {
    hide Ranged, Ranked, Linked, Unwired, Unspliced;
    UnspliceFacts(mem, mem', kids, rank, root, par, i, old');
    UnsplicedLists(kids, par, i, old');
    var ks, cs := kids[par], kids[old'];
    var l := ks[..i] + cs + ks[i + 1..];
    if i <= t < i + |cs| {
      ChildAt(mem, kids, root, old', t - i);
      UnwiredAt(mem, mem', par, ks, i, old', cs, cs[t - i]);
      assert l[t] == cs[t - i];
    } else {
      var s := if t < i then t else t - |cs| + 1;
      ChildAt(mem, kids, root, par, s);
      UnwiredAt(mem, mem', par, ks, i, old', cs, ks[s]);
      assert l[t] == ks[s];
    }
  }

  lemma UnsplicedParent(mem: Mem, mem': Mem, kids: Kids, rank: map<nat, nat>, root: nat, par: nat, i: nat, old': nat, q: nat)
    requires CanUnsplice(mem, mem', kids, rank, root, par, i, old') && q in kids && q != old' && q != root
    ensures
      var kids' := Unspliced(kids, par, i, old');
      q in mem' && mem'[q].parent in kids' && q in kids'[mem'[q].parent]
  {
    hide Ranged, Ranked, Unwired, Unspliced;
    UnspliceFacts(mem, mem', kids, rank, root, par, i, old');
    UnsplicedLists(kids, par, i, old');
    var ks, cs := kids[par], kids[old'];
    UnwiredAt(mem, mem', par, ks, i, old', cs, q);
    if mem[q].parent == par {
      RemovedIn(ks, i, q);
    }
  }

  lemma UnsplicedFirst(mem: Mem, mem': Mem, kids: Kids, rank: map<nat, nat>, root: nat, par: nat, i: nat, old': nat, p: nat)
    requires CanUnsplice(mem, mem', kids, rank, root, par, i, old') && p in kids && p != old'
    ensures p in mem' && p in Unspliced(kids, par, i, old') && mem'[p].child == First(Unspliced(kids, par, i, old')[p])
  {
    hide Ranged, Ranked, Unwired, Unspliced;
    UnspliceFacts(mem, mem', kids, rank, root, par, i, old');
    UnsplicedLists(kids, par, i, old');
    UnwiredAt(mem, mem', par, kids[par], i, old', kids[old'], p);
  }

  lemma UnsplicedLinked(mem: Mem, mem': Mem, kids: Kids, rank: map<nat, nat>, root: nat, par: nat, i: nat, old': nat)
    requires CanUnsplice(mem, mem', kids, rank, root, par, i, old')
    ensures Linked(mem', Unspliced(kids, par, i, old'), root)
  {
    hide Ranged, Ranked, Unspliced, ChildOk;
    UnspliceFacts(mem, mem', kids, rank, root, par, i, old');
    UnsplicedLists(kids, par, i, old');
    var kids' := Unspliced(kids, par, i, old');
    assert mem'.Keys == mem.Keys;
    hide Unwired, Linked, CanUnsplice;
    assert Linked(mem', kids', root) by {
      UnsplicedLinkedParts(mem, mem', kids, rank, root, par, i, old');
    }
  }

  lemma UnsplicedLinkedParts(mem: Mem, mem': Mem, kids: Kids, rank: map<nat, nat>, root: nat, par: nat, i: nat, old': nat)
    requires CanUnsplice(mem, mem', kids, rank, root, par, i, old')
    requires mem'.Keys == mem.Keys && kids.Keys <= mem.Keys && 0 !in mem && root in kids && old' != root && old' != par
    requires
      var kids' := Unspliced(kids, par, i, old');
      kids'.Keys == kids.Keys - {old'}
    ensures Linked(mem', Unspliced(kids, par, i, old'), root)
  {
    hide CanUnsplice, Unspliced, ChildOk;
    var kids' := Unspliced(kids, par, i, old');
    forall p | p in kids'
      ensures mem'[p].child == First(kids'[p])
    {
      UnsplicedFirst(mem, mem', kids, rank, root, par, i, old', p);
    }
    forall p, t | p in kids' && 0 <= t < |kids'[p]|
      ensures ChildOk(mem', kids', root, p, t)
    {
      UnsplicedChild(mem, mem', kids, rank, root, par, i, old', p, t);
    }
    forall q | q in kids' && q != root
      ensures mem'[q].parent in kids' && q in kids'[mem'[q].parent]
    {
      UnsplicedParent(mem, mem', kids, rank, root, par, i, old', q);
    }
  }

  lemma UnsplicedChild(mem: Mem, mem': Mem, kids: Kids, rank: map<nat, nat>, root: nat, par: nat, i: nat, old': nat, p: nat, t: nat)
    requires CanUnsplice(mem, mem', kids, rank, root, par, i, old') && p in Unspliced(kids, par, i, old')
    requires t < |Unspliced(kids, par, i, old')[p]|
    ensures ChildOk(mem', Unspliced(kids, par, i, old'), root, p, t)
  {
    hide Ranged, Ranked, Unspliced, ChildOk, Unwired, Linked;
    UnspliceFacts(mem, mem', kids, rank, root, par, i, old');
    UnsplicedLists(kids, par, i, old');
    if p == par {
      UnsplicedPar(mem, mem', kids, rank, root, par, i, old', t);
    } else {
      UnsplicedOther(mem, mem', kids, rank, root, par, i, old', p, t);
    }
  }

  lemma JoinRanged(mem: Mem, p: Res, ks: seq<nat>, i: nat, old': nat, cs: seq<nat>)
    requires i < |ks| && ks[i] == old' && old' in mem && ListRanged(mem, p, ks) && ListRanged(mem, mem[old'], cs)
    ensures ListRanged(mem, p, ks[..i] + cs + ks[i + 1..])
  {
    var l := ks[..i] + cs + ks[i + 1..];
    forall t | 0 <= t < |l|
      ensures l[t] in mem && p.start <= mem[l[t]].start <= mem[l[t]].end <= p.end
    {
      assert l[t] == if t < i then ks[t] else if t < i + |cs| then cs[t - i] else ks[t - |cs| + 1];
    }
    forall s, t | 0 <= s < t < |l|
      ensures mem[l[s]].end < mem[l[t]].start
    {
      assert l[s] == if s < i then ks[s] else if s < i + |cs| then cs[s - i] else ks[s - |cs| + 1];
      assert l[t] == if t < i then ks[t] else if t < i + |cs| then cs[t - i] else ks[t - |cs| + 1];
      assert s < i ==> mem[ks[s]].end < mem[old'].start;
      assert t >= i + |cs| ==> mem[old'].end < mem[ks[t - |cs| + 1]].start;
    }
  }

  lemma UnsplicedOk(mem: Mem, mem': Mem, kids: Kids, rank: map<nat, nat>, root: nat, par: nat, i: nat, old': nat)
    requires CanUnsplice(mem, mem', kids, rank, root, par, i, old')
    ensures TreeOk(mem', Unspliced(kids, par, i, old'), rank - {old'}, root)
  {
    hide Linked, ListRanged, Unspliced;
    UnsplicedLinked(mem, mem', kids, rank, root, par, i, old');
    UnspliceFacts(mem, mem', kids, rank, root, par, i, old');
    UnsplicedLists(kids, par, i, old');
    var kids' := Unspliced(kids, par, i, old');
    assert SameRanges(mem, mem');
    hide Unwired, SameRanges;
    forall p | p in kids'
      ensures ListRanged(mem', mem'[p], kids'[p])
    {
      assert ListRanged(mem, mem[p], kids[p]) && ListRanged(mem, mem[old'], kids[old']);
      if p == par {
        JoinRanged(mem, mem[par], kids[par], i, old', kids[old']);
      }
      ListRangedSame(mem, mem', p, kids'[p]);
    }
    LinkedClosed(mem, kids, root);
    UnsplicedRanked(kids, rank, par, i, old');
  }

  lemma UnsplicedRanked(kids: Kids, rank: map<nat, nat>, par: nat, i: nat, old': nat)
    requires Ranked(kids, rank) && Closed(kids) && par in kids && i < |kids[par]| && kids[par][i] == old' && old' in kids && old' != par
    ensures Ranked(Unspliced(kids, par, i, old'), rank - {old'})
  {
    UnsplicedLists(kids, par, i, old');
    hide Unspliced;
    var kids', rank', ks, cs := Unspliced(kids, par, i, old'), rank - {old'}, kids[par], kids[old'];
    forall p, t | p in kids' && 0 <= t < |kids'[p]| && kids'[p][t] in kids'
      ensures rank'[kids'[p][t]] < rank'[p]
    {
      if p == par {
        if i <= t < i + |cs| {
          assert kids'[p][t] == cs[t - i];
          assert rank[ks[i]] < rank[par] && rank[cs[t - i]] < rank[old'];
        } else {
          assert kids'[p][t] == ks[if t < i then t else t - |cs| + 1];
        }
      } else {
        assert kids'[p][t] == kids[p][t];
      }
    }
  }

  // --- taking out what was put in ---

  lemma SpliceUndone(kids: Kids, par: nat, i: nat, j: nat, new': nat)
    requires par in kids && i <= j <= |kids[par]| && new' !in kids
    ensures Unspliced(Spliced(kids, par, i, j, new'), par, i, new') == kids
  {
    var ks := kids[par];
    var kids' := Spliced(kids, par, i, j, new');
    SplicedLists(kids, par, i, j, new');
    assert kids'[par][i] == new' && kids'[par][..i] == ks[..i] && kids'[par][i + 1..] == ks[j..];
    assert ks[..i] + ks[i..j] + ks[j..] == ks;
  }

  /** The tree determines the pointers of all its nodes, up to the root's own links upwards. */
  lemma LinksDetermined(mem: Mem, mem': Mem, kids: Kids, root: nat, q: nat)
    requires Linked(mem, kids, root) && Linked(mem', kids, root) && SameRanges(mem, mem') && q in kids
    requires mem[root].parent == mem'[root].parent && mem[root].sibling == mem'[root].sibling
    ensures mem[q] == mem'[q]
  {
    if q != root {
      var p := mem[q].parent;
      var i :| 0 <= i < |kids[p]| && kids[p][i] == q;
      assert ChildOk(mem, kids, root, p, i) && ChildOk(mem', kids, root, p, i);
    }
  }

  /** The root's own links upwards stay. */
  ghost predicate RootKept(mem: Mem, mem': Mem, root: nat) {
    root in mem && root in mem' && mem'[root].parent == mem[root].parent && mem'[root].sibling == mem[root].sibling
  }

  lemma SplicedRoot(mem: Mem, mem': Mem, kids: Kids, rank: map<nat, nat>, root: nat, par: nat, i: nat, j: nat, new': nat)
    requires CanSplice(mem, mem', kids, rank, root, par, i, j, new')
    ensures RootKept(mem, mem', root)
  {
    hide Ranged, Ranked;
    forall t | 0 <= t < |kids[par]|
      ensures kids[par][t] != root
    {
      ChildAt(mem, kids, root, par, t);
    }
  }

  lemma UnsplicedRoot(mem: Mem, mem': Mem, kids: Kids, rank: map<nat, nat>, root: nat, par: nat, i: nat, old': nat)
    requires CanUnsplice(mem, mem', kids, rank, root, par, i, old')
    ensures RootKept(mem, mem', root)
  {
    hide Ranged, Ranked;
    forall t | 0 <= t < |kids[par]|
      ensures kids[par][t] != root
    {
      ChildAt(mem, kids, root, par, t);
    }
    forall t | 0 <= t < |kids[old']|
      ensures kids[old'][t] != root
    {
      ChildAt(mem, kids, root, old', t);
    }
  }

  // --- dropping a node with everything below it ---

  lemma {:induction false} UnderRank(kids: Kids, rank: map<nat, nat>, p: nat, d: nat)
    requires Ranked(kids, rank) && Under(kids, rank, p, d)
    ensures p in kids && d in kids && rank[d] < rank[p]
    decreases if p in rank then rank[p] else 0
  {
    var t :| 0 <= t < |kids[p]| && kids[p][t] in kids && (kids[p][t] == d || Under(kids, rank, kids[p][t], d));
    if kids[p][t] != d {
      UnderRank(kids, rank, kids[p][t], d);
    }
  }

  /** A descendant's parent is the ancestor or a descendant itself. */
  lemma {:induction false} UnderUp(mem: Mem, kids: Kids, rank: map<nat, nat>, root: nat, p: nat, d: nat)
    requires TreeOk(mem, kids, rank, root) && Under(kids, rank, p, d)
    ensures d in mem && d != root && (mem[d].parent == p || Under(kids, rank, p, mem[d].parent))
    decreases if p in rank then rank[p] else 0
  {
    hide Linked, Ranged;
    var t :| 0 <= t < |kids[p]| && kids[p][t] in kids && (kids[p][t] == d || Under(kids, rank, kids[p][t], d));
    ChildAt(mem, kids, root, p, t);
    if kids[p][t] != d {
      UnderUp(mem, kids, rank, root, kids[p][t], d);
    }
  }

  ghost predicate Stays(kids: Kids, rank: map<nat, nat>, old': nat, q: nat)
    requires Ranked(kids, rank)
  {
    q in kids && q != old' && !Under(kids, rank, old', q)
  }

  ghost function Dropped(kids: Kids, rank: map<nat, nat>, par: nat, i: nat, old': nat): Kids
    requires Ranked(kids, rank)
  {
    map q | q in kids && Stays(kids, rank, old', q) ::
      if q == par && i < |kids[q]| then kids[q][..i] + kids[q][i + 1..] else kids[q]
  }

  ghost predicate CanDrop(mem: Mem, mem': Mem, kids: Kids, rank: map<nat, nat>, root: nat, par: nat, i: nat, old': nat) {
    && TreeOk(mem, kids, rank, root) && par in kids && i < |kids[par]| && kids[par][i] == old' && old' in kids
    && Unwired(mem, mem', par, kids[par], i, old', [])
  }

  lemma DropFacts(mem: Mem, mem': Mem, kids: Kids, rank: map<nat, nat>, root: nat, par: nat, i: nat, old': nat)
    requires CanDrop(mem, mem', kids, rank, root, par, i, old')
    ensures kids.Keys <= mem.Keys && 0 !in mem && mem'.Keys == mem.Keys
    ensures NoDup(kids[par]) && old' != root && Stays(kids, rank, old', par) && Stays(kids, rank, old', root)
  {
    hide Ranged, Linked, Ranked, Under;
    LinkedKeys(mem, kids, root);
    ChildAt(mem, kids, root, par, i);
    KidsNoDup(mem, kids, par);
    UnderChild(kids, rank, par, i);
    UnderRank(kids, rank, par, old');
    if Under(kids, rank, old', par) {
      UnderRank(kids, rank, old', par);
    }
    if Under(kids, rank, old', root) {
      UnderUp(mem, kids, rank, root, old', root);
    }
  }

  lemma StaysDown(mem: Mem, kids: Kids, rank: map<nat, nat>, root: nat, old': nat, q: nat, t: nat)
    requires TreeOk(mem, kids, rank, root) && Stays(kids, rank, old', q) && t < |kids[q]| && kids[q][t] != old'
    ensures Stays(kids, rank, old', kids[q][t])
  {
    hide Ranged, Linked, Ranked, Under;
    ChildAt(mem, kids, root, q, t);
    if Under(kids, rank, old', kids[q][t]) {
      UnderUp(mem, kids, rank, root, old', kids[q][t]);
    }
  }

  lemma DroppedChild(mem: Mem, mem': Mem, kids: Kids, rank: map<nat, nat>, root: nat, par: nat, i: nat, old': nat, p: nat, t: nat)
    requires CanDrop(mem, mem', kids, rank, root, par, i, old') && p in Dropped(kids, rank, par, i, old')
    requires t < |Dropped(kids, rank, par, i, old')[p]|
    ensures ChildOk(mem', Dropped(kids, rank, par, i, old'), root, p, t)
  {
    hide Ranged, Linked, Ranked, Stays, Unwired, Dropped;
    DropFacts(mem, mem', kids, rank, root, par, i, old');
    DroppedLists(kids, rank, par, i, old');
    var kids', ks := Dropped(kids, rank, par, i, old'), kids[par];
    if p == par {
      DroppedPar(mem, mem', kids, rank, root, par, i, old', t);
    } else {
      ChildAt(mem, kids, root, p, t);
      NotOthers(mem, kids, root, par, p, t);
      UnwiredAt(mem, mem', par, ks, i, old', [], kids[p][t]);
      StaysDown(mem, kids, rank, root, old', p, t);
    }
  }

  lemma DroppedPar(mem: Mem, mem': Mem, kids: Kids, rank: map<nat, nat>, root: nat, par: nat, i: nat, old': nat, t: nat)
    requires CanDrop(mem, mem', kids, rank, root, par, i, old') && t < |kids[par]| - 1
    ensures ChildOk(mem', Dropped(kids, rank, par, i, old'), root, par, t)
  {
    hide Ranged, Linked, Ranked, Stays, Unwired, Dropped;
    DropFacts(mem, mem', kids, rank, root, par, i, old');
    DroppedLists(kids, rank, par, i, old');
    var ks, s := kids[par], if t < i then t else t + 1;
    ChildAt(mem, kids, root, par, s);
    UnwiredAt(mem, mem', par, ks, i, old', [], ks[s]);
    StaysDown(mem, kids, rank, root, old', par, s);
    RemovedAt(ks, i, t);
    hide NoDup, At;
  }

  /** The list without entry `i`, its entry `t` and the one after. */
  lemma RemovedAt(ks: seq<nat>, i: nat, t: nat)
    requires NoDup(ks) && i < |ks| && t < |ks| - 1
    ensures
      var r, s := ks[..i] + ks[i + 1..], if t < i then t else t + 1;
      && r[t] == ks[s] && ks[s] != ks[i] && |r| == |ks| - 1
      && (i > 0 ==> (ks[s] == ks[i - 1] <==> s == i - 1))
      && At([] + ks[i + 1..], 0) == At(ks, i + 1)
      && At(r, t + 1) == if s + 1 == i then At(ks, i + 1) else At(ks, s + 1)
  {
  }

  lemma DroppedLinked(mem: Mem, mem': Mem, kids: Kids, rank: map<nat, nat>, root: nat, par: nat, i: nat, old': nat)
    requires CanDrop(mem, mem', kids, rank, root, par, i, old')
    ensures Linked(mem', Dropped(kids, rank, par, i, old'), root)
  {
    hide Ranged, Ranked, ChildOk, Stays, Dropped;
    var kids' := Dropped(kids, rank, par, i, old');
    DropFacts(mem, mem', kids, rank, root, par, i, old');
    DroppedLists(kids, rank, par, i, old');
    forall p | p in kids'
      ensures mem'[p].child == First(kids'[p])
    {
      UnwiredAt(mem, mem', par, kids[par], i, old', [], p);
      assert [] + kids[par][i + 1..] == kids[par][i + 1..];
    }
    forall p, t | p in kids' && 0 <= t < |kids'[p]|
      ensures ChildOk(mem', kids', root, p, t)
    {
      DroppedChild(mem, mem', kids, rank, root, par, i, old', p, t);
    }
    forall q | q in kids' && q != root
      ensures mem'[q].parent in kids' && q in kids'[mem'[q].parent]
    {
      DroppedParent(mem, mem', kids, rank, root, par, i, old', q);
    }
  }

  lemma DroppedParent(mem: Mem, mem': Mem, kids: Kids, rank: map<nat, nat>, root: nat, par: nat, i: nat, old': nat, q: nat)
    requires CanDrop(mem, mem', kids, rank, root, par, i, old') && q in Dropped(kids, rank, par, i, old') && q != root
    ensures
      var kids' := Dropped(kids, rank, par, i, old');
      q in mem' && mem'[q].parent in kids' && q in kids'[mem'[q].parent]
  {
    hide Ranged, Ranked, Unwired, Under;
    LinkedKeys(mem, kids, root);
    var p, ks := mem[q].parent, kids[par];
    UnwiredAt(mem, mem', par, ks, i, old', [], q);
    var t :| 0 <= t < |kids[p]| && kids[p][t] == q;
    ChildAt(mem, kids, root, p, t);
    UnderBelowIf(kids, rank, old', p, t);
    DroppedLists(kids, rank, par, i, old');
    hide Dropped, Under, Linked;
    if p == par {
      RemovedIn(ks, i, q);
    }
  }

  lemma RemovedIn(ks: seq<nat>, i: nat, q: nat)
    requires i < |ks| && q in ks && q != ks[i]
    ensures q in ks[..i] || q in ks[i + 1..]
    ensures q in ks[..i] + ks[i + 1..]
  {
    var t :| 0 <= t < |ks| && ks[t] == q;
    assert t < i ==> ks[..i][t] == q;
    assert t > i ==> ks[i + 1..][t - i - 1] == q;
  }

  lemma {:induction false} UnderBelow(kids: Kids, rank: map<nat, nat>, p: nat, q: nat, i: nat)
    requires Ranked(kids, rank) && p in kids && (q == p || Under(kids, rank, p, q)) && q in kids && i < |kids[q]| && kids[q][i] in kids
    ensures Under(kids, rank, p, kids[q][i])
    decreases if p in rank then rank[p] else 0
  {
    if q != p {
      var t :| 0 <= t < |kids[p]| && kids[p][t] in kids && (kids[p][t] == q || Under(kids, rank, kids[p][t], q));
      UnderBelow(kids, rank, kids[p][t], q, i);
      assert Under(kids, rank, kids[p][t], kids[q][i]);
    }
  }

  lemma UnderBelowIf(kids: Kids, rank: map<nat, nat>, a: nat, p: nat, i: nat)
    requires Ranked(kids, rank) && a in kids && p in kids && i < |kids[p]| && kids[p][i] in kids
    ensures p == a || Under(kids, rank, a, p) ==> Under(kids, rank, a, kids[p][i])
  {
    if p == a || Under(kids, rank, a, p) {
      UnderBelow(kids, rank, a, p, i);
    }
  }

  lemma DroppedLists(kids: Kids, rank: map<nat, nat>, par: nat, i: nat, old': nat)
    requires Ranked(kids, rank) && par in kids && i < |kids[par]|
    ensures
      var kids' := Dropped(kids, rank, par, i, old');
      && (forall q :: q in kids' <==> Stays(kids, rank, old', q)) && kids'.Keys <= kids.Keys
      && (forall q :: q in kids' && q != par ==> kids'[q] == kids[q])
      && (par in kids' ==> kids'[par] == kids[par][..i] + kids[par][i + 1..])
  {
  }

  lemma DroppedOk(mem: Mem, mem': Mem, kids: Kids, rank: map<nat, nat>, root: nat, par: nat, i: nat, old': nat)
    requires CanDrop(mem, mem', kids, rank, root, par, i, old')
    ensures
      var kids' := Dropped(kids, rank, par, i, old');
      TreeOk(mem', kids', map q | q in kids' && q in rank :: rank[q], root)
  {
    hide Linked, ListRanged, Stays, Dropped;
    DroppedLinked(mem, mem', kids, rank, root, par, i, old');
    DropFacts(mem, mem', kids, rank, root, par, i, old');
    DroppedLists(kids, rank, par, i, old');
    var kids' := Dropped(kids, rank, par, i, old');
    assert SameRanges(mem, mem');
    hide Unwired, SameRanges;
    forall p | p in kids'
      ensures ListRanged(mem', mem'[p], kids'[p])
    {
      assert ListRanged(mem, mem[p], kids[p]);
      if p == par {
        RemoveRanged(mem, mem[par], kids[par], i);
      }
      ListRangedSame(mem, mem', p, kids'[p]);
    }
    LinkedClosed(mem, kids, root);
    forall p, t | p in kids' && 0 <= t < |kids'[p]| && kids'[p][t] in kids'
      ensures rank[kids'[p][t]] < rank[p]
    {
      assert kids'[p][t] == if p != par || t < i then kids[p][t] else kids[p][t + 1];
    }
  }

  lemma RemoveRanged(mem: Mem, p: Res, ks: seq<nat>, i: nat)
    requires i < |ks| && ListRanged(mem, p, ks)
    ensures ListRanged(mem, p, ks[..i] + ks[i + 1..])
  {
    var l := ks[..i] + ks[i + 1..];
    forall t | 0 <= t < |l|
      ensures l[t] == if t < i then ks[t] else ks[t + 1]
    {
    }
  }
}
