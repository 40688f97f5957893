/**
 kernel/resource.c: requesting, inserting and releasing address ranges.  `mem` is the memory that holds the
 resource records; the records reachable from `root` form the tree `kids`.
 */
module Resource {
  import opened ResourceTree

  /** The address of a pointer field: `&p->child` or `&p->sibling`. */
  datatype Slot = ChildOf(p: nat) | SiblingOf(p: nat)

  /** The records `ks` are chained by their sibling pointers. */
  ghost predicate Chain(mem: Mem, ks: seq<nat>) {
    && NoDup(ks)
    && forall t :: 0 <= t < |ks| ==> ks[t] in mem && mem[ks[t]].sibling == At(ks, t + 1)
  }

  ghost predicate Reparented(mem: Mem, mem': Mem, ks: seq<nat>, p: nat) {
    && mem'.Keys == mem.Keys
    && forall q :: q in mem ==> mem'[q] == if q in ks then mem[q].(parent := p) else mem[q]
  }

  class Resources {
    const root: nat
    var mem: Mem
    ghost var kids: Kids
    ghost var rank: map<nat, nat>

    ghost predicate Valid()
      reads this
    {
      TreeOk(mem, kids, rank, root)
    }

    /** A lone root and any number of records outside the tree. */
    constructor (root': nat, mem': Mem)
      requires root' in mem' && 0 !in mem' && mem'[root'].child == 0
      ensures Valid() && root == root' && mem == mem' && kids == map[root' := []]
    {
      root, mem, kids, rank := root', mem', map[root' := []], map[root' := 0];
    }

    method Get(s: Slot) returns (q: nat)
      requires s.p in mem
      ensures q == if s.ChildOf? then mem[s.p].child else mem[s.p].sibling
    {
      q := if s.ChildOf? then mem[s.p].child else mem[s.p].sibling;
    }

    method Put(s: Slot, q: nat)
      requires s.p in mem
      modifies this`mem
      ensures mem == old(mem)[s.p := if s.ChildOf? then old(mem)[s.p].(child := q) else old(mem)[s.p].(sibling := q)]
    {
      mem := mem[s.p := if s.ChildOf? then mem[s.p].(child := q) else mem[s.p].(sibling := q)];
    }

    /** Puts the new record in front of the one the slot points at. */
    method Link(p: Slot, tmp: nat, par: nat, new': nat, ghost ks: seq<nat>, ghost i: nat)
      requires i <= |ks| && par in mem && new' in mem && mem[new'].child == 0 && tmp == At(ks, i) && new' != par
      requires p == if i == 0 then ChildOf(par) else SiblingOf(ks[i - 1])
      requires i > 0 ==> ks[i - 1] in mem && ks[i - 1] != new'
      modifies this`mem
      ensures Rewired(old(mem), mem, par, ks, i, i, new')
    {
      mem := mem[new' := mem[new'].(sibling := tmp)];
      Put(p, new');
      mem := mem[new' := mem[new'].(parent := par)];
      assert ks[i..i] == [];
    }

    /** __request_resource(): links the new range in if no child of `par` overlaps it; otherwise names the
        first such child, or `par` itself when the range is empty or reaches outside. */
    method Request(par: nat, new': nat) returns (conflict: nat, ghost i: nat)
      requires Valid() && par in kids && new' in mem && new' !in kids && mem[new'].child == 0
      modifies this
      ensures Valid()
      ensures conflict == par <==> !(old(mem[new'].start <= mem[new'].end) && old(Inside(mem[new'], mem[par])))
      ensures conflict != 0 ==> mem == old(mem) && kids == old(kids) && rank == old(rank)
      ensures conflict != 0 && conflict != par ==>
        && i < |kids[par]| && conflict == kids[par][i] && conflict in kids && !Disjoint(mem[new'], mem[conflict])
        && ClearBefore(mem, kids[par], i, mem[new'].start)
      ensures conflict == 0 ==> i <= |old(kids[par])| && Fits(old(mem), par, old(kids[par]), i, i, new')
      ensures conflict == 0 ==> SameRanges(old(mem), mem) && RootKept(old(mem), mem, root) && kids == Spliced(old(kids), par, i, i, new')
    {
      hide Ranged, Ranked, Linked, ListRanged, Fits, Spliced, Reranked, Rewired;
      LinkedKeys(mem, kids, root);
      ghost var ks := kids[par];
      i := 0;
      var start, end := mem[new'].start, mem[new'].end;
      if end < start {
        return par, i;
      }
      if start < mem[par].start {
        return par, i;
      }
      if end > mem[par].end {
        return par, i;
      }
      var p := ChildOf(par);
      while true
        invariant mem == old(mem) && kids == old(kids) && rank == old(rank) && i <= |ks|
        invariant p == if i == 0 then ChildOf(par) else SiblingOf(ks[i - 1])
        invariant ClearBefore(mem, ks, i, start)
        decreases |ks| - i
      {
        SlotReads(mem, kids, root, par, i);
        var tmp := Get(p);
        if tmp == 0 || mem[tmp].start > end {
          RestAfter(mem, kids, root, par, i, new');
          ghost var was := mem;
          Link(p, tmp, par, new', ks, i);
          SplicedOk(was, mem, kids, rank, root, par, i, i, new');
          RewiredRanges(was, mem, par, ks, i, i, new');
          SplicedRoot(was, mem, kids, rank, root, par, i, i, new');
          kids, rank := Spliced(kids, par, i, i, new'), Reranked(rank, par, new');
          return 0, i;
        }
        KidFacts(mem, kids, rank, root, par, i);
        p := SiblingOf(tmp);
        if mem[tmp].end < start {
          i := i + 1;
          continue;
        }
        return tmp, i;
      }
    }

    /** Walks the children from `first` on that overlap the new range; 0 when all of them lie inside it, else the first
        that does not. */
    method Overlapped(par: nat, first: nat, new': nat, ghost i: nat) returns (bad: nat, next: nat, ghost j: nat)
      requires Valid() && par in kids && i < |kids[par]| && first == kids[par][i] && new' in mem
      requires mem[new'].start <= mem[new'].end && Inside(mem[new'], mem[par]) && ClearBefore(mem, kids[par], i, mem[new'].start)
      requires first in mem && !Disjoint(mem[new'], mem[first]) && (Inside(mem[new'], mem[first]) ==> Inside(mem[first], mem[new']))
      ensures bad == 0 ==> i < j <= |kids[par]| && next == kids[par][j - 1] && Fits(mem, par, kids[par], i, j, new')
      ensures bad != 0 ==> FirstCrossing(mem, kids[par], j, new', bad)
    {
      hide Ranged, Ranked, Linked, ListRanged, Fits;
      ghost var ks := kids[par];
      next, j := first, i;
      while true
        invariant i <= j < |ks| && next == ks[j] && next in mem
        invariant j > i ==> mem[next].start <= mem[new'].end
        invariant forall t :: i <= t < j ==> ks[t] in mem && Inside(mem[ks[t]], mem[new'])
        decreases |ks| - j
      {
        KidFacts(mem, kids, rank, root, par, j);
        if mem[next].start < mem[new'].start || mem[next].end > mem[new'].end {
          BadOverlap(mem, kids, root, par, i, j, new');
          BeforeCrossing(mem, ks, i, j, new');
          return next, next, j;
        }
        if j + 1 < |ks| {
          KidFacts(mem, kids, rank, root, par, j + 1);
        }
        if mem[next].sibling == 0 {
          break;
        }
        if mem[mem[next].sibling].start > mem[new'].end {
          break;
        }
        next := mem[next].sibling;
        j := j + 1;
      }
      j := j + 1;
      FitsAround(mem, kids, par, i, j, new');
      bad := 0;
    }

    /** Sets the parent of every record of a chain. */
    method Reparent(first: nat, p: nat, ghost ks: seq<nat>)
      requires Chain(mem, ks) && first == At(ks, 0) && 0 !in mem
      modifies this`mem
      ensures Reparented(old(mem), mem, ks, p)
    {
      var next := first;
      ghost var t := 0;
      while next != 0
        invariant t <= |ks| && next == At(ks, t)
        invariant Reparented(old(mem), mem, ks[..t], p)
        decreases |ks| - t
      {
        ghost var was := mem;
        mem := mem[next := mem[next].(parent := p)];
        ReparentedNext(old(mem), was, mem, ks, t, p);
        next := mem[next].sibling;
        t := t + 1;
      }
      assert ks[..t] == ks;
    }

    /** Finds the record in front of `first` in the chain. */
    method Before(par: nat, first: nat, ghost ks: seq<nat>, ghost i: nat) returns (prev: nat)
      requires 0 < i < |ks| && first == ks[i] && NoDup(ks) && Prefix(mem, par, ks, i)
      ensures prev == ks[i - 1]
    {
      prev := mem[par].child;
      ghost var t := 0;
      while mem[prev].sibling != first
        invariant t < i && prev == ks[t] && prev in mem && mem[prev].sibling == ks[t + 1]
        decreases i - t
      {
        prev := mem[prev].sibling;
        t := t + 1;
      }
    }

    /** The pointer updates at the end of __insert_resource(). */
    method WrapLinks(par: nat, first: nat, next: nat, new': nat, ghost i: nat, ghost j: nat)
      requires Valid() && par in kids && new' in mem && new' !in kids
      requires i < j <= |kids[par]| && first == kids[par][i] && next == kids[par][j - 1]
      modifies this`mem
      ensures CanSplice(old(mem), mem, kids, rank, root, par, i, j, new')
    {
      hide TreeOk, ListRanged, Rewired, CanSplice, NoDup, Prefix, Chain, Reparented;
      ghost var was, ks := mem, kids[par];
      WrapFacts(mem, kids, rank, root, par, i, j, new');
      WrapNoDup(mem, kids, rank, root, par);
      mem := mem[new' := Res(mem[new'].start, mem[new'].end, par, first, mem[next].sibling)];
      mem := mem[next := mem[next].(sibling := 0)];
      ghost var mid := mem;
      assert Overtaken(was, mid, par, ks, i, j, new');
      hide Overtaken;
      WrapChain(was, mid, kids, rank, root, par, i, j, new');
      Reparent(first, new', ks[i..j]);
      ghost var m := mem;
      WrapPrefix(was, mid, m, kids, rank, root, par, i, j, new');
      if mem[par].child == first {
        mem := mem[par := mem[par].(child := new')];
      } else {
        var prev := Before(par, first, ks, i);
        mem := mem[prev := mem[prev].(sibling := new')];
      }
      WrapWired(was, mid, m, mem, kids, rank, root, par, i, j, new');
    }

    /** The new record takes over the children i..j-1 of `par`. */
    method Wrap(par: nat, first: nat, next: nat, new': nat, ghost i: nat, ghost j: nat)
      requires Valid() && par in kids && new' in mem && new' !in kids && Fits(mem, par, kids[par], i, j, new')
      requires i < j <= |kids[par]| && first == kids[par][i] && next == kids[par][j - 1]
      modifies this
      ensures Valid() && SameRanges(old(mem), mem) && RootKept(old(mem), mem, root)
      ensures kids == Spliced(old(kids), par, i, j, new')
    {
      hide Ranged, Ranked, Linked, ListRanged, Fits, Spliced, Reranked, Rewired, SameRanges;
      ghost var was := mem;
      WrapLinks(par, first, next, new', i, j);
      SplicedOk(was, mem, kids, rank, root, par, i, j, new');
      RewiredRanges(was, mem, par, kids[par], i, j, new');
      SplicedRoot(was, mem, kids, rank, root, par, i, j, new');
      kids, rank := Spliced(kids, par, i, j, new'), Reranked(rank, par, new');
    }

    /** __insert_resource(): succeeds exactly when the range lies in `par` and is disjoint from, inside or
        around everything below `par`; then it goes below the innermost range around it and takes over what
        lies inside it.  A failure changes nothing and names the record in the way: `par` for a range that is empty or
        reaches outside, and otherwise the first child that crosses the range, in the list of the innermost record around it. */
    method Insert(par: nat, new': nat) returns (conflict: nat, ghost at: nat, ghost i: nat, ghost j: nat)
      requires Valid() && par in kids && new' in mem && new' !in kids && mem[new'].child == 0
      modifies this
      ensures Valid()
      ensures conflict == 0 <==>
        old(mem[new'].start <= mem[new'].end && Inside(mem[new'], mem[par]) && AllCompatible(mem, kids, rank, par, mem[new']))
      ensures conflict != 0 ==> mem == old(mem) && kids == old(kids) && rank == old(rank)
      ensures conflict == par <==> !old(mem[new'].start <= mem[new'].end && Inside(mem[new'], mem[par]))
      ensures conflict != 0 && conflict != par ==>
        && at in kids && (at == par || Under(kids, rank, par, at)) && Under(kids, rank, par, conflict)
        && Inside(mem[new'], mem[at]) && FirstCrossing(mem, kids[at], j, new', conflict)
      ensures conflict == 0 ==>
        && at in old(kids) && i <= j <= |old(kids)[at]| && kids == Spliced(old(kids), at, i, j, new')
        && SameRanges(old(mem), mem) && RootKept(old(mem), mem, root)
        && (at == par || old(Under(kids, rank, par, at))) && Fits(old(mem), at, old(kids)[at], i, j, new')
    {
      hide Ranged, Ranked, Linked, ListRanged, Fits, Spliced, Reranked, Rewired, SameRanges, AllCompatible, Under, FirstCrossing;
      LinkedKeys(mem, kids, root);
      ghost var ok := mem[new'].start <= mem[new'].end && Inside(mem[new'], mem[par]);
      at, i, j := par, 0, 0;
      var parent, first := par, 0;
      RankKeys(kids, rank);
      while true
        invariant mem == old(mem) && kids == old(kids) && rank == old(rank) && parent in kids && at == parent
        invariant parent == par || Under(kids, rank, par, parent)
        invariant parent != par ==> ok
        invariant ok ==> Inside(mem[new'], mem[parent])
        invariant ok ==> (AllCompatible(mem, kids, rank, par, mem[new']) <==> AllCompatible(mem, kids, rank, parent, mem[new']))
        decreases rank[parent]
      {
        ghost var was, wasKids, wasRank := mem, kids, rank;
        first, i := Request(parent, new');
        j := i;
        if first == 0 {
          GapCompatible(was, wasKids, wasRank, root, parent, i, new');
          return 0, at, i, j;
        }
        if first == parent {
          return first, at, i, j;
        }
        KidFacts(mem, kids, rank, root, parent, i);
        if mem[first].start > mem[new'].start || mem[first].end < mem[new'].end {
          break;
        }
        if mem[first].start == mem[new'].start && mem[first].end == mem[new'].end {
          break;
        }
        CompatibleDescend(mem, kids, rank, root, parent, i, mem[new']);
        UnderBelow(kids, rank, par, parent, i);
        parent, at := first, first;
      }
      var bad, next;
      bad, next, j := Overlapped(parent, first, new', i);
      if bad != 0 {
        BadNot(mem, kids, rank, root, par, parent, j, bad, new');
        return bad, at, i, j;
      }
      WrapCompatible(mem, kids, rank, root, parent, i, j, new');
      Wrap(parent, first, next, new', i, j);
      return 0, at, i, j;
    }

    /** Gives a chain of records to `p` and returns the last of them. */
    method Adopt(first: nat, p: nat, ghost cs: seq<nat>) returns (chd: nat)
      requires Chain(mem, cs) && cs != [] && first == cs[0] && 0 !in mem
      modifies this`mem
      ensures chd == cs[|cs| - 1] && Reparented(old(mem), mem, cs, p)
    {
      chd := first;
      ghost var t := 0;
      while true
        invariant t < |cs| && chd == cs[t] && Reparented(old(mem), mem, cs[..t], p)
        decreases |cs| - t
      {
        ghost var was := mem;
        mem := mem[chd := mem[chd].(parent := p)];
        ReparentedNext(old(mem), was, mem, cs, t, p);
        if mem[chd].sibling == 0 {
          break;
        }
        chd := mem[chd].sibling;
        t := t + 1;
      }
      assert t + 1 == |cs|;
      assert cs[..t + 1] == cs;
    }

    /** The pointer updates of __release_resource() once the record is found at slot `p`. */
    method Unlink(p: Slot, old': nat, releaseChild: bool, ghost par: nat, ghost i: nat, ghost ks: seq<nat>, ghost cs: seq<nat>)
      requires Valid() && par in kids && ks == kids[par] && i < |ks| && ks[i] == old'
      requires old' in kids && cs == kids[old'] && old' in mem && mem[old'].parent == par
      requires p == if i == 0 then ChildOf(par) else SiblingOf(ks[i - 1])
      modifies this`mem
      ensures Unwired(old(mem), mem, par, ks, i, old', if releaseChild || cs == [] then [] else cs)
    {
      hide TreeOk, ListRanged, Chain, Reparented, Unwired;
      ghost var was := mem;
      UnlinkFacts(mem, kids, rank, root, par, i);
      if releaseChild || mem[old'].child == 0 {
        Put(p, mem[old'].sibling);
        mem := mem[old' := mem[old'].(parent := 0)];
        CutWired(was, mem, kids, rank, root, par, i);
      } else {
        var chd := Adopt(mem[old'].child, mem[old'].parent, cs);
        ghost var mid := mem;
        AdoptFacts(was, mid, kids, rank, root, par, i);
        Put(p, mem[old'].child);
        mem := mem[chd := mem[chd].(sibling := mem[old'].sibling)];
        mem := mem[old' := mem[old'].(parent := 0)];
        UnlinkWired(was, mid, mem, kids, rank, root, par, i);
      }
    }

    /** __release_resource(): takes the record out of its parent's list, with everything below it or leaving its
        children in its place; fails only when the record is not in that list. */
    method Release(old': nat, releaseChild: bool) returns (ok: bool, ghost par: nat, ghost i: nat)
      requires Valid() && old' in mem && mem[old'].parent in kids
      modifies this
      ensures Valid() && par == old(mem[old'].parent) && SameRanges(old(mem), mem) && RootKept(old(mem), mem, root)
      ensures ok <==> old' in old(kids)[par]
      ensures !ok ==> mem == old(mem) && kids == old(kids) && rank == old(rank)
      ensures ok ==> i < |old(kids)[par]| && old(kids)[par][i] == old' && old' in old(kids)
      ensures ok && !releaseChild ==> kids == Unspliced(old(kids), par, i, old')
      ensures ok && releaseChild ==> kids == old(Dropped(kids, rank, par, i, old'))
    {
      hide Ranged, Ranked, Linked, ListRanged, Unspliced, Dropped, Unwired, SameRanges;
      par, i := mem[old'].parent, 0;
      ghost var ks := kids[par];
      LinkedKeys(mem, kids, root);
      Unchanged(mem, root);
      var p := ChildOf(mem[old'].parent);
      while true
        invariant mem == old(mem) && kids == old(kids) && rank == old(rank) && i <= |ks| && old' !in ks[..i]
        invariant p == if i == 0 then ChildOf(par) else SiblingOf(ks[i - 1])
        decreases |ks| - i
      {
        SlotReads(mem, kids, root, par, i);
        var tmp := Get(p);
        if tmp == 0 {
          break;
        }
        if tmp == old' {
          KidFacts(mem, kids, rank, root, par, i);
          ghost var was := mem;
          Unlink(p, old', releaseChild, par, i, ks, kids[old']);
          ReleaseOk(was, mem, kids, rank, root, par, i, old', releaseChild);
          if releaseChild {
            kids, rank := Dropped(kids, rank, par, i, old'), map q | q in Dropped(kids, rank, par, i, old') && q in rank :: rank[q];
          } else {
            kids, rank := Unspliced(kids, par, i, old'), rank - {old'};
          }
          return true, par, i;
        }
        p := SiblingOf(tmp);
        i := i + 1;
      }
      assert ks[..i] == ks;
      return false, par, i;
    }

    /** Releasing what was just inserted gives the old tree back, pointer by pointer. */
    method InsertRelease(par: nat, new': nat) returns (conflict: nat)
      requires Valid() && par in kids && new' in mem && new' !in kids && mem[new'].child == 0
      modifies this
      ensures Valid() && kids == old(kids)
      ensures forall q :: q in kids ==> q in old(mem) && q in mem && mem[q] == old(mem)[q]
    {
      hide Ranged, Ranked, Linked, ListRanged, Unspliced, Spliced, Fits, AllCompatible, Under;
      ghost var was, wasKids := mem, kids;
      ghost var at, i, j;
      LinkedKeys(mem, kids, root);
      conflict, at, i, j := Insert(par, new');
      if conflict == 0 {
        SplicedLists(wasKids, at, i, j, new');
        NewChild(mem, kids, root, at, i, new');
        ghost var mid, midKids := mem, kids;
        var ok;
        ghost var par', i';
        ok, par', i' := Release(new', false);
        SameKid(mid, midKids, at, i, i');
        SpliceUndone(wasKids, at, i, j, new');
        forall q | q in kids
          ensures q in was && q in mem && mem[q] == was[q]
        {
          LinkedKeys(was, kids, root);
          LinksDetermined(was, mem, kids, root, q);
        }
      }
    }
  }

  lemma ReparentedNext(m0: Mem, was: Mem, mem: Mem, ks: seq<nat>, t: nat, p: nat)
    requires Chain(m0, ks) && t < |ks| && Reparented(m0, was, ks[..t], p) && ks[t] in was && mem == was[ks[t] := was[ks[t]].(parent := p)]
    ensures Reparented(m0, mem, ks[..t + 1], p)
  {
    assert ks[..t + 1] == ks[..t] + [ks[t]];
  }

  ghost predicate ClearBefore(mem: Mem, ks: seq<nat>, i: nat, start: nat) {
    i <= |ks| && forall t :: 0 <= t < i ==> ks[t] in mem && mem[ks[t]].end < start
  }

  lemma RewiredRanges(mem: Mem, mem': Mem, par: nat, ks: seq<nat>, i: nat, j: nat, new': nat)
    requires i <= j <= |ks| && Rewired(mem, mem', par, ks, i, j, new')
    ensures SameRanges(mem, mem')
  {
  }

  lemma KidFacts(mem: Mem, kids: Kids, rank: map<nat, nat>, root: nat, par: nat, t: nat)
    requires TreeOk(mem, kids, rank, root) && par in kids && t < |kids[par]|
    ensures
      var k := kids[par][t];
      && k in kids && k in mem && k != par && k != 0 && k != root && mem[k].start <= mem[k].end
      && mem[k].parent == par && mem[k].sibling == At(kids[par], t + 1) && rank.Keys == kids.Keys && rank[k] < rank[par]
  {
    hide Ranged, Linked;
    LinkedKeys(mem, kids, root);
    ChildAt(mem, kids, root, par, t);
    KidRange(mem, kids, par, t);
  }

  lemma KidRange(mem: Mem, kids: Kids, par: nat, t: nat)
    requires Ranged(mem, kids) && par in kids && t < |kids[par]|
    ensures kids[par][t] in mem && par in mem && mem[kids[par][t]].start <= mem[kids[par][t]].end && Inside(mem[kids[par][t]], mem[par])
  {
    assert ListRanged(mem, mem[par], kids[par]);
  }

  lemma SlotReads(mem: Mem, kids: Kids, root: nat, par: nat, i: nat)
    requires Linked(mem, kids, root) && par in kids && i <= |kids[par]|
    ensures par in mem && mem[par].child == At(kids[par], 0)
    ensures i > 0 ==> kids[par][i - 1] in mem && mem[kids[par][i - 1]].sibling == At(kids[par], i)
    ensures i < |kids[par]| ==> kids[par][i] in mem && kids[par][i] != 0
  {
    if i > 0 {
      ChildAt(mem, kids, root, par, i - 1);
    }
    if i < |kids[par]| {
      ChildAt(mem, kids, root, par, i);
    }
  }

  /** The children from `i` on start after the new range ends. */
  lemma RestAfter(mem: Mem, kids: Kids, root: nat, par: nat, i: nat, new': nat)
    requires Linked(mem, kids, root) && Ranged(mem, kids) && par in kids && i <= |kids[par]| && new' in mem
    requires mem[new'].start <= mem[new'].end && Inside(mem[new'], mem[par])
    requires ClearBefore(mem, kids[par], i, mem[new'].start)
    requires i < |kids[par]| && kids[par][i] in mem ==> mem[new'].end < mem[kids[par][i]].start
    ensures Fits(mem, par, kids[par], i, i, new')
  {
    assert ListRanged(mem, mem[par], kids[par]);
    forall t | i <= t < |kids[par]|
      ensures kids[par][t] in mem && mem[new'].end < mem[kids[par][t]].start
    {
      assert t > i ==> mem[kids[par][i]].end < mem[kids[par][t]].start;
    }
  }

  lemma BadOverlap(mem: Mem, kids: Kids, root: nat, par: nat, i: nat, j: nat, new': nat)
    requires Ranged(mem, kids) && par in kids && i <= j < |kids[par]| && new' in mem && mem[new'].start <= mem[new'].end
    requires kids[par][i] in mem && kids[par][j] in mem && !Disjoint(mem[new'], mem[kids[par][i]])
    requires Inside(mem[new'], mem[kids[par][i]]) ==> Inside(mem[kids[par][i]], mem[new'])
    requires j > i ==> mem[kids[par][j]].start <= mem[new'].end && Inside(mem[kids[par][i]], mem[new'])
    requires !Inside(mem[kids[par][j]], mem[new'])
    ensures !Compatible(mem[new'], mem[kids[par][j]])
  {
    assert ListRanged(mem, mem[par], kids[par]);
    assert j > i ==> mem[kids[par][i]].end < mem[kids[par][j]].start;
  }

  lemma FitsAround(mem: Mem, kids: Kids, par: nat, i: nat, j: nat, new': nat)
    requires Ranged(mem, kids) && par in kids && i < j <= |kids[par]| && new' in mem && mem[new'].start <= mem[new'].end
    requires Inside(mem[new'], mem[par]) && ClearBefore(mem, kids[par], i, mem[new'].start)
    requires forall t :: i <= t < j ==> kids[par][t] in mem && Inside(mem[kids[par][t]], mem[new'])
    requires j < |kids[par]| ==> kids[par][j] in mem && mem[kids[par][j]].start > mem[new'].end
    ensures Fits(mem, par, kids[par], i, j, new')
  {
    assert ListRanged(mem, mem[par], kids[par]);
    forall t | j <= t < |kids[par]|
      ensures kids[par][t] in mem && mem[new'].end < mem[kids[par][t]].start
    {
      assert t > j ==> mem[kids[par][j]].end < mem[kids[par][t]].start;
    }
  }

  lemma WrapFacts(mem: Mem, kids: Kids, rank: map<nat, nat>, root: nat, par: nat, i: nat, j: nat, new': nat)
    requires TreeOk(mem, kids, rank, root) && par in kids && i < j <= |kids[par]| && new' in mem && new' !in kids
    ensures
      var ks := kids[par];
      && par in mem && par != new' && 0 !in mem && ks[i] in mem && ks[j - 1] in mem && ks[j - 1] != new' && ks[i] != 0
      && mem[ks[j - 1]].sibling == At(ks, j)
      && (mem[par].child == ks[i] <==> i == 0)
      && (i > 0 ==> ks[i - 1] in mem && ks[i - 1] != 0 && ks[i - 1] != new')
  {
    hide Ranged, Ranked, Linked;
    LinkedKeys(mem, kids, root);
    SlotReads(mem, kids, root, par, 0);
    KidsNoDup(mem, kids, par);
    KidFacts(mem, kids, rank, root, par, i);
    KidFacts(mem, kids, rank, root, par, j - 1);
    if i > 0 {
      KidFacts(mem, kids, rank, root, par, i - 1);
    }
  }

  lemma WrapChain(was: Mem, mid: Mem, kids: Kids, rank: map<nat, nat>, root: nat, par: nat, i: nat, j: nat, new': nat)
    requires TreeOk(was, kids, rank, root) && par in kids && new' !in kids && Overtaken(was, mid, par, kids[par], i, j, new')
    ensures Chain(mid, kids[par][i..j]) && 0 !in mid && kids[par][i] == At(kids[par][i..j], 0)
  {
    hide Ranged, Ranked, Linked;
    LinkedKeys(was, kids, root);
    KidsNoDup(was, kids, par);
    var ks := kids[par];
    forall t | 0 <= t < j - i
      ensures ks[i..j][t] in mid && mid[ks[i..j][t]].sibling == At(ks[i..j], t + 1)
    {
      KidFacts(was, kids, rank, root, par, i + t);
      assert ks[i..j][t] == ks[i + t];
      if i + t == j - 1 {
        KidFacts(was, kids, rank, root, par, j - 1);
      } else {
        assert ks[i + t] != ks[j - 1];
      }
    }
  }

  lemma WrapNoDup(mem: Mem, kids: Kids, rank: map<nat, nat>, root: nat, par: nat)
    requires TreeOk(mem, kids, rank, root) && par in kids
    ensures NoDup(kids[par])
  {
    KidsNoDup(mem, kids, par);
  }

  /** The records `ks[..i]` still lead from `par` to `ks[i]`. */
  ghost predicate Prefix(mem: Mem, par: nat, ks: seq<nat>, i: nat) {
    && i < |ks| && par in mem && mem[par].child == ks[0]
    && forall t :: 0 <= t < i ==> ks[t] in mem && mem[ks[t]].sibling == ks[t + 1]
  }

  ghost predicate Overtaken(was: Mem, mid: Mem, par: nat, ks: seq<nat>, i: nat, j: nat, new': nat) {
    && i < j <= |ks| && new' in was && ks[j - 1] in was && ks[j - 1] != new'
    && mid == was[new' := Res(was[new'].start, was[new'].end, par, ks[i], was[ks[j - 1]].sibling)]
                 [ks[j - 1] := was[ks[j - 1]].(sibling := 0)]
  }

  lemma KidsOutside(mem: Mem, kids: Kids, rank: map<nat, nat>, root: nat, par: nat, new': nat)
    requires TreeOk(mem, kids, rank, root) && par in kids && new' !in kids
    ensures NoDup(kids[par]) && par != new' && forall t :: 0 <= t < |kids[par]| ==> kids[par][t] != par && kids[par][t] != new'
  {
    hide Ranged, Ranked, Linked;
    KidsNoDup(mem, kids, par);
    forall t | 0 <= t < |kids[par]|
      ensures kids[par][t] != par && kids[par][t] != new'
    {
      KidFacts(mem, kids, rank, root, par, t);
    }
  }

  lemma WrapPrefix(was: Mem, mid: Mem, m: Mem, kids: Kids, rank: map<nat, nat>, root: nat, par: nat, i: nat, j: nat, new': nat)
    requires TreeOk(was, kids, rank, root) && par in kids && new' !in kids && Overtaken(was, mid, par, kids[par], i, j, new')
    requires Reparented(mid, m, kids[par][i..j], new')
    ensures Prefix(m, par, kids[par], i) && par in m && (m[par].child == kids[par][i] <==> i == 0)
    ensures i > 0 ==> kids[par][i - 1] in m
  {
    hide Ranged, Ranked, Linked;
    var ks := kids[par];
    LinkedKeys(was, kids, root);
    SlotReads(was, kids, root, par, 0);
    KidsOutside(was, kids, rank, root, par, new');
    forall t | 0 <= t < i
      ensures ks[t] in m && m[ks[t]].sibling == ks[t + 1]
    {
      KidFacts(was, kids, rank, root, par, t);
      assert ks[t] != ks[j - 1];
    }
  }

  /** One record after the new one has taken over the children i..j-1. */
  lemma WrapRecord(was: Mem, mid: Mem, m: Mem, mem: Mem, par: nat, ks: seq<nat>, i: nat, j: nat, new': nat, q: nat)
    requires Overtaken(was, mid, par, ks, i, j, new') && Reparented(mid, m, ks[i..j], new') && q in was
    requires par in m && (i > 0 ==> ks[i - 1] in m) && was[ks[j - 1]].sibling == At(ks, j)
    requires mem == if i == 0 then m[par := m[par].(child := new')] else m[ks[i - 1] := m[ks[i - 1]].(sibling := new')]
    requires NoDup(ks) && par != new' && forall t :: 0 <= t < |ks| ==> ks[t] != par && ks[t] != new'
    ensures q in mem && mem[q].start == was[q].start && mem[q].end == was[q].end
    ensures mem[q].parent == if q == new' then par else if q in ks[i..j] then new' else was[q].parent
    ensures mem[q].child == if q == new' then ks[i] else if q == par && i == 0 then new' else was[q].child
    ensures mem[q].sibling ==
      if q == new' then At(ks, j) else if i > 0 && q == ks[i - 1] then new'
      else if q == ks[j - 1] then 0 else was[q].sibling
  {
    assert m[q] == if q in ks[i..j] then mid[q].(parent := new') else mid[q];
    assert ks[j - 1] == ks[i..j][j - 1 - i];
    assert new' !in ks[i..j] && par !in ks[i..j];
    if i > 0 {
      assert ks[i - 1] !in ks[i..j];
    }
  }

  lemma WrapRewired(was: Mem, mid: Mem, m: Mem, mem: Mem, par: nat, ks: seq<nat>, i: nat, j: nat, new': nat)
    requires Overtaken(was, mid, par, ks, i, j, new') && Reparented(mid, m, ks[i..j], new')
    requires par in m && (i > 0 ==> ks[i - 1] in m) && was[ks[j - 1]].sibling == At(ks, j)
    requires mem == if i == 0 then m[par := m[par].(child := new')] else m[ks[i - 1] := m[ks[i - 1]].(sibling := new')]
    requires NoDup(ks) && par != new' && forall t :: 0 <= t < |ks| ==> ks[t] != par && ks[t] != new'
    ensures Rewired(was, mem, par, ks, i, j, new')
  {
    assert mem.Keys == m.Keys == mid.Keys == was.Keys;
    hide Overtaken, Reparented, NoDup;
    assert First(ks[i..j]) == ks[i];
    forall q | q in was
      ensures q in mem && mem[q].start == was[q].start && mem[q].end == was[q].end
      ensures mem[q].parent == if q == new' then par else if q in ks[i..j] then new' else was[q].parent
      ensures mem[q].child == if q == new' then First(ks[i..j]) else if q == par && i == 0 then new' else was[q].child
      ensures mem[q].sibling ==
        if q == new' then At(ks, j) else if i > 0 && q == ks[i - 1] then new'
        else if i < j && q == ks[j - 1] then 0 else was[q].sibling
    {
      WrapRecord(was, mid, m, mem, par, ks, i, j, new', q);
    }
  }

  lemma WrapWired(was: Mem, mid: Mem, m: Mem, mem: Mem, kids: Kids, rank: map<nat, nat>, root: nat, par: nat, i: nat, j: nat, new': nat)
    requires TreeOk(was, kids, rank, root) && par in kids && new' !in kids && Overtaken(was, mid, par, kids[par], i, j, new')
    requires Reparented(mid, m, kids[par][i..j], new') && par in m && (i > 0 ==> kids[par][i - 1] in m)
    requires mem == if i == 0 then m[par := m[par].(child := new')] else m[kids[par][i - 1] := m[kids[par][i - 1]].(sibling := new')]
    ensures CanSplice(was, mem, kids, rank, root, par, i, j, new')
  {
    hide TreeOk, NoDup, Reparented, Rewired;
    WrapFacts(was, kids, rank, root, par, i, j, new');
    KidsOutside(was, kids, rank, root, par, new');
    WrapRewired(was, mid, m, mem, par, kids[par], i, j, new');
  }

  lemma RankKeys(kids: Kids, rank: map<nat, nat>)
    requires Ranked(kids, rank)
    ensures rank.Keys == kids.Keys
  {
  }

  lemma GapCompatible(mem: Mem, kids: Kids, rank: map<nat, nat>, root: nat, par: nat, i: nat, new': nat)
    requires TreeOk(mem, kids, rank, root) && par in kids && Fits(mem, par, kids[par], i, i, new')
    ensures AllCompatible(mem, kids, rank, par, mem[new'])
  {
    hide Ranked;
    forall t | 0 <= t < |kids[par]|
      ensures Disjoint(mem[new'], mem[kids[par][t]])
    {
      ChildAt(mem, kids, root, par, t);
    }
    CompatibleIff(mem, kids, rank, root, par, mem[new']);
  }

  lemma WrapCompatible(mem: Mem, kids: Kids, rank: map<nat, nat>, root: nat, par: nat, i: nat, j: nat, new': nat)
    requires TreeOk(mem, kids, rank, root) && par in kids && Fits(mem, par, kids[par], i, j, new')
    ensures AllCompatible(mem, kids, rank, par, mem[new'])
  {
    hide Ranked;
    forall t | 0 <= t < |kids[par]|
      ensures Disjoint(mem[new'], mem[kids[par][t]]) || Inside(mem[kids[par][t]], mem[new'])
    {
      ChildAt(mem, kids, root, par, t);
    }
    CompatibleIff(mem, kids, rank, root, par, mem[new']);
  }

  /** Record `bad` of a list crosses the new range, and none before it does. */
  ghost predicate FirstCrossing(mem: Mem, ks: seq<nat>, j: nat, new': nat, bad: nat) {
    && j < |ks| && ks[j] == bad && bad in mem && new' in mem && !Compatible(mem[new'], mem[bad])
    && forall t :: 0 <= t < j ==> ks[t] in mem && Compatible(mem[new'], mem[ks[t]])
  }

  lemma BeforeCrossing(mem: Mem, ks: seq<nat>, i: nat, j: nat, new': nat)
    requires new' in mem && i <= j <= |ks| && ClearBefore(mem, ks, i, mem[new'].start)
    requires forall t :: i <= t < j ==> ks[t] in mem && Inside(mem[ks[t]], mem[new'])
    ensures forall t :: 0 <= t < j ==> ks[t] in mem && Compatible(mem[new'], mem[ks[t]])
  {
  }

  lemma BadNot(mem: Mem, kids: Kids, rank: map<nat, nat>, root: nat, par: nat, at: nat, j: nat, bad: nat, new': nat)
    requires TreeOk(mem, kids, rank, root) && par in kids && at in kids && (at == par || Under(kids, rank, par, at))
    requires FirstCrossing(mem, kids[at], j, new', bad)
    ensures !AllCompatible(mem, kids, rank, at, mem[new']) && bad != 0 && bad != par && Under(kids, rank, par, bad)
  {
    hide Ranged, Compatible;
    KidFacts(mem, kids, rank, root, at, j);
    UnderChild(kids, rank, at, j);
    UnderBelow(kids, rank, par, at, j);
    UnderRank(kids, rank, par, bad);
  }

  // --- releasing ---

  lemma UnlinkFacts(mem: Mem, kids: Kids, rank: map<nat, nat>, root: nat, par: nat, i: nat)
    requires TreeOk(mem, kids, rank, root) && par in kids && i < |kids[par]|
    ensures
      var ks, k := kids[par], kids[par][i];
      && k in kids && k in mem && k != par && 0 !in mem && par in mem && mem[k].sibling == At(ks, i + 1) && mem[k].child == At(kids[k], 0)
      && (i > 0 ==> ks[i - 1] in mem && ks[i - 1] != k && ks[i - 1] != par && ks[i - 1] !in kids[k])
      && par !in kids[k] && k !in kids[k] && Chain(mem, kids[k]) && (mem[k].child == 0 <==> kids[k] == [])
  {
    hide Ranged, Ranked, Linked;
    LinkedKeys(mem, kids, root);
    KidFacts(mem, kids, rank, root, par, i);
    var k := kids[par][i];
    SlotReads(mem, kids, root, k, 0);
    KidsNoDup(mem, kids, par);
    KidsNoDup(mem, kids, k);
    if i > 0 {
      KidFacts(mem, kids, rank, root, par, i - 1);
    }
    forall t | 0 <= t < |kids[k]|
      ensures kids[k][t] in mem && kids[k][t] != 0 && mem[kids[k][t]].sibling == At(kids[k], t + 1)
      ensures kids[k][t] != par && kids[k][t] != k && (i > 0 ==> kids[k][t] != kids[par][i - 1])
    {
      KidFacts(mem, kids, rank, root, k, t);
    }
  }

  lemma AdoptFacts(was: Mem, mid: Mem, kids: Kids, rank: map<nat, nat>, root: nat, par: nat, i: nat)
    requires TreeOk(was, kids, rank, root) && par in kids && i < |kids[par]| && kids[par][i] in kids
    requires Reparented(was, mid, kids[kids[par][i]], par)
    ensures var cs := kids[kids[par][i]]; cs != [] ==> cs[|cs| - 1] in mid
    ensures mid.Keys == was.Keys && kids[par][i] in was && mid[kids[par][i]] == was[kids[par][i]]
    ensures par in mid && (i > 0 ==> kids[par][i - 1] in mid)
  {
    hide TreeOk;
    UnlinkFacts(was, kids, rank, root, par, i);
  }

  /** One record after the children of `k` have taken its place. */
  lemma UnlinkRecord(was: Mem, mid: Mem, mem: Mem, par: nat, ks: seq<nat>, i: nat, k: nat, cs: seq<nat>, q: nat)
    requires i < |ks| && k == ks[i] && cs != [] && Reparented(was, mid, cs, par) && q in was
    requires k in mid && par in mid && cs[|cs| - 1] in mid && (i > 0 ==> ks[i - 1] in mid)
    requires
      var m1 := if i == 0 then mid[par := mid[par].(child := mid[k].child)] else mid[ks[i - 1] := mid[ks[i - 1]].(sibling := mid[k].child)];
      var m2 := m1[cs[|cs| - 1] := m1[cs[|cs| - 1]].(sibling := m1[k].sibling)];
      mem == m2[k := m2[k].(parent := 0)]
    requires k in was && was[k].sibling == At(ks, i + 1) && was[k].child == cs[0] && k != par && par !in cs && k !in cs
    requires i > 0 ==> ks[i - 1] != k && ks[i - 1] != par && ks[i - 1] !in cs
    ensures q in mem && mem[q].start == was[q].start && mem[q].end == was[q].end
    ensures mem[q].parent == if q == k then 0 else if q in cs then par else was[q].parent
    ensures mem[q].child == if q == par && i == 0 then cs[0] else was[q].child
    ensures mem[q].sibling == if i > 0 && q == ks[i - 1] then cs[0] else if q == cs[|cs| - 1] then At(ks, i + 1) else was[q].sibling
  {
    assert cs[|cs| - 1] in cs;
    assert mid[q] == if q in cs then was[q].(parent := par) else was[q];
  }

  lemma UnlinkWired(was: Mem, mid: Mem, mem: Mem, kids: Kids, rank: map<nat, nat>, root: nat, par: nat, i: nat)
    requires TreeOk(was, kids, rank, root) && par in kids && i < |kids[par]| && kids[par][i] in kids
    requires
      var ks, k := kids[par], kids[par][i];
      var cs := kids[k];
      && cs != [] && Reparented(was, mid, cs, par) && k in mid && par in mid && cs[|cs| - 1] in mid && (i > 0 ==> ks[i - 1] in mid)
      && var m1 := if i == 0 then mid[par := mid[par].(child := mid[k].child)] else mid[ks[i - 1] := mid[ks[i - 1]].(sibling := mid[k].child)];
         var m2 := m1[cs[|cs| - 1] := m1[cs[|cs| - 1]].(sibling := m1[k].sibling)];
         mem == m2[k := m2[k].(parent := 0)]
    ensures Unwired(was, mem, par, kids[par], i, kids[par][i], kids[kids[par][i]])
  {
    hide TreeOk, Chain;
    var ks, k := kids[par], kids[par][i];
    var cs := kids[k];
    assert mem.Keys == mid.Keys == was.Keys;
    hide Reparented;
    UnlinkFacts(was, kids, rank, root, par, i);
    assert At(cs + ks[i + 1..], 0) == cs[0] == At(cs, 0);
    forall q | q in was
      ensures q in mem && mem[q].start == was[q].start && mem[q].end == was[q].end
      ensures mem[q].parent == if q == k then 0 else if q in cs then par else was[q].parent
      ensures mem[q].child == if q == par && i == 0 then cs[0] else was[q].child
      ensures mem[q].sibling == if i > 0 && q == ks[i - 1] then cs[0] else if q == cs[|cs| - 1] then At(ks, i + 1) else was[q].sibling
    {
      UnlinkRecord(was, mid, mem, par, ks, i, k, cs, q);
    }
  }

  /** A record that goes with everything below it. */
  lemma CutWired(was: Mem, mem: Mem, kids: Kids, rank: map<nat, nat>, root: nat, par: nat, i: nat)
    requires TreeOk(was, kids, rank, root) && par in kids && i < |kids[par]| && kids[par][i] in was && par in was
    requires i > 0 ==> kids[par][i - 1] in was
    requires
      var ks, k := kids[par], kids[par][i];
      var m1 := if i == 0 then was[par := was[par].(child := was[k].sibling)] else was[ks[i - 1] := was[ks[i - 1]].(sibling := was[k].sibling)];
      mem == m1[k := m1[k].(parent := 0)]
    ensures Unwired(was, mem, par, kids[par], i, kids[par][i], [])
  {
    hide TreeOk, Chain;
    UnlinkFacts(was, kids, rank, root, par, i);
    var ks := kids[par];
    assert [] + ks[i + 1..] == ks[i + 1..];
  }

  lemma Unchanged(mem: Mem, root: nat)
    requires root in mem
    ensures SameRanges(mem, mem) && RootKept(mem, mem, root)
  {
  }

  lemma ReleaseOk(was: Mem, mem: Mem, kids: Kids, rank: map<nat, nat>, root: nat, par: nat, i: nat, old': nat, releaseChild: bool)
    requires TreeOk(was, kids, rank, root) && par in kids && i < |kids[par]| && kids[par][i] == old' && old' in kids
    requires Unwired(was, mem, par, kids[par], i, old', if releaseChild || kids[old'] == [] then [] else kids[old'])
    ensures SameRanges(was, mem) && RootKept(was, mem, root)
    ensures releaseChild ==>
      var kids' := Dropped(kids, rank, par, i, old');
      TreeOk(mem, kids', map q | q in kids' && q in rank :: rank[q], root)
    ensures !releaseChild ==> TreeOk(mem, Unspliced(kids, par, i, old'), rank - {old'}, root)
  {
    hide Linked, Ranged, Ranked, Dropped, Unspliced;
    assert SameRanges(was, mem);
    hide Unwired, SameRanges;
    if releaseChild {
      DroppedOk(was, mem, kids, rank, root, par, i, old');
      DroppedRoot(was, mem, kids, rank, root, par, i, old');
    } else {
      UnsplicedOk(was, mem, kids, rank, root, par, i, old');
      UnsplicedRoot(was, mem, kids, rank, root, par, i, old');
    }
  }

  lemma DroppedRoot(mem: Mem, mem': Mem, kids: Kids, rank: map<nat, nat>, root: nat, par: nat, i: nat, old': nat)
    requires CanDrop(mem, mem', kids, rank, root, par, i, old')
    ensures RootKept(mem, mem', root)
  {
    hide Ranged, Ranked, Linked;
    LinkedKeys(mem, kids, root);
    ChildAt(mem, kids, root, par, i);
    if i > 0 {
      ChildAt(mem, kids, root, par, i - 1);
    }
  }

  lemma NewChild(mem: Mem, kids: Kids, root: nat, at: nat, i: nat, new': nat)
    requires Linked(mem, kids, root) && at in kids && i < |kids[at]| && kids[at][i] == new'
    ensures new' in mem && mem[new'].parent == at && new' in kids
  {
    ChildAt(mem, kids, root, at, i);
  }

  lemma SameKid(mem: Mem, kids: Kids, at: nat, i: nat, i': nat)
    requires Ranged(mem, kids) && at in kids && i < |kids[at]| && i' < |kids[at]| && kids[at][i] == kids[at][i']
    ensures i == i'
  {
    KidsDistinct(mem, kids, at, i, i');
  }
}
