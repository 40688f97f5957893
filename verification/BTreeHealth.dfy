/**
 How full the children of an inner node must be.

 Removal never steals entries from a neighbour, so the usual "half full" rule does
 not hold.  What does hold is stated on one flag per child, true when the child has
 a single entry: with 4 or 5 pairs per node no two neighbouring children are single;
 with more pairs that is false, and what every operation keeps is that fewer than
 half a node of leading children, and fewer than half a node of trailing children,
 are single, and never all of them.
 */
module BTreeHealth {
  import opened Lists
  import opened BTreeSlots

  /** The node sizes for which every operation preserves `Healthy`; for the others, odd and seven or more, no rule
      would do (`BTreeExact.BreaksIff`). */
  predicate GoodFanout(n: nat) {
    n == 4 || n == 5 || (n >= 6 && n % 2 == 0)
  }

  predicate Healthy(n: nat, f: seq<bool>) {
    if n < 6 then
      forall i :: 0 <= i < |f| - 1 ==> !f[i] || !f[i + 1]
    else
      && (exists i :: 0 <= i < |f| && i < n / 2 && !f[i])
      && (exists i :: 0 <= i < |f| && |f| - n / 2 <= i && !f[i])
  }

  /** What holds of every inner node. */
  predicate FlagsOk(n: nat, f: seq<bool>) {
    |f| >= 2 ==> Healthy(n, f)
  }

  /** What holds of a node that has just lost a child. */
  predicate Thinned(n: nat, f: seq<bool>) {
    && (|f| == 1 ==> !f[0])
    && (|f| >= 2 ==> Healthy(n, f))
  }

  lemma HealthyInsert(n: nat, f: seq<bool>, i: nat)
    requires GoodFanout(n) && FlagsOk(n, f) && 1 <= |f| && i <= |f|
    ensures Healthy(n, InsertAt(f, i, false))
  {
    var g, h := InsertAt(f, i, false), n / 2;
    assert forall k :: 0 <= k < |g| ==> g[k] == if k < i then f[k] else if k == i then false else f[k - 1];
    if n >= 6 && |f| >= 2 {
      var u :| 0 <= u < |f| && u < h && !f[u];
      var v :| 0 <= v < |f| && |f| - h <= v && !f[v];
      assert !g[if u < i then u else i] && !g[if v >= i then v + 1 else i];
    } else if n >= 6 {
      assert !g[i];
    }
  }

  lemma HealthyMono(n: nat, f: seq<bool>, g: seq<bool>)
    requires FlagsOk(n, f) && |f| == |g| && forall i :: 0 <= i < |f| && g[i] ==> f[i]
    ensures FlagsOk(n, g)
  {
  }

  lemma ThinnedMono(n: nat, f: seq<bool>, g: seq<bool>)
    requires Thinned(n, f) && |f| == |g| && forall i :: 0 <= i < |f| && g[i] ==> f[i]
    ensures Thinned(n, g)
  {
    HealthyMono(n, f, g);
  }

  lemma HealthyNone(n: nat, f: seq<bool>)
    requires GoodFanout(n) && forall i :: 0 <= i < |f| ==> !f[i]
    ensures Thinned(n, f)
  {
    if n >= 6 && |f| >= 2 {
      assert !f[0] && !f[|f| - 1];
    }
  }

  lemma HealthySplit(n: nat, f: seq<bool>)
    requires GoodFanout(n) && |f| == n && Healthy(n, f)
    ensures Healthy(n, f[..n / 2]) && Healthy(n, f[n / 2..])
  {
    var h := n / 2;
    if n >= 6 {
      var u :| 0 <= u < |f| && u < h && !f[u];
      var v :| 0 <= v < |f| && |f| - h <= v && !f[v];
      assert !f[..h][u] && !f[h..][v - h];
    }
  }

  /** A single child disappears. */
  lemma HealthyRemove(n: nat, f: seq<bool>, i: nat)
    requires GoodFanout(n) && 2 <= |f| && i < |f| && f[i] && Healthy(n, f)
    ensures Thinned(n, RemoveAt(f, i))
  {
    var g, h := RemoveAt(f, i), n / 2;
    assert forall k :: 0 <= k < |g| ==> g[k] == if k < i then f[k] else f[k + 1];
    if n >= 6 {
      var u :| 0 <= u < |f| && u < h && !f[u];
      var v :| 0 <= v < |f| && |f| - h <= v && !f[v];
      assert !g[if u < i then u else u - 1] && !g[if v < i then v else v - 1];
    }
  }

  /** Children `i` and `i + 1` become one child that is not single. */
  lemma HealthyCollapse(n: nat, f: seq<bool>, i: nat)
    requires GoodFanout(n) && i + 1 < |f| && Healthy(n, f)
    ensures Thinned(n, f[..i] + [false] + f[i + 2..])
  {
    var g, h := f[..i] + [false] + f[i + 2..], n / 2;
    assert forall k :: 0 <= k < |g| ==> g[k] == if k < i then f[k] else if k == i then false else f[k + 1];
    if n >= 6 {
      var u :| 0 <= u < |f| && u < h && !f[u];
      var v :| 0 <= v < |f| && |f| - h <= v && !f[v];
      assert !g[if u < i then u else i] && !g[if v - 1 > i then v - 1 else i];
    }
  }

  /** A child becomes single although it could not be merged: its neighbours are full. */
  lemma HealthyShrink(n: nat, f: seq<bool>, i: nat)
    requires GoodFanout(n) && 2 <= |f| && i < |f| && Healthy(n, f)
    requires i > 0 ==> !f[i - 1]
    requires i + 1 < |f| ==> !f[i + 1]
    ensures Healthy(n, f[i := true])
  {
    var g, h := f[i := true], n / 2;
    if n >= 6 {
      var u :| 0 <= u < |f| && u < h && !f[u];
      var v :| 0 <= v < |f| && |f| - h <= v && !f[v];
      assert !g[if u != i then u else if i > 0 then i - 1 else i + 1];
      assert !g[if v != i then v else if i + 1 < |f| then i + 1 else i - 1];
    }
  }

  /** Two neighbours are merged because one of them, which just lost a child, is less than half full. */
  lemma HealthyMerge(n: nat, a: seq<bool>, b: seq<bool>)
    requires GoodFanout(n) && 1 <= |a| && 1 <= |b| && |a| + |b| <= n
    requires FlagsOk(n, a) && FlagsOk(n, b)
    requires (|a| < n / 2 && Thinned(n, a)) || (|b| < n / 2 && Thinned(n, b))
    ensures Healthy(n, a + b)
  {
    var f, h := a + b, n / 2;
    if n >= 6 {
      if |a| == 1 && a[0] {
        var w := FalseIn(n, b);
        assert !f[w + 1];
      } else if |b| == 1 && b[0] {
        var w := FalseIn(n, a);
        assert !f[w];
      } else {
        var u :| 0 <= u < |a| && u < h && !a[u];
        var v :| 0 <= v < |b| && |b| - h <= v && !b[v];
        assert !f[u] && !f[|a| + v];
      }
    }
  }

  lemma FalseIn(n: nat, f: seq<bool>) returns (w: nat)
    requires 6 <= n && 1 <= |f| && Thinned(n, f)
    ensures w < |f| && !f[w]
  {
    if |f| == 1 {
      w := 0;
    } else {
      w :| 0 <= w < |f| && w < n / 2 && !f[w];
    }
  }
}
