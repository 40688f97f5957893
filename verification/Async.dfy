/**
 kernel/async.c: ordering of asynchronous calls by cookie.  Every section under `async_lock` is one step;
 the steps of different tasks may interleave in any way.  Cookies count from 1 and do not wrap here.
 */
module Async {
  const COOKIE_MAX: nat := 0xffffffffffffffff
  const MAX_WORK: nat := 32768

  /** What became of a call: its domain, whether that was registered, whether the caller runs the function itself,
      whether the function has returned, and whether the call was taken off the lists after that. */
  datatype Entry = Entry(dom: nat, anywhere: bool, direct: bool, ran: bool, off: bool)

  /** The call waits or runs on a worker. */
  ghost predicate On(e: Entry) {
    !e.direct && !e.off
  }

  /** A domain to wait for, or all registered ones. */
  datatype Scope = Domain(d: nat) | Everything

  datatype State = State(next: nat, pending: map<nat, seq<nat>>, registered: set<nat>, global: seq<nat>, entries: map<nat, Entry>)

  ghost predicate Ascending(s: seq<nat>) {
    forall i, j :: 0 <= i < j < |s| ==> s[i] < s[j]
  }

  function Without(s: seq<nat>, c: nat): seq<nat> {
    if s == [] then [] else if s[0] == c then s[1..] else [s[0]] + Without(s[1..], c)
  }

  lemma {:induction false} WithoutIs(s: seq<nat>, c: nat)
    requires Ascending(s)
    ensures Ascending(Without(s, c)) && forall x :: x in Without(s, c) <==> x in s && x != c
  {
    if s != [] {
      assert Ascending(s[1..]);
      WithoutIs(s[1..], c);
      if s[0] != c {
        var r := Without(s[1..], c);
        forall i, j | 0 <= i < j < |[s[0]] + r|
          ensures ([s[0]] + r)[i] < ([s[0]] + r)[j]
        {
          assert r[j - 1] in r && r[j - 1] in s[1..];
        }
      }
    }
  }

  // --- the steps ---

  datatype Action =
    | Queue(d: nat)       // async_schedule_node_domain(), the queued case
    | RunNow(d: nat)      // the same, out of memory or too much work: a cookie and a direct call
    | Return(c: nat)      // the function of a call returns
    | Remove(c: nat)      // async_run_entry_fn() takes the entry off the lists
    | Unregister(d: nat)  // async_unregister_domain()

  ghost predicate Enabled(s: State, a: Action) {
    match a
    case Queue(d) => d in s.pending
    case RunNow(d) => d in s.pending
    case Return(c) => c in s.entries && !s.entries[c].ran
    case Remove(c) => c in s.entries && s.entries[c].ran && On(s.entries[c]) && s.entries[c].dom in s.pending
    case Unregister(d) => d in s.pending
  }

  ghost function Do(s: State, a: Action): State
    requires Enabled(s, a)
  {
    match a
    case Queue(d) =>
      s.(next := s.next + 1, pending := s.pending[d := s.pending[d] + [s.next]],
         global := if d in s.registered then s.global + [s.next] else s.global,
         entries := s.entries[s.next := Entry(d, d in s.registered, false, false, false)])
    case RunNow(d) => s.(next := s.next + 1, entries := s.entries[s.next := Entry(d, d in s.registered, true, false, false)])
    case Return(c) => s.(entries := s.entries[c := s.entries[c].(ran := true)])
    case Remove(c) =>
      var d := s.entries[c].dom;
      s.(pending := s.pending[d := Without(s.pending[d], c)], global := Without(s.global, c),
         entries := s.entries[c := s.entries[c].(off := true)])
    case Unregister(d) => s.(registered := s.registered - {d})
  }

  // --- what every step keeps ---

  /** The lists are in order and hold exactly the calls that wait or run, each on that of its domain and, if this was
      registered, on the global one. */
  ghost predicate Inv(s: State) {
    && (forall d :: d in s.pending ==> Ascending(s.pending[d]))
    && Ascending(s.global)
    && (forall d, c :: d in s.pending && c in s.pending[d] ==> c in s.entries && s.entries[c].dom == d && On(s.entries[c]))
    && (forall c :: c in s.global ==> c in s.entries && s.entries[c].anywhere && On(s.entries[c]))
    && (forall c :: c in s.entries ==> c < s.next && s.entries[c].dom in s.pending && (s.entries[c].off ==> s.entries[c].ran))
    && (forall c :: c in s.entries && On(s.entries[c]) ==>
          c in s.pending[s.entries[c].dom] && (s.entries[c].anywhere ==> c in s.global))
  }

  lemma AppendAscending(s: seq<nat>, c: nat)
    requires Ascending(s) && forall x :: x in s ==> x < c
    ensures Ascending(s + [c]) && forall x :: x in s + [c] <==> x in s || x == c
  {
    forall i, j | 0 <= i < j < |s + [c]|
      ensures (s + [c])[i] < (s + [c])[j]
    {
      assert s[i] in s;
    }
  }

  lemma ListsBelow(s: State, d: nat)
    requires Inv(s) && d in s.pending
    ensures Ascending(s.pending[d]) && Ascending(s.global) && s.next !in s.entries
    ensures forall x :: x in s.pending[d] ==> x < s.next
    ensures forall x :: x in s.global ==> x < s.next
  {
    forall x | x in s.pending[d]
      ensures x < s.next
    {
      assert x in s.entries;
    }
  }

  lemma QueueInv(s: State, d: nat)
    requires Inv(s) && d in s.pending
    ensures Inv(Do(s, Queue(d)))
  {
    hide Ascending;
    ListsBelow(s, d);
    AppendAscending(s.pending[d], s.next);
    AppendAscending(s.global, s.next);
    var s' := Do(s, Queue(d));
    forall c | c in s'.entries
      ensures c < s'.next && s'.entries[c].dom in s'.pending && (s'.entries[c].off ==> s'.entries[c].ran)
      ensures On(s'.entries[c]) ==> c in s'.pending[s'.entries[c].dom] && (s'.entries[c].anywhere ==> c in s'.global)
    {
      assert c != s.next ==> c in s.entries && s'.entries[c] == s.entries[c];
    }
  }

  lemma RemoveInv(s: State, c: nat)
    requires Inv(s) && Enabled(s, Remove(c))
    ensures Inv(Do(s, Remove(c)))
  {
    hide Ascending, Without;
    WithoutIs(s.pending[s.entries[c].dom], c);
    WithoutIs(s.global, c);
  }

  lemma DirectInv(s: State, d: nat)
    requires Inv(s) && d in s.pending
    ensures Inv(Do(s, RunNow(d)))
  {
    hide Ascending;
    assert s.next !in s.entries;
  }

  lemma ReturnInv(s: State, c: nat)
    requires Inv(s) && Enabled(s, Return(c))
    ensures Inv(Do(s, Return(c)))
  {
    hide Ascending;
  }

  lemma StepInv(s: State, a: Action)
    requires Inv(s) && Enabled(s, a)
    ensures Inv(Do(s, a))
  {
    hide Ascending;
    match a
    case Queue(d) =>
      hide Inv, Do;
      QueueInv(s, d);
    case RunNow(d) =>
      hide Inv, Do;
      DirectInv(s, d);
    case Return(c) =>
      hide Inv, Do;
      ReturnInv(s, c);
    case Remove(c) =>
      hide Inv, Do;
      RemoveInv(s, c);
    case Unregister(d) =>
  }

  // --- waiting ---

  function List(s: State, w: Scope): seq<nat> {
    match w
    case Domain(d) => if d in s.pending then s.pending[d] else []
    case Everything => s.global
  }

  /** lowest_in_progress() */
  function Lowest(s: State, w: Scope): nat {
    if List(s, w) == [] then COOKIE_MAX else List(s, w)[0]
  }

  ghost predicate Concerns(e: Entry, w: Scope) {
    match w
    case Domain(d) => e.dom == d
    case Everything => e.anywhere
  }

  /** Before cookie `c` the scope has no call on its list, and all its calls, or all its queued ones, have returned. */
  ghost predicate DoneBefore(s: State, w: Scope, c: nat, all: bool) {
    && (forall x :: x in List(s, w) ==> c <= x)
    && forall x :: x in s.entries && Concerns(s.entries[x], w) && x < c && (all || !s.entries[x].direct) ==> s.entries[x].ran
  }

  /** A caller that got no entry is still in its function. */
  ghost predicate DirectRunning(s: State, w: Scope, c: nat) {
    exists x :: x in s.entries && Concerns(s.entries[x], w) && x < c && s.entries[x].direct && !s.entries[x].ran
  }

  /** The first entry of a list is its lowest, so a lowest cookie of `c` or more means that all earlier queued calls are
      done; all calls are, as the comments of the waiting functions have it, exactly when no direct one is running. */
  lemma LowestMeansDone(s: State, w: Scope, c: nat)
    requires Inv(s) && Lowest(s, w) >= c && (forall x :: x in s.entries ==> x < 0xffffffffffffffff)
    ensures DoneBefore(s, w, c, false)
    ensures DoneBefore(s, w, c, true) <==> !DirectRunning(s, w, c)
  {
    var l := List(s, w);
    forall x | x in l
      ensures c <= x
    {
      var i :| 0 <= i < |l| && l[i] == x;
      assert i > 0 ==> l[0] < l[i];
    }
  }

  /** The wait for a cookie ends exactly when no queued call of the scope before it is left: a call may wait for
      everything before itself. */
  lemma LowestExactly(s: State, w: Scope, c: nat)
    requires Inv(s) && c <= 0xffffffffffffffff
    ensures Lowest(s, w) >= c <==> forall x :: x in List(s, w) ==> c <= x
    ensures Lowest(s, w) >= c <==> forall x :: x in s.entries && Concerns(s.entries[x], w) && x < c ==> !On(s.entries[x])
  {
    ListIs(s, w);
    hide Inv;
    var l := List(s, w);
    forall x | x in l
      ensures Lowest(s, w) <= x
    {
      var i :| 0 <= i < |l| && l[i] == x;
      assert i > 0 ==> l[0] < l[i];
    }
    assert l != [] ==> l[0] in l;
  }

  /** A wait for all calls ends exactly when there are none. */
  lemma FullWait(s: State, w: Scope)
    requires Inv(s) && forall x :: x in s.entries ==> x < 0xffffffffffffffff
    ensures Lowest(s, w) >= 0xffffffffffffffff <==> List(s, w) == []
    ensures List(s, w) == [] <==> forall x :: x in s.entries && Concerns(s.entries[x], w) ==> !On(s.entries[x])
  {
    ListIs(s, w);
    hide Inv;
    var l := List(s, w);
    assert l != [] ==> l[0] in l;
  }

  lemma ListIs(s: State, w: Scope)
    requires Inv(s)
    ensures Ascending(List(s, w))
    ensures forall x :: x in List(s, w) <==> x in s.entries && Concerns(s.entries[x], w) && On(s.entries[x])
  {
  }

  /** A call whose function returns can be taken off, and then no list has it. */
  lemma Finishes(s: State, c: nat)
    requires Inv(s) && c in s.entries && On(s.entries[c]) && !s.entries[c].ran
    ensures
      var acts := [Return(c), Remove(c)];
      Runs(s, acts) && forall w :: c !in List(After(s, acts), w)
  {
    hide Ascending;
    var acts, s1 := [Return(c), Remove(c)], Do(s, Return(c));
    ReturnInv(s, c);
    var s2 := Do(s1, Remove(c));
    RemoveInv(s1, c);
    assert acts[1..] == [Remove(c)] && [Remove(c)][1..] == [];
    assert Runs(s2, []) && After(s2, []) == s2;
    assert Runs(s1, acts[1..]) && After(s1, acts[1..]) == s2;
    assert After(s, acts) == s2;
    hide Inv;
    forall w
      ensures c !in List(s2, w)
    {
      ListIs(s2, w);
    }
  }

  ghost predicate Runs(s: State, acts: seq<Action>)
    decreases |acts|
  {
    acts == [] || (Enabled(s, acts[0]) && Runs(Do(s, acts[0]), acts[1..]))
  }

  ghost function After(s: State, acts: seq<Action>): State
    requires Runs(s, acts)
    decreases |acts|
  {
    if acts == [] then s else After(Do(s, acts[0]), acts[1..])
  }

  /** The scope can still receive calls. */
  ghost predicate Open(s: State, w: Scope) {
    match w
    case Domain(d) => d in s.pending
    case Everything => exists d :: d in s.registered && d in s.pending
  }

  /** A step cannot bring a call before an issued cookie back, nor any call into a closed scope. */
  lemma DoneQueue(s: State, d: nat, w: Scope, c: nat, all: bool)
    requires Inv(s) && d in s.pending && DoneBefore(s, w, c, all) && (c <= s.next || !Open(s, w))
    ensures DoneBefore(Do(s, Queue(d)), w, c, all)
  {
    hide Ascending;
    ListsBelow(s, d);
    AppendAscending(s.pending[d], s.next);
    AppendAscending(s.global, s.next);
    assert c <= s.next || (if w.Domain? then w.d != d else d !in s.registered);
    hide Open, Inv;
  }

  lemma DoneRemove(s: State, x: nat, w: Scope, c: nat, all: bool)
    requires Inv(s) && Enabled(s, Remove(x)) && DoneBefore(s, w, c, all)
    ensures DoneBefore(Do(s, Remove(x)), w, c, all)
  {
    hide Ascending, Without;
    RemoveLists(s, x);
    hide Inv;
  }

  lemma DoneDirect(s: State, d: nat, w: Scope, c: nat, all: bool)
    requires d in s.pending && DoneBefore(s, w, c, all) && (c <= s.next || !Open(s, w))
    ensures DoneBefore(Do(s, RunNow(d)), w, c, all)
  {
  }

  lemma DoneStays(s: State, a: Action, w: Scope, c: nat, all: bool)
    requires Inv(s) && Enabled(s, a) && DoneBefore(s, w, c, all) && (c <= s.next || !Open(s, w))
    ensures var s' := Do(s, a); DoneBefore(s', w, c, all) && (c <= s'.next || !Open(s', w))
  {
    hide Ascending, Without, Inv;
    match a
    case Queue(d) =>
      hide DoneBefore;
      DoneQueue(s, d, w, c, all);
    case RunNow(d) =>
      hide DoneBefore;
      DoneDirect(s, d, w, c, all);
    case Return(x) =>
    case Remove(x) =>
      hide DoneBefore;
      DoneRemove(s, x, w, c, all);
    case Unregister(d) =>
  }

  lemma RemoveLists(s: State, c: nat)
    requires Inv(s) && Enabled(s, Remove(c))
    ensures
      var d := s.entries[c].dom;
      && (forall x :: x in Without(s.pending[d], c) <==> x in s.pending[d] && x != c)
      && (forall x :: x in Without(s.global, c) <==> x in s.global && x != c)
  {
    WithoutIs(s.pending[s.entries[c].dom], c);
    WithoutIs(s.global, c);
  }

  /** Every interleaving keeps the lists in order. */
  lemma {:induction false} RunInv(s: State, acts: seq<Action>)
    requires Inv(s) && Runs(s, acts)
    ensures Inv(After(s, acts))
    decreases |acts|
  {
    if acts != [] {
      StepInv(s, acts[0]);
      RunInv(Do(s, acts[0]), acts[1..]);
    }
  }

  /** Every call gets a cookie of its own, one after the other. */
  lemma {:induction false} Cookies(s: State, acts: seq<Action>)
    requires Runs(s, acts)
    ensures After(s, acts).next == s.next + Calls(acts)
    decreases |acts|
  {
    if acts != [] {
      Cookies(Do(s, acts[0]), acts[1..]);
    }
  }

  ghost function Calls(acts: seq<Action>): nat {
    if acts == [] then 0 else (if acts[0].Queue? || acts[0].RunNow? then 1 else 0) + Calls(acts[1..])
  }

  /** Once async_synchronize_cookie_domain() has seen the lowest cookie reach an issued one, no interleaving brings
      back a call before it. */
  lemma {:induction false} SynchronizeHolds(s: State, acts: seq<Action>, w: Scope, c: nat, all: bool)
    requires Inv(s) && Runs(s, acts) && DoneBefore(s, w, c, all) && (c <= s.next || !Open(s, w))
    ensures DoneBefore(After(s, acts), w, c, all)
    decreases |acts|
  {
    hide Inv, DoneBefore, Open;
    if acts != [] {
      StepInv(s, acts[0]);
      DoneStays(s, acts[0], w, c, all);
      SynchronizeHolds(Do(s, acts[0]), acts[1..], w, c, all);
    }
  }

  ghost predicate Stable(s: State, w: Scope, c: nat, all: bool) {
    forall acts :: Runs(s, acts) ==> DoneBefore(After(s, acts), w, c, all)
  }

  /** For a cookie not issued yet, as with async_synchronize_full(), the guarantee ends with the wait, unless the scope
      cannot receive calls any more. */
  lemma StableIffIssued(s: State, w: Scope, c: nat, all: bool)
    requires Inv(s) && DoneBefore(s, w, c, all)
    ensures Stable(s, w, c, all) <==> c <= s.next || !Open(s, w)
  {
    hide Inv, DoneBefore;
    if c <= s.next || !Open(s, w) {
      forall acts | Runs(s, acts)
        ensures DoneBefore(After(s, acts), w, c, all)
      {
        SynchronizeHolds(s, acts, w, c, all);
      }
    } else {
      var d :| d in s.pending && (w == Everything ==> d in s.registered) && (w.Domain? ==> w.d == d);
      LateCall(s, w, d, c, all);
    }
  }

  lemma LateCall(s: State, w: Scope, d: nat, c: nat, all: bool)
    requires Inv(s) && d in s.pending && c > s.next && (if w.Domain? then w.d == d else d in s.registered)
    ensures !Stable(s, w, c, all)
  {
    hide Inv, Ascending;
    var acts, s' := [Queue(d)], Do(s, Queue(d));
    assert Runs(s', acts[1..]) && After(s', acts[1..]) == s';
    assert Runs(s, acts) && After(s, acts) == s';
    assert s.next in List(s', w);
    assert !DoneBefore(After(s, acts), w, c, all);
  }

  // --- unregistering ---

  /** Waits for everything no longer concern later calls of the domain. */
  lemma UnregisterCloses(s: State, d: nat)
    requires d in s.pending
    ensures Open(Do(s, Unregister(d)), Everything) <==> exists e :: e != d && e in s.registered && e in s.pending
  {
  }

  lemma {:induction false} Unregistered(s: State, acts: seq<Action>, d: nat)
    requires Inv(s) && d !in s.registered && Runs(s, acts)
    ensures d !in After(s, acts).registered
    ensures forall c :: c in After(s, acts).entries && c >= s.next && After(s, acts).entries[c].dom == d ==>
      !After(s, acts).entries[c].anywhere && c !in After(s, acts).global
    decreases |acts|
  {
    RunInv(s, acts);
    var s' := After(s, acts);
    LateEntries(s, acts, d);
    hide Ascending;
  }

  lemma {:induction false} LateEntries(s: State, acts: seq<Action>, d: nat)
    requires Runs(s, acts) && d !in s.registered
    ensures s.next <= After(s, acts).next && d !in After(s, acts).registered
    ensures forall c :: c in After(s, acts).entries && After(s, acts).entries[c].dom == d && After(s, acts).entries[c].anywhere ==>
      c in s.entries && s.entries[c].dom == d && s.entries[c].anywhere
    decreases |acts|
  {
    if acts != [] {
      hide Without;
      LateEntries(Do(s, acts[0]), acts[1..], d);
    }
  }

  // --- direct calls ---

  /** As long as every call gets an entry, no direct call is running. */
  lemma {:induction false} QueuedOnly(s: State, acts: seq<Action>, w: Scope, c: nat)
    requires Runs(s, acts) && !DirectRunning(s, w, c) && forall i :: 0 <= i < |acts| ==> !acts[i].RunNow?
    ensures !DirectRunning(After(s, acts), w, c)
    decreases |acts|
  {
    if acts != [] {
      assert !DirectRunning(Do(s, acts[0]), w, c);
      QueuedOnly(Do(s, acts[0]), acts[1..], w, c);
    }
  }

  ghost function Start(domains: set<nat>, shared: set<nat>): State {
    State(1, map d | d in domains :: [], shared, [], map[])
  }

  /** The first call finds no memory: while it runs, a wait for everything before cookie 2 returns at once. */
  lemma DirectNotAwaited(domains: set<nat>, shared: set<nat>, d: nat)
    requires d in domains
    ensures
      var s := Do(Start(domains, shared), RunNow(d));
      Inv(s) && s.next == 2 && Lowest(s, Domain(d)) >= 2 && DirectRunning(s, Domain(d), 2) && !DoneBefore(s, Domain(d), 2, true)
  {
    var s := Do(Start(domains, shared), RunNow(d));
    assert 1 in s.entries && s.entries[1] == Entry(d, d in shared, true, false, false);
  }

  /** The calls on the lists. */
  ghost function Live(s: State): set<nat> {
    set c | c in s.entries && On(s.entries[c])
  }

  lemma LiveQueue(s: State, d: nat)
    requires Inv(s) && d in s.pending
    ensures |Live(Do(s, Queue(d)))| == |Live(s)| + 1
  {
    ListsBelow(s, d);
    hide Inv;
    assert Live(Do(s, Queue(d))) == Live(s) + {s.next} && s.next !in Live(s);
  }

  lemma LiveDirect(s: State, d: nat)
    requires Inv(s) && d in s.pending
    ensures |Live(Do(s, RunNow(d)))| == |Live(s)|
  {
    ListsBelow(s, d);
    hide Inv;
    assert Live(Do(s, RunNow(d))) == Live(s);
  }

  lemma LiveRemove(s: State, c: nat)
    requires Inv(s) && Enabled(s, Remove(c))
    ensures |Live(Do(s, Remove(c)))| == |Live(s)| - 1
  {
    hide Inv, Without;
    assert Live(Do(s, Remove(c))) == Live(s) - {c} && c in Live(s);
  }

  // --- the code ---

  class Scheduler {
    var nextCookie: nat
    var pending: map<nat, seq<nat>>
    var registered: set<nat>
    var globalPending: seq<nat>
    var entryCount: nat
    ghost var entries: map<nat, Entry>

    ghost function Now(): State
      reads this
    {
      State(nextCookie, pending, registered, globalPending, entries)
    }

    /** `entryCount` counts the calls on the domain lists. */
    ghost predicate Valid()
      reads this
    {
      Inv(Now()) && entryCount == |Live(Now())|
    }

    constructor (domains: set<nat>, shared: set<nat>)
      requires shared <= domains
      ensures Valid() && Now() == Start(domains, shared)
    {
      nextCookie, registered, globalPending, entryCount := 1, shared, [], 0;
      pending := map d | d in domains :: [];
      entries := map[];
      new;
      assert Live(Now()) == {};
    }

    method LowestInProgress(w: Scope) returns (ret: nat)
      requires Valid()
      ensures ret == Lowest(Now(), w)
      ensures ret in List(Now(), w) || (List(Now(), w) == [] && ret == 0xffffffffffffffff)
      ensures forall x :: x in List(Now(), w) ==> ret <= x
    {
      ListIs(Now(), w);
      ret := COOKIE_MAX;
      match w {
        case Domain(d) =>
          if d in pending && pending[d] != [] {
            ret := pending[d][0];
          }
        case Everything =>
          if globalPending != [] {
            ret := globalPending[0];
          }
      }
    }

    /** async_schedule_node_domain() up to the unlock; `queued` tells whether a worker will run the call.
        `seen` is the count of entries as it was read before the lock was taken. */
    method Schedule(d: nat, haveMemory: bool, seen: nat) returns (cookie: nat, queued: bool)
      requires Valid() && d in pending
      modifies this
      ensures Valid() && cookie == old(nextCookie)
      ensures queued <==> haveMemory && seen <= 32768
      ensures Now() == Do(old(Now()), if queued then Queue(d) else RunNow(d))
    {
      hide Inv, Ascending, Live;
      StepInv(Now(), Queue(d));
      StepInv(Now(), RunNow(d));
      LiveQueue(Now(), d);
      LiveDirect(Now(), d);
      if !haveMemory || seen > MAX_WORK {
        cookie := nextCookie;
        nextCookie := nextCookie + 1;
        entries := entries[cookie := Entry(d, d in registered, true, false, false)];
        return cookie, false;
      }
      cookie := nextCookie;
      nextCookie := nextCookie + 1;
      pending := pending[d := pending[d] + [cookie]];
      if d in registered {
        globalPending := globalPending + [cookie];
      }
      entries := entries[cookie := Entry(d, d in registered, false, false, false)];
      entryCount := entryCount + 1;
      queued := true;
    }

    /** The locked part of async_run_entry_fn(), after the function has returned. */
    method RunEntry(c: nat, d: nat)
      requires Valid() && c in entries && entries[c].dom == d && entries[c].ran && d in pending && c in pending[d]
      modifies this
      ensures Valid() && Now() == Do(old(Now()), Remove(c))
    {
      hide Inv, Ascending, Live, Without;
      ListIs(Now(), Domain(d));
      StepInv(Now(), Remove(c));
      LiveRemove(Now(), c);
      pending := pending[d := Without(pending[d], c)];
      globalPending := Without(globalPending, c);
      entries := entries[c := entries[c].(off := true)];
      entryCount := entryCount - 1;
    }

    method UnregisterDomain(d: nat)
      requires Valid() && d in pending
      modifies this
      ensures Valid() && Now() == Do(old(Now()), Unregister(d))
    {
      hide Inv;
      StepInv(Now(), Unregister(d));
      registered := registered - {d};
    }
  }
}
