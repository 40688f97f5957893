/**
 kernel/sysctl.c: integer vectors and bitmaps as text.  Reading a file prints the value into a buffer of limited
 size; writing parses such a text.  A text printed into a large enough buffer and written back restores the value.
 */
module Sysctl {
  import opened SysctlText

  const PAGE_SIZE: nat := 4096
  const INT_MAX: nat := 0x7fffffff
  const ULONG_MAX: nat := 0xffffffff

  /** isspace() of lib/ctype.c */
  predicate IsSpace(c: char) {
    c == ' ' || 9 <= c as nat <= 13 || c as nat == 160
  }

  // --- writing into a buffer of limited size ---

  /** The text as far as it fits. */
  function Cut(s: string, size: nat): (r: string)
    ensures |r| <= size
  {
    if |s| <= size then s else s[..size]
  }

  /** proc_put_char() */
  method PutChar(buf: string, left: nat, c: char) returns (buf': string, left': nat)
    ensures |buf'| + left' == |buf| + left && buf' == buf + Cut([c], left)
  {
    buf', left' := buf, left;
    if left != 0 {
      buf', left' := buf + [c], left - 1;
    }
  }

  /** proc_put_long() */
  method PutLong(buf: string, left: nat, val: nat, neg: bool) returns (buf': string, left': nat)
    ensures |buf'| + left' == |buf| + left && buf' == buf + Cut(Printed(val, neg), left)
  {
    hide Dec;
    var tmp := Printed(val, neg);
    var len := |tmp|;
    if len > left {
      len := left;
    }
    buf', left' := buf + tmp[..len], left - len;
    assert |tmp| <= left ==> tmp[..len] == tmp;
  }

  /** Pieces cut one after the other make the whole text cut. */
  lemma CutAppend(a: string, b: string, size: nat, buf: string)
    requires buf == Cut(a, size)
    ensures buf + Cut(b, size - |buf|) == Cut(a + b, size)
  {
  }

  // --- integer vectors ---

  ghost predicate Ints(v: seq<int>) {
    forall i :: 0 <= i < |v| ==> -(INT_MAX as int) - 1 <= v[i] <= INT_MAX
  }

  function Abs(x: int): nat {
    if x < 0 then -x else x
  }

  function IntText(x: int): string {
    Printed(Abs(x), x < 0)
  }

  /** The numbers, separated by tabs. */
  function Tabbed(v: seq<int>): string {
    if v == [] then ""
    else if |v| == 1 then IntText(v[0])
    else Tabbed(v[..|v| - 1]) + "\t" + IntText(v[|v| - 1])
  }

  lemma Format()
    ensures Tabbed([1, -20, 3]) == "1\t-20\t3"
  {
    var v := [1, -20, 3];
    assert v[..2][..1] == [1] && v[..2][1] == -20;
    assert Dec(1) == "1" && Dec(2) == "2" && Dec(3) == "3" && Dec(20) == Dec(2) + "0";
    assert Tabbed(v[..2][..1]) == "1" && Tabbed(v[..2]) == "1\t-20";
  }

  /** The text a buffer of the given size receives. */
  function Shown(v: seq<int>, size: nat): string {
    if size == 0 || v == [] then "" else Cut(Tabbed(v) + "\n", size)
  }

  /** The reading half of __do_proc_dointvec(). */
  method PrintInts(v: seq<int>, size: nat) returns (buf: string)
    ensures buf == Shown(v, size)
  {
    hide Printed, Tabbed, Cut;
    buf := "";
    if size == 0 {
      return;
    }
    var left, i := size, 0;
    CutStart(v, size);
    while left != 0 && i < |v|
      invariant 0 <= i <= |v| && |buf| + left == size && buf == Cut(Tabbed(v[..i]), size)
      decreases |v| - i
    {
      TabbedNext(v, i);
      var neg, lval := v[i] < 0, Abs(v[i]);
      ghost var sofar := Tabbed(v[..i]);
      if i != 0 {
        CutAppend(sofar, "\t", size, buf);
        buf, left := PutChar(buf, left, '\t');
        sofar := sofar + "\t";
      }
      CutAppend(sofar, IntText(v[i]), size, buf);
      buf, left := PutLong(buf, left, lval, neg);
      i := i + 1;
    }
    CutRest(v, i, size, buf);
    if v == [] {
      return;
    }
    if i != 0 && left != 0 {
      CutAppend(Tabbed(v), "\n", size, buf);
      buf, left := PutChar(buf, left, '\n');
    }
  }

  lemma CutStart(v: seq<int>, size: nat)
    ensures Cut(Tabbed(v[..0]), size) == ""
  {
  }

  lemma TabbedNext(v: seq<int>, i: nat)
    requires i < |v|
    ensures Tabbed(v[..i + 1]) == if i == 0 then IntText(v[0]) else Tabbed(v[..i]) + "\t" + IntText(v[i])
    ensures Tabbed(v[..0]) == ""
  {
    assert v[..i + 1][..i] == v[..i];
  }

  /** A full buffer holds the beginning of the text. */
  lemma CutRest(v: seq<int>, i: nat, size: nat, buf: string)
    requires i <= |v| && buf == Cut(Tabbed(v[..i]), size) && (i == |v| || |buf| == size)
    ensures i == |v| ==> v[..i] == v && buf == Cut(Tabbed(v), size)
    ensures |buf| == size ==> buf == Cut(Tabbed(v) + "\n", size)
    ensures v == [] ==> buf == ""
  {
    hide Tabbed;
    TabbedGrows(v, i);
    if i == |v| {
      assert v[..i] == v;
    }
    if v == [] {
      CutStart(v, size);
    }
    var a, b := Tabbed(v[..i]), Tabbed(v) + "\n";
    assert a <= b;
  }

  lemma {:induction false} TabbedGrows(v: seq<int>, i: nat)
    requires i <= |v|
    ensures Tabbed(v[..i]) <= Tabbed(v)
    decreases |v| - i
  {
    if i == |v| {
      assert v[..i] == v;
    } else {
      TabbedNext(v, i);
      if i == 0 {
        assert v[..0] == [];
      }
      TabbedGrows(v, i + 1);
    }
  }

  // --- reading integer vectors back ---

  function SkipSpaces(s: string): (r: string)
    ensures |r| <= |s|
  {
    if s != [] && IsSpace(s[0]) then SkipSpaces(s[1..]) else s
  }

  /** do_proc_dointvec_conv() for writing */
  function Conv(neg: bool, lval: nat): Option<int> {
    if neg then if lval > INT_MAX + 1 then None else Some(-(lval as int))
    else if lval > INT_MAX then None else Some(lval)
  }

  datatype Parsed = Parsed(err: bool, vals: seq<int>, rest: string)

  const WSPACE: seq<char> := [' ', '\t', '\n']

  /** The loop of the writing half: at most `n` numbers. */
  function ParseInts(text: string, n: nat): (r: Parsed)
    ensures |r.vals| <= n
    decreases n
  {
    if text == [] || n == 0 then Parsed(false, [], text)
    else
      var p := SkipSpaces(text);
      if p == [] then Parsed(false, [], p)
      else
        var num := GetLong(p, WSPACE, ULONG_MAX);
        if num.None? then Parsed(true, [], p)
        else
          var x := Conv(num.value.neg, num.value.val);
          if x.None? then Parsed(true, [], num.value.rest)
          else
            var r := ParseInts(num.value.rest, n - 1);
            r.(vals := [x.value] + r.vals)
  }

  /** What writing a text at position 0 does: entries not reached keep their values. */
  function Wrote(v0: seq<int>, buffer: string): (seq<int>, bool) {
    if v0 == [] || buffer == [] then (v0, false)
    else
      var r := ParseInts(Cut(buffer, PAGE_SIZE - 1), |v0|);
      (r.vals + v0[|r.vals|..], r.err || r.vals == [])
  }

  /** The characters that are not counted as taken; those behind the page never are. */
  function Left(v0: seq<int>, buffer: string): nat {
    if v0 == [] || buffer == [] then |buffer|
    else
      var r := ParseInts(Cut(buffer, PAGE_SIZE - 1), |v0|);
      if r.vals == [] then |buffer| else if r.err then |r.rest| else |SkipSpaces(r.rest)|
  }

  /** The writing half of __do_proc_dointvec() at position 0. */
  method WriteInts(v0: seq<int>, buffer: string) returns (v: seq<int>, err: bool, left: nat)
    ensures (v, err) == Wrote(v0, buffer) && left == Left(v0, buffer)
  {
    hide GetLong, SkipSpaces, Conv, ParseInts;
    if v0 == [] || buffer == [] {
      return v0, false, |buffer|;
    }
    var p := buffer;
    if |p| > PAGE_SIZE - 1 {
      p := p[..PAGE_SIZE - 1];
    }
    ghost var text := p;
    v, err := v0, false;
    var i, first := 0, true;
    ghost var done: seq<int> := [];
    SoFarStart(text, |v0|);
    while |p| != 0 && i < |v0|
      invariant 0 <= i <= |v0| && |v| == |v0| && |done| == i && v == done + v0[i..] && first == (i == 0) && !err
      invariant SoFar(text, |v0|, done, p, |v0| - i)
      decreases |v0| - i
    {
      SoFarNext(text, |v0|, done, p, |v0| - i);
      p := SkipSpaces(p);
      if |p| == 0 {
        return v, first, if first then |buffer| else 0;
      }
      var num := GetLong(p, WSPACE, ULONG_MAX);
      if num.None? {
        err := true;
        break;
      }
      var x := Conv(num.value.neg, num.value.val);
      p := num.value.rest;
      if x.None? {
        err := true;
        break;
      }
      v := v[i := x.value];
      assert v == (done + [x.value]) + v0[i + 1..];
      done := done + [x.value];
      i := i + 1;
      first := false;
    }
    if !err {
      SoFarEnd(text, |v0|, done, p, |v0| - i);
      p := SkipSpaces(p);
    }
    left := |p|;
    if first {
      err, left := true, |buffer|;
    }
  }

  /** `done` has been read, and the rest is to be read from `p`. */
  ghost predicate SoFar(text: string, n0: nat, done: seq<int>, p: string, n: nat) {
    var r, q := ParseInts(text, n0), ParseInts(p, n);
    r.vals == done + q.vals && r.err == q.err && r.rest == q.rest
  }

  lemma SoFarStart(text: string, n0: nat)
    ensures SoFar(text, n0, [], text, n0)
  {
  }

  lemma SoFarNext(text: string, n0: nat, done: seq<int>, p: string, n: nat)
    requires SoFar(text, n0, done, p, n) && p != [] && n >= 1
    ensures
      var r, s := ParseInts(text, n0), SkipSpaces(p);
      && (s == [] ==> r.vals == done && !r.err && r.rest == s)
      && (s != [] ==>
            var num := GetLong(s, WSPACE, ULONG_MAX);
            && (num.None? ==> r.vals == done && r.err && r.rest == s)
            && (num.Some? ==>
                  var x := Conv(num.value.neg, num.value.val);
                  && (x.None? ==> r.vals == done && r.err && r.rest == num.value.rest)
                  && (x.Some? ==> SoFar(text, n0, done + [x.value], num.value.rest, n - 1))))
  {
    hide GetLong, SkipSpaces, Conv, ParseInts;
    ParseStep(p, n);
  }

  lemma SoFarEnd(text: string, n0: nat, done: seq<int>, p: string, n: nat)
    requires (p == [] || n == 0) && SoFar(text, n0, done, p, n)
    ensures ParseInts(text, n0) == Parsed(false, done, p)
  {
  }

  lemma ParseStep(text: string, n: nat)
    requires text != [] && n >= 1
    ensures
      var p, r := SkipSpaces(text), ParseInts(text, n);
      && (p == [] ==> r.vals == [] && !r.err && r.rest == p)
      && (p != [] ==>
            var num := GetLong(p, WSPACE, ULONG_MAX);
            && (num.None? ==> r.vals == [] && r.err && r.rest == p)
            && (num.Some? ==>
                  var x := Conv(num.value.neg, num.value.val);
                  && (x.None? ==> r.vals == [] && r.err && r.rest == num.value.rest)
                  && (x.Some? ==>
                        var q := ParseInts(num.value.rest, n - 1);
                        r.vals == [x.value] + q.vals && r.err == q.err && r.rest == q.rest)))
  {
    hide GetLong, SkipSpaces, Conv;
  }

  // --- what a list of numbers writes ---

  /** The text from number `k` on, with the given end. */
  function Rest(u: seq<int>, k: nat, end: string): string
    requires k < |u|
    decreases |u| - k
  {
    IntText(u[k]) + if k + 1 < |u| then "\t" + Rest(u, k + 1, end) else end
  }

  predicate IsInt(x: int) {
    -0x80000000 <= x <= 0x7fffffff
  }

  /** How many of the numbers from `k` on, at most `n`, are ints before the first that is not. */
  function Leading(u: seq<int>, k: nat, n: nat): (m: nat)
    requires k <= |u|
    ensures m <= n && k + m <= |u|
    decreases n
  {
    if n == 0 || k == |u| || !IsInt(u[k]) then 0 else 1 + Leading(u, k + 1, n - 1)
  }

  lemma IntTextStart(x: int, tail: string)
    ensures |IntText(x)| >= 1 && !IsSpace((IntText(x) + tail)[0]) && SkipSpaces(IntText(x) + tail) == IntText(x) + tail
  {
    DecDigits(Abs(x));
  }

  lemma SkipTab(s: string, n: nat)
    requires s == [] || !IsSpace(s[0])
    ensures ParseInts("\t" + s, n).vals == ParseInts(s, n).vals && ParseInts("\t" + s, n).err == ParseInts(s, n).err
  {
    var t := "\t" + s;
    assert t[1..] == s && SkipSpaces(s) == s;
  }

  lemma TenDigits()
    ensures Pow10(10) == 10000000000
  {
    assert Pow10(5) == 100000;
  }

  /** A printed number at the start of the text. */
  lemma ReadInt(x: int, tail: string, n: nat)
    requires Abs(x) <= ULONG_MAX && (tail == [] || tail[0] == '\t' || tail[0] == '\n') && n >= 1
    ensures
      var r, q := ParseInts(IntText(x) + tail, n), ParseInts(tail, n - 1);
      if IsInt(x) then r.vals == [x] + q.vals && r.err == q.err else r.vals == [] && r.err
  {
    hide GetLong, Dec, SkipSpaces, ParseInts;
    TenDigits();
    DecLength(Abs(x), 10);
    GetLongPrinted(Abs(x), x < 0, tail, WSPACE, ULONG_MAX);
    IntTextStart(x, tail);
    ParseStep(IntText(x) + tail, n);
  }

  /** A list of numbers is read up to the first one that is no int. */
  lemma {:induction false} ParseListed(u: seq<int>, k: nat, n: nat, end: string)
    requires k < |u| && (end == "" || end == "\n") && forall i :: 0 <= i < |u| ==> Abs(u[i]) <= ULONG_MAX
    ensures
      var r, m := ParseInts(Rest(u, k, end), n), Leading(u, k, n);
      r.vals == u[k..k + m] && r.err == (m < n && k + m < |u|)
    decreases |u| - k
  {
    hide GetLong, IntText, ParseInts, SkipSpaces, Abs;
    if n == 0 {
      ParseNone(Rest(u, k, end));
    } else {
      var tail := if k + 1 < |u| then "\t" + Rest(u, k + 1, end) else end;
      ReadInt(u[k], tail, n);
      if k + 1 < |u| {
        IntTextStart(u[k + 1], if k + 2 < |u| then "\t" + Rest(u, k + 2, end) else end);
        SkipTab(Rest(u, k + 1, end), n - 1);
        ParseListed(u, k + 1, n - 1, end);
        assert IsInt(u[k]) ==> u[k..k + Leading(u, k, n)] == [u[k]] + u[k + 1..k + Leading(u, k, n)];
      } else {
        ParseEnd(end, n - 1);
        assert u[k..k + 1] == [u[k]];
      }
    }
  }

  lemma ParseNone(text: string)
    ensures ParseInts(text, 0) == Parsed(false, [], text)
  {
  }

  lemma ParseEnd(end: string, n: nat)
    requires end == "" || end == "\n"
    ensures ParseInts(end, n).vals == [] && !ParseInts(end, n).err
  {
    if end == "\n" && n > 0 {
      assert end[1..] == "";
    }
  }

  /** Writing a list of numbers, as long as it fits a page: the first ones are stored, up to one that is no int, which is
      an error. */
  lemma WriteListed(v0: seq<int>, u: seq<int>, end: string)
    requires v0 != [] && u != [] && (end == "" || end == "\n") && forall i :: 0 <= i < |u| ==> Abs(u[i]) <= 0xffffffff
    requires |Rest(u, 0, end)| <= PAGE_SIZE - 1
    ensures
      var m := Leading(u, 0, |v0|);
      Wrote(v0, Rest(u, 0, end)) == (u[..m] + v0[m..], m < |v0| && m < |u|)
  {
    hide ParseInts, Rest, Abs;
    RestNonempty(u, 0, end);
    ParseListed(u, 0, |v0|, end);
  }

  lemma RestNonempty(u: seq<int>, k: nat, end: string)
    requires k < |u|
    ensures Rest(u, k, end) != ""
  {
    IntTextStart(u[k], "");
  }

  // --- print, then write back ---

  lemma {:induction false} TabbedRest(v: seq<int>, k: nat, end: string)
    requires k < |v|
    ensures Tabbed(v) + end == (if k == 0 then "" else Tabbed(v[..k]) + "\t") + Rest(v, k, end)
    decreases |v| - k
  {
    hide IntText;
    TabbedNext(v, k);
    if k + 1 < |v| {
      TabbedRest(v, k + 1, end);
    } else {
      assert v[..k + 1] == v;
    }
  }

  lemma TabbedIs(v: seq<int>, end: string)
    requires v != []
    ensures Rest(v, 0, end) == Tabbed(v) + end
  {
    hide Tabbed, Rest;
    TabbedRest(v, 0, end);
    assert "" + Rest(v, 0, end) == Rest(v, 0, end);
  }

  lemma {:induction false} AllLeading(v: seq<int>, k: nat)
    requires Ints(v) && k <= |v|
    ensures Leading(v, k, |v| - k) == |v| - k
    decreases |v| - k
  {
    if k < |v| {
      AllLeading(v, k + 1);
    }
  }

  /** The last of `n` numbers is not read as `x`. */
  ghost predicate Misses(r: Parsed, n: nat, x: int)
    requires n >= 1
  {
    r.err || |r.vals| < n || r.vals[n - 1] != x
  }

  /** The beginning of a printed number is no number or another one. */
  lemma CutNumber(x: int, m: nat, n: nat, y: int)
    requires IsInt(x) && m < |IntText(x)| && n >= 1 && (n == 1 ==> x == y)
    ensures Misses(ParseInts(IntText(x)[..m], n), n, y)
  {
    hide GetLong, Dec, ParseInts, SkipSpaces;
    var p := if x < 0 then 1 else 0;
    var s := IntText(x)[..m];
    if m == 0 {
      ParseEnd("", n);
      assert s == "";
    } else if m == p {
      assert s == "-";
      LoneMinus(n);
    } else {
      var q := DecPrefix(Abs(x), m - p);
      assert s == Printed(q, x < 0) && Printed(q, x < 0) + "" == s;
      TenDigits();
      DecLength(q, 10);
      GetLongPrinted(q, x < 0, "", WSPACE, ULONG_MAX);
      PrintedStart(q, x < 0);
      ParseStep(s, n);
      ParseEnd("", n - 1);
    }
  }

  lemma PrintedStart(q: nat, neg: bool)
    ensures |Printed(q, neg)| >= 1 && SkipSpaces(Printed(q, neg)) == Printed(q, neg)
  {
    DecDigits(q);
  }

  lemma LoneMinus(n: nat)
    requires n >= 1
    ensures ParseInts("-", n).err
  {
  }

  /** A text cut before the end of its last number does not give that number. */
  lemma {:induction false} CutMisses(v: seq<int>, k: nat, m: nat)
    requires Ints(v) && k < |v| && m < |Rest(v, k, "")|
    ensures Misses(ParseInts(Rest(v, k, "")[..m], |v| - k), |v| - k, v[|v| - 1])
    decreases |v| - k
  {
    hide GetLong, IntText, ParseInts, SkipSpaces;
    var x, n := v[k], |v| - k;
    var s, t := Rest(v, k, "")[..m], IntText(x);
    if m < |t| {
      assert s == t[..m];
      CutNumber(x, m, n, v[|v| - 1]);
    } else {
      var tail := s[|t|..];
      assert s == t + tail;
      if m == |t| {
        ReadInt(x, "", n);
        ParseEnd("", n - 1);
      } else {
        var rest := Rest(v, k + 1, "")[..m - |t| - 1];
        assert tail == "\t" + rest;
        ReadInt(x, tail, n);
        IntTextStart(v[k + 1], if k + 2 < |v| then "\t" + Rest(v, k + 2, "") else "");
        SkipTab(rest, n - 1);
        CutMisses(v, k + 1, m - |t| - 1);
      }
    }
  }

  lemma ShownInPage(v: seq<int>, size: nat)
    requires v != [] && size > 0
    ensures
      var t, s, m := Tabbed(v), Cut(Shown(v, size), PAGE_SIZE - 1), if size <= PAGE_SIZE - 1 then size else PAGE_SIZE - 1;
      && Shown(v, size) != ""
      && (m < |t| ==> s == t[..m])
      && (m >= |t| ==> s == Rest(v, 0, if m == |t| then "" else "\n"))
  {
    hide Tabbed, Rest;
    TabbedIs(v, "");
    TabbedIs(v, "\n");
  }

  /** Printing and writing back restores the vector whatever was there before exactly when all of it but the newline
      fits the buffer and a page. */
  lemma RestoredIff(v: seq<int>, size: nat)
    requires v != [] && Ints(v)
    ensures (forall old' :: |old'| == |v| ==> Wrote(old', Shown(v, size)) == (v, false))
            <==> |Tabbed(v)| <= size && |Tabbed(v)| <= 4095
  {
    if |Tabbed(v)| <= size && |Tabbed(v)| <= PAGE_SIZE - 1 {
      forall old': seq<int> | |old'| == |v|
        ensures Wrote(old', Shown(v, size)) == (v, false)
      {
        Restored(v, old', size);
      }
    } else {
      var old' := v[|v| - 1 := v[|v| - 1] + 1];
      NotRestored(v, old', size);
    }
  }

  lemma Restored(v: seq<int>, old': seq<int>, size: nat)
    requires v != [] && Ints(v) && |old'| == |v| && |Tabbed(v)| <= size && |Tabbed(v)| <= PAGE_SIZE - 1
    ensures Wrote(old', Shown(v, size)) == (v, false)
  {
    hide Tabbed, Rest, ParseInts, Shown;
    TabbedIs(v, "");
    RestNonempty(v, 0, "");
    ShownInPage(v, size);
    ParseListed(v, 0, |v|, "");
    ParseListed(v, 0, |v|, "\n");
    AllLeading(v, 0);
    assert v[0..|v|] == v && v + old'[|v|..] == v;
  }

  lemma NotRestored(v: seq<int>, old': seq<int>, size: nat)
    requires v != [] && Ints(v) && |old'| == |v| && old'[|v| - 1] != v[|v| - 1]
    requires size < |Tabbed(v)| || PAGE_SIZE - 1 < |Tabbed(v)|
    ensures Wrote(old', Shown(v, size)) != (v, false)
  {
    hide Tabbed, Rest, ParseInts;
    if size > 0 {
      TabbedIs(v, "");
      ShownInPage(v, size);
      hide Shown;
      var m := if size <= PAGE_SIZE - 1 then size else PAGE_SIZE - 1;
      CutMisses(v, 0, m);
      assert Rest(v, 0, "") == Tabbed(v);
      var r := ParseInts(Tabbed(v)[..m], |v|);
      assert |r.vals| < |v| ==> (r.vals + old'[|r.vals|..])[|v| - 1] == old'[|v| - 1];
    }
  }

  /** The two calls. */
  method IntsRoundTrip(v: seq<int>, old': seq<int>, size: nat) returns (w: seq<int>, err: bool)
    requires v != [] && Ints(v) && |old'| == |v|
    ensures |Tabbed(v)| <= size && |Tabbed(v)| <= PAGE_SIZE - 1 ==> !err && w == v
    ensures size < |Tabbed(v)| || PAGE_SIZE - 1 < |Tabbed(v)| ==> err || w != v || old'[|v| - 1] == v[|v| - 1]
  {
    hide Tabbed, Wrote, Shown, Ints;
    var text := PrintInts(v, size);
    var left;
    w, err, left := WriteInts(old', text);
    if |Tabbed(v)| <= size && |Tabbed(v)| <= PAGE_SIZE - 1 {
      Restored(v, old', size);
    } else if old'[|v| - 1] != v[|v| - 1] {
      NotRestored(v, old', size);
    }
  }
}
