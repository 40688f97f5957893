/** kernel/sysctl.c: proc_do_large_bitmap(), a bitmap as a comma-separated list of ranges such as 1,3-4,10. */
module SysctlBitmap {
  import opened SysctlText
  import opened Sysctl
  import opened BitmapNext

  type Run = (nat, nat)

  // --- runs of set bits ---

  /** The maximal runs of set bits from `from` on, first and last bit of each. */
  function Runs(bm: Bitmap, from: nat): seq<Run>
    requires from <= |bm|
    decreases |bm| - from
  {
    var a := Next(bm, |bm|, from, true);
    if a == |bm| then []
    else
      var z := Next(bm, |bm|, a + 1, false);
      [(a, z - 1)] + Runs(bm, z)
  }

  function SetRange(bm: Bitmap, a: nat, b: nat): (r: Bitmap)
    ensures |r| == |bm|
  {
    seq(|bm|, i requires 0 <= i < |bm| => bm[i] || a <= i <= b)
  }

  function SetRuns(bm: Bitmap, runs: seq<Run>): (r: Bitmap)
    ensures |r| == |bm|
    decreases |runs|
  {
    if runs == [] then bm else SetRuns(SetRange(bm, runs[0].0, runs[0].1), runs[1..])
  }

  /** Setting the runs of a bitmap in a copy of what lies before them gives the bitmap. */
  lemma {:induction false} RunsRestore(bm: Bitmap, from: nat, acc: Bitmap)
    requires from <= |bm| == |acc| && forall i :: 0 <= i < |bm| ==> acc[i] == (i < from && bm[i])
    ensures SetRuns(acc, Runs(bm, from)) == bm
    decreases |bm| - from
  {
    hide Next, SetRange;
    var a := Next(bm, |bm|, from, true);
    if a == |bm| {
      assert acc == bm;
    } else {
      var z := Next(bm, |bm|, a + 1, false);
      var r, rest := (a, z - 1), Runs(bm, z);
      assert Runs(bm, from)[0] == r && Runs(bm, from)[1..] == rest;
      RunSet(bm, from, acc, a, z);
      RunsRestore(bm, z, SetRange(acc, a, z - 1));
    }
  }

  lemma RunSet(bm: Bitmap, from: nat, acc: Bitmap, a: nat, z: nat)
    requires from <= a < z <= |bm| == |acc| && forall i :: 0 <= i < |bm| ==> acc[i] == (i < from && bm[i])
    requires (forall i :: from <= i < a ==> !bm[i]) && (forall i :: a <= i < z ==> bm[i])
    ensures forall i :: 0 <= i < |bm| ==> SetRange(acc, a, z - 1)[i] == (i < z && bm[i])
  {
  }

  /** The runs are the maximal ones, from left to right. */
  lemma {:induction false} RunsMaximal(bm: Bitmap, from: nat)
    requires from <= |bm|
    ensures forall k :: 0 <= k < |Runs(bm, from)| ==> IsRun(bm, from, Runs(bm, from)[k])
    ensures forall k :: 0 <= k < |Runs(bm, from)| - 1 ==> Runs(bm, from)[k].1 + 1 < Runs(bm, from)[k + 1].0
    decreases |bm| - from
  {
    hide Next;
    var a := Next(bm, |bm|, from, true);
    if a != |bm| {
      var z := Next(bm, |bm|, a + 1, false);
      var rest, all := Runs(bm, z), Runs(bm, from);
      RunsMaximal(bm, z);
      assert all == [(a, z - 1)] + rest;
      assert z < |bm| ==> !bm[z];
      forall k | 0 <= k < |all|
        ensures IsRun(bm, from, all[k])
      {
        if k > 0 {
          assert all[k] == rest[k - 1] && IsRun(bm, z, rest[k - 1]) && bm[rest[k - 1].0];
        }
      }
      forall k | 0 <= k < |all| - 1
        ensures all[k].1 + 1 < all[k + 1].0
      {
        assert all[k + 1] == rest[k] && IsRun(bm, z, rest[k]) && bm[rest[k].0];
        if k > 0 {
          assert all[k] == rest[k - 1];
        }
      }
    }
  }

  /** A run of set bits that goes on neither way, looking from `from` on. */
  ghost predicate IsRun(bm: Bitmap, from: nat, r: Run) {
    && from <= r.0 <= r.1 < |bm| && (forall i :: r.0 <= i <= r.1 ==> bm[i])
    && (r.0 > from ==> !bm[r.0 - 1]) && (r.1 + 1 < |bm| ==> !bm[r.1 + 1])
  }

  lemma {:induction false} RunsBelow(bm: Bitmap, from: nat)
    requires from <= |bm|
    ensures forall i :: 0 <= i < |Runs(bm, from)| ==> Runs(bm, from)[i].0 <= Runs(bm, from)[i].1 < |bm|
    decreases |bm| - from
  {
    var a := Next(bm, |bm|, from, true);
    if a != |bm| {
      RunsBelow(bm, Next(bm, |bm|, a + 1, false));
    }
  }

  // --- printing ---

  function RunText(r: Run): string {
    Dec(r.0) + if r.0 != r.1 then "-" + Dec(r.1) else ""
  }

  function Commas(runs: seq<Run>): string {
    if runs == [] then ""
    else if |runs| == 1 then RunText(runs[0])
    else Commas(runs[..|runs| - 1]) + "," + RunText(runs[|runs| - 1])
  }

  lemma Format()
    ensures Commas([(1, 1), (3, 4), (10, 10)]) == "1,3-4,10"
  {
    var r: seq<Run> := [(1, 1), (3, 4), (10, 10)];
    assert r[..2][..1] == [r[0]] && r[..2][1] == r[1];
    assert Dec(1) == "1" && Dec(3) == "3" && Dec(4) == "4" && Dec(10) == Dec(1) + "0";
    assert Commas(r[..2][..1]) == "1" && Commas(r[..2]) == "1,3-4";
  }

  /** The reading half. */
  method PrintBitmap(bm: Bitmap, size: nat) returns (buf: string)
    requires bm != []
    ensures buf == if size == 0 then "" else Cut(Commas(Runs(bm, 0)) + "\n", size)
  {
    hide Dec, Cut, Commas, RunText, Runs;
    buf := "";
    if size == 0 {
      return;
    }
    var left, bitB, first := size, 0, true;
    ghost var done: seq<Run> := [];
    CutNothing(size);
    while left != 0
      invariant bitB <= |bm| && |buf| + left == size && Runs(bm, 0) == done + Runs(bm, bitB) && first == (done == [])
      invariant buf == Cut(Commas(done), size)
      decreases |bm| - bitB
    {
      RunsNext(bm, bitB);
      var bitA := Next(bm, |bm|, bitB, true);
      if bitA >= |bm| {
        break;
      }
      bitB := Next(bm, |bm|, bitA + 1, false) - 1;
      buf, left := PrintRun(buf, left, size, first, done, (bitA, bitB));
      done := done + [(bitA, bitB)];
      first := false;
      bitB := bitB + 1;
    }
    var line;
    line, left := PutChar(buf, left, '\n');
    CutAppend(Commas(done), "\n", size, buf);
    if |buf| == size {
      FullAlready(done, Runs(bm, bitB), size, buf);
    } else {
      assert done + [] == done;
    }
    buf := line;
  }

  method PrintRun(buf0: string, left0: nat, size: nat, first: bool, ghost done: seq<Run>, r: Run) returns (buf: string, left: nat)
    requires |buf0| + left0 == size && buf0 == Cut(Commas(done), size) && first == (done == [])
    ensures |buf| + left == size && buf == Cut(Commas(done + [r]), size)
  {
    hide Cut, Commas, Dec, RunText;
    CommasNext(done, r);
    buf, left := buf0, left0;
    ghost var sofar := Commas(done);
    if !first {
      CutAppend(sofar, ",", size, buf);
      buf, left := PutChar(buf, left, ',');
      sofar := sofar + ",";
    }
    CutAppend(sofar, Dec(r.0), size, buf);
    assert Printed(r.0, false) == Dec(r.0);
    buf, left := PutLong(buf, left, r.0, false);
    sofar := sofar + Dec(r.0);
    if r.0 != r.1 {
      CutAppend(sofar, "-", size, buf);
      buf, left := PutChar(buf, left, '-');
      sofar := sofar + "-";
      CutAppend(sofar, Dec(r.1), size, buf);
      assert Printed(r.1, false) == Dec(r.1);
      buf, left := PutLong(buf, left, r.1, false);
      sofar := sofar + Dec(r.1);
    }
    RunPieces(Commas(done), r);
  }

  lemma RunPieces(s: string, r: Run)
    ensures s + "," + RunText(r) == if r.0 != r.1 then s + "," + Dec(r.0) + "-" + Dec(r.1) else s + "," + Dec(r.0)
    ensures RunText(r) == if r.0 != r.1 then "" + Dec(r.0) + "-" + Dec(r.1) else "" + Dec(r.0)
  {
    hide Dec;
    var d, e := Dec(r.0), Dec(r.1);
    assert d + "" == d && "" + d == d;
    assert s + "," + (d + ("-" + e)) == s + "," + d + "-" + e;
    assert d + ("-" + e) == "" + d + "-" + e;
  }

  lemma CutNothing(size: nat)
    ensures Cut(Commas([]), size) == ""
  {
  }

  lemma RunsNext(bm: Bitmap, from: nat)
    requires from <= |bm|
    ensures
      var a := Next(bm, |bm|, from, true);
      if a == |bm| then Runs(bm, from) == []
      else var z := Next(bm, |bm|, a + 1, false); Runs(bm, from) == [(a, z - 1)] + Runs(bm, z)
  {
  }

  lemma CommasNext(done: seq<Run>, r: Run)
    ensures Commas(done + [r]) == if done == [] then RunText(r) else Commas(done) + "," + RunText(r)
    ensures done == [] ==> Commas(done) == ""
  {
    assert (done + [r])[..|done|] == done;
  }

  lemma {:induction false} CommasGrows(a: seq<Run>, b: seq<Run>)
    ensures Commas(a) <= Commas(a + b)
  {
    if b == [] {
      assert a + b == a;
    } else {
      var n := |b| - 1;
      CommasGrows(a, b[..n]);
      CommasNext(a + b[..n], b[n]);
      assert a + b[..n] + [b[n]] == a + b;
      if a + b[..n] == [] {
        assert a == [];
      }
    }
  }

  lemma FullAlready(done: seq<Run>, more: seq<Run>, size: nat, buf: string)
    requires buf == Cut(Commas(done), size) && |buf| == size
    ensures Cut(Commas(done + more) + "\n", size) == Cut(Commas(done) + "\n", size)
  {
    CommasGrows(done, more);
    hide Commas;
  }

  // --- reading back ---

  const TR_A: seq<char> := ['-', ',', '\n']
  const TR_B: seq<char> := [',', '\n', '\0']

  /** The bits, and how many characters are left for the next call. */
  datatype Loaded = Loaded(err: bool, bits: Bitmap, left: nat)

  function SkipNewlines(s: string): (r: string)
    ensures |r| <= |s|
  {
    if s != [] && s[0] == '\n' then SkipNewlines(s[1..]) else s
  }

  function Tail(s: string): (r: string)
    ensures |r| <= |s|
  {
    if s == [] then s else s[1..]
  }

  /** The parsing loop.  `c` is the last trailing character seen, arbitrary before the first; `cut` tells that the
      text was cut at a page, so that a number at its very end is left for the next call. */
  function Load(text: string, bits: Bitmap, c: char, cut: bool): (r: Loaded)
    ensures |r.bits| == |bits| && r.left <= |text|
    decreases |text|
  {
    if text == [] then Loaded(false, bits, 0)
    else
      var num := GetLong(text, TR_A, ULONG_MAX);
      var left := if num.None? then |text| else |num.value.rest|;
      if left <= 1 && cut then Loaded(num.None?, bits, |text|)
      else if num.None? then Loaded(true, bits, 0)
      else
        var a := num.value.val;
        if a >= |bits| || num.value.neg then Loaded(true, bits, 0)
        else
          var c1 := if num.value.tr.Some? then num.value.tr.value else c;
          var rest := Tail(num.value.rest);
          if c1 != '-' then Load(SkipNewlines(rest), SetRange(bits, a, a), c1, cut)
          else
            var num2 := GetLong(rest, TR_B, ULONG_MAX);
            var left2 := if num2.None? then |rest| else |num2.value.rest|;
            if left2 == 0 && cut then Loaded(num2.None?, bits, |text|)
            else if num2.None? then Loaded(true, bits, 0)
            else
              var b := num2.value.val;
              if b >= |bits| || num2.value.neg || a > b then Loaded(true, bits, 0)
              else
                var c2 := if num2.value.tr.Some? then num2.value.tr.value else c1;
                Load(SkipNewlines(Tail(num2.value.rest)), SetRange(bits, a, b), c2, cut)
  }

  function Zeros(n: nat): (r: Bitmap)
    ensures |r| == n
  {
    seq(n, _ => false)
  }

  /** The bits of either. */
  function Either(a: Bitmap, b: Bitmap): (r: Bitmap)
    requires |a| == |b|
    ensures |r| == |a|
  {
    seq(|a|, i requires 0 <= i < |a| => a[i] || b[i])
  }

  /** The writing half: the bits replace the bitmap at position 0 and are added to it elsewhere; an error changes nothing. */
  function Written(bm: Bitmap, buffer: string, pos: nat, c: char): (w: Loaded)
    ensures |w.bits| == |bm| && w.left <= |buffer|
  {
    if bm == [] || buffer == [] then Loaded(false, bm, |buffer|)
    else
      var page := Cut(buffer, PAGE_SIZE - 1);
      var r := Load(SkipNewlines(page), Zeros(|bm|), c, |buffer| > PAGE_SIZE - 1);
      if r.err then Loaded(true, bm, 0)
      else Loaded(false, if pos == 0 then r.bits else Either(bm, r.bits), r.left + |buffer| - |page|)
  }

  /** The writing half as a loop. */
  method WriteBitmap(bm: Bitmap, buffer: string, pos: nat, c0: char) returns (err: bool, bits: Bitmap, left: nat)
    ensures Loaded(err, bits, left) == Written(bm, buffer, pos, c0)
  {
    hide GetLong, Load, SkipNewlines, SetRange, Either;
    if bm == [] || buffer == [] {
      return false, bm, |buffer|;
    }
    var cut := |buffer| > PAGE_SIZE - 1;
    var skipped := if cut then |buffer| - (PAGE_SIZE - 1) else 0;
    var p := SkipNewlines(Cut(buffer, PAGE_SIZE - 1));
    var tmp, c := Zeros(|bm|), c0;
    ghost var goal := Load(p, tmp, c, cut);
    err, left := false, |p|;
    while !err && left != 0
      invariant |tmp| == |bm| && left == |p| && (if err then goal.err else Load(p, tmp, c, cut) == goal)
      decreases |p|, !err
    {
      LoadStep(p, tmp, c, cut);
      var savedLeft := left;
      var num := GetLong(p, TR_A, ULONG_MAX);
      err := num.None?;
      if !err {
        left := |num.value.rest|;
      }
      if left <= 1 && cut {
        left := savedLeft;
        break;
      }
      if err {
        break;
      }
      var valA := num.value.val;
      if valA >= |bm| || num.value.neg {
        err := true;
        break;
      }
      var valB := valA;
      if num.value.tr.Some? {
        c := num.value.tr.value;
      }
      p := Tail(num.value.rest);
      left := |p|;
      if c == '-' {
        var num2 := GetLong(p, TR_B, ULONG_MAX);
        err := num2.None?;
        if !err {
          left := |num2.value.rest|;
        }
        if left == 0 && cut {
          left := savedLeft;
          break;
        }
        if err {
          break;
        }
        valB := num2.value.val;
        if valB >= |bm| || num2.value.neg || valA > valB {
          err := true;
          break;
        }
        if num2.value.tr.Some? {
          c := num2.value.tr.value;
        }
        p := Tail(num2.value.rest);
      }
      tmp := SetRange(tmp, valA, valB);
      p := SkipNewlines(p);
      left := |p|;
    }
    if !err && left == 0 {
      LoadEnd(tmp, c, cut);
    }
    if err {
      bits, left := bm, 0;
    } else {
      bits := if pos != 0 then Either(bm, tmp) else tmp;
      left := left + skipped;
    }
  }

  lemma LoadEnd(bits: Bitmap, c: char, cut: bool)
    ensures Load([], bits, c, cut) == Loaded(false, bits, 0)
  {
  }

  /** One turn of the parsing loop. */
  lemma LoadStep(text: string, bits: Bitmap, c: char, cut: bool)
    requires text != []
    ensures Load(text, bits, c, cut) ==
      var num := GetLong(text, TR_A, ULONG_MAX);
      var left := if num.None? then |text| else |num.value.rest|;
      if left <= 1 && cut then Loaded(num.None?, bits, |text|)
      else if num.None? then Loaded(true, bits, 0)
      else
        var a := num.value.val;
        if a >= |bits| || num.value.neg then Loaded(true, bits, 0)
        else
          var c1 := if num.value.tr.Some? then num.value.tr.value else c;
          var rest := Tail(num.value.rest);
          if c1 != '-' then Load(SkipNewlines(rest), SetRange(bits, a, a), c1, cut)
          else
            var num2 := GetLong(rest, TR_B, ULONG_MAX);
            var left2 := if num2.None? then |rest| else |num2.value.rest|;
            if left2 == 0 && cut then Loaded(num2.None?, bits, |text|)
            else if num2.None? then Loaded(true, bits, 0)
            else
              var b := num2.value.val;
              if b >= |bits| || num2.value.neg || a > b then Loaded(true, bits, 0)
              else
                var c2 := if num2.value.tr.Some? then num2.value.tr.value else c1;
                Load(SkipNewlines(Tail(num2.value.rest)), SetRange(bits, a, b), c2, cut)
  {
    hide GetLong, SkipNewlines, SetRange;
  }

  /** The text of the runs, closed by a newline. */
  function Listed(runs: seq<Run>): string {
    if runs == [] then "\n"
    else RunText(runs[0]) + if |runs| == 1 then "\n" else "," + Listed(runs[1..])
  }

  lemma {:induction false} CommasListed(done: seq<Run>, runs: seq<Run>)
    ensures runs != [] ==> Commas(done + runs) + "\n" == (if done == [] then "" else Commas(done) + ",") + Listed(runs)
    decreases |runs|
  {
    hide RunText, Commas;
    if runs != [] {
      var r, rest := runs[0], runs[1..];
      CommasNext(done, r);
      assert done + runs == (done + [r]) + rest;
      if rest == [] {
        assert done + runs == done + [r];
      } else {
        CommasListed(done + [r], rest);
      }
    }
  }

  lemma RunStart(r: Run, tail: string)
    ensures SkipNewlines(RunText(r) + tail) == RunText(r) + tail && RunText(r) + tail != []
  {
    DecDigits(r.0);
    assert IsDigit(Dec(r.0)[0]);
    assert (RunText(r) + tail)[0] == Dec(r.0)[0];
  }

  lemma ReadNumber(n: nat, tail: string, trailers: seq<char>)
    requires n <= ULONG_MAX && (tail == [] || tail[0] in trailers) && (trailers == TR_A || trailers == TR_B)
    ensures GetLong(Dec(n) + tail, trailers, ULONG_MAX)
         == Some(Number(n, false, if tail == [] then None else Some(tail[0]), tail))
  {
    hide GetLong, Dec;
    TenDigits();
    DecLength(n, 10);
    assert Printed(n, false) == Dec(n);
    GetLongPrinted(n, false, tail, trailers, ULONG_MAX);
  }

  ghost predicate RunOk(r: Run, n: nat) {
    r.0 <= r.1 < n
  }

  /** One run: a number, or two with a dash. */
  lemma LoadRun(r: Run, tail: string, bits: Bitmap, c: char, cut: bool)
    requires r.0 <= ULONG_MAX && r.1 <= ULONG_MAX && tail != [] && (tail[0] == ',' || tail[0] == '\n')
    requires cut ==> r.0 != r.1 || |tail| >= 2
    ensures
      var l := Load(RunText(r) + tail, bits, c, cut);
      if RunOk(r, |bits|) then l == Load(SkipNewlines(tail[1..]), SetRange(bits, r.0, r.1), tail[0], cut) else l.err
  {
    hide GetLong, Dec, SetRange, Load;
    var text := RunText(r) + tail;
    LoadStep(text, bits, c, cut);
    if r.0 == r.1 {
      assert text == Dec(r.0) + tail;
      ReadNumber(r.0, tail, TR_A);
    } else {
      var rest := Dec(r.1) + tail;
      assert text == Dec(r.0) + ("-" + rest);
      ReadNumber(r.0, "-" + rest, TR_A);
      assert ("-" + rest)[1..] == rest;
      ReadNumber(r.1, tail, TR_B);
    }
  }

  lemma {:induction false} LoadListed(runs: seq<Run>, bits: Bitmap, c: char)
    requires runs != [] && forall i :: 0 <= i < |runs| ==> runs[i].0 <= ULONG_MAX && runs[i].1 <= ULONG_MAX
    ensures
      var l := Load(Listed(runs), bits, c, false);
      if forall i :: 0 <= i < |runs| ==> RunOk(runs[i], |bits|) then l == Loaded(false, SetRuns(bits, runs), 0) else l.err
    decreases |runs|
  {
    hide RunText, SetRange, Load, RunOk;
    var r, rest := runs[0], runs[1..];
    var tail := if |runs| == 1 then "\n" else "," + Listed(rest);
    assert Listed(runs) == RunText(r) + tail;
    LoadRun(r, tail, bits, c, false);
    assert (forall i :: 0 <= i < |runs| ==> RunOk(runs[i], |bits|))
      <==> RunOk(r, |bits|) && forall i :: 0 <= i < |rest| ==> RunOk(rest[i], |bits|) by {
      assert forall i :: 0 <= i < |rest| ==> rest[i] == runs[i + 1];
      assert forall i :: 0 < i < |runs| ==> runs[i] == rest[i - 1];
    }
    if |runs| == 1 {
      assert tail[1..] == [] && SkipNewlines([]) == [];
      LoadEnd(SetRange(bits, r.0, r.1), '\n', false);
      assert runs[1..] == [];
    } else {
      assert tail[1..] == Listed(rest);
      RunStart(rest[0], if |rest| == 1 then "\n" else "," + Listed(rest[1..]));
      LoadListed(rest, SetRange(bits, r.0, r.1), ',');
    }
  }

  /** Some run has the bit. */
  ghost predicate Covered(runs: seq<Run>, i: nat) {
    exists k :: 0 <= k < |runs| && runs[k].0 <= i <= runs[k].1
  }

  lemma {:induction false} SetRunsBits(bm: Bitmap, runs: seq<Run>, i: nat)
    requires i < |bm|
    ensures SetRuns(bm, runs)[i] == (bm[i] || Covered(runs, i))
    decreases |runs|
  {
    if runs != [] {
      var b := SetRange(bm, runs[0].0, runs[0].1);
      SetRunsBits(b, runs[1..], i);
      assert forall k :: 0 <= k < |runs[1..]| ==> runs[1..][k] == runs[k + 1];
      assert forall k :: 0 < k < |runs| ==> runs[k] == runs[1..][k - 1];
    }
  }

  /** Writing a list of ranges that fits a page: accepted exactly when every range is one within the bitmap, and then
      the bits of the ranges are set and, at position 0, no others. */
  lemma WriteListed(bm: Bitmap, runs: seq<Run>, pos: nat, c: char)
    requires bm != [] && |Listed(runs)| <= PAGE_SIZE - 1
    requires forall i :: 0 <= i < |runs| ==> runs[i].0 <= 0xffffffff && runs[i].1 <= 0xffffffff
    ensures
      var w := Written(bm, Listed(runs), pos, c);
      && (w.err <==> !forall k :: 0 <= k < |runs| ==> RunOk(runs[k], |bm|))
      && (!w.err ==> w.left == 0 && forall i :: 0 <= i < |bm| ==> w.bits[i] == ((pos != 0 && bm[i]) || Covered(runs, i)))
      && (w.err ==> w.bits == bm)
  {
    hide Load, RunText, RunOk, SetRuns, Covered;
    var z := Zeros(|bm|);
    if runs == [] {
      LoadNewline(z, c, false);
      assert SetRuns(z, runs) == z by { SetRunsNone(z); }
    } else {
      RunStart(runs[0], if |runs| == 1 then "\n" else "," + Listed(runs[1..]));
      LoadListed(runs, z, c);
    }
    forall i | 0 <= i < |bm|
      ensures SetRuns(z, runs)[i] == Covered(runs, i)
    {
      SetRunsBits(z, runs, i);
    }
  }

  lemma SetRunsNone(bm: Bitmap)
    ensures SetRuns(bm, []) == bm
  {
  }

  lemma LoadNewline(bits: Bitmap, c: char, cut: bool)
    ensures SkipNewlines(Listed([])) == [] && Load([], bits, c, cut) == Loaded(false, bits, 0)
  {
    assert Listed([]) == "\n" && "\n"[1..] == [];
  }
}
