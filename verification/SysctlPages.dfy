/**
 kernel/sysctl.c: a list of ranges longer than a page is written in several calls.  Each one takes as many whole ranges
 as lie in the first PAGE_SIZE - 1 characters; the next call goes on where it stopped.
 */
module SysctlPages {
  import opened SysctlText
  import opened Sysctl
  import opened SysctlBitmap
  import opened BitmapNext

  ghost predicate RunsOk(runs: seq<Run>, n: nat) {
    forall k :: 0 <= k < |runs| ==> RunOk(runs[k], n)
  }

  function Closing(runs: seq<Run>): string
    requires runs != []
  {
    if |runs| == 1 then "\n" else "," + Listed(runs[1..])
  }

  lemma ListedIs(runs: seq<Run>)
    requires runs != []
    ensures Listed(runs) == RunText(runs[0]) + Closing(runs) && Closing(runs) != []
    ensures Closing(runs)[0] == ',' || Closing(runs)[0] == '\n'
  {
    hide RunText;
  }

  /** A number cut off at the end of the page is left for the next call. */
  lemma NumberLeft(n: nat, m: nat, tail: string, bits: Bitmap, c: char)
    requires n <= ULONG_MAX && 0 < m <= |Dec(n)| + 1 && m <= |Dec(n)| + |tail| && (tail == [] || tail[0] in TR_A)
    ensures var p := (Dec(n) + tail)[..m]; Load(p, bits, c, true) == Loaded(false, bits, |p|)
  {
    hide GetLong, Dec, Load;
    var p := (Dec(n) + tail)[..m];
    LoadStep(p, bits, c, true);
    if m < |Dec(n)| {
      var q := DecPrefix(n, m);
      assert p == Dec(q) + "";
      ReadNumber(q, "", TR_A);
    } else {
      var t := tail[..m - |Dec(n)|];
      assert p == Dec(n) + t;
      ReadNumber(n, t, TR_A);
    }
  }

  /** So is a range whose second number reaches the end of the page. */
  lemma RangeLeft(r: Run, m: nat, bits: Bitmap, c: char)
    requires RunOk(r, |bits|) && r.0 != r.1 && |bits| <= ULONG_MAX && |Dec(r.0)| + 1 < m <= |RunText(r)|
    ensures Load(RunText(r)[..m], bits, c, true) == Loaded(false, bits, m)
  {
    hide GetLong, Dec, Load;
    var d := Dec(r.0);
    var p, e := RunText(r)[..m], Dec(r.1)[..m - |d| - 1];
    assert p == d + ("-" + e);
    LoadStep(p, bits, c, true);
    ReadNumber(r.0, "-" + e, TR_A);
    assert ("-" + e)[1..] == e;
    if |e| < |Dec(r.1)| {
      var q := DecPrefix(r.1, |e|);
      assert e == Dec(q) + "";
      ReadNumber(q, "", TR_B);
    } else {
      assert e == Dec(r.1) + "";
      ReadNumber(r.1, "", TR_B);
    }
  }

  /** The range at the end of the page is left, unless all of it and the character after it are there. */
  lemma RunLeft(r: Run, tail: string, m: nat, bits: Bitmap, c: char)
    requires RunOk(r, |bits|) && |bits| <= ULONG_MAX && tail != [] && (tail[0] == ',' || tail[0] == '\n')
    requires m <= |RunText(r)| + (if r.0 == r.1 then 1 else 0)
    ensures Load((RunText(r) + tail)[..m], bits, c, true) == Loaded(false, bits, m)
  {
    hide Dec, Load;
    var p, d := (RunText(r) + tail)[..m], Dec(r.0);
    if m == 0 {
      LoadEnd(bits, c, true);
    } else if r.0 == r.1 {
      assert p == (d + tail)[..m];
      NumberLeft(r.0, m, tail, bits, c);
    } else if m <= |d| + 1 {
      var rest := "-" + Dec(r.1) + tail;
      assert RunText(r) + tail == d + rest;
      NumberLeft(r.0, m, rest, bits, c);
    } else {
      assert p == RunText(r)[..m];
      RangeLeft(r, m, bits, c);
    }
  }

  /** What one call takes of a list that does not fit the page: `j` whole ranges. */
  ghost predicate Takes(runs: seq<Run>, bits: Bitmap, m: nat, l: Loaded, j: nat) {
    && j < |runs| && !l.err && l.left <= m <= |Listed(runs)| && l.bits == SetRuns(bits, runs[..j])
    && Listed(runs)[m - l.left..] == Listed(runs[j..])
  }

  lemma TakesNone(runs: seq<Run>, bits: Bitmap, m: nat)
    requires runs != [] && m <= |Listed(runs)|
    ensures Takes(runs, bits, m, Loaded(false, bits, m), 0)
  {
    assert runs[..0] == [] && runs[0..] == runs && Listed(runs)[0..] == Listed(runs);
  }

  lemma TakesMore(runs: seq<Run>, bits: Bitmap, m: nat, l: Loaded, j: nat)
    requires |runs| >= 2 && |RunText(runs[0])| + 1 <= m
    requires Takes(runs[1..], SetRange(bits, runs[0].0, runs[0].1), m - |RunText(runs[0])| - 1, l, j)
    ensures Takes(runs, bits, m, l, j + 1)
  {
    hide RunText, SetRange;
    var rest := runs[1..];
    ListedIs(runs);
    assert Listed(runs) == (RunText(runs[0]) + ",") + Listed(rest);
    assert runs[..j + 1][1..] == rest[..j] && runs[j + 1..] == rest[j..];
  }

  lemma {:induction false} LoadCut(runs: seq<Run>, bits: Bitmap, c: char, m: nat) returns (j: nat)
    requires runs != [] && RunsOk(runs, |bits|) && |bits| <= ULONG_MAX && m < |Listed(runs)|
    ensures Takes(runs, bits, m, Load(Listed(runs)[..m], bits, c, true), j)
    ensures m > |RunText(runs[0])| + 1 ==> j > 0
    decreases |runs|
  {
    hide RunText, Load, Takes, SetRange;
    var r, t := runs[0], Closing(runs);
    ListedIs(runs);
    if m <= |RunText(r)| + (if r.0 == r.1 then 1 else 0) {
      RunLeft(r, t, m, bits, c);
      TakesNone(runs, bits, m);
      j := 0;
    } else {
      var k := m - |RunText(r)|;
      assert Listed(runs)[..m] == RunText(r) + t[..k];
      assert RunOk(r, |bits|);
      LoadRun(r, t[..k], bits, c, true);
      var rest := runs[1..];
      assert t[..k][1..] == Listed(rest)[..k - 1];
      assert RunsOk(rest, |bits|);
      if k > 1 {
        RunStart(rest[0], Closing(rest));
        ListedIs(rest);
        SkipNone(Listed(rest), k - 1);
      }
      j := LoadCut(rest, SetRange(bits, r.0, r.1), t[0], k - 1);
      TakesMore(runs, bits, m, Load(Listed(runs)[..m], bits, c, true), j);
      j := j + 1;
    }
  }

  lemma SkipNone(s: string, m: nat)
    requires 1 <= m <= |s| && SkipNewlines(s) == s
    ensures SkipNewlines(s[..m]) == s[..m]
  {
    assert s[0] != '\n';
  }

  lemma RunLength(r: Run)
    requires r.0 <= ULONG_MAX && r.1 <= ULONG_MAX
    ensures 1 <= |RunText(r)| <= 21
  {
    hide Dec;
    TenDigits();
    DecLength(r.0, 10);
    DecLength(r.1, 10);
  }

  // --- all calls together ---

  lemma {:induction false} SetRunsAppend(bm: Bitmap, a: seq<Run>, b: seq<Run>)
    ensures SetRuns(bm, a + b) == SetRuns(SetRuns(bm, a), b)
    decreases |a|
  {
    hide SetRange;
    if a == [] {
      assert a + b == b;
    } else {
      assert (a + b)[1..] == a[1..] + b;
      SetRunsAppend(SetRange(bm, a[0].0, a[0].1), a[1..], b);
    }
  }

  /** Adding what a call has read to what the earlier calls have set. */
  lemma AddRuns(n: nat, a: seq<Run>, b: seq<Run>)
    ensures Either(SetRuns(Zeros(n), a), SetRuns(Zeros(n), b)) == SetRuns(Zeros(n), a + b)
  {
    hide SetRuns, Covered;
    SetRunsAppend(Zeros(n), a, b);
    var x, y, z := SetRuns(Zeros(n), a), SetRuns(Zeros(n), b), SetRuns(Zeros(n), a + b);
    forall i | 0 <= i < n
      ensures Either(x, y)[i] == z[i]
    {
      SetRunsBits(x, b, i);
      SetRunsBits(Zeros(n), b, i);
    }
  }

  /** One call on the rest of the list, which starts with run `j`. */
  ghost predicate Progress(n: nat, runs: seq<Run>, j: nat, pos: nat, bits: Bitmap) {
    && j <= |runs| && |bits| == n && (pos == 0 ==> j == 0) && (pos > 0 ==> bits == SetRuns(Zeros(n), runs[..j]))
  }

  lemma AddPart(n: nat, runs: seq<Run>, j: nat, k: nat, pos: nat, bits: Bitmap, part: Bitmap)
    requires Progress(n, runs, j, pos, bits) && j <= k <= |runs| && part == SetRuns(Zeros(n), runs[j..k])
    ensures (if pos == 0 then part else Either(bits, part)) == SetRuns(Zeros(n), runs[..k])
  {
    hide SetRuns, Either;
    assert runs[..j] + runs[j..k] == runs[..k];
    if pos == 0 {
      assert runs[j..k] == runs[..k];
    } else {
      AddRuns(n, runs[..j], runs[j..k]);
    }
  }

  /** The last call. */
  lemma LastCall(n: nat, runs: seq<Run>, j: nat, pos: nat, bits: Bitmap, c: char)
    requires Progress(n, runs, j, pos, bits) && n > 0 && RunsOk(runs, n) && n <= ULONG_MAX
    requires |Listed(runs[j..])| <= PAGE_SIZE - 1
    ensures Written(bits, Listed(runs[j..]), pos, c) == Loaded(false, SetRuns(Zeros(n), runs), 0)
  {
    hide Load, RunText, SetRuns, Either;
    var rest, z := runs[j..], Zeros(n);
    if rest == [] {
      LoadNewline(z, c, false);
      SetRunsNone(z);
    } else {
      ListedIs(rest);
      RunStart(rest[0], Closing(rest));
      RestOk(runs, n, j);
      LoadListed(rest, z, c);
    }
    assert runs[j..|runs|] == rest && runs[..|runs|] == runs;
    AddPart(n, runs, j, |runs|, pos, bits, SetRuns(z, rest));
  }

  /** A call that the page cuts short. */
  lemma NextCall(n: nat, runs: seq<Run>, j: nat, pos: nat, bits: Bitmap, c: char) returns (k: nat)
    requires Progress(n, runs, j, pos, bits) && n > 0 && RunsOk(runs, n) && n <= ULONG_MAX
    requires |Listed(runs[j..])| > PAGE_SIZE - 1
    ensures
      var text := Listed(runs[j..]);
      var w := Written(bits, text, pos, c);
      && j < k < |runs| && !w.err && w.left < |text| && text[|text| - w.left..] == Listed(runs[k..])
      && w.bits == SetRuns(Zeros(n), runs[..k])
  {
    hide Load, RunText, SetRuns, Either, Listed;
    var rest, z, m := runs[j..], Zeros(n), PAGE_SIZE - 1;
    var text := Listed(rest);
    NotEmpty(rest);
    ListedIs(rest);
    RunStart(rest[0], Closing(rest));
    SkipNone(text, m);
    RestOk(runs, n, j);
    var i := LoadCut(rest, z, c, m);
    RunLength(rest[0]);
    k := j + i;
    var l, w := Load(text[..m], z, c, true), Written(bits, text, pos, c);
    assert w == Loaded(false, if pos == 0 then l.bits else Either(bits, l.bits), l.left + |text| - m);
    TakesProgress(rest, z, m, l, i);
    assert runs[j..k] == rest[..i] && runs[k..] == rest[i..];
    AddPart(n, runs, j, k, pos, bits, l.bits);
  }

  lemma NotEmpty(runs: seq<Run>)
    requires |Listed(runs)| > 1
    ensures runs != []
  {
  }

  lemma RestOk(runs: seq<Run>, n: nat, j: nat)
    requires RunsOk(runs, n) && j <= |runs|
    ensures RunsOk(runs[j..], n) && forall i :: 0 <= i < |runs[j..]| ==> RunOk(runs[j..][i], n)
  {
    assert forall i :: 0 <= i < |runs[j..]| ==> runs[j..][i] == runs[j + i];
  }

  /** A call that takes a range takes a character. */
  lemma TakesProgress(runs: seq<Run>, bits: Bitmap, m: nat, l: Loaded, j: nat)
    requires Takes(runs, bits, m, l, j) && j > 0
    ensures l.left < m
  {
    hide RunText;
    if l.left == m {
      assert Listed(runs)[0..] == Listed(runs);
      ShorterList(runs, j);
    }
  }

  lemma {:induction false} ShorterList(runs: seq<Run>, j: nat)
    requires 0 < j < |runs|
    ensures |Listed(runs[j..])| < |Listed(runs)|
  {
    hide RunText;
    ListedIs(runs);
    if j > 1 {
      assert runs[1..][j - 1..] == runs[j..];
      ShorterList(runs[1..], j - 1);
    }
  }

  /** A list of ranges of any length, written in as many calls as it takes, sets exactly the bits of the ranges. */
  method WriteAll(bm: Bitmap, text: string, ghost runs: seq<Run>, c: char) returns (err: bool, bits: Bitmap)
    requires bm != [] && |bm| <= 0xffffffff && RunsOk(runs, |bm|) && text == Listed(runs)
    ensures !err && bits == SetRuns(Zeros(|bm|), runs)
  {
    hide Listed, SetRuns, Written, Load, RunsOk;
    var rest: string, pos: nat, left: nat := text, 0, 0;
    ghost var j: nat := 0;
    assert runs[0..] == runs;
    err, bits := false, bm;
    while true
      invariant Progress(|bm|, runs, j, pos, bits) && rest == Listed(runs[j..])
      decreases |rest|
    {
      if |rest| <= PAGE_SIZE - 1 {
        LastCall(|bm|, runs, j, pos, bits, c);
        err, bits, left := WriteBitmap(bits, rest, pos, c);
        return;
      }
      ghost var k := NextCall(|bm|, runs, j, pos, bits, c);
      err, bits, left := WriteBitmap(bits, rest, pos, c);
      pos := pos + |rest| - left;
      rest := rest[|rest| - left..];
      j := k;
    }
  }

  lemma ListedCommas(runs: seq<Run>)
    ensures Commas(runs) + "\n" == Listed(runs)
  {
    if runs != [] {
      hide RunText;
      CommasListed([], runs);
      assert [] + runs == runs && "" + Listed(runs) == Listed(runs);
    }
  }

  /** Printing a bitmap and writing the text back restores it, the empty one included, however long the text is. */
  method BitmapRoundTrip(bm: Bitmap, old': Bitmap, size: nat, c: char) returns (err: bool, bits: Bitmap)
    requires bm != [] && |bm| == |old'| <= 0xffffffff && |Commas(Runs(bm, 0))| < size
    ensures !err && bits == bm
  {
    hide Commas, Runs;
    var text := PrintBitmap(bm, size);
    ghost var runs := Runs(bm, 0);
    ListedCommas(runs);
    RunsBelow(bm, 0);
    RunsRestore(bm, 0, Zeros(|bm|));
    err, bits := WriteAll(old', text, runs, c);
  }
}
