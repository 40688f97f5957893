/** kernel/sysctl.c: what writing an integer vector does with any text of numbers. */
module SysctlNumbers {
  import opened SysctlText
  import opened Sysctl

  /** What the separators after a number start with. */
  ghost predicate IsSep(c: char) {
    c as nat == 9 || c as nat == 10 || c as nat == 32
  }

  /** Tabs, line ends and the like, spaces and no-break spaces. */
  ghost predicate Blank(s: string) {
    forall i :: 0 <= i < |s| ==> s[i] as nat in {9, 10, 11, 12, 13, 32, 160}
  }

  /** `s` writes the integer `x` in one of the ways of C, in at most 20 characters, and does not go on into `tail`. */
  ghost predicate IntNumeral(s: string, x: int, tail: string) {
    exists neg: bool, d: string, base: nat, v: nat :: Signed(s, x, tail, neg, d, base, v)
  }

  ghost predicate Signed(s: string, x: int, tail: string, neg: bool, d: string, base: nat, v: nat) {
    && s == (if neg then "-" else "") + d && |s| <= 20 && Numeral(d, base, v) && Stops(d, base, tail)
    && x == if neg then -(v as int) else v
  }

  /** No number starts here, or one of more than 20 characters. */
  ghost predicate Junk(s: string) {
    || (s != "" && !Blank(s[..1]) && !IsDigit(s[0]) && (s[0] == '-' ==> |s| == 1 || !IsDigit(s[1])))
    || (exists neg: bool, d: string, base: nat, v: nat, tail: string :: Overlong(s, neg, d, base, v, tail))
  }

  ghost predicate Overlong(s: string, neg: bool, d: string, base: nat, v: nat, tail: string) {
    s == (if neg then "-" else "") + d + tail && |d| + (if neg then 1 else 0) > 20 && Numeral(d, base, v)
  }

  /** The numbers from `k` on, each with what follows it, and the rest of the text. */
  ghost function Spread(nums: seq<string>, gaps: seq<string>, rest: string, k: nat): string
    requires k <= |nums| == |gaps|
    decreases |nums| - k
  {
    if k == |nums| then rest else nums[k] + gaps[k] + Spread(nums, gaps, rest, k + 1)
  }

  /** A number is followed by white space. */
  ghost predicate Spaced(gap: string) {
    gap != "" && IsSep(gap[0]) && Blank(gap[1..])
  }

  /** Numerals for `u`, separated by white space, and then nothing more or no number; or, if the text is `bad`, some other
      character follows the last one. */
  ghost predicate Listing(u: seq<int>, nums: seq<string>, gaps: seq<string>, rest: string, bad: bool) {
    && |u| == |nums| == |gaps| && (forall k :: 0 <= k < |u| ==> IntNumeral(nums[k], u[k], gaps[k]))
    && (forall k :: 0 <= k < |u| - 1 ==> Spaced(gaps[k]))
    && (if bad then u != [] && gaps[|u| - 1] != "" && !IsSep(gaps[|u| - 1][0])
        else (rest == "" || Junk(rest)) && (u != [] ==> Spaced(gaps[|u| - 1]) || (gaps[|u| - 1] == "" == rest)))
  }

  lemma SepIs(c: char)
    ensures c in WSPACE <==> IsSep(c)
    ensures IsSep(c) ==> IsSpace(c)
  {
  }

  lemma {:induction false} SkipBlank(s: string, t: string)
    requires Blank(s)
    ensures SkipSpaces(s + t) == SkipSpaces(t)
  {
    if s == [] {
      assert s + t == t;
    } else {
      assert (s + t)[1..] == s[1..] + t;
      SkipBlank(s[1..], t);
    }
  }

  /** A numeral at the start of the text. */
  lemma ReadNumeral(s: string, x: int, tail: string, n: nat)
    requires IntNumeral(s, x, tail) && n >= 1
    ensures
      var r, q := ParseInts(s + tail, n), ParseInts(tail, n - 1);
      if IsInt(x) && (tail == [] || IsSep(tail[0])) then r.vals == [x] + q.vals && r.err == q.err && r.rest == q.rest
      else r.vals == [] && r.err
  {
    var neg: bool, d: string, base: nat, v: nat :| Signed(s, x, tail, neg, d, base, v);
    hide GetLong, Numeral, SkipSpaces, ParseInts, Stops;
    GetLongNumeral(d, base, v, neg, tail, WSPACE, ULONG_MAX);
    NumeralStart(d, base, v);
    NoSpace(s + tail);
    if tail != [] {
      SepIs(tail[0]);
    }
    ParseStep(s + tail, n);
  }

  lemma StopsFirst(s: string, x: int, gap: string, more: string)
    requires IntNumeral(s, x, gap) && (gap != "" || more == "")
    ensures IntNumeral(s, x, gap + more)
  {
    var neg: bool, d: string, base: nat, v: nat :| Signed(s, x, gap, neg, d, base, v);
    hide Numeral;
    assert Signed(s, x, gap + more, neg, d, base, v);
  }

  lemma NoSpace(s: string)
    requires s != [] && (s[0] == '-' || IsDigit(s[0]))
    ensures SkipSpaces(s) == s
  {
  }

  /** White space in front makes no difference. */
  lemma ParseBlank(s: string, t: string, n: nat)
    requires Blank(s)
    ensures
      var r, q := ParseInts(s + t, n), ParseInts(t, n);
      r.vals == q.vals && r.err == q.err && SkipSpaces(r.rest) == SkipSpaces(q.rest)
  {
    hide GetLong;
    SkipBlank(s, t);
    if s == [] {
      assert s + t == t;
    }
  }

  lemma ParseJunk(s: string, n: nat)
    requires Junk(s) && n >= 1
    ensures ParseInts(s, n).vals == [] && ParseInts(s, n).err
  {
    if exists neg: bool, d: string, base: nat, v: nat, tail: string :: Overlong(s, neg, d, base, v, tail) {
      var neg: bool, d: string, base: nat, v: nat, tail: string :| Overlong(s, neg, d, base, v, tail);
      hide GetLong, Numeral, SkipSpaces, ParseInts;
      GetLongTooLong(d, base, v, neg, tail, WSPACE, ULONG_MAX);
      NumeralStart(d, base, v);
      NoSpace(s);
      ParseStep(s, n);
    } else {
      assert s[..1][0] == s[0];
      hide ParseInts;
      assert SkipSpaces(s) == s && GetLong(s, WSPACE, ULONG_MAX) == None;
      ParseStep(s, n);
    }
  }

  /** How many numbers can be stored before one cannot be read. */
  ghost function Stored(u: seq<int>, n: nat, bad: bool): nat
    requires bad ==> u != []
  {
    Leading(if bad then u[..|u| - 1] else u, 0, n)
  }

  /** A number and what follows it. */
  lemma ParseNext(x: int, num: string, gap: string, more: string, n: nat)
    requires IntNumeral(num, x, gap) && n >= 1 && (Spaced(gap) || gap == "" == more)
    ensures
      var r, q := ParseInts(num + gap + more, n), ParseInts(more, n - 1);
      if IsInt(x) then r.vals == [x] + q.vals && r.err == q.err && SkipSpaces(r.rest) == SkipSpaces(q.rest) else r.vals == [] && r.err
  {
    hide GetLong, ParseInts, SkipSpaces, IntNumeral, IsSep;
    assert num + gap + more == num + (gap + more);
    if gap != "" {
      SepIs(gap[0]);
      assert (gap + more)[0] == gap[0];
      SepBlank(gap);
    }
    StopsFirst(num, x, gap, more);
    ReadNumeral(num, x, gap + more, n);
    ParseBlank(gap, more, n - 1);
  }

  lemma ParseBad(x: int, num: string, gap: string, more: string, n: nat)
    requires IntNumeral(num, x, gap) && n >= 1 && gap != "" && !IsSep(gap[0])
    ensures ParseInts(num + gap + more, n).vals == [] && ParseInts(num + gap + more, n).err
  {
    hide ParseInts, IntNumeral, IsSep;
    assert num + gap + more == num + (gap + more) && (gap + more)[0] == gap[0];
    StopsFirst(num, x, gap, more);
    ReadNumeral(num, x, gap + more, n);
  }

  lemma ParseRest(rest: string, n: nat)
    requires rest == "" || Junk(rest)
    ensures ParseInts(rest, n).vals == [] && ParseInts(rest, n).err == (rest != "" && n > 0)
    ensures rest == "" ==> ParseInts(rest, n).rest == ""
  {
    hide Junk, ParseInts;
    if n == 0 {
      ParseNone(rest);
    } else if rest == "" {
      ParseEnd("", n);
      ParseEmpty(n);
    } else {
      ParseJunk(rest, n);
    }
  }

  lemma LeadingStep(u: seq<int>, w: seq<int>, k: nat, n: nat)
    requires k < |w| <= |u| && w[k] == u[k] && n >= 1
    ensures
      var m := Leading(w, k, n);
      if IsInt(u[k]) then m == 1 + Leading(w, k + 1, n - 1) && u[k..k + m] == [u[k]] + u[k + 1..k + m] else m == 0
  {
    hide IsInt;
  }

  lemma ParseEmpty(n: nat)
    ensures ParseInts("", n) == Parsed(false, [], "")
  {
  }

  /** The text goes on with a number, with something else, or not at all, but not with white space. */
  lemma SpreadStart(u: seq<int>, nums: seq<string>, gaps: seq<string>, rest: string, k: nat, bad: bool)
    requires Listing(u, nums, gaps, rest, bad) && k <= |u| && (bad ==> k < |u|)
    ensures SkipSpaces(Spread(nums, gaps, rest, k)) == Spread(nums, gaps, rest, k)
  {
    hide Spaced, IsSep;
    if k < |u| {
      NumeralFirst(nums[k], u[k], gaps[k]);
      assert Spread(nums, gaps, rest, k)[0] == nums[k][0];
      NoSpace(Spread(nums, gaps, rest, k));
    } else if rest != "" {
      JunkFirst(rest);
    }
  }

  lemma NumeralFirst(s: string, x: int, tail: string)
    requires IntNumeral(s, x, tail)
    ensures s != [] && (s[0] == '-' || IsDigit(s[0]))
  {
    var neg: bool, d: string, base: nat, v: nat :| Signed(s, x, tail, neg, d, base, v);
    NumeralStart(d, base, v);
  }

  lemma JunkFirst(s: string)
    requires Junk(s)
    ensures SkipSpaces(s) == s
  {
    if exists neg: bool, d: string, base: nat, v: nat, tail: string :: Overlong(s, neg, d, base, v, tail) {
      var neg: bool, d: string, base: nat, v: nat, tail: string :| Overlong(s, neg, d, base, v, tail);
      hide Numeral;
      NumeralStart(d, base, v);
      NoSpace(s);
    } else {
      assert s[..1][0] == s[0];
    }
  }

  lemma {:induction false} ParseSpread(u: seq<int>, nums: seq<string>, gaps: seq<string>, rest: string, k: nat, n: nat, bad: bool)
    requires Listing(u, nums, gaps, rest, bad) && k <= |u| && (bad ==> k < |u|)
    ensures
      var r, m := ParseInts(Spread(nums, gaps, rest, k), n), Leading(if bad then u[..|u| - 1] else u, k, n);
      && r.vals == u[k..k + m] && r.err == (m < n && (k + m < |u| || rest != ""))
      && (!r.err ==> SkipSpaces(r.rest) == Spread(nums, gaps, rest, k + m))
    decreases |u| - k
  {
    hide ParseInts, IntNumeral, IsSep, IsInt, Spaced, Junk, SkipSpaces;
    var w := if bad then u[..|u| - 1] else u;
    var m := Leading(w, k, n);
    SpreadStart(u, nums, gaps, rest, k, bad);
    if n == 0 {
      ParseNone(Spread(nums, gaps, rest, k));
    } else if k == |u| {
      ParseRest(rest, n);
    } else if bad && k == |u| - 1 {
      ParseBad(u[k], nums[k], gaps[k], rest, n);
    } else {
      SpreadStep(u, nums, gaps, rest, k, n, bad);
      ParseSpread(u, nums, gaps, rest, k + 1, n - 1, bad);
      hide Listing, Spread;
      LeadingStep(u, w, k, n);
    }
  }

  lemma SpreadGap(u: seq<int>, nums: seq<string>, gaps: seq<string>, rest: string, k: nat, bad: bool)
    requires Listing(u, nums, gaps, rest, bad) && k < |u| && (bad ==> k < |u| - 1)
    ensures IntNumeral(nums[k], u[k], gaps[k]) && (Spaced(gaps[k]) || gaps[k] == "" == Spread(nums, gaps, rest, k + 1))
  {
    hide IntNumeral, IsSep, Spaced, Junk;
  }

  lemma SpreadStep(u: seq<int>, nums: seq<string>, gaps: seq<string>, rest: string, k: nat, n: nat, bad: bool)
    requires Listing(u, nums, gaps, rest, bad) && k < |u| && (bad ==> k < |u| - 1) && n >= 1
    ensures
      var r, q := ParseInts(Spread(nums, gaps, rest, k), n), ParseInts(Spread(nums, gaps, rest, k + 1), n - 1);
      if IsInt(u[k]) then r.vals == [u[k]] + q.vals && r.err == q.err && SkipSpaces(r.rest) == SkipSpaces(q.rest)
      else r.vals == [] && r.err
  {
    hide ParseInts, IntNumeral, IsSep, IsInt, Spaced, Junk;
    SpreadGap(u, nums, gaps, rest, k, bad);
    ParseNext(u[k], nums[k], gaps[k], Spread(nums, gaps, rest, k + 1), n);
  }

  lemma SepBlank(s: string)
    requires Spaced(s)
    ensures Blank(s)
  {
    assert forall i :: 0 < i < |s| ==> s[i] == s[1..][i - 1];
  }

  /** Writing numbers in any notation, with any white space: as many as there is room for are stored, up to one that is no
      int or that is followed by another character, and up to anything that is no number; reaching such a thing is the error,
      and so is a text without numbers. */
  lemma WriteNumbers(v0: seq<int>, front: string, u: seq<int>, nums: seq<string>, gaps: seq<string>, rest: string, bad: bool)
    requires Listing(u, nums, gaps, rest, bad) && Blank(front) && v0 != []
    requires 0 < |front + Spread(nums, gaps, rest, 0)| <= 4095
    ensures
      var m := Stored(u, |v0|, bad);
      && m <= |u| && m <= |v0|
      && Wrote(v0, front + Spread(nums, gaps, rest, 0)) == (u[..m] + v0[m..], m == 0 || (m < |v0| && (m < |u| || rest != "")))
      && (m == |v0| || (m == |u| > 0 && rest == "") ==> Left(v0, front + Spread(nums, gaps, rest, 0)) == |Spread(nums, gaps, rest, m)|)
  {
    hide ParseInts, IntNumeral, IsSep, Blank, Leading, Spaced, Junk;
    ParseBlank(front, Spread(nums, gaps, rest, 0), |v0|);
    ParseSpread(u, nums, gaps, rest, 0, |v0|, bad);
  }

  /** Two texts that agree on the first 4095 characters are the same to the call: it reports all that follows as
      taken, and reads none of it. */
  lemma BehindPage(v0: seq<int>, page: string, a: string, b: string)
    requires |page| == 4095 && v0 != []
    ensures Wrote(v0, page + a) == Wrote(v0, page + b)
    ensures !Wrote(v0, page + a).1 ==> Left(v0, page + a) == Left(v0, page + b) <= 4095
  {
    hide ParseInts;
    assert Cut(page + a, 4095) == page == Cut(page + b, 4095);
    ParseShrinks(page, |v0|);
  }

  lemma {:induction false} ParseShrinks(text: string, n: nat)
    ensures |ParseInts(text, n).rest| <= |text|
    decreases n
  {
    hide GetLong, Conv;
    if text != [] && n > 0 {
      var p := SkipSpaces(text);
      if p != [] && GetLong(p, WSPACE, ULONG_MAX).Some? {
        ParseShrinks(GetLong(p, WSPACE, ULONG_MAX).value.rest, n - 1);
      }
    }
  }
}
