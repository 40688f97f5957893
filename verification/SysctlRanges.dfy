/** kernel/sysctl.c: what writing a bitmap does with any list of ranges that fits a page. */
module SysctlRanges {
  import opened SysctlText
  import opened Sysctl
  import opened SysctlBitmap
  import opened BitmapNext

  /** `s` writes `v` in one of the ways of C, in at most 20 characters, and does not go on into `tail`. */
  ghost predicate NatNumeral(s: string, v: nat, tail: string) {
    |s| <= 20 && exists base: nat :: Numeral(s, base, v) && Stops(s, base, tail)
  }

  /** A range, as one number or as two with a dash. */
  datatype Item = One(num: string) | Two(from: string, to: string)

  function Text(i: Item): string {
    match i
    case One(num) => num
    case Two(from, to) => from + "-" + to
  }

  ghost predicate Writes(i: Item, r: Run, tail: string) {
    match i
    case One(num) => NatNumeral(num, r.0, tail) && r.0 == r.1
    case Two(from, to) => NatNumeral(from, r.0, "-") && NatNumeral(to, r.1, tail)
  }

  /** What may come after a range: a comma or a newline, after two numbers also a zero byte. */
  ghost predicate Follows(i: Item, c: char) {
    c == ',' || c as nat == 10 || (i.Two? && c as nat == 0)
  }

  ghost predicate Newlines(s: string) {
    forall k :: 0 <= k < |s| ==> s[k] as nat == 10
  }

  ghost predicate Separated(i: Item, gap: string) {
    gap != "" && Follows(i, gap[0]) && Newlines(gap[1..])
  }

  /** The ranges from `k` on, each with what follows it, and the rest of the text. */
  ghost function Spread(items: seq<Item>, gaps: seq<string>, rest: string, k: nat): string
    requires k <= |items| == |gaps|
    decreases |items| - k
  {
    if k == |items| then rest else Text(items[k]) + (gaps[k] + Spread(items, gaps, rest, k + 1))
  }

  lemma SpreadNext(items: seq<Item>, gaps: seq<string>, rest: string, k: nat)
    requires k <= |items| == |gaps|
    ensures Spread(items, gaps, rest, k) == if k == |items| then rest else Text(items[k]) + (gaps[k] + Spread(items, gaps, rest, k + 1))
  {
  }

  /** Texts for `runs`, separated; after the last one there may be nothing, unless it is one number alone and the
      character variable, which is not set then, happens to hold a dash. */
  ghost predicate Listing(runs: seq<Run>, items: seq<Item>, gaps: seq<string>, c: char) {
    && |runs| == |items| == |gaps| && (forall k :: 0 <= k < |runs| ==> Writes(items[k], runs[k], gaps[k]))
    && (forall k :: 0 <= k < |runs| - 1 ==> Separated(items[k], gaps[k]))
    && (runs != [] ==>
          var last := |runs| - 1;
          Separated(items[last], gaps[last]) || (gaps[last] == "" && (last == 0 && items[0].One? ==> c != '-')))
  }

  lemma TrailersAre(i: Item, c: char)
    ensures i.One? ==> (c in TR_A <==> Follows(i, c) || c == '-')
    ensures i.Two? ==> (c in TR_B <==> Follows(i, c))
  {
  }

  lemma {:induction false} SkipAll(s: string, t: string)
    requires Newlines(s)
    ensures SkipNewlines(s + t) == SkipNewlines(t)
  {
    if s == [] {
      assert s + t == t;
    } else {
      assert (s + t)[1..] == s[1..] + t;
      SkipAll(s[1..], t);
    }
  }

  lemma ReadNat(s: string, v: nat, tail: string, trailers: seq<char>)
    requires NatNumeral(s, v, tail)
    ensures GetLong(s + tail, trailers, ULONG_MAX)
         == if v > ULONG_MAX then None else if tail == [] then Some(Number(v, false, None, tail))
            else if tail[0] in trailers then Some(Number(v, false, Some(tail[0]), tail)) else None
  {
    var base: nat :| Numeral(s, base, v) && Stops(s, base, tail);
    hide GetLong, Numeral, Stops;
    GetLongNumeral(s, base, v, false, tail, trailers, ULONG_MAX);
    assert "" + s + tail == s + tail;
  }

  lemma NatStart(s: string, v: nat, tail: string)
    requires NatNumeral(s, v, tail)
    ensures s != [] && IsDigit(s[0])
  {
    var base: nat :| Numeral(s, base, v) && Stops(s, base, tail);
    NumeralStart(s, base, v);
  }

  lemma StopsFirst(s: string, v: nat, gap: string, more: string)
    requires NatNumeral(s, v, gap) && gap != ""
    ensures NatNumeral(s, v, gap + more)
  {
    var base: nat :| Numeral(s, base, v) && Stops(s, base, gap);
    hide Numeral;
    assert Stops(s, base, gap + more);
  }

  /** One range and what follows it: set if it lies in the bitmap and is followed by what may follow it, else an error. */
  lemma LoadItem(i: Item, r: Run, tail: string, bits: Bitmap, c: char)
    requires |bits| <= ULONG_MAX && Writes(i, r, tail) && (i.One? && tail != "" ==> tail[0] != '-')
    requires tail == "" && i.One? ==> c != '-'
    ensures
      var l := Load(Text(i) + tail, bits, c, false);
      if RunOk(r, |bits|) && (tail == "" || Follows(i, tail[0]))
      then l == Load(SkipNewlines(Tail(tail)), SetRange(bits, r.0, r.1), if tail == "" then (if i.One? then c else '-') else tail[0], false)
      else l.err
  {
    hide GetLong, SetRange, Load, NatNumeral;
    var text := Text(i) + tail;
    if tail != "" {
      TrailersAre(i, tail[0]);
    }
    match i
    case One(num) =>
      NatStart(num, r.0, tail);
      LoadStep(text, bits, c, false);
      ReadNat(num, r.0, tail, TR_A);
    case Two(from, to) =>
      var rest := to + tail;
      assert text == from + ("-" + rest) && ("-" + rest)[1..] == rest && "-" + rest == "-" + to + tail;
      NatStart(from, r.0, "-");
      LoadStep(text, bits, c, false);
      StopsFirst(from, r.0, "-", rest);
      ReadNat(from, r.0, "-" + rest, TR_A);
      ReadNat(to, r.1, tail, TR_B);
  }

  /** A range that is followed as it should be, and the rest. */
  lemma LoadSeparated(i: Item, r: Run, gap: string, more: string, bits: Bitmap, c: char)
    requires |bits| <= ULONG_MAX && Writes(i, r, gap) && Separated(i, gap) && SkipNewlines(more) == more
    ensures
      var l := Load(Text(i) + (gap + more), bits, c, false);
      if RunOk(r, |bits|) then l == Load(more, SetRange(bits, r.0, r.1), gap[0], false) else l.err
  {
    hide Load, SetRange, RunOk, Writes;
    WritesFirst(i, r, gap, more);
    assert (gap + more)[1..] == gap[1..] + more && (gap + more)[0] == gap[0];
    LoadItem(i, r, gap + more, bits, c);
    SkipAll(gap[1..], more);
  }

  lemma WritesFirst(i: Item, r: Run, gap: string, more: string)
    requires Writes(i, r, gap) && gap != ""
    ensures Writes(i, r, gap + more)
  {
    hide NatNumeral;
    if i.One? {
      StopsFirst(i.num, r.0, gap, more);
    } else {
      StopsFirst(i.to, r.1, gap, more);
    }
  }

  lemma ItemStart(i: Item, r: Run, gap: string, more: string)
    requires Writes(i, r, gap)
    ensures SkipNewlines(Text(i) + more) == Text(i) + more && Text(i) + more != ""
  {
    hide NatNumeral;
    if i.One? {
      NatStart(i.num, r.0, gap);
    } else {
      NatStart(i.from, r.0, "-");
    }
    assert IsDigit((Text(i) + more)[0]);
  }

  lemma SpreadStart(runs: seq<Run>, items: seq<Item>, gaps: seq<string>, rest: string, k: nat, c: char)
    requires Listing(runs, items, gaps, c) && k <= |runs| && SkipNewlines(rest) == rest
    ensures SkipNewlines(Spread(items, gaps, rest, k)) == Spread(items, gaps, rest, k)
  {
    hide Writes, Separated;
    if k < |runs| {
      ItemStart(items[k], runs[k], gaps[k], gaps[k] + Spread(items, gaps, rest, k + 1));
    }
  }

  /** The character variable can be used for a last number alone. */
  ghost predicate Usable(items: seq<Item>, gaps: seq<string>, k: nat, c: char)
    requires |items| == |gaps|
  {
    k + 1 == |items| && gaps[k] == "" && items[k].One? ==> c != '-'
  }

  lemma GapAt(runs: seq<Run>, items: seq<Item>, gaps: seq<string>, c0: char, k: nat)
    requires Listing(runs, items, gaps, c0) && k < |runs|
    ensures Writes(items[k], runs[k], gaps[k])
    ensures if gaps[k] == "" then k + 1 == |runs| else Separated(items[k], gaps[k]) && gaps[k][0] != '-'
  {
    hide Writes;
  }

  /** The last range, with nothing after it. */
  lemma LoadLast(i: Item, r: Run, bits: Bitmap, c: char)
    requires |bits| <= ULONG_MAX && Writes(i, r, "") && (i.One? ==> c != '-')
    ensures
      var l := Load(Text(i) + ("" + ""), bits, c, false);
      if RunOk(r, |bits|) then l == Loaded(false, SetRange(bits, r.0, r.1), 0) else l.err
  {
    hide Load, SetRange, RunOk, Writes;
    LoadItem(i, r, "", bits, c);
    LoadEnd(SetRange(bits, r.0, r.1), if i.One? then c else '-', false);
  }

  lemma {:induction false} LoadSpread(runs: seq<Run>, items: seq<Item>, gaps: seq<string>, k: nat, bits: Bitmap, c0: char, c: char)
    requires Listing(runs, items, gaps, c0) && k <= |runs| && |bits| <= ULONG_MAX && Usable(items, gaps, k, c)
    ensures
      var l := Load(Spread(items, gaps, "", k), bits, c, false);
      if AllOk(runs[k..], |bits|) then l == Loaded(false, SetRuns(bits, runs[k..]), 0) else l.err
    decreases |runs| - k
  {
    hide Load, SetRange, RunOk, Writes, Separated, AllOk, SetRuns, Spread, Text;
    RunsFrom(runs, k, bits);
    SpreadNext(items, gaps, "", k);
    if k == |runs| {
      LoadEnd(bits, c, false);
    } else {
      GapAt(runs, items, gaps, c0, k);
      if gaps[k] == "" {
        SpreadNext(items, gaps, "", k + 1);
        LoadLast(items[k], runs[k], bits, c);
      } else {
        var b := SetRange(bits, runs[k].0, runs[k].1);
        LoadSpread(runs, items, gaps, k + 1, b, c0, gaps[k][0]);
        SpreadStart(runs, items, gaps, "", k + 1, c0);
        hide Listing;
        LoadSeparated(items[k], runs[k], gaps[k], Spread(items, gaps, "", k + 1), bits, c);
      }
    }
  }

  ghost predicate AllOk(runs: seq<Run>, n: nat) {
    forall k :: 0 <= k < |runs| ==> RunOk(runs[k], n)
  }

  lemma RunsFrom(runs: seq<Run>, k: nat, bits: Bitmap)
    requires k <= |runs|
    ensures k == |runs| ==> AllOk(runs[k..], |bits|) && SetRuns(bits, runs[k..]) == bits
    ensures k < |runs| ==> (AllOk(runs[k..], |bits|) <==> RunOk(runs[k], |bits|) && AllOk(runs[k + 1..], |bits|))
    ensures k < |runs| ==> SetRuns(bits, runs[k..]) == SetRuns(SetRange(bits, runs[k].0, runs[k].1), runs[k + 1..])
    ensures k + 1 == |runs| ==> AllOk(runs[k + 1..], |bits|) && SetRuns(bits, runs[k..]) == SetRange(bits, runs[k].0, runs[k].1)
  {
    hide RunOk, SetRange;
    if k < |runs| {
      var s := runs[k..];
      assert s[0] == runs[k] && s[1..] == runs[k + 1..];
      assert forall i :: 0 <= i < |s[1..]| ==> s[1..][i] == s[i + 1];
      assert forall i :: 0 < i < |s| ==> s[i] == s[1..][i - 1];
    }
  }

  /** Writing ranges in any notation: accepted exactly when every one lies inside the bitmap, and then exactly the bits of
      the ranges are set at position 0, or added elsewhere. */
  lemma WriteRanges(bm: Bitmap, front: string, runs: seq<Run>, items: seq<Item>, gaps: seq<string>, pos: nat, c: char)
    requires bm != [] && |bm| <= 0xffffffff && Newlines(front) && Listing(runs, items, gaps, c)
    requires 0 < |front + Spread(items, gaps, "", 0)| <= 4095
    ensures
      var w := SysctlBitmap.Written(bm, front + Spread(items, gaps, "", 0), pos, c);
      && (w.err <==> !AllOk(runs, |bm|)) && (w.err ==> w.bits == bm)
      && (!w.err ==> w.left == 0 && forall i :: 0 <= i < |bm| ==> w.bits[i] == ((pos != 0 && bm[i]) || Covered(runs, i)))
  {
    hide Load, RunOk, SetRuns, Covered, Writes, AllOk;
    var z := Zeros(|bm|);
    SkipAll(front, Spread(items, gaps, "", 0));
    SpreadStart(runs, items, gaps, "", 0, c);
    LoadSpread(runs, items, gaps, 0, z, c, c);
    assert runs[0..] == runs;
    forall i | 0 <= i < |bm|
      ensures SetRuns(z, runs)[i] == Covered(runs, i)
    {
      SetRunsBits(z, runs, i);
    }
  }

  /** Any other character after a range is an error. */
  lemma WriteBadRange(bm: Bitmap, runs: seq<Run>, items: seq<Item>, gaps: seq<string>, i: Item, r: Run, tail: string, pos: nat, c: char)
    requires bm != [] && |bm| <= 0xffffffff && Listing(runs, items, gaps, c) && (runs != [] ==> gaps[|runs| - 1] != "")
    requires Writes(i, r, tail) && tail != "" && !Follows(i, tail[0]) && (i.One? ==> tail[0] != '-')
    requires 0 < |Spread(items, gaps, Text(i) + tail, 0)| <= 4095
    ensures SysctlBitmap.Written(bm, Spread(items, gaps, Text(i) + tail, 0), pos, c).err
  {
    hide Load, Writes;
    ItemStart(i, r, tail, tail);
    BadSpread(runs, items, gaps, i, r, tail, 0, Zeros(|bm|), c, c);
    SpreadStart(runs, items, gaps, Text(i) + tail, 0, c);
  }

  lemma {:induction false} BadSpread(runs: seq<Run>, items: seq<Item>, gaps: seq<string>, i: Item, r: Run, tail: string, k: nat,
                                     bits: Bitmap, c0: char, c: char)
    requires Listing(runs, items, gaps, c0) && (runs != [] ==> gaps[|runs| - 1] != "") && k <= |runs| && |bits| <= ULONG_MAX
    requires Writes(i, r, tail) && tail != "" && !Follows(i, tail[0]) && (i.One? ==> tail[0] != '-')
    ensures Load(Spread(items, gaps, Text(i) + tail, k), bits, c, false).err
    decreases |runs| - k
  {
    hide Load, SetRange, RunOk, Writes, Separated, Spread, Text;
    SpreadNext(items, gaps, Text(i) + tail, k);
    if k == |runs| {
      LoadItem(i, r, tail, bits, c);
    } else {
      var rest := Text(i) + tail;
      GapAt(runs, items, gaps, c0, k);
      ItemStart(i, r, tail, tail);
      SpreadStart(runs, items, gaps, rest, k + 1, c0);
      BadSpread(runs, items, gaps, i, r, tail, k + 1, SetRange(bits, runs[k].0, runs[k].1), c0, gaps[k][0]);
      hide Listing, Follows;
      LoadSeparated(items[k], runs[k], gaps[k], Spread(items, gaps, rest, k + 1), bits, c);
    }
  }
}
