/** kernel/sysctl.c: numbers as text, printed by proc_put_long() and read by proc_get_long(). */
module SysctlText {
  datatype Option<T> = None | Some(value: T)

  const TMPBUFLEN: nat := 22

  // --- printing ---

  function Digit(d: nat): char
    requires d < 10
  {
    '0' + d as char
  }

  /** %lu */
  function Dec(n: nat): (s: string)
    ensures |s| >= 1
  {
    if n < 10 then [Digit(n)] else Dec(n / 10) + [Digit(n % 10)]
  }

  predicate IsDigit(c: char) {
    '0' <= c <= '9'
  }

  lemma {:induction false} DecDigits(n: nat)
    ensures forall i :: 0 <= i < |Dec(n)| ==> IsDigit(Dec(n)[i])
    ensures n > 0 ==> Dec(n)[0] != '0'
  {
    if n >= 10 {
      DecDigits(n / 10);
    }
  }

  function Pow10(k: nat): nat {
    if k == 0 then 1 else 10 * Pow10(k - 1)
  }

  lemma {:induction false} DecLength(n: nat, k: nat)
    requires k >= 1 && n < Pow10(k)
    ensures |Dec(n)| <= k
  {
    if n >= 10 {
      DecLength(n / 10, k - 1);
    }
  }

  // --- reading digits ---

  function DigitValue(c: char): nat {
    if '0' <= c <= '9' then c as nat - '0' as nat
    else if 'a' <= c <= 'f' then c as nat - 'a' as nat + 10
    else if 'A' <= c <= 'F' then c as nat - 'A' as nat + 10
    else 99
  }

  /** The length of the longest run of digits of the base. */
  function DigitRun(s: string, base: nat): (n: nat)
    ensures n <= |s|
  {
    if s == [] || DigitValue(s[0]) >= base then 0 else 1 + DigitRun(s[1..], base)
  }

  function Value(s: string, base: nat): nat {
    if s == [] then 0 else Value(s[..|s| - 1], base) * base + DigitValue(s[|s| - 1])
  }

  /** _parse_integer_fixup_radix() for base 0: the base, and how many characters name it. */
  function Radix(s: string): (nat, nat) {
    if |s| >= 1 && s[0] == '0' then
      if |s| >= 3 && (s[1] == 'x' || s[1] == 'X') && DigitValue(s[2]) < 16 then (16, 2) else (8, 0)
    else (10, 0)
  }

  /** strtoul_lenient() with base 0: the number and the characters it took, nothing on overflow. */
  function StrToUl(s: string, ulongMax: nat): (r: Option<(nat, nat)>)
    ensures r.Some? ==> r.value.1 <= |s|
    ensures r.Some? && |s| >= 1 && IsDigit(s[0]) ==> r.value.1 >= 1
  {
    var (base, skip) := Radix(s);
    if skip > |s| then None
    else
      var n := DigitRun(s[skip..], base);
      var v := Value(s[skip..skip + n], base);
      if v > ulongMax then None else Some((v, skip + n))
  }

  // --- proc_get_long() ---

  datatype Number = Number(val: nat, neg: bool, tr: Option<char>, rest: string)

  function GetLong(text: string, trailers: seq<char>, ulongMax: nat): (r: Option<Number>)
    ensures r.Some? ==> |r.value.rest| < |text|
  {
    if text == [] then None
    else
      var len := if |text| > TMPBUFLEN - 1 then TMPBUFLEN - 1 else |text|;
      var tmp := text[..len];
      var neg := tmp[0] == '-' && |text| > 1;
      var p := if neg then 1 else 0;
      if p >= len || !IsDigit(tmp[p]) then None
      else
        var u := StrToUl(tmp[p..], ulongMax);
        if u.None? then None
        else
          var q := p + u.value.1;
          if q == TMPBUFLEN - 1 then None
          else if q < |text| && text[q] !in trailers then None
          else Some(Number(u.value.0, neg, if q < |text| then Some(text[q]) else None, text[q..]))
  }

  // --- numerals ---

  /** The digits of bases up to 16, in both cases. */
  lemma DigitsAre(d: nat)
    requires d < 16
    ensures DigitValue("0123456789abcdef"[d]) == d == DigitValue("0123456789ABCDEF"[d])
  {
  }

  ghost predicate AllDigits(s: string, base: nat) {
    s != [] && forall i :: 0 <= i < |s| ==> DigitValue(s[i]) < base
  }

  /** `s` writes `val` as in C: decimal without leading zeros, octal with one, or hexadecimal after 0x. */
  ghost predicate Numeral(s: string, base: nat, val: nat) {
    match base
    case 10 => AllDigits(s, 10) && s[0] != '0' && val == Value(s, 10)
    case 8 => AllDigits(s, 8) && s[0] == '0' && val == Value(s, 8)
    case 16 => |s| >= 3 && s[0] == '0' && (s[1] == 'x' || s[1] == 'X') && AllDigits(s[2..], 16) && val == Value(s[2..], 16)
    case _ => false
  }

  /** The text after the numeral does not go on with it. */
  ghost predicate Stops(s: string, base: nat, tail: string) {
    tail == [] || (DigitValue(tail[0]) >= base && (s == "0" ==> tail[0] != 'x' && tail[0] != 'X'))
  }

  lemma {:induction false} RunAll(s: string, tail: string, base: nat)
    requires forall i :: 0 <= i < |s| ==> DigitValue(s[i]) < base
    requires tail == [] || DigitValue(tail[0]) >= base
    ensures DigitRun(s + tail, base) == |s|
  {
    if s == [] {
      assert s + tail == tail;
    } else {
      assert (s + tail)[1..] == s[1..] + tail;
      RunAll(s[1..], tail, base);
    }
  }

  /** A numeral is read for what it is worth. */
  lemma StrToUlNumeral(s: string, base: nat, val: nat, tail: string, ulongMax: nat)
    requires Numeral(s, base, val) && Stops(s, base, tail)
    ensures val <= ulongMax ==> StrToUl(s + tail, ulongMax) == Some((val, |s|))
    ensures val > ulongMax ==> StrToUl(s + tail, ulongMax) == None
  {
    hide Value;
    var text := s + tail;
    assert text[0] == s[0];
    if base == 16 {
      assert text[1] == s[1] && text[2] == s[2] && s[2] == s[2..][0];
      assert text[2..] == s[2..] + tail;
      RunAll(s[2..], tail, 16);
      assert text[2..2 + |s[2..]|] == s[2..];
    } else {
      assert |s| >= 2 ==> text[1] == s[1];
      assert |s| == 1 && |text| >= 2 ==> text[1] == tail[0];
      assert base == 8 && |s| == 1 ==> s == "0";
      RunAll(s, tail, base);
      assert text[0..] == text && text[..|s|] == s;
    }
  }

  /** proc_get_long() reads a numeral with its sign and demands one of the trailers after it. */
  lemma GetLongNumeral(s: string, base: nat, val: nat, neg: bool, tail: string, trailers: seq<char>, ulongMax: nat)
    requires Numeral(s, base, val) && |s| + (if neg then 1 else 0) <= 20 && Stops(s, base, tail)
    ensures GetLong((if neg then "-" else "") + s + tail, trailers, ulongMax)
         == if val > ulongMax then None else if tail == [] then Some(Number(val, neg, None, tail))
            else if tail[0] in trailers then Some(Number(val, neg, Some(tail[0]), tail)) else None
  {
    hide StrToUl, Numeral;
    NumeralStart(s, base, val);
    var p := if neg then 1 else 0;
    var text := (if neg then "-" else "") + s + tail;
    var len := if |text| > 21 then 21 else |text|;
    var rest := tail[..len - p - |s|];
    assert text[..len][p..] == s + rest && text[p] == s[0] && text[p + |s|..] == tail;
    assert tail != [] ==> rest != [] && rest[0] == tail[0] && text[p + |s|] == tail[0];
    assert Stops(s, base, rest);
    StrToUlNumeral(s, base, val, rest, ulongMax);
    assert text[0] == '-' <==> neg;
    LongWindow(text, neg, s, rest, tail, trailers, ulongMax, val);
  }

  /** One that fills the window is refused, whatever its value. */
  lemma GetLongTooLong(s: string, base: nat, val: nat, neg: bool, tail: string, trailers: seq<char>, ulongMax: nat)
    requires Numeral(s, base, val) && |s| + (if neg then 1 else 0) > 20
    ensures GetLong((if neg then "-" else "") + s + tail, trailers, ulongMax) == None
  {
    hide StrToUl, Value;
    var p := if neg then 1 else 0;
    var text, d := (if neg then "-" else "") + s + tail, s[..21 - p];
    assert text[..21][p..] == d && d + "" == d && text[p] == s[0];
    assert text[0] == '-' <==> neg;
    if base == 16 {
      assert d[2..] == s[2..][..19 - p];
    }
    StrToUlNumeral(d, base, if base == 16 then Value(d[2..], 16) else Value(d, base), "", ulongMax);
  }

  lemma NumeralStart(s: string, base: nat, val: nat)
    requires Numeral(s, base, val)
    ensures |s| >= 1 && IsDigit(s[0])
  {
  }

  /** proc_get_long() of a text whose window starts with a number. */
  lemma LongWindow(text: string, neg: bool, d: string, rest: string, tail: string, trailers: seq<char>, ulongMax: nat, val: nat)
    requires
      var p := if neg then 1 else 0;
      && 1 <= |d| && p + |d| <= 20 && |text| == p + |d| + |tail| && (text[0] == '-' <==> neg) && IsDigit(text[p])
      && text[..if |text| > 21 then 21 else |text|][p..] == d + rest
      && (val <= ulongMax ==> StrToUl(d + rest, ulongMax) == Some((val, |d|)))
      && (val > ulongMax ==> StrToUl(d + rest, ulongMax) == None)
      && text[p + |d|..] == tail && (tail != [] ==> text[p + |d|] == tail[0])
    ensures GetLong(text, trailers, ulongMax)
         == if val > ulongMax then None else if tail == [] then Some(Number(val, neg, None, tail))
            else if tail[0] in trailers then Some(Number(val, neg, Some(tail[0]), tail)) else None
  {
    hide StrToUl;
  }

  // --- reading what was printed ---

  lemma {:induction false} ValueOfDec(n: nat)
    ensures Value(Dec(n), 10) == n
  {
    if n < 10 {
      assert Dec(n)[..0] == [] && Value([], 10) == 0;
      assert DigitValue(Digit(n)) == n;
    } else {
      var s := Dec(n);
      assert s[..|s| - 1] == Dec(n / 10);
      ValueOfDec(n / 10);
      assert DigitValue(Digit(n % 10)) == n % 10;
    }
  }

  /** What is printed is a numeral. */
  lemma DecNumeral(n: nat)
    ensures Numeral(Dec(n), if n == 0 then 8 else 10, n)
  {
    DecDigits(n);
    if n == 0 {
      assert Dec(0) == "0" && "0"[..0] == "";
      assert Value("0", 8) == Value("", 8) * 8 + 0;
    } else {
      ValueOfDec(n);
    }
  }

  /** What proc_put_long() prints. */
  function Printed(val: nat, neg: bool): string {
    (if neg then "-" else "") + Dec(val)
  }

  lemma GetLongPrinted(val: nat, neg: bool, tail: string, trailers: seq<char>, ulongMax: nat)
    requires val <= ulongMax && |Dec(val)| <= 19 && (tail == [] || tail[0] in trailers)
    requires forall c :: c in trailers ==> DigitValue(c) >= 10 && c != 'x' && c != 'X'
    ensures GetLong(Printed(val, neg) + tail, trailers, ulongMax)
         == Some(Number(val, neg, if tail == [] then None else Some(tail[0]), tail))
  {
    hide Dec, GetLong, Numeral, DigitValue;
    DecNumeral(val);
    GetLongNumeral(Dec(val), if val == 0 then 8 else 10, val, neg, tail, trailers, ulongMax);
  }

  /** What is left of a printed number when its end is cut off is a smaller one. */
  lemma {:induction false} DecPrefix(n: nat, m: nat) returns (q: nat)
    requires 0 < m < |Dec(n)|
    ensures q < n && Dec(n)[..m] == Dec(q)
  {
    var s := Dec(n / 10);
    assert Dec(n)[..|s|] == s;
    if m == |s| {
      q := n / 10;
    } else {
      q := DecPrefix(n / 10, m);
      assert Dec(n)[..m] == s[..m];
    }
  }
}
