/**
 lib/checksum.c: the Internet checksum (section 2 of RFC 1071), on a little-endian machine.  The reference is the
 plain sum of the little-endian 16-bit words of the buffer, an odd last byte counting as the low half of a word.
 */
module Checksum {
  const WORD: nat := 0x100000000

  ghost predicate Bytes(s: seq<nat>) {
    forall i :: 0 <= i < |s| ==> s[i] < 256
  }

  /** The sum of the words, the first byte being a low one. */
  function Sum(s: seq<nat>): nat {
    if s == [] then 0 else s[0] + HighSum(s[1..])
  }

  /** The same with the first byte being a high one. */
  function HighSum(s: seq<nat>): nat {
    if s == [] then 0 else 256 * s[0] + Sum(s[1..])
  }

  /** Equal up to multiples of 2^16 - 1. */
  ghost predicate Same(a: int, b: int) {
    (a - b) % 65535 == 0
  }

  lemma SameMul(a: int, b: int, k: int)
    requires a - b == 65535 * k
    ensures Same(a, b) && Same(b, a)
  {
    assert b - a == 65535 * (-k);
  }

  lemma SameAdd(a: int, b: int, c: int, d: int)
    requires Same(a, b) && Same(c, d)
    ensures Same(a + c, b + d)
  {
  }

  lemma SameTrans(a: int, b: int, c: int)
    requires Same(a, b) && Same(b, c)
    ensures Same(a, c)
  {
    SameAdd(a, b, b, c);
  }

  /** Shifting all bytes by one place multiplies by 256, as 2^16 counts as 1. */
  lemma {:induction false} Rotated(s: seq<nat>)
    ensures Same(256 * HighSum(s), Sum(s)) && Same(256 * Sum(s), HighSum(s))
  {
    if s == [] {
      SameMul(0, 0, 0);
    } else {
      hide Same;
      var r, b := s[1..], s[0];
      Rotated(r);
      SameMul(65536 * b, b, b);
      SameMul(256 * b, 256 * b, 0);
      SameAdd(65536 * b, b, 256 * Sum(r), HighSum(r));
      SameAdd(256 * b, 256 * b, 256 * HighSum(r), Sum(r));
    }
  }

  lemma {:induction false} SumConcat(a: seq<nat>, b: seq<nat>)
    ensures Sum(a + b) == Sum(a) + if |a| % 2 == 0 then Sum(b) else HighSum(b)
    ensures HighSum(a + b) == HighSum(a) + if |a| % 2 == 0 then HighSum(b) else Sum(b)
  {
    if a == [] {
      assert a + b == b;
    } else {
      assert (a + b)[1..] == a[1..] + b;
      SumConcat(a[1..], b);
    }
  }

  lemma {:induction false} SumZero(s: seq<nat>)
    ensures Sum(s) == 0 <==> forall i :: 0 <= i < |s| ==> s[i] == 0
    ensures HighSum(s) == 0 <==> forall i :: 0 <= i < |s| ==> s[i] == 0
  {
    if s != [] {
      SumZero(s[1..]);
      assert s == [s[0]] + s[1..];
    }
  }

  // --- partial results ---

  /** `x` stands for the sum `t`: congruent, and zero only if that is. */
  ghost predicate Stands(x: int, t: int) {
    x >= 0 && t >= 0 && Same(x, t) && (x == 0 <==> t == 0)
  }

  lemma StandsAdd(x: nat, t: nat, y: nat, u: nat)
    requires Stands(x, t) && Stands(y, u)
    ensures Stands(x + y, t + u)
  {
    SameAdd(x, t, y, u);
  }

  /** (x & 0xffff) + (x >> 16) */
  function Fold(x: nat): nat {
    x % 0x10000 + x / 0x10000
  }

  lemma FoldStands(x: nat, t: nat)
    requires Stands(x, t)
    ensures Stands(Fold(x), t) && Fold(x) <= x
  {
    hide Same;
    SameMul(x, Fold(x), x / 0x10000);
    SameTrans(Fold(x), x, t);
  }

  /** from32to16(): two folds leave 16 bits. */
  method From32To16(x: nat, ghost t: nat) returns (r: nat)
    requires x < WORD && Stands(x, t)
    ensures r < 0x10000 && Stands(r, t)
  {
    FoldStands(x, t);
    r := Fold(x);
    FoldStands(r, t);
    FoldTwice(x);
    r := Fold(r);
  }

  lemma FoldTwice(x: nat)
    requires x < WORD
    ensures Fold(x) <= 0x1fffe && Fold(Fold(x)) < 0x10000
  {
  }

  /** A byte pair and a word as loaded from memory. */
  function Half(s: seq<nat>, i: nat): nat
    requires i + 2 <= |s|
  {
    s[i] + 256 * s[i + 1]
  }

  function Whole(s: seq<nat>, i: nat): nat
    requires i + 4 <= |s|
  {
    s[i] + 256 * (s[i + 1] + 256 * (s[i + 2] + 256 * s[i + 3]))
  }

  lemma HalfStands(s: seq<nat>, i: nat)
    requires Bytes(s) && i + 2 <= |s|
    ensures Half(s, i) < 0x10000 && Half(s, i) == Sum(s[i..i + 2])
  {
    var t := s[i..i + 2];
    assert t[1..] == [s[i + 1]] && t[1..][1..] == [];
    assert Sum(t[1..][1..]) == 0;
  }

  lemma WholeStands(s: seq<nat>, i: nat)
    requires Bytes(s) && i + 4 <= |s|
    ensures Whole(s, i) < WORD && Stands(Whole(s, i), Sum(s[i..i + 4]))
  {
    HalfStands(s, i);
    HalfStands(s, i + 2);
    assert s[i..i + 4] == s[i..i + 2] + s[i + 2..i + 4];
    SumConcat(s[i..i + 2], s[i + 2..i + 4]);
    SameMul(Whole(s, i), Sum(s[i..i + 4]), Half(s, i + 2));
  }

  /** The sum of the first `n` bytes as they are added up: from an odd address the first byte is a high one. */
  function Part(s: seq<nat>, odd: bool, n: nat): nat
    requires n <= |s|
  {
    if odd then HighSum(s[..n]) else Sum(s[..n])
  }

  lemma Extend(s: seq<nat>, odd: bool, n: nat, k: nat)
    requires n + k <= |s| && (n % 2 == 1) == odd
    ensures Part(s, odd, n + k) == Part(s, odd, n) + Sum(s[n..n + k])
  {
    assert s[..n + k] == s[..n] + s[n..n + k];
    SumConcat(s[..n], s[n..n + k]);
  }

  // --- the loop over words ---

  /** Adds a word with end-around carry, the carry being kept for the next turn; nothing is lost. */
  lemma CarryStep(result: nat, carry: nat, w: nat, t: nat, u: nat)
    requires result < WORD && carry <= 1 && (carry == 1 ==> result < WORD - 1) && w < WORD
    requires Stands(result + carry, t) && Stands(w, u)
    ensures
      var r1 := result + carry;
      var r2 := (r1 + w) % WORD;
      var c2 := if w > r2 then 1 else 0;
      && r1 < WORD && (c2 == 1 ==> r2 < WORD - 1) && Stands(r2 + c2, t + u)
  {
    var r1 := result + carry;
    StandsAdd(r1, t, w, u);
    if r1 + w >= WORD {
      assert (r1 + w) % WORD == r1 + w - WORD;
      SameMul(r1 + w, r1 + w - WORD + 1, 65537);
      SameTrans(r1 + w - WORD + 1, r1 + w, t + u);
    } else {
      assert (r1 + w) % WORD == r1 + w;
    }
  }

  method AddWords(s: seq<nat>, from: nat, len: nat, result0: nat, ghost odd: bool) returns (result: nat, n: nat)
    requires Bytes(s) && (from % 2 == 1) == odd && len >= 4 && from + len <= |s|
    requires result0 < WORD && Stands(result0, Part(s, odd, from))
    ensures n == from + len / 4 * 4 && result <= 0x1fffe && Stands(result, Part(s, odd, n))
  {
    hide Sum, HighSum, Stands, Part;
    n, result := from, result0;
    var end := from + len / 4 * 4;
    var carry := 0;
    while true
      invariant from <= n < end && (n - from) % 4 == 0 && n + 4 <= end
      invariant result < WORD && 0 <= carry <= 1 && (carry == 1 ==> result < WORD - 1)
      invariant Stands(result + carry, Part(s, odd, n))
      decreases end - n
    {
      var w := Whole(s, n);
      WholeStands(s, n);
      Extend(s, odd, n, 4);
      CarryStep(result, carry, w, Part(s, odd, n), Sum(s[n..n + 4]));
      n := n + 4;
      result := result + carry;
      result := (result + w) % WORD;
      carry := if w > result then 1 else 0;
      if n >= end {
        break;
      }
    }
    result := result + carry;
    FoldStands(result, Part(s, odd, n));
    FoldTwice(result);
    result := Fold(result);
  }

  // --- do_csum() ---

  method AddHalf(s: seq<nat>, n: nat, result0: nat, ghost odd: bool) returns (result: nat)
    requires Bytes(s) && (n % 2 == 1) == odd && n + 2 <= |s| && Stands(result0, Part(s, odd, n))
    ensures result <= result0 + 0xffff && Stands(result, Part(s, odd, n + 2))
  {
    hide Sum, HighSum, Stands, Part;
    HalfStands(s, n);
    Extend(s, odd, n, 2);
    StandsSelf(Half(s, n));
    StandsAdd(result0, Part(s, odd, n), Half(s, n), Sum(s[n..n + 2]));
    result := result0 + Half(s, n);
  }

  /** From the first address that is a multiple of four on, but for an odd last byte. */
  method AddAligned(s: seq<nat>, from: nat, len: nat, result0: nat, ghost odd: bool) returns (result: nat, n: nat)
    requires Bytes(s) && from + len <= |s| && (from % 2 == 1) == odd && result0 <= 0x1ffff && Stands(result0, Part(s, odd, from))
    ensures n == from + len / 2 * 2 && result <= 0x2ffff && Stands(result, Part(s, odd, n))
  {
    hide Sum, HighSum, Stands, Part;
    result, n := result0, from;
    Quarters(len);
    if len >= 4 {
      result, n := AddWords(s, n, len, result, odd);
    }
    if len % 4 >= 2 {
      result := AddHalf(s, n, result, odd);
      n := n + 2;
    }
  }

  lemma Quarters(len: nat)
    ensures len / 2 * 2 == len / 4 * 4 + (if len % 4 >= 2 then 2 else 0) <= len
    ensures len < 4 ==> len / 4 * 4 == 0
  {
    var q, r := len / 4, len % 4;
    assert len == 4 * q + r;
    assert len / 2 == 2 * q + r / 2;
  }

  /** From the first even address on. */
  method AddRest(s: seq<nat>, from: nat, address: nat, result0: nat, ghost odd: bool) returns (result: nat)
    requires Bytes(s) && from <= |s| && (from % 2 == 1) == odd && result0 <= 0xff00 && Stands(result0, Part(s, odd, from))
    ensures result < WORD && Stands(result, Part(s, odd, |s|))
  {
    hide Sum, HighSum, Stands, Part;
    result := result0;
    var n, len := from, |s| - from;
    if len >= 2 {
      if address / 2 % 2 == 1 {
        result := AddHalf(s, n, result, odd);
        len := len - 2;
        n := n + 2;
      }
      result, n := AddAligned(s, n, len, result, odd);
    }
    if len % 2 == 1 {
      LastByte(s, n);
      Extend(s, odd, n, 1);
      StandsSelf(s[n]);
      StandsAdd(result, Part(s, odd, n), s[n], Sum(s[n..n + 1]));
      result := result + s[n];
    }
  }

  lemma StandsSelf(x: nat)
    ensures Stands(x, x)
  {
  }

  lemma LastByte(s: seq<nat>, n: nat)
    requires n < |s|
    ensures Sum(s[n..n + 1]) == s[n]
  {
    assert s[n..n + 1][1..] == [];
    assert HighSum([]) == 0;
  }

  /** do_csum(): a 16-bit number that stands for the sum of the words, whatever the address. */
  method DoCsum(s: seq<nat>, address: nat) returns (result: nat)
    requires Bytes(s)
    ensures result < 0x10000 && Stands(result, Sum(s))
  {
    hide Stands;
    result := 0;
    StandsSelf(0);
    if s == [] {
      return;
    }
    var odd := address % 2 == 1;
    var n := 0;
    assert s[..0] == [] && s[..|s|] == s;
    if odd {
      result := 256 * s[0];
      FirstByte(s);
      StandsSelf(result);
      n := 1;
    }
    result := AddRest(s, n, address + n, result, odd);
    result := From32To16(result, Part(s, odd, |s|));
    if odd {
      SwapStands(result, s);
      result := result / 256 % 256 + result % 256 * 256;
    }
  }

  lemma FirstByte(s: seq<nat>)
    requires s != []
    ensures Part(s, true, 1) == 256 * s[0]
  {
    assert s[..1][1..] == [];
    assert Sum([]) == 0;
  }

  /** Swapping the two bytes of the result undoes an odd start. */
  lemma SwapStands(r: nat, s: seq<nat>)
    requires r < 0x10000 && Stands(r, HighSum(s))
    ensures
      var x := r / 256 % 256 + r % 256 * 256;
      x < 0x10000 && Stands(x, Sum(s))
  {
    hide Sum, HighSum;
    var x := r / 256 % 256 + r % 256 * 256;
    SameMul(256 * r, x, r / 256);
    Rotated(s);
    Times256(r, HighSum(s));
    SameTrans(x, 256 * r, 256 * HighSum(s));
    SameTrans(x, 256 * HighSum(s), Sum(s));
    SumZero(s);
  }

  lemma Times256(a: int, b: int)
    requires Same(a, b)
    ensures Same(256 * a, 256 * b)
  {
    SameMul(256 * a, 256 * b, 256 * ((a - b) / 65535));
  }

  /** The result is 0 for zero data only, and otherwise the sum modulo 2^16 - 1 in 1 .. 2^16 - 1. */
  lemma StandsExactly(r: nat, t: nat)
    requires r < 0x10000 && Stands(r, t)
    ensures r == Folded(t)
  {
  }

  /** The number in 16 bits that stands for a sum. */
  ghost function Folded(t: nat): nat {
    if t == 0 then 0 else if t % 65535 == 0 then 65535 else t % 65535
  }

  // --- csum_partial() ---

  /** Adds the sum of the buffer to a running 32-bit sum, with end-around carry. */
  method CsumPartial(s: seq<nat>, address: nat, sum: nat) returns (result: nat)
    requires Bytes(s) && sum < WORD
    ensures result < WORD && Stands(result, sum + Sum(s))
    ensures result == var x := sum + Folded(Sum(s)); if x < WORD then x else x - WORD + 1
  {
    hide Sum;
    var r := DoCsum(s, address);
    StandsExactly(r, Sum(s));
    StandsAdd(r, Sum(s), sum, sum);
    result := (r + sum) % WORD;
    if sum > result {
      SameMul(r + sum, r + sum - WORD + 1, 65537);
      SameTrans(r + sum - WORD + 1, r + sum, sum + Sum(s));
      result := result + 1;
    }
  }

  /** Checksums of pieces add up exactly when the first piece has even length or the second one is a multiple of 257. */
  method CsumPieces(a: seq<nat>, b: seq<nat>, addressA: nat, addressB: nat, sum: nat) returns (result: nat)
    requires Bytes(a) && Bytes(b) && sum < WORD
    ensures result < WORD && Stands(result, sum + Sum(a) + Sum(b))
    ensures Stands(result, sum + Sum(a + b)) <==> |a| % 2 == 0 || Sum(b) % 257 == 0
  {
    hide Sum, HighSum, Stands;
    var first := CsumPartial(a, addressA, sum);
    result := CsumPartial(b, addressB, first);
    StandsAdd(first, sum + Sum(a), Sum(b), Sum(b));
    StandsTrans(result, first + Sum(b), sum + Sum(a) + Sum(b));
    PiecesStand(result, sum, a, b);
  }

  lemma PiecesStand(r: nat, sum: nat, a: seq<nat>, b: seq<nat>)
    requires Stands(r, sum + Sum(a) + Sum(b))
    ensures Stands(r, sum + Sum(a + b)) <==> |a| % 2 == 0 || Sum(b) % 257 == 0
  {
    hide Sum, HighSum;
    EvenExactly(a, b);
    SumConcat(a, b);
    SumZero(b);
    SameEither(r, sum + Sum(a) + Sum(b), sum + Sum(a + b));
  }

  lemma SameEither(x: int, y: int, z: int)
    requires Same(x, y)
    ensures Same(x, z) <==> Same(z - y, 0)
  {
  }

  lemma StandsTrans(x: int, y: int, z: int)
    requires Stands(x, y) && Stands(y, z)
    ensures Stands(x, z)
  {
    SameTrans(x, y, z);
  }

  /** With an odd first piece the law fails: one byte 1 followed by one byte 1. */
  lemma OddPieceFails()
    ensures Sum([1] + [1]) == 257 && Sum([1]) + Sum([1]) == 2 && !Same(257, 2)
  {
    assert ([1] + [1])[1..] == [1] && [1][1..] == [];
    assert HighSum([1]) == 256 + Sum([]);
    assert Sum([1]) == 1 + HighSum([]);
  }

  /** How far the pieces may be off: the sum of the second one enters rotated by a byte. */
  lemma EvenExactly(a: seq<nat>, b: seq<nat>)
    ensures Same(Sum(a + b) - Sum(a) - Sum(b), 0) <==> |a| % 2 == 0 || Sum(b) % 257 == 0
  {
    hide Sum, HighSum;
    SumConcat(a, b);
    if |a| % 2 == 1 {
      Rotated(b);
      SameShift(256 * Sum(b), HighSum(b), Sum(b));
      Halves(Sum(b));
    }
  }

  /** 2^16 - 1 is 255 times 257. */
  lemma Halves(x: nat)
    ensures Same(255 * x, 0) <==> x % 257 == 0
  {
    var q, r := x / 257, x % 257;
    assert 255 * x == 65535 * q + 255 * r;
  }

  lemma SameShift(x: int, y: int, z: int)
    requires Same(x, y)
    ensures Same(y - z, 0) <==> Same(x - z, 0)
  {
  }
}
