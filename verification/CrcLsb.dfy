/**
 Cyclic redundancy checks that take the least significant bit first: lib/crc32.c in its little-endian
 form, its table generator, and the "lsb" form of lib/crc8.c.  The reference is division by the
 polynomial one bit at a time.
 */
module CrcLsb {
  import opened Bits
  import opened Gf2

  /** One bit: (c >> 1) ^ (c & 1 ? poly : 0) */
  function Step(poly: nat, c: nat): nat {
    Xor(c / 2, if c % 2 == 1 then poly else 0)
  }

  function Steps(poly: nat, c: nat, k: nat): nat
    decreases k
  {
    if k == 0 then c else Steps(poly, Step(poly, c), k - 1)
  }

  /** The bit-at-a-time check of a buffer. */
  function Crc(poly: nat, c: nat, bytes: seq<nat>): nat {
    if bytes == [] then c
    else Steps(poly, Xor(Crc(poly, c, bytes[..|bytes| - 1]), bytes[|bytes| - 1]), 8)
  }

  // --- linearity ---

  lemma StepXor(poly: nat, a: nat, b: nat)
    ensures Step(poly, Xor(a, b)) == Xor(Step(poly, a), Step(poly, b))
  {
    hide Xor;
    XorHalf(a, b);
    SelXor(a % 2 == 1, b % 2 == 1, poly);
    XorSwap(a / 2, if a % 2 == 1 then poly else 0, b / 2, if b % 2 == 1 then poly else 0);
  }

  lemma {:induction false} StepsXor(poly: nat, a: nat, b: nat, k: nat)
    ensures Steps(poly, Xor(a, b), k) == Xor(Steps(poly, a, k), Steps(poly, b, k))
    decreases k
  {
    hide Xor, Step;
    if k > 0 {
      StepXor(poly, a, b);
      StepsXor(poly, Step(poly, a), Step(poly, b), k - 1);
    }
  }

  lemma {:induction false} StepsAdd(poly: nat, c: nat, j: nat, k: nat)
    ensures Steps(poly, Steps(poly, c, j), k) == Steps(poly, c, j + k)
    decreases j
  {
    hide Step;
    if j > 0 {
      StepsAdd(poly, Step(poly, c), j - 1, k);
    }
  }

  lemma {:induction false} StepsZero(poly: nat, k: nat)
    ensures Steps(poly, 0, k) == 0
  {
    if k > 0 {
      assert Step(poly, 0) == 0;
      StepsZero(poly, k - 1);
    }
  }

  /** Zero bits just move out. */
  lemma {:induction false} StepsShl(poly: nat, h: nat, k: nat)
    ensures Steps(poly, Shl(h, k), k) == h
    decreases k
  {
    if k > 0 {
      XorSelf(Shl(h, k - 1));
      assert Step(poly, Shl(h, k)) == Shl(h, k - 1);
      StepsShl(poly, h, k - 1);
    }
  }

  lemma StepsShlMore(poly: nat, h: nat, j: nat, k: nat)
    requires j <= k
    ensures Steps(poly, Shl(h, j), k) == Steps(poly, h, k - j)
  {
    hide Shl;
    StepsShl(poly, h, j);
    StepsAdd(poly, Shl(h, j), j, k - j);
  }

  lemma StepBelow(poly: nat, c: nat, w: nat)
    requires poly < Pow2(w) && c < Pow2(w)
    ensures Step(poly, c) < Pow2(w)
  {
    XorBelow(c / 2, if c % 2 == 1 then poly else 0, w);
  }

  lemma {:induction false} StepsBelow(poly: nat, c: nat, k: nat, w: nat)
    requires poly < Pow2(w) && c < Pow2(w)
    ensures Steps(poly, c, k) < Pow2(w)
    decreases k
  {
    if k > 0 {
      StepBelow(poly, c, w);
      StepsBelow(poly, Step(poly, c), k - 1, w);
    }
  }

  /** `k` bits at once: the low bits through a table, the others shifted. */
  lemma TableStep(poly: nat, c: nat, k: nat)
    ensures Steps(poly, c, k) == Xor(Shr(c, k), Steps(poly, Trunc(c, k), k))
  {
    hide Xor, Shl, Shr, Trunc, Steps;
    SplitXor(c, k);
    StepsXor(poly, Shl(Shr(c, k), k), Trunc(c, k), k);
    StepsShl(poly, Shr(c, k), k);
  }

  // --- the check of a buffer ---

  lemma {:induction false} CrcConcat(poly: nat, c: nat, a: seq<nat>, b: seq<nat>)
    ensures Crc(poly, c, a + b) == Crc(poly, Crc(poly, c, a), b)
  {
    hide Steps, Xor;
    if b == [] {
      assert a + b == a;
    } else {
      assert (a + b)[..|a + b| - 1] == a + b[..|b| - 1];
      CrcConcat(poly, c, a, b[..|b| - 1]);
    }
  }

  /** The seed and the data contribute separately. */
  lemma {:induction false} CrcSeed(poly: nat, c: nat, bytes: seq<nat>)
    ensures Crc(poly, c, bytes) == Xor(Steps(poly, c, 8 * |bytes|), Crc(poly, 0, bytes))
  {
    hide Steps, Xor;
    if bytes == [] {
      XorSelf(c);
      StepsNone(poly, c);
    } else {
      var n := |bytes| - 1;
      var rest, b := bytes[..n], bytes[n];
      CrcSeed(poly, c, rest);
      var s, d := Steps(poly, c, 8 * n), Crc(poly, 0, rest);
      XorAssoc(s, d, b);
      StepsXor(poly, s, Xor(d, b), 8);
      StepsAdd(poly, c, 8 * n, 8);
    }
  }

  lemma StepsNone(poly: nat, c: nat)
    ensures Steps(poly, c, 0) == c
  {
  }

  function Zeros(n: nat): (s: seq<nat>)
    ensures |s| == n
  {
    seq(n, _ => 0)
  }

  lemma {:induction false} CrcZeros(poly: nat, c: nat, n: nat)
    ensures Crc(poly, c, Zeros(n)) == Steps(poly, c, 8 * n)
  {
    hide Steps, Xor;
    if n == 0 {
      StepsNone(poly, c);
    } else {
      assert Zeros(n)[..n - 1] == Zeros(n - 1);
      CrcZeros(poly, c, n - 1);
      XorSelf(Steps(poly, c, 8 * (n - 1)));
      StepsAdd(poly, c, 8 * (n - 1), 8);
    }
  }

  // --- multiplication and appending zeros ---

  /** Horner's rule over the first `n` bits of `x`, the lowest of which has the highest power. */
  function Product(poly: nat, x: nat, y: nat, n: nat): nat {
    if n == 0 then 0 else Xor(Step(poly, Product(poly, x, y, n - 1)), if Bit(x, n - 1) then y else 0)
  }

  /** gf2_multiply() */
  method Gf2Multiply(x0: nat, y: nat, poly: nat) returns (product: nat)
    ensures product == Product(poly, x0, y, 32)
  {
    hide Xor, Step, Product;
    ProductFirst(poly, x0, y);
    var x := x0;
    product := if x % 2 == 1 then y else 0;
    var i := 0;
    while i < 31
      invariant 0 <= i <= 31 && x == Shr(x0, i) && product == Product(poly, x0, y, i + 1)
    {
      product := Step(poly, product);
      ShrNext(x0, i);
      x := x / 2;
      product := Xor(product, if x % 2 == 1 then y else 0);
      ProductNext(poly, x0, y, i + 1);
      i := i + 1;
    }
  }

  lemma ProductFirst(poly: nat, x: nat, y: nat)
    ensures Product(poly, x, y, 1) == (if x % 2 == 1 then y else 0) && Shr(x, 0) == x
  {
    assert Product(poly, x, y, 0) == 0 && Step(poly, 0) == 0;
    XorSelf(y);
  }

  lemma ProductNext(poly: nat, x: nat, y: nat, n: nat)
    ensures Product(poly, x, y, n + 1) == Xor(Step(poly, Product(poly, x, y, n)), if Shr(x, n) % 2 == 1 then y else 0)
  {
    BitShr(x, n, 0);
  }

  lemma {:induction false} ShrNext(x: nat, i: nat)
    ensures Shr(x, i + 1) == Shr(x, i) / 2
  {
    if i > 0 {
      ShrNext(x / 2, i - 1);
    }
  }

  /** Multiplying by X^k is k steps. */
  lemma {:induction false} ProductSteps(poly: nat, x: nat, k: nat, w: nat, n: nat)
    requires n <= w && w >= 1
    ensures Product(poly, x, Steps(poly, Pow2(w - 1), k), n) == Steps(poly, Shl(Trunc(x, n), w - n), k)
  {
    hide Xor, Shl, Trunc, Steps, Pow2, Bit;
    if n == 0 {
      TruncNone(x, w);
      StepsZero(poly, k);
    } else {
      ProductSteps(poly, x, k, w, n - 1);
      var t, d := Trunc(x, n - 1), w - n;
      StepAfter(poly, Shl(t, d + 1), k);
      HalveShl(poly, t, d);
      TruncXor(x, n - 1, d);
      if Bit(x, n - 1) {
        StepsXor(poly, Shl(t, d), Pow2(w - 1), k);
      } else {
        XorSelf(Steps(poly, Shl(t, d), k));
      }
    }
  }

  lemma TruncNone(x: nat, w: nat)
    ensures Shl(Trunc(x, 0), w) == 0
  {
    ShlPow2(0, w);
  }

  lemma StepAfter(poly: nat, c: nat, k: nat)
    ensures Step(poly, Steps(poly, c, k)) == Steps(poly, Step(poly, c), k)
  {
    StepsAdd(poly, c, k, 1);
    StepsAdd(poly, c, 1, k);
    assert Steps(poly, c, 1) == Step(poly, c);
    assert Steps(poly, Steps(poly, c, k), 1) == Step(poly, Steps(poly, c, k));
  }

  lemma HalveShl(poly: nat, t: nat, d: nat)
    ensures Step(poly, Shl(t, d + 1)) == Shl(t, d)
  {
    XorSelf(Shl(t, d));
  }

  lemma TruncXor(x: nat, n: nat, d: nat)
    ensures Shl(Trunc(x, n + 1), d) == if Bit(x, n) then Xor(Shl(Trunc(x, n), d), Pow2(n + d)) else Shl(Trunc(x, n), d)
  {
    hide Xor, Shl, Trunc, Bit, Pow2;
    var y := if Bit(x, n) then Xor(Trunc(x, n), Pow2(n)) else Trunc(x, n);
    forall i: nat
      ensures Bit(Trunc(x, n + 1), i) == Bit(y, i)
    {
      BitTrunc(x, n + 1, i);
      BitTrunc(x, n, i);
      BitXor(Trunc(x, n), Pow2(n), i);
      BitPow2(n, i);
    }
    SameBitsEqual(Trunc(x, n + 1), y);
    XorShl(Trunc(x, n), Pow2(n), d);
    ShlOfPow2(n, d);
  }

  lemma MultiplySteps(poly: nat, x: nat, k: nat)
    requires x < Pow2(32)
    ensures Product(poly, x, Steps(poly, Pow2(31), k), 32) == Steps(poly, x, k)
  {
    hide Product, Steps, Pow2, Shl, Trunc;
    ProductSteps(poly, x, k, 32, 32);
    TruncBelow(x, 32);
    assert Shl(x, 0) == x by {
      ShlNothing(x);
    }
  }

  /** The polynomial itself is X^32. */
  lemma PolyIsPower(poly: nat)
    ensures Steps(poly, Pow2(31), 32) == poly
  {
    hide Steps, Shl, Pow2, Xor;
    ShlPow2(1, 31);
    StepsShlMore(poly, 1, 31, 32);
    OneStep(poly);
  }

  lemma OneStep(poly: nat)
    ensures Steps(poly, 1, 1) == poly
  {
    assert Step(poly, 1) == Xor(0, poly);
    XorSelf(poly);
  }

  /** crc32_generic_shift(): as if `len` zero bytes followed. */
  method GenericShift(crc0: nat, len0: nat, poly: nat) returns (crc: nat)
    requires crc0 < Pow2(32) && poly < Pow2(32)
    ensures crc == Crc(poly, crc0, Zeros(len0))
  {
    hide Steps, Pow2, Xor, Crc, Product, Step;
    CrcZeros(poly, crc0, len0);
    PolyIsPower(poly);
    var power := poly;
    ghost var e: nat := 32;
    var len := len0;
    crc := crc0;
    StepsNone(poly, crc0);
    var i := 0;
    while i < 8 * (len % 4)
      invariant 0 <= i <= 8 * (len % 4) && crc == Steps(poly, crc0, i) && crc < Pow2(32)
    {
      StepBelow(poly, crc, 32);
      StepsNext(poly, crc0, i);
      crc := Step(poly, crc);
      i := i + 1;
    }
    ghost var done: nat := 8 * (len % 4);
    len := len / 4;
    if len == 0 {
      return;
    }
    while true
      invariant crc == Steps(poly, crc0, done) && crc < Pow2(32)
      invariant power == Steps(poly, Pow2(31), e) && power < Pow2(32)
      invariant len >= 1 && done + e * len == 8 * len0
      decreases len
    {
      if len % 2 == 1 {
        MultiplySteps(poly, crc, e);
        StepsAdd(poly, crc0, done, e);
        StepsBelow(poly, crc, e, 32);
        crc := Gf2Multiply(crc, power, poly);
        OddPart(done, e, len);
        done := done + e;
      } else {
        EvenPart(e, len);
      }
      len := len / 2;
      if len == 0 {
        NothingLeft(e);
        break;
      }
      MultiplySteps(poly, power, e);
      StepsAdd(poly, Pow2(31), e, e);
      StepsBelow(poly, power, e, 32);
      power := Gf2Multiply(power, power, poly);
      e := 2 * e;
    }
  }

  lemma StepsNext(poly: nat, c: nat, i: nat)
    ensures Steps(poly, c, i + 1) == Step(poly, Steps(poly, c, i))
  {
    StepsAdd(poly, c, i, 1);
    assert Steps(poly, Steps(poly, c, i), 1) == Step(poly, Steps(poly, c, i));
  }

  lemma OddPart(done: nat, e: nat, len: nat)
    requires len % 2 == 1
    ensures done + e * len == done + e + 2 * e * (len / 2)
  {
    assert len == 2 * (len / 2) + 1;
    assert e * (2 * (len / 2) + 1) == 2 * e * (len / 2) + e;
  }

  lemma EvenPart(e: nat, len: nat)
    requires len % 2 == 0
    ensures e * len == 2 * e * (len / 2)
  {
    assert len == 2 * (len / 2);
    assert e * (2 * (len / 2)) == 2 * e * (len / 2);
  }

  lemma NothingLeft(e: nat)
    ensures 2 * e * 0 == 0
  {
  }

  /** Checks of pieces combine: shift the first past the second and add. */
  lemma CrcCombine(poly: nat, seed: nat, a: seq<nat>, b: seq<nat>)
    ensures Crc(poly, seed, a + b) == Xor(Crc(poly, Crc(poly, seed, a), Zeros(|b|)), Crc(poly, 0, b))
  {
    hide Crc, Steps, Xor;
    CrcConcat(poly, seed, a, b);
    CrcSeed(poly, Crc(poly, seed, a), b);
    CrcZeros(poly, Crc(poly, seed, a), |b|);
  }
}
