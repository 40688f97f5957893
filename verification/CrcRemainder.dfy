/**
 lib/crc32.c, lib/crc8.c, lib/crc64.c: the bit-at-a-time checks are remainders of polynomials.  A message of n bytes is the
 polynomial that the bytes spell, and its check with seed c is c X^(8n) + m X^w modulo X^w plus the polynomial.
 */
module CrcRemainder {
  import opened Bits
  import opened Gf2
  import opened BchMod8
  import opened BchEncode
  import opened BchWide
  import CrcLsb
  import CrcMsb
  import CrcProduct

  /** What a check has to be congruent to. */
  ghost function Target(w: nat, c: nat, n: nat, m: nat): nat {
    Xor(Shl(c, 8 * n), Shl(m, w))
  }

  /** One more byte, which enters at X^w. */
  lemma TargetNext(g: nat, w: nat, c: nat, n: nat, m: nat, x: nat, b: nat)
    requires w >= 8 && Cong(g, x, Target(w, c, n, m))
    ensures Cong(g, Shl(Xor(x, Shl(b, w - 8)), 8), Target(w, c, n + 1, Xor(Shl(m, 8), b)))
  {
    hide Xor, Shl, Cong;
    XorShl(x, Shl(b, w - 8), 8);
    ShlShl(b, w - 8, 8);
    CongShl(g, x, Target(w, c, n, m), 8);
    CongSame(g, Shl(b, w));
    CongXor(g, Shl(x, 8), Shl(b, w), Shl(Target(w, c, n, m), 8), Shl(b, w));
    MessageStep(c, n, m, b, w);
  }

  lemma TargetStart(g: nat, w: nat, c: nat)
    ensures Cong(g, c, Target(w, c, 0, 0))
  {
    hide Xor, Cong, Shl;
    BchEncode.ShlNothing(c, w);
    XorSelf(c);
    CongSame(g, c);
  }

  // --- most significant bit first ---

  lemma MsbStep(w: nat, poly: nat, c: nat)
    requires w >= 1 && c < Pow2(w)
    ensures Cong(Xor(Pow2(w), poly), CrcMsb.Step(w, poly, c), 2 * c)
  {
    hide Xor, Pow2, Cong, Trunc;
    var g, t := Xor(Pow2(w), poly), Trunc(2 * c, w);
    TopBit(w, c);
    if Bit(c, w - 1) {
      XorAssoc(Xor(t, Pow2(w)), Pow2(w), poly);
      XorAssoc(t, Pow2(w), Pow2(w));
      XorSelf(Pow2(w));
      XorSelf(t);
      CrcProduct.CongOnce(g, 2 * c);
    } else {
      XorSelf(t);
      CongSame(g, t);
    }
  }

  lemma TopBit(w: nat, c: nat)
    requires w >= 1 && c < Pow2(w)
    ensures 2 * c == if Bit(c, w - 1) then Xor(Trunc(2 * c, w), Pow2(w)) else Trunc(2 * c, w)
  {
    hide Xor, Pow2, Trunc, Bit;
    var r := if Bit(c, w - 1) then Xor(Trunc(2 * c, w), Pow2(w)) else Trunc(2 * c, w);
    forall i: nat
      ensures Bit(2 * c, i) == Bit(r, i)
    {
      BitTrunc(2 * c, w, i);
      BitXor(Trunc(2 * c, w), Pow2(w), i);
      BitPow2(w, i);
      CrcProduct.BitTwice(c, i);
      if i > w {
        BitAbove(c, w, i - 1);
      }
    }
    SameBitsEqual(2 * c, r);
  }

  lemma {:induction false} MsbSteps(w: nat, poly: nat, c: nat, k: nat)
    requires w >= 1 && c < Pow2(w) && poly < Pow2(w)
    ensures Cong(Xor(Pow2(w), poly), CrcMsb.Steps(w, poly, c, k), Shl(c, k))
    decreases k
  {
    hide Xor, Pow2, Cong, CrcMsb.Step;
    var g := Xor(Pow2(w), poly);
    if k == 0 {
      CongSame(g, c);
    } else {
      var d := CrcMsb.Step(w, poly, c);
      MsbStep(w, poly, c);
      CrcMsb.StepBelow(w, poly, c);
      MsbSteps(w, poly, d, k - 1);
      CongShl(g, d, 2 * c, k - 1);
      CongTrans(g, CrcMsb.Steps(w, poly, d, k - 1), Shl(d, k - 1), Shl(2 * c, k - 1));
      CrcMsb.ShlMove(c, k);
    }
  }

  lemma MsbByte(w: nat, poly: nat, x: nat, b: nat)
    requires w >= 8 && x < Pow2(w) && poly < Pow2(w) && b < 256
    ensures Xor(x, Shl(b, w - 8)) < Pow2(w) && CrcMsb.Steps(w, poly, Xor(x, Shl(b, w - 8)), 8) < Pow2(w)
  {
    hide Xor, Pow2, Shl, CrcMsb.Steps;
    WordIs();
    ShlBelow(b, 8, w - 8);
    XorBelow(x, Shl(b, w - 8), w);
    CrcMsb.StepsBelow(w, poly, Xor(x, Shl(b, w - 8)), 8);
  }

  /** The check is the remainder of the message and the seed. */
  lemma {:induction false} MsbRemainder(w: nat, poly: nat, c: nat, bytes: seq<nat>, m: nat)
    requires w >= 8 && c < Pow2(w) && poly < Pow2(w) && Bytes(bytes) && Spells(false, bytes, m)
    ensures CrcMsb.Crc(w, poly, c, bytes) < Pow2(w)
    ensures Cong(Xor(Pow2(w), poly), CrcMsb.Crc(w, poly, c, bytes), Target(w, c, |bytes|, m))
  {
    hide Xor, Pow2, Cong, CrcMsb.Steps, Shl, Spells, Target;
    var g := Xor(Pow2(w), poly);
    MessageSpells(false, bytes);
    SpellsUnique(false, bytes, m, Message(SwapAll(false, bytes)));
    Unswapped(bytes);
    if bytes == [] {
      TargetStart(g, w, c);
    } else {
      var n := |bytes| - 1;
      var rest, b := bytes[..n], bytes[n];
      var x := CrcMsb.Crc(w, poly, c, rest);
      MessageSpells(false, rest);
      Unswapped(rest);
      MsbRemainder(w, poly, c, rest, Message(rest));
      MsbByte(w, poly, x, b);
      var y := Xor(x, Shl(b, w - 8));
      MsbSteps(w, poly, y, 8);
      TargetNext(g, w, c, n, Message(rest), x, b);
      CongTrans(g, CrcMsb.Steps(w, poly, y, 8), Shl(y, 8), Target(w, c, n + 1, m));
    }
  }

  lemma Unswapped(s: seq<nat>)
    ensures SwapAll(false, s) == s
  {
  }

  // --- least significant bit first ---

  lemma {:induction false} LsbSteps(w: nat, poly: nat, c: nat, k: nat)
    requires w >= 1 && c < Pow2(w) && poly < Pow2(w)
    ensures Cong(CrcProduct.Modulus(w, poly), CrcProduct.Rev(CrcLsb.Steps(poly, c, k), w), Shl(CrcProduct.Rev(c, w), k))
    decreases k
  {
    hide Pow2, Cong, CrcLsb.Step, CrcProduct.Rev, CrcProduct.Modulus;
    var g := CrcProduct.Modulus(w, poly);
    if k == 0 {
      CongSame(g, CrcProduct.Rev(c, w));
    } else {
      var d := CrcLsb.Step(poly, c);
      CrcProduct.StepDoubles(w, poly, c);
      CrcLsb.StepBelow(poly, c, w);
      LsbSteps(w, poly, d, k - 1);
      var rd, rc := CrcProduct.Rev(d, w), CrcProduct.Rev(c, w);
      CongShl(g, rd, 2 * rc, k - 1);
      CongTrans(g, CrcProduct.Rev(CrcLsb.Steps(poly, d, k - 1), w), Shl(rd, k - 1), Shl(2 * rc, k - 1));
      CrcMsb.ShlMove(rc, k);
    }
  }

  /** A byte at the bottom is, in reverse, the swapped byte at the top. */
  lemma RevByte(w: nat, b: nat)
    requires w >= 8 && b < 256
    ensures CrcProduct.Rev(b, w) == Shl(SwapBits(true, b), w - 8)
  {
    hide CrcProduct.Rev, Shl, SwapBits, Bit;
    var r := Shl(SwapBits(true, b), w - 8);
    forall i: nat
      ensures Bit(CrcProduct.Rev(b, w), i) == Bit(r, i)
    {
      CrcProduct.BitRev(b, w, i);
      BitShl(SwapBits(true, b), w - 8, i);
      SwapByte(true, b);
      if w - 8 <= i < w {
        SwapBit(true, b, w - 1 - i);
      } else if i >= w {
        ByteAbove(SwapBits(true, b), i - (w - 8));
      } else {
        ByteAbove(b, w - 1 - i);
      }
    }
    SameBitsEqual(CrcProduct.Rev(b, w), r);
  }

  lemma LsbByte(w: nat, poly: nat, x: nat, b: nat)
    requires w >= 8 && x < Pow2(w) && poly < Pow2(w) && b < 256
    ensures Xor(x, b) < Pow2(w) && CrcLsb.Steps(poly, Xor(x, b), 8) < Pow2(w)
  {
    hide Xor, Pow2, CrcLsb.Steps;
    WordIs();
    Pow2Mono(8, w);
    XorBelow(x, b, w);
    CrcLsb.StepsBelow(poly, Xor(x, b), 8, w);
  }

  /** Read with its bits reversed, the check is the remainder of the message, whose bytes start with their lowest bit. */
  lemma {:induction false} LsbRemainder(w: nat, poly: nat, c: nat, bytes: seq<nat>, m: nat)
    requires w >= 8 && c < Pow2(w) && poly < Pow2(w) && Bytes(bytes) && Spells(true, bytes, m)
    ensures CrcLsb.Crc(poly, c, bytes) < Pow2(w)
    ensures Cong(CrcProduct.Modulus(w, poly), CrcProduct.Rev(CrcLsb.Crc(poly, c, bytes), w),
                 Target(w, CrcProduct.Rev(c, w), |bytes|, m))
  {
    hide Xor, Pow2, Cong, CrcLsb.Steps, Shl, Spells, Target, CrcProduct.Rev, CrcProduct.Modulus, SwapBits;
    var g, rc := CrcProduct.Modulus(w, poly), CrcProduct.Rev(c, w);
    MessageSpells(true, bytes);
    SpellsUnique(true, bytes, m, Message(SwapAll(true, bytes)));
    if bytes == [] {
      TargetStart(g, w, rc);
    } else {
      var n := |bytes| - 1;
      var rest, b := bytes[..n], bytes[n];
      var x, m' := CrcLsb.Crc(poly, c, rest), Message(SwapAll(true, rest));
      assert SwapAll(true, bytes)[..n] == SwapAll(true, rest);
      MessageSpells(true, rest);
      LsbRemainder(w, poly, c, rest, m');
      LsbByte(w, poly, x, b);
      var y := Xor(x, b);
      LsbSteps(w, poly, y, 8);
      CrcProduct.RevXor(x, b, w);
      RevByte(w, b);
      TargetNext(g, w, rc, n, m', CrcProduct.Rev(x, w), SwapBits(true, b));
      CongTrans(g, CrcProduct.Rev(CrcLsb.Steps(poly, y, 8), w), Shl(CrcProduct.Rev(y, w), 8), Target(w, rc, n + 1, m));
    }
  }
}
