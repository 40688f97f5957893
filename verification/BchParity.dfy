/** lib/bch.c: parity(), which folds each nibble into its lowest bit and adds the eight bits up by a multiplication. */
module BchParity {
  import opened Bits
  import opened BchSolver

  /** The parity of every group of four neighbouring bits, at the lowest of them. */
  function Folded(x: nat): nat {
    var y := Xor(x, x / 2);
    Xor(y, y / 4)
  }

  function ParityWord(x: nat): nat {
    var product := And(Folded(x), 0x11111111) * 0x11111111 % 0x100000000;
    product / 0x10000000 % 2
  }

  lemma XorQuarter(x: nat, y: nat)
    ensures Xor(x, y) / 4 == Xor(x / 4, y / 4) && Xor(x, y) / 16 == Xor(x / 16, y / 16)
  {
    hide Xor;
    XorHalf(x, y);
    XorHalf(x / 2, y / 2);
    XorHalf(x / 4, y / 4);
    XorHalf(x / 8, y / 8);
    assert x / 2 / 2 == x / 4 && x / 4 / 2 == x / 8 && x / 8 / 2 == x / 16;
    assert y / 2 / 2 == y / 4 && y / 4 / 2 == y / 8 && y / 8 / 2 == y / 16;
  }

  lemma FoldedNext(x: nat)
    ensures Folded(x) / 16 == Folded(x / 16)
  {
    hide Xor;
    var y := Xor(x, x / 2);
    XorQuarter(x, x / 2);
    XorQuarter(y, y / 4);
    assert x / 2 / 16 == x / 16 / 2 && y / 4 / 16 == y / 16 / 4;
  }

  function Odd4(x: nat): nat {
    (x % 2 + x / 2 % 2 + x / 4 % 2 + x / 8 % 2) % 2
  }

  lemma FoldedLow(x: nat)
    ensures Folded(x) % 2 == Odd4(x)
  {
    hide Xor;
    var y := Xor(x, x / 2);
    XorLow(x, x / 2);
    XorQuarter(x, x / 2);
    XorLow(x / 4, x / 8);
    assert x / 2 / 4 == x / 8;
    XorLow(y, y / 4);
    Sum4(x % 2, x / 2 % 2, x / 4 % 2, x / 8 % 2);
  }

  lemma XorLow(x: nat, y: nat)
    ensures Xor(x, y) % 2 == (x % 2 + y % 2) % 2
  {
    XorHalf(x, y);
  }

  lemma Sum4(a: nat, b: nat, c: nat, d: nat)
    requires a <= 1 && b <= 1 && c <= 1 && d <= 1
    ensures ((a + b) % 2 + (c + d) % 2) % 2 == (a + b + c + d) % 2
  {
  }

  lemma ParityNibble(x: nat)
    ensures Parity(x) == ((Odd4(x) == 1) != Parity(x / 16))
  {
    ParityHalf(x);
    ParityHalf(x / 2);
    ParityHalf(x / 4);
    ParityHalf(x / 8);
    hide Parity;
    assert x / 2 / 2 == x / 4 && x / 4 / 2 == x / 8 && x / 8 / 2 == x / 16;
  }

  lemma ParityHalf(x: nat)
    ensures Parity(x) == ((x % 2 == 1) != Parity(x / 2))
  {
  }

  /** How many of the lowest bits of the first `k` nibbles are set. */
  function Marks(y: nat, k: nat): (c: nat)
    ensures c <= k
  {
    if k == 0 then 0 else y % 2 + Marks(y / 16, k - 1)
  }

  function Power16(k: nat): nat {
    if k == 0 then 1 else 16 * Power16(k - 1)
  }

  lemma {:induction false} MarksParity(x: nat, k: nat)
    requires x < Power16(k)
    ensures (Marks(Folded(x), k) % 2 == 1) == Parity(x)
  {
    if k > 0 {
      hide Xor, Folded, Parity;
      FoldedNext(x);
      FoldedLow(x);
      ParityNibble(x);
      MarksParity(x / 16, k - 1);
    } else {
      assert x == 0;
    }
  }

  lemma AndNibble(y: nat, o: nat)
    ensures And(y, 16 * o + 1) == 16 * And(y / 16, o) + y % 2
  {
    hide And;
    AndHalf(y, 16 * o + 1);
    AndHalf(y / 2, 8 * o);
    AndHalf(y / 4, 4 * o);
    AndHalf(y / 8, 2 * o);
    assert y / 2 / 2 == y / 4 && y / 4 / 2 == y / 8 && y / 8 / 2 == y / 16;
    assert (16 * o + 1) / 2 == 8 * o;
  }

  /** The marks of eight nibbles, one digit each. */
  function Digits(y: nat, k: nat): nat {
    if k == 0 then 0 else y % 2 + 16 * Digits(y / 16, k - 1)
  }

  function Ones(k: nat): nat {
    if k == 0 then 0 else 1 + 16 * Ones(k - 1)
  }

  lemma {:induction false} AndOnes(y: nat, k: nat)
    ensures And(y, Ones(k)) == Digits(y, k)
  {
    if k > 0 {
      AndNibble(y, Ones(k - 1));
      AndOnes(y / 16, k - 1);
    }
  }

  /** Multiplying by 1 + 16 + .. + 16^7 adds all eight digits up in digit 7, with no carry from below. */
  lemma DigitSum(p0: nat, p1: nat, p2: nat, p3: nat, p4: nat, p5: nat, p6: nat, p7: nat)
    requires p0 <= 1 && p1 <= 1 && p2 <= 1 && p3 <= 1 && p4 <= 1 && p5 <= 1 && p6 <= 1 && p7 <= 1
    ensures
      var d := p0 + 16 * (p1 + 16 * (p2 + 16 * (p3 + 16 * (p4 + 16 * (p5 + 16 * (p6 + 16 * p7))))));
      d * 0x11111111 % 0x100000000 / 0x10000000 == p0 + p1 + p2 + p3 + p4 + p5 + p6 + p7
  {
    var d := p0 + 16 * (p1 + 16 * (p2 + 16 * (p3 + 16 * (p4 + 16 * (p5 + 16 * (p6 + 16 * p7))))));
    var low := 0x1111111 * p0 + 0x1111110 * p1 + 0x1111100 * p2 + 0x1111000 * p3 + 0x1110000 * p4 + 0x1100000 * p5 + 0x1000000 * p6;
    var sum := p0 + p1 + p2 + p3 + p4 + p5 + p6 + p7;
    var high := p1 + 0x11 * p2 + 0x111 * p3 + 0x1111 * p4 + 0x11111 * p5 + 0x111111 * p6 + 0x1111111 * p7;
    assert d * 0x11111111 == low + sum * 0x10000000 + high * 0x100000000;
    assert low < 0x10000000;
    TopDigit(low, sum, high);
  }

  lemma TopDigit(low: nat, sum: nat, high: nat)
    requires low < 0x10000000 && sum < 16
    ensures (low + sum * 0x10000000 + high * 0x100000000) % 0x100000000 / 0x10000000 == sum
  {
    var x := low + sum * 0x10000000;
    assert x < 0x100000000;
    DropHigh(x, high);
    assert x / 0x10000000 == sum;
  }

  lemma DropHigh(x: nat, high: nat)
    requires x < 0x100000000
    ensures (x + high * 0x100000000) % 0x100000000 == x
  {
    assert (x + high * 0x100000000) / 0x100000000 == high;
  }

  lemma DigitsAre(y: nat)
    ensures
      var p0, p1, p2, p3 := y % 2, y / 16 % 2, y / 0x100 % 2, y / 0x1000 % 2;
      var p4, p5, p6, p7 := y / 0x10000 % 2, y / 0x100000 % 2, y / 0x1000000 % 2, y / 0x10000000 % 2;
      && Digits(y, 8) == p0 + 16 * (p1 + 16 * (p2 + 16 * (p3 + 16 * (p4 + 16 * (p5 + 16 * (p6 + 16 * p7))))))
      && Marks(y, 8) == p0 + p1 + p2 + p3 + p4 + p5 + p6 + p7
  {
    var y1, y2, y3 := y / 16, y / 0x100, y / 0x1000;
    var y4, y5, y6, y7 := y / 0x10000, y / 0x100000, y / 0x1000000, y / 0x10000000;
    assert y1 / 16 == y2 && y2 / 16 == y3 && y3 / 16 == y4 && y4 / 16 == y5 && y5 / 16 == y6 && y6 / 16 == y7;
    DigitsStep(y7, 0);
    DigitsStep(y6, 1);
    DigitsStep(y5, 2);
    DigitsStep(y4, 3);
    DigitsStep(y3, 4);
    DigitsStep(y2, 5);
    DigitsStep(y1, 6);
    DigitsStep(y, 7);
    assert Digits(y7 / 16, 0) == 0 && Marks(y7 / 16, 0) == 0;
    hide Digits, Marks;
  }

  lemma DigitsStep(y: nat, k: nat)
    ensures Digits(y, k + 1) == y % 2 + 16 * Digits(y / 16, k) && Marks(y, k + 1) == y % 2 + Marks(y / 16, k)
  {
  }

  lemma MarksProduct(y: nat)
    ensures And(y, 0x11111111) * 0x11111111 % 0x100000000 / 0x10000000 == Marks(y, 8)
  {
    hide And, Digits, Marks, Ones;
    OnesAre();
    AndOnes(y, 8);
    DigitsAre(y);
    DigitSum(y % 2, y / 16 % 2, y / 0x100 % 2, y / 0x1000 % 2,
             y / 0x10000 % 2, y / 0x100000 % 2, y / 0x1000000 % 2, y / 0x10000000 % 2);
  }

  lemma OnesAre()
    ensures Ones(8) == 0x11111111 && Power16(8) == 0x100000000
  {
    assert Ones(2) == 0x11 && Ones(4) == 0x1111 && Ones(6) == 0x111111;
    assert Power16(2) == 0x100 && Power16(4) == 0x10000 && Power16(6) == 0x1000000;
  }

  /** The parity of a 32-bit word. */
  lemma ParityWordIs(x: nat)
    requires x < 0x100000000
    ensures ParityWord(x) == Low(Parity(x))
  {
    hide Xor, And, Folded, Marks, Parity, Power16;
    OnesAre();
    MarksProduct(Folded(x));
    MarksParity(x, 8);
  }
}
