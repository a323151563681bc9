/** What the CRC arithmetic comes to bit by bit: the table-driven update is division by the generator polynomial one bit
    at a time, and combining rotates.
 */
module CrcBits {
  import opened Bits
  import opened Crc

  /** Bit `i` of a word, counted from the lowest. */
  function Bit(x: nat, i: nat): (b: bit)
    decreases i
  {
    if i == 0 then x % 2 else Bit(x / 2, i - 1)
  }

  lemma {:induction false} BitsDecide(a: nat, b: nat, n: nat)
    requires a < Pow2(n) && b < Pow2(n) && forall i: nat :: i < n ==> Bit(a, i) == Bit(b, i)
    ensures a == b
  {
    if n > 0 {
      forall i: nat | i < n - 1 ensures Bit(a / 2, i) == Bit(b / 2, i) {
        assert Bit(a, i + 1) == Bit(a / 2, i) && Bit(b, i + 1) == Bit(b / 2, i);
      }
      BitsDecide(a / 2, b / 2, n - 1);
      assert Bit(a, 0) == a % 2 && Bit(b, 0) == b % 2;
    }
  }

  lemma WordsDecide(a: word, b: word)
    requires forall i: nat :: i < 32 ==> Bit(a, i) == Bit(b, i)
    ensures a == b
  {
    var n := 32;
    Pow2Words(n);
    BitsDecide(a, b, n);
  }

  lemma XorStep(a: nat, b: nat)
    ensures Xor(a, b) % 2 == (a % 2 + b % 2) % 2 && Xor(a, b) / 2 == Xor(a / 2, b / 2)
  {
    if a != 0 && b != 0 {
      var x, r := Xor(a / 2, b / 2), (a % 2 + b % 2) % 2;
      assert Xor(a, b) == 2 * x + r;
      TwoParts(x, r);
    }
  }

  lemma TwoParts(x: nat, r: nat)
    requires r < 2
    ensures (2 * x + r) / 2 == x && (2 * x + r) % 2 == r
  {
  }

  lemma {:induction false} XorBit(a: nat, b: nat, i: nat)
    ensures Bit(Xor(a, b), i) == (Bit(a, i) + Bit(b, i)) % 2
    decreases i
  {
    hide Xor;
    XorStep(a, b);
    if i > 0 { XorBit(a / 2, b / 2, i - 1); }
  }

  lemma XorWordsBit(a: word, b: word, i: nat)
    ensures Bit(XorWords(a, b), i) == (Bit(a, i) + Bit(b, i)) % 2
  {
    XorBit(a, b, i);
  }

  /** The bits of a sum that has no carry. */
  lemma {:induction false} BitOfParts(hi: nat, lo: nat, n: nat, i: nat)
    requires lo < Pow2(n)
    ensures Bit(hi * Pow2(n) + lo, i) == if i < n then Bit(lo, i) else Bit(hi, i - n)
    decreases n
  {
    hide Bit, Pow2;
    if n > 0 {
      var p := Pow2(n - 1);
      Pow2Next(n - 1);
      MulAssoc(hi, p, 2);
      BitHalves(hi * p, lo, i);
      if i > 0 { BitOfParts(hi, lo / 2, n - 1, i - 1); }
    } else {
      ZeroPower();
    }
  }

  lemma ZeroPower()
    ensures Pow2(0) == 1
  {
  }

  /** The bits of a sum of an even number and another one. */
  lemma BitHalves(x: nat, lo: nat, i: nat)
    ensures Bit(2 * x + lo, i) == if i == 0 then Bit(lo, 0) else Bit(x + lo / 2, i - 1)
    ensures i > 0 ==> Bit(lo, i) == Bit(lo / 2, i - 1)
  {
    assert (2 * x + lo) / 2 == x + lo / 2 && (2 * x + lo) % 2 == lo % 2;
  }

  lemma {:induction false} BitAbove(x: nat, n: nat, i: nat)
    requires x < Pow2(n) && n <= i
    ensures Bit(x, i) == 0
    decreases i
  {
    if i > 0 {
      if n > 0 { BitAbove(x / 2, n - 1, i - 1); } else { BitAbove(0, 0, i - 1); }
    }
  }

  /** Bit 31 is the sign of a word, and shifting drops it. */
  lemma Doubled(c: word, i: nat)
    requires i < 32
    ensures Bit((c * 2) % U32, i) == if i == 0 then 0 else Bit(c, i - 1)
    ensures Bit(c, 31) == if c >= 0x8000_0000 then 1 else 0
  {
    hide Bit, Pow2;
    var top, lo, n := c / 0x8000_0000, c % 0x8000_0000, 31;
    HalfWord(n);
    BitOfParts(top, lo, n, 31);
    assert c == top * 0x8000_0000 + lo && (c * 2) % U32 == 2 * lo;
    LowestBit(top);
    BitHalves(lo, 0, i);
    LowestBit(0);
    if i > 0 { BitOfParts(top, lo, n, i - 1); }
  }

  lemma LowestBit(x: nat)
    requires x < 2
    ensures Bit(x, 0) == x
  {
  }

  lemma HalfWord(n: nat)
    requires n == 31
    ensures Pow2(n) == 0x8000_0000
  {
    var m := 32;
    Pow2Words(m);
  }

  // ----- combining -----

  lemma Rotated(c: word, i: nat)
    requires i < 32
    ensures Bit((c * 2) % U32 + c / 0x8000_0000, i) == Bit(c, (i + 31) % 32)
  {
    var top, lo, n := c / 0x8000_0000, c % 0x8000_0000, 31;
    HalfWord(n);
    assert c == top * 0x8000_0000 + lo && (c * 2) % U32 == 2 * lo;
    TwoParts(lo, top);
    if i == 0 { BitOfParts(top, lo, n, 31); } else { BitOfParts(top, lo, n, i - 1); }
  }

  /** Combining rotates the stream's CRC left by one and adds the block's without carry. */
  lemma CombineRotates(combined: word, block: word, i: nat)
    requires i < 32
    ensures Bit(Combine(combined, block), i) == (Bit(combined, (i + 31) % 32) + Bit(block, i)) % 2
  {
    hide Bit, XorWords;
    XorWordsBit((combined * 2) % U32 + combined / 0x8000_0000, block, i);
    Rotated(combined, i);
  }

  // ----- division one bit at a time -----

  const POLYNOMIAL: word := 0x04C1_1DB7

  /** One step of the division: shift, and subtract the polynomial when a one comes out at the top. */
  function Step(c: word): word {
    if c >= 0x8000_0000 then XorWords((c * 2) % U32, POLYNOMIAL) else (c * 2) % U32
  }

  function Steps(c: word, k: nat): word
    decreases k
  {
    if k == 0 then c else Steps(Step(c), k - 1)
  }

  /** Feed a byte by dividing it in, bit by bit. */
  function Divided(crc: word, b: byte): word {
    Steps(XorWords(crc, b * 0x100_0000), 8)
  }

  lemma StepBit(c: word, i: nat)
    requires i < 32
    ensures Bit(Step(c), i) == ((if i == 0 then 0 else Bit(c, i - 1)) + Bit(c, 31) * Bit(POLYNOMIAL, i)) % 2
  {
    hide Bit, XorWords, Step;
    Doubled(c, i);
    StepCases(c);
    XorWordsBit((c * 2) % U32, POLYNOMIAL, i);
    BitTimes(Bit(c, 31), Bit(POLYNOMIAL, i));
  }

  lemma StepCases(c: word)
    ensures Step(c) == if c >= 0x8000_0000 then XorWords((c * 2) % U32, POLYNOMIAL) else (c * 2) % U32
  {
  }

  lemma BitTimes(a: bit, b: bit)
    ensures a * b == if a == 1 then b else 0
  {
  }

  lemma StepAdds(a: word, b: word)
    ensures Step(XorWords(a, b)) == XorWords(Step(a), Step(b))
  {
    hide Step, XorWords, Bit;
    forall i: nat | i < 32 ensures Bit(Step(XorWords(a, b)), i) == Bit(XorWords(Step(a), Step(b)), i) {
      StepBit(XorWords(a, b), i);
      StepBit(a, i);
      StepBit(b, i);
      XorWordsBit(Step(a), Step(b), i);
      XorWordsBit(a, b, 31);
      if i > 0 { XorWordsBit(a, b, i - 1); }
      var p, x, y := Bit(POLYNOMIAL, i), Bit(a, 31), Bit(b, 31);
      assert p == 0 || p == 1;
    }
    WordsDecide(Step(XorWords(a, b)), XorWords(Step(a), Step(b)));
  }

  lemma {:induction false} StepsAdd(a: word, b: word, k: nat)
    ensures Steps(XorWords(a, b), k) == XorWords(Steps(a, k), Steps(b, k))
    decreases k
  {
    hide Step, XorWords;
    if k > 0 {
      StepAdds(a, b);
      StepsAdd(Step(a), Step(b), k - 1);
    }
  }

  lemma {:induction false} TableStepIsSteps(c: word, k: nat)
    ensures TableStep(c, k) == Steps(c, k)
    decreases k
  {
    hide XorWords;
    if k > 0 { TableStepIsSteps(Step(c), k - 1); }
  }

  /** As long as nothing comes out at the top, stepping is shifting. */
  lemma {:induction false} StepsShift(lo: word, k: nat)
    requires lo * Pow2(k) < U32
    ensures Steps(lo, k) == lo * Pow2(k)
    decreases k
  {
    hide XorWords, Pow2, Steps;
    if k > 0 {
      var p := Pow2(k - 1);
      Pow2Next(k - 1);
      MulAssoc(lo, 2, p);
      assert lo * Pow2(k) == 2 * lo * p;
      MulMono(1, p, 2 * lo);
      StepsShift(2 * lo, k - 1);
      FirstStep(lo, k);
    } else {
      ZeroPower();
      NoSteps(lo);
    }
  }

  lemma FirstStep(lo: word, k: nat)
    requires k > 0 && 2 * lo < U32
    ensures Steps(lo, k) == Steps(2 * lo, k - 1)
  {
    hide XorWords;
  }

  lemma NoSteps(lo: word)
    ensures Steps(lo, 0) == lo
  {
  }

  lemma BitOfTop(hi: nat, lo: nat, b: nat, i: nat)
    requires lo < 0x100_0000
    ensures (Bit(hi * 0x100_0000 + lo, i) + Bit(b * 0x100_0000, i)) % 2
      == (Bit(lo, i) + Bit(Xor(hi, b) * 0x100_0000, i)) % 2
  {
    hide Bit, Xor, Pow2;
    var n := 24;
    Pow2Words(n);
    BitOfParts(hi, lo, n, i);
    BitOfParts(b, 0, n, i);
    BitOfParts(Xor(hi, b), 0, n, i);
    ZeroPower();
    BitAbove(0, 0, i);
    if i >= 24 {
      XorBit(hi, b, i - 24);
      BitAbove(lo, n, i);
    }
  }

  /** A word's top byte and the rest, with a byte added to the top. */
  lemma TopAndRest(crc: word, b: byte)
    ensures var hi, lo := crc / 0x100_0000, crc % 0x100_0000;
      Xor(hi, b) < 256 && XorWords(crc, b * 0x100_0000) == XorWords(lo, Xor(hi, b) * 0x100_0000)
  {
    hide Bit, Xor, Pow2, XorWords;
    var hi, lo, eight := crc / 0x100_0000, crc % 0x100_0000, 8;
    Pow2Words(eight);
    XorBound(hi, b, eight);
    var x := Xor(hi, b);
    forall i: nat | i < 32
      ensures Bit(XorWords(crc, b * 0x100_0000), i) == Bit(XorWords(lo, x * 0x100_0000), i)
    {
      XorWordsBit(crc, b * 0x100_0000, i);
      XorWordsBit(lo, x * 0x100_0000, i);
      BitOfTop(hi, lo, b, i);
    }
    WordsDecide(XorWords(crc, b * 0x100_0000), XorWords(lo, x * 0x100_0000));
  }

  /** The table lookup does what dividing the byte in bit by bit does. */
  lemma UpdateDivides(crc: word, b: byte)
    ensures Update(crc, b) == Divided(crc, b)
  {
    hide XorWords, Steps, TableStep, Xor;
    var hi, lo := crc / 0x100_0000, crc % 0x100_0000;
    TopAndRest(crc, b);
    var x := Xor(hi, b);
    StepsAdd(lo, x * 0x100_0000, 8);
    var eight := 8;
    Pow2Words(eight);
    StepsShift(lo, eight);
    TableStepIsSteps(x * 0x100_0000, 8);
    assert (crc * 256) % U32 == lo * 256;
  }

  // ----- the whole checksum -----

  function DividedAll(crc: word, data: seq<byte>): word
    decreases |data|
  {
    if data == [] then crc else DividedAll(Divided(crc, data[0]), data[1..])
  }

  lemma {:induction false} FoldDivides(crc: word, data: seq<byte>)
    ensures Fold(crc, data) == DividedAll(crc, data)
    decreases |data|
  {
    hide Divided, Update;
    if data != [] {
      UpdateDivides(crc, data[0]);
      FoldDivides(Update(crc, data[0]), data[1..]);
    }
  }

  /** The checksum of a block is the remainder of the long division, begun with all ones and complemented. */
  lemma ChecksumDivides(data: seq<byte>)
    ensures Checksum(data) == 0xFFFF_FFFF - DividedAll(0xFFFF_FFFF, data)
  {
    hide Fold, DividedAll;
    FoldDivides(INIT, data);
  }
}
