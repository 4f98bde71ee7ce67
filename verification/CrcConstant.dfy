// The number that a register of ones becomes after 32 zero bits, complemented: 0x2144DF1C.
module CrcConstant {
  import opened CrcBits
  import opened Crc

  // Four coefficients: a hexadecimal digit, least significant bit first.
  datatype Nibble = Nibble(a: bool, b: bool, c: bool, d: bool)

  const HEX_0: Nibble := Nibble(false, false, false, false)
  const HEX_1: Nibble := Nibble(true, false, false, false)
  const HEX_2: Nibble := Nibble(false, true, false, false)
  const HEX_3: Nibble := Nibble(true, true, false, false)
  const HEX_4: Nibble := Nibble(false, false, true, false)
  const HEX_5: Nibble := Nibble(true, false, true, false)
  const HEX_6: Nibble := Nibble(false, true, true, false)
  const HEX_7: Nibble := Nibble(true, true, true, false)
  const HEX_8: Nibble := Nibble(false, false, false, true)
  const HEX_9: Nibble := Nibble(true, false, false, true)
  const HEX_A: Nibble := Nibble(false, true, false, true)
  const HEX_B: Nibble := Nibble(true, true, false, true)
  const HEX_C: Nibble := Nibble(false, false, true, true)
  const HEX_D: Nibble := Nibble(true, false, true, true)
  const HEX_E: Nibble := Nibble(false, true, true, true)
  const HEX_F: Nibble := Nibble(true, true, true, true)

  // A word's digits, least significant first.
  datatype Register =
    Register(n0: Nibble, n1: Nibble, n2: Nibble, n3: Nibble, n4: Nibble, n5: Nibble, n6: Nibble, n7: Nibble)

  function Four(n: Nibble): (p: Poly)
    ensures |p| == 4
  {
    [n.a, n.b, n.c, n.d]
  }

  function Coefficients(r: Register): (p: Poly)
    ensures |p| == 32
  {
    Four(r.n0) + (Four(r.n1) + (Four(r.n2) + (Four(r.n3) + (Four(r.n4) + (Four(r.n5) + (Four(r.n6) + Four(r.n7)))))))
  }

  // One digit of a shifted register: moved up by one, plus the generator's digit when a
  // coefficient left at the top.
  function Mix(n: Nibble, next: bool, low: Nibble, top: bool): Nibble {
    Nibble(n.b != (top && low.a), n.c != (top && low.b), n.d != (top && low.c), next != (top && low.d))
  }

  function ShiftZero(r: Register): Register {
    var top := r.n0.a;
    Register(Mix(r.n0, r.n1.a, HEX_0, top), Mix(r.n1, r.n2.a, HEX_2, top), Mix(r.n2, r.n3.a, HEX_3, top),
             Mix(r.n3, r.n4.a, HEX_8, top), Mix(r.n4, r.n5.a, HEX_8, top), Mix(r.n5, r.n6.a, HEX_B, top),
             Mix(r.n6, r.n7.a, HEX_D, top), Mix(r.n7, false, HEX_E, top))
  }

  function ShiftZeros(r: Register, n: nat): Register
    decreases n, r
  {
    if n == 0 then r else ShiftZeros(ShiftZero(r), n - 1)
  }

  // ---------------------------------------------------------------- digits shift as coefficients do

  function Shifted(p: Poly, low: Poly, top: bool): Poly
    requires |p| == |low| > 0
  {
    Add(p[1..] + [false], Scale(top, low))
  }

  lemma AddConcat(a: Poly, b: Poly, c: Poly, d: Poly)
    requires |a| == |c| && |b| == |d|
    ensures Add(a + b, c + d) == Add(a, c) + Add(b, d)
  {
  }

  lemma ScaleConcat(top: bool, p: Poly, q: Poly)
    ensures Scale(top, p + q) == Scale(top, p) + Scale(top, q)
  {
  }

  lemma MoveUp(n: Nibble, rest: Poly)
    requires rest != []
    ensures (Four(n) + rest)[1..] + [false] == [n.b, n.c, n.d, rest[0]] + (rest[1..] + [false])
  {
  }

  lemma AddDigit(n: Nibble, next: bool, l: Nibble, top: bool)
    ensures Add([n.b, n.c, n.d, next], Scale(top, Four(l))) == Four(Mix(n, next, l, top))
  {
  }

  lemma ShiftDigit(n: Nibble, rest: Poly, l: Nibble, low: Poly, top: bool)
    requires |rest| == |low| > 0
    ensures Shifted(Four(n) + rest, Four(l) + low, top) == Four(Mix(n, rest[0], l, top)) + Shifted(rest, low, top)
  {
    MoveUp(n, rest);
    ScaleConcat(top, Four(l), low);
    AddConcat([n.b, n.c, n.d, rest[0]], rest[1..] + [false], Scale(top, Four(l)), Scale(top, low));
    AddDigit(n, rest[0], l, top);
  }

  lemma ShiftLastDigit(n: Nibble, l: Nibble, top: bool)
    ensures Shifted(Four(n), Four(l), top) == Four(Mix(n, false, l, top))
  {
    AddDigit(n, false, l, top);
    assert Four(n)[1..] + [false] == [n.b, n.c, n.d, false];
  }

  lemma ShiftZeroIsShift(r: Register)
    ensures Coefficients(ShiftZero(r)) == Shift(Coefficients(r), false)
  {
    var top := r.n0.a;
    var r7, l7 := Four(r.n7), Four(HEX_E);
    var r6, l6 := Four(r.n6) + r7, Four(HEX_D) + l7;
    var r5, l5 := Four(r.n5) + r6, Four(HEX_B) + l6;
    var r4, l4 := Four(r.n4) + r5, Four(HEX_8) + l5;
    var r3, l3 := Four(r.n3) + r4, Four(HEX_8) + l4;
    var r2, l2 := Four(r.n2) + r3, Four(HEX_3) + l3;
    var r1, l1 := Four(r.n1) + r2, Four(HEX_2) + l2;
    ShiftDigit(r.n0, r1, HEX_0, l1, top);
    ShiftDigit(r.n1, r2, HEX_2, l2, top);
    ShiftDigit(r.n2, r3, HEX_3, l3, top);
    ShiftDigit(r.n3, r4, HEX_8, l4, top);
    ShiftDigit(r.n4, r5, HEX_8, l5, top);
    ShiftDigit(r.n5, r6, HEX_B, l6, top);
    ShiftDigit(r.n6, r7, HEX_D, l7, top);
    ShiftLastDigit(r.n7, HEX_E, top);
    assert LOW == Four(HEX_0) + l1;
  }

  lemma {:induction false} ShiftZerosAreFeed(r: Register, n: nat)
    ensures Coefficients(ShiftZeros(r, n)) == Feed(Coefficients(r), Zeros(n))
    decreases n
  {
    if n > 0 {
      ShiftZeroIsShift(r);
      ShiftZerosAreFeed(ShiftZero(r), n - 1);
      assert Zeros(n)[1..] == Zeros(n - 1);
    }
  }

  // ---------------------------------------------------------------- 32 steps

  // 0xFFFFFFFF
  const R0: Register := Register(HEX_F, HEX_F, HEX_F, HEX_F, HEX_F, HEX_F, HEX_F, HEX_F)

  // 0x2DFD1072
  const R1: Register := Register(HEX_2, HEX_7, HEX_0, HEX_1, HEX_D, HEX_F, HEX_D, HEX_2)

  // 0xBE26ED00
  const R2: Register := Register(HEX_0, HEX_0, HEX_D, HEX_E, HEX_6, HEX_2, HEX_E, HEX_B)

  // 0x00BE26ED
  const R3: Register := Register(HEX_D, HEX_E, HEX_6, HEX_2, HEX_E, HEX_B, HEX_0, HEX_0)

  // 0xDEBB20E3
  const R4: Register := Register(HEX_3, HEX_E, HEX_0, HEX_2, HEX_B, HEX_B, HEX_E, HEX_D)

  lemma FirstByte()
    ensures ShiftZeros(R0, 8) == R1
  {
  }

  lemma SecondByte()
    ensures ShiftZeros(R1, 8) == R2
  {
  }

  lemma ThirdByte()
    ensures ShiftZeros(R2, 8) == R3
  {
  }

  lemma FourthByte()
    ensures ShiftZeros(R3, 8) == R4
  {
  }

  // Zeros fed so far, and n more.
  lemma Onward(m: nat, r: Register, n: nat, s: Register)
    requires Feed(Ones(32), Zeros(m)) == Coefficients(r) && ShiftZeros(r, n) == s
    ensures Feed(Ones(32), Zeros(m + n)) == Coefficients(s)
  {
    ShiftZerosAreFeed(r, n);
    FeedConcat(Ones(32), Zeros(m), Zeros(n));
    assert Zeros(m) + Zeros(n) == Zeros(m + n);
  }

  // A byte's length is a parameter here, so that runs of it are not computed out.
  lemma AllBytes(byte: nat)
    requires byte == 8
    ensures Feed(Ones(32), Zeros(4 * byte)) == Coefficients(R4)
  {
    FirstByte();
    SecondByte();
    ThirdByte();
    FourthByte();
    assert Coefficients(R0) == Ones(32);
    Onward(0, R0, byte, R1);
    Onward(byte, R1, byte, R2);
    Onward(2 * byte, R2, byte, R3);
    Onward(3 * byte, R3, byte, R4);
  }

  // ---------------------------------------------------------------- as a number

  function DigitValue(n: Nibble): nat {
    Digit(n.a) + 2 * Digit(n.b) + 4 * Digit(n.c) + 8 * Digit(n.d)
  }

  function WordValue(r: Register): nat {
    DigitValue(r.n0) + 16 * (DigitValue(r.n1) + 16 * (DigitValue(r.n2) + 16 * (DigitValue(r.n3) +
    16 * (DigitValue(r.n4) + 16 * (DigitValue(r.n5) + 16 * (DigitValue(r.n6) + 16 * DigitValue(r.n7)))))))
  }

  lemma DigitThen(n: Nibble, rest: Poly)
    ensures Value(Four(n) + rest) == DigitValue(n) + 16 * Value(rest)
  {
    ValueNibble(n.a, n.b, n.c, n.d, rest);
  }

  lemma RegisterValue(r: Register)
    ensures Value(Coefficients(r)) == WordValue(r)
  {
    var tail7 := Four(r.n7);
    var tail6 := Four(r.n6) + tail7;
    var tail5 := Four(r.n5) + tail6;
    var tail4 := Four(r.n4) + tail5;
    var tail3 := Four(r.n3) + tail4;
    var tail2 := Four(r.n2) + tail3;
    assert tail7 == tail7 + [];
    DigitThen(r.n7, []);
    DigitThen(r.n6, tail7);
    DigitThen(r.n5, tail6);
    DigitThen(r.n4, tail5);
    DigitThen(r.n3, tail4);
    DigitThen(r.n2, tail3);
    DigitThen(r.n1, tail2);
    DigitThen(r.n0, Four(r.n1) + tail2);
  }

  lemma RegisterBits(r: Register, w: Word)
    requires WordValue(r) == w
    ensures WordBits(w) == Coefficients(r)
  {
    RegisterValue(r);
    BitsOfValue(Coefficients(r));
    WordBitsAre(w);
  }

  // 0x2144DF1C
  const RESIDUE_DIGITS: Register := Register(HEX_C, HEX_1, HEX_F, HEX_D, HEX_4, HEX_4, HEX_1, HEX_2)

  lemma ComplementDigits()
    ensures Not(Coefficients(R4)) == Coefficients(RESIDUE_DIGITS)
  {
  }

  lemma ResidueBits()
    ensures WordBits(0x2144DF1C) == Not(Feed(Ones(32), Zeros(32)))
  {
    AllBytes(8);
    ComplementDigits();
    RegisterBits(RESIDUE_DIGITS, 0x2144DF1C);
  }
}
