// The COMPARE_<n>CHARS and COMPARE_<n>UCHARS macros: comparisons of packed machine words.
module KeywordPacked {
  import opened Common
  import opened KeywordCode

  // The preprocessor's cases: CPU(NEEDS_ALIGNED_ACCESS); CPU(BIG_ENDIAN); neither; CPU(X86_64).
  datatype Target = AlignedAccess | BigEndian | LittleEndian | X86_64

  // Bytes per unit: LChar or UChar.
  type Width = w: int | w == 1 || w == 2 witness 1

  const TWO_8: int := 0x100
  const TWO_16: int := 0x1_0000
  const TWO_32: int := 0x1_0000_0000
  const TWO_64: int := 0x1_0000_0000_0000_0000

  // ---------------------------------------------------------------- memory

  predicate Fits(input: Text, width: Width) {
    forall i | 0 <= i < |input| :: input[i] < if width == 1 then TWO_8 else TWO_16
  }

  // The byte at an address, counted from `code`.
  function Byte(input: Text, width: Width, big: bool, address: nat): nat
    requires address < width * |input|
  {
    if width == 1 then input[address]
    else if (address % 2 == 0) == big then input[address / 2] / TWO_8
    else input[address / 2] % TWO_8
  }

  // An unaligned load of n bytes.
  function Load(input: Text, width: Width, big: bool, address: nat, n: nat): nat
    requires address + n <= width * |input|
    decreases n
  {
    if n == 0 then 0
    else if big then Load(input, width, big, address, n - 1) * TWO_8 + Byte(input, width, big, address + n - 1)
    else Byte(input, width, big, address) + TWO_8 * Load(input, width, big, address + 1, n - 1)
  }

  // ---------------------------------------------------------------- word constants

  // The shifted operand is promoted to int, so nothing is lost; the sum is not cut to 16 bits.
  function CharPair(big: bool, a: nat, b: nat): nat {
    if big then (a % TWO_16) * TWO_8 + b % TWO_16 else (b % TWO_16) * TWO_8 + a % TWO_16
  }

  function CharQuad(a: nat, b: nat, c: nat, d: nat): nat {
    (CharPair(false, c, d) * TWO_16 % TWO_32 + CharPair(false, a, b)) % TWO_32
  }

  function UCharPair(big: bool, a: nat, b: nat): nat {
    if big then (a * TWO_16 % TWO_32 + b % TWO_32) % TWO_32 else (b * TWO_16 % TWO_32 + a % TWO_32) % TWO_32
  }

  function UCharQuad(a: nat, b: nat, c: nat, d: nat): nat {
    (UCharPair(false, c, d) * TWO_32 % TWO_64 + UCharPair(false, a, b)) % TWO_64
  }

  // ---------------------------------------------------------------- the macros

  predicate Compare2(target: Target, width: Width, input: Text, at: nat, a: nat, b: nat)
    requires at + 2 <= |input|
  {
    if target == AlignedAccess then input[at] == a && input[at + 1] == b
    else
      var big := target == BigEndian;
      Load(input, width, big, width * at, width * 2) == if width == 1 then CharPair(big, a, b) else UCharPair(big, a, b)
  }

  predicate Compare4(target: Target, width: Width, input: Text, at: nat, a: nat, b: nat, c: nat, d: nat)
    requires at + 4 <= |input|
  {
    if target == X86_64 then
      Load(input, width, false, width * at, width * 4) ==
      if width == 1 then CharQuad(a, b, c, d) else UCharQuad(a, b, c, d)
    else Compare2(target, width, input, at, a, b) && Compare2(target, width, input, at + 2, c, d)
  }

  // The macros stop at eight units; a longer edge does not compile.
  predicate HasMacro(test: Compare) {
    1 <= |test.units| <= 8
  }

  predicate PackedHolds(target: Target, width: Width, test: Compare, input: Text)
    requires HasMacro(test) && test.base + |test.units| <= |input|
  {
    var at, u := test.base, test.units;
    match |u|
    case 1 => input[at] == u[0]
    case 2 => Compare2(target, width, input, at, u[0], u[1])
    case 3 => Compare2(target, width, input, at, u[0], u[1]) && input[at + 2] == u[2]
    case 4 => Compare4(target, width, input, at, u[0], u[1], u[2], u[3])
    case 5 => Compare4(target, width, input, at, u[0], u[1], u[2], u[3]) && input[at + 4] == u[4]
    case 6 =>
      && Compare4(target, width, input, at, u[0], u[1], u[2], u[3])
      && Compare2(target, width, input, at + 4, u[4], u[5])
    case 7 =>
      && Compare4(target, width, input, at, u[0], u[1], u[2], u[3])
      && Compare4(target, width, input, at + 3, u[3], u[4], u[5], u[6])
    case _ =>
      && Compare4(target, width, input, at, u[0], u[1], u[2], u[3])
      && Compare4(target, width, input, at + 4, u[4], u[5], u[6], u[7])
  }

  // ---------------------------------------------------------------- words are units

  function Radix(width: Width): nat {
    if width == 1 then TWO_8 else TWO_16
  }

  lemma UnitBytes(input: Text, width: Width, big: bool, i: nat)
    requires i < |input| && width == 2
    ensures Byte(input, width, big, 2 * i) == if big then input[i] / TWO_8 else input[i] % TWO_8
    ensures Byte(input, width, big, 2 * i + 1) == if big then input[i] % TWO_8 else input[i] / TWO_8
  {
  }

  // A little-endian load starts with the first unit as its low digit.
  lemma LoadFirst(input: Text, width: Width, at: nat, n: nat)
    requires at + n + 1 <= |input|
    ensures Load(input, width, false, width * at, width * (n + 1)) ==
            input[at] + Radix(width) * Load(input, width, false, width * (at + 1), width * n)
  {
    if width == 2 {
      UnitBytes(input, width, false, at);
      var rest := Load(input, width, false, 2 * at + 2, 2 * n);
      assert Load(input, width, false, 2 * at + 1, 2 * n + 1) == Byte(input, width, false, 2 * at + 1) + TWO_8 * rest;
    }
  }

  // A big-endian load ends with the last unit as its low digit.
  lemma LoadLast(input: Text, width: Width, at: nat, n: nat)
    requires at + n + 1 <= |input|
    ensures Load(input, width, true, width * at, width * (n + 1)) ==
            Load(input, width, true, width * at, width * n) * Radix(width) + input[at + n]
  {
    if width == 2 {
      LoadLastPair(input, width, at, n, 2 * n);
    }
  }

  lemma LoadLastPair(input: Text, width: Width, at: nat, n: nat, m: nat)
    requires at + n + 1 <= |input| && width == 2 && m == 2 * n
    ensures Load(input, width, true, 2 * at, m + 2) ==
            Load(input, width, true, 2 * at, m) * TWO_16 + input[at + n]
  {
    var unit := input[at + n];
    UnitBytes(input, width, true, at + n);
    var rest := Load(input, width, true, 2 * at, m);
    assert Load(input, width, true, 2 * at, m + 1) == rest * TWO_8 + unit / TWO_8;
    assert Load(input, width, true, 2 * at, m + 2) == (rest * TWO_8 + unit / TWO_8) * TWO_8 + unit % TWO_8;
  }

  lemma LoadPair(input: Text, width: Width, big: bool, at: nat)
    requires at + 2 <= |input|
    ensures Load(input, width, big, width * at, width * 2) == Pair(width, big, input[at], input[at + 1])
  {
    if big {
      LoadLast(input, width, at, 1);
      LoadLast(input, width, at, 0);
    } else {
      LoadFirst(input, width, at, 1);
      LoadFirst(input, width, at + 1, 0);
    }
  }

  lemma LoadQuad(input: Text, width: Width, at: nat)
    requires at + 4 <= |input|
    ensures Load(input, width, false, width * at, width * 4) ==
            Digits(width, input[at], input[at + 1], input[at + 2], input[at + 3])
  {
    LoadFirst(input, width, at, 3);
    LoadFirst(input, width, at + 1, 2);
    LoadFirst(input, width, at + 2, 1);
    LoadFirst(input, width, at + 3, 0);
  }

  // ---------------------------------------------------------------- packed equals unit by unit

  predicate Ascii(units: Text) {
    forall i | 0 <= i < |units| :: units[i] < 0x80
  }

  lemma PairConstants(big: bool, a: nat, b: nat)
    requires a < 0x80 && b < 0x80
    ensures CharPair(big, a, b) == Pair(1, big, a, b)
    ensures UCharPair(big, a, b) == Pair(2, big, a, b)
  {
    assert a * TWO_16 % TWO_32 == a * TWO_16;
    assert b * TWO_16 % TWO_32 == b * TWO_16;
  }

  lemma NoWrap(x: nat, m: nat)
    requires x < m
    ensures x % m == x
  {
  }

  lemma CharQuadConstant(a: nat, b: nat, c: nat, d: nat)
    requires a < 0x80 && b < 0x80 && c < 0x80 && d < 0x80
    ensures CharQuad(a, b, c, d) == Digits(1, a, b, c, d)
  {
    PairConstants(false, a, b);
    PairConstants(false, c, d);
    var low, high := CharPair(false, a, b), CharPair(false, c, d);
    assert low == a + TWO_8 * b && high == c + TWO_8 * d;
    NoWrap(high * TWO_16, TWO_32);
    NoWrap(high * TWO_16 + low, TWO_32);
  }

  lemma UCharQuadConstant(a: nat, b: nat, c: nat, d: nat)
    requires a < 0x80 && b < 0x80 && c < 0x80 && d < 0x80
    ensures UCharQuad(a, b, c, d) == Digits(2, a, b, c, d)
  {
    PairConstants(false, a, b);
    PairConstants(false, c, d);
    var low, high := UCharPair(false, a, b), UCharPair(false, c, d);
    assert low == a + TWO_16 * b && high == c + TWO_16 * d;
    NoWrap(high * TWO_32, TWO_64);
    NoWrap(high * TWO_32 + low, TWO_64);
  }

  lemma LowDigit(width: Width, x: nat, more: nat, a: nat, more': nat)
    requires x < Radix(width) && a < Radix(width)
    ensures x + Radix(width) * more == a + Radix(width) * more' <==> x == a && more == more'
  {
  }

  function Pair(width: Width, big: bool, x: nat, y: nat): nat {
    if big then x * Radix(width) + y else x + Radix(width) * y
  }

  lemma TwoDigits(width: Width, big: bool, x: nat, y: nat, a: nat, b: nat)
    requires x < Radix(width) && y < Radix(width) && a < Radix(width) && b < Radix(width)
    ensures Pair(width, big, x, y) == Pair(width, big, a, b) <==> x == a && y == b
  {
    if big {
      LowDigit(width, y, x, b, a);
    } else {
      LowDigit(width, x, y, a, b);
    }
  }

  function Digits(width: Width, x0: nat, x1: nat, x2: nat, x3: nat): nat {
    x0 + Radix(width) * (x1 + Radix(width) * (x2 + Radix(width) * x3))
  }

  lemma FourDigits(width: Width, x0: nat, x1: nat, x2: nat, x3: nat, a: nat, b: nat, c: nat, d: nat)
    requires x0 < Radix(width) && x1 < Radix(width) && x2 < Radix(width)
    requires a < Radix(width) && b < Radix(width) && c < Radix(width)
    ensures Digits(width, x0, x1, x2, x3) == Digits(width, a, b, c, d) <==> x0 == a && x1 == b && x2 == c && x3 == d
  {
    var r := Radix(width);
    LowDigit(width, x2, x3, c, d);
    LowDigit(width, x1, x2 + r * x3, b, c + r * d);
    LowDigit(width, x0, x1 + r * (x2 + r * x3), a, b + r * (c + r * d));
  }

  lemma PairLaw(width: Width, big: bool, input: Text, at: nat, a: nat, b: nat)
    requires Fits(input, width) && at + 2 <= |input| && a < 0x80 && b < 0x80
    ensures Load(input, width, big, width * at, width * 2) ==
            (if width == 1 then CharPair(big, a, b) else UCharPair(big, a, b))
            <==> input[at] == a && input[at + 1] == b
  {
    LoadPair(input, width, big, at);
    PairConstants(big, a, b);
    TwoDigits(width, big, input[at], input[at + 1], a, b);
  }

  lemma Compare2Law(target: Target, width: Width, input: Text, at: nat, a: nat, b: nat)
    requires Fits(input, width) && at + 2 <= |input| && a < 0x80 && b < 0x80
    ensures Compare2(target, width, input, at, a, b) <==> input[at] == a && input[at + 1] == b
  {
    PairLaw(width, target == BigEndian, input, at, a, b);
  }

  predicate FourAgree(input: Text, at: nat, a: nat, b: nat, c: nat, d: nat)
    requires at + 4 <= |input|
  {
    input[at] == a && input[at + 1] == b && input[at + 2] == c && input[at + 3] == d
  }

  lemma Compare4Law(target: Target, width: Width, input: Text, at: nat, a: nat, b: nat, c: nat, d: nat)
    requires Fits(input, width) && at + 4 <= |input| && a < 0x80 && b < 0x80 && c < 0x80 && d < 0x80
    ensures Compare4(target, width, input, at, a, b, c, d) <==> FourAgree(input, at, a, b, c, d)
  {
    if target == X86_64 {
      LoadQuad(input, width, at);
      CharQuadConstant(a, b, c, d);
      UCharQuadConstant(a, b, c, d);
      FourDigits(width, input[at], input[at + 1], input[at + 2], input[at + 3], a, b, c, d);
    } else {
      Compare2Law(target, width, input, at, a, b);
      Compare2Law(target, width, input, at + 2, c, d);
    }
  }

  // Every macro decides what unit-by-unit comparison decides.
  lemma PackedLaw(target: Target, width: Width, test: Compare, input: Text)
    requires HasMacro(test) && Ascii(test.units) && Fits(input, width) && test.base + |test.units| <= |input|
    ensures PackedHolds(target, width, test, input) <==> Holds(test, input)
  {
    if |test.units| < 4 {
      ShortPackedLaw(target, width, test, input);
    } else {
      LongPackedLaw(target, width, test, input);
    }
    HoldsPointwise(test, input);
  }

  // The units stand in the input from `at` on.
  ghost predicate Agree(input: Text, at: nat, units: Text)
    requires at + |units| <= |input|
  {
    forall i | 0 <= i < |units| :: input[at + i] == units[i]
  }

  lemma ShortPackedLaw(target: Target, width: Width, test: Compare, input: Text)
    requires 1 <= |test.units| < 4 && Ascii(test.units) && Fits(input, width) && test.base + |test.units| <= |input|
    ensures PackedHolds(target, width, test, input) <==> Agree(input, test.base, test.units)
  {
    var at, u := test.base, test.units;
    if |u| >= 2 {
      Compare2Law(target, width, input, at, u[0], u[1]);
    }
  }

  lemma LongPackedLaw(target: Target, width: Width, test: Compare, input: Text)
    requires 4 <= |test.units| <= 8 && Ascii(test.units) && Fits(input, width) && test.base + |test.units| <= |input|
    ensures PackedHolds(target, width, test, input) <==> Agree(input, test.base, test.units)
  {
    if |test.units| <= 6 {
      UpToSixUnits(target, width, test, input);
    } else if |test.units| == 7 {
      SevenUnits(target, width, test, input);
    } else {
      EightUnits(target, width, test, input);
    }
  }

  lemma UpToSixUnits(target: Target, width: Width, test: Compare, input: Text)
    requires 4 <= |test.units| <= 6 && Ascii(test.units) && Fits(input, width) && test.base + |test.units| <= |input|
    ensures PackedHolds(target, width, test, input) <==> Agree(input, test.base, test.units)
  {
    var at, u := test.base, test.units;
    Compare4Law(target, width, input, at, u[0], u[1], u[2], u[3]);
    if |u| == 6 {
      Compare2Law(target, width, input, at + 4, u[4], u[5]);
    }
  }

  lemma SevenAgree(input: Text, at: nat, u: Text)
    requires |u| == 7 && at + 7 <= |input|
    ensures FourAgree(input, at, u[0], u[1], u[2], u[3]) && FourAgree(input, at + 3, u[3], u[4], u[5], u[6]) <==>
            Agree(input, at, u)
  {
  }

  lemma EightAgree(input: Text, at: nat, u: Text)
    requires |u| == 8 && at + 8 <= |input|
    ensures FourAgree(input, at, u[0], u[1], u[2], u[3]) && FourAgree(input, at + 4, u[4], u[5], u[6], u[7]) <==>
            Agree(input, at, u)
  {
  }

  // The two words overlap in the fourth unit.
  lemma SevenUnits(target: Target, width: Width, test: Compare, input: Text)
    requires |test.units| == 7 && Ascii(test.units) && Fits(input, width) && test.base + 7 <= |input|
    ensures PackedHolds(target, width, test, input) <==> Agree(input, test.base, test.units)
  {
    var at, u := test.base, test.units;
    Compare4Law(target, width, input, at, u[0], u[1], u[2], u[3]);
    Compare4Law(target, width, input, at + 3, u[3], u[4], u[5], u[6]);
    SevenAgree(input, at, u);
  }

  lemma EightUnits(target: Target, width: Width, test: Compare, input: Text)
    requires |test.units| == 8 && Ascii(test.units) && Fits(input, width) && test.base + 8 <= |input|
    ensures PackedHolds(target, width, test, input) <==> Agree(input, test.base, test.units)
  {
    var at, u := test.base, test.units;
    Compare4Law(target, width, input, at, u[0], u[1], u[2], u[3]);
    Compare4Law(target, width, input, at + 4, u[4], u[5], u[6], u[7]);
    EightAgree(input, at, u);
  }

  lemma HoldsPointwise(test: Compare, input: Text)
    requires test.base + |test.units| <= |input|
    ensures Holds(test, input) <==> forall i | 0 <= i < |test.units| :: input[test.base + i] == test.units[i]
  {
    var w := input[test.base..test.base + |test.units|];
    assert forall i | 0 <= i < |w| :: w[i] == input[test.base + i];
  }
}
