// CyclicRedundancyCheck.cpp: the table-driven CRC-32 on 32-bit words.
module Crc {
  import opened CrcBits

  type Byte = b: nat | b < 0x100
  type Word = w: nat | w < 0x1_0000_0000
  type Buffer = seq<Byte>

  // ---------------------------------------------------------------- unsigned words and their bits

  function Pow2(n: nat): (r: nat)
    ensures r > 0
  {
    if n == 0 then 1 else 2 * Pow2(n - 1)
  }

  // The low k bits of n, least significant first.
  function Bits(n: nat, k: nat): (r: Poly)
    ensures |r| == k
    decreases k, n
  {
    if k == 0 then [] else [n % 2 == 1] + Bits(n / 2, k - 1)
  }

  function Value(p: Poly): nat {
    if p == [] then 0 else (if p[0] then 1 else 0) + 2 * Value(p[1..])
  }

  lemma {:induction false} BitsOfValue(p: Poly)
    ensures Bits(Value(p), |p|) == p && Value(p) < Pow2(|p|)
    decreases |p|
  {
    if p != [] {
      BitsOfValue(p[1..]);
    }
  }

  lemma {:induction false} ValueOfBits(n: nat, k: nat)
    requires n < Pow2(k)
    ensures Value(Bits(n, k)) == n
    decreases k
  {
    if k > 0 {
      ValueOfBits(n / 2, k - 1);
      assert Bits(n, k)[1..] == Bits(n / 2, k - 1);
    }
  }

  lemma {:induction false} BitsAbove(n: nat, k: nat, more: nat)
    requires n < Pow2(k)
    ensures Bits(n, k + more) == Bits(n, k) + Zeros(more)
    decreases k, more
  {
    if k > 0 {
      BitsAbove(n / 2, k - 1, more);
    } else if more > 0 {
      BitsAbove(n, k, more - 1);
      assert Zeros(more) == [false] + Zeros(more - 1);
    }
  }

  lemma {:induction false} Pow2Add(m: nat, n: nat)
    ensures Pow2(m + n) == Pow2(m) * Pow2(n)
    decreases m
  {
    if m > 0 {
      Pow2Add(m - 1, n);
    }
  }

  lemma Pow2Word()
    ensures Pow2(8) == 0x100 && Pow2(24) == 0x100_0000 && Pow2(31) == 0x8000_0000 && Pow2(32) == 0x1_0000_0000
  {
    assert Pow2(4) == 0x10;
    Pow2Add(4, 4);
    Pow2Add(8, 8);
    Pow2Add(8, 16);
    Pow2Add(16, 16);
  }

  function Bit(n: nat, i: nat): bool
    decreases i, n
  {
    if i == 0 then n % 2 == 1 else Bit(n / 2, i - 1)
  }

  lemma {:induction false} BitsAt(n: nat, k: nat, i: nat)
    requires i < k
    ensures Bits(n, k)[i] == Bit(n, i)
    decreases i
  {
    if i > 0 {
      BitsAt(n / 2, k - 1, i - 1);
    }
  }

  // A register's coefficients from x^31 down.
  function WordBits(w: Word): (r: Poly)
    ensures |r| == 32
  {
    seq(32, i requires 0 <= i < 32 => Bit(w, i))
  }

  lemma WordBitsAre(w: Word)
    ensures WordBits(w) == Bits(w, 32)
  {
    forall i | 0 <= i < 32 ensures Bits(w, 32)[i] == Bit(w, i) {
      BitsAt(w, 32, i);
    }
  }

  function ToWord(p: Poly): Word
    requires |p| == 32
  {
    BitsOfValue(p);
    Pow2Word();
    Value(p)
  }

  // The ^ operator.
  function Xor(a: Word, b: Word): Word {
    ToWord(Add(WordBits(a), WordBits(b)))
  }

  lemma XorBits(a: Word, b: Word)
    ensures WordBits(Xor(a, b)) == Add(WordBits(a), WordBits(b))
  {
    BitsOfValue(Add(WordBits(a), WordBits(b)));
    WordBitsAre(Xor(a, b));
  }

  lemma WordOfBits(w: Word)
    ensures ToWord(WordBits(w)) == w
  {
    Pow2Word();
    WordBitsAre(w);
    ValueOfBits(w, 32);
  }

  // Words with the same bits are equal.
  lemma SameBits(v: Word, w: Word)
    requires WordBits(v) == WordBits(w)
    ensures v == w
  {
    WordOfBits(v);
    WordOfBits(w);
  }

  lemma HalfBits(w: Word)
    ensures WordBits(w / 2) == WordBits(w)[1..] + [false]
  {
    Pow2Word();
    BitsAbove(w / 2, 31, 1);
    WordBitsAre(w);
    WordBitsAre(w / 2);
    assert WordBits(w)[1..] == Bits(w / 2, 31);
    assert Zeros(1) == [false];
  }

  // ---------------------------------------------------------------- the code's step

  // One pass of makeCrcTable's inner loop; -306674912 is 0xEDB88320 as unsigned.
  function Step(c: Word): Word {
    if c % 2 == 1 then Xor(0xEDB88320, c / 2) else c / 2
  }

  function Steps(c: Word, n: nat): Word
    decreases n, c
  {
    if n == 0 then c else Steps(Step(c), n - 1)
  }

  // Eight single-bit steps for each byte: what the table-driven loop must equal.
  function Run(c: Word, buffer: Buffer): Word
    decreases |buffer|
  {
    if buffer == [] then c else Run(Steps(Xor(c, buffer[0]), 8), buffer[1..])
  }

  function CrcOf(buffer: Buffer): Word {
    Xor(Run(0xffffffff, buffer), 0xffffffff)
  }

  // ---------------------------------------------------------------- steps are shifts

  function Digit(b: bool): nat {
    if b then 1 else 0
  }

  lemma ValueNibble(a: bool, b: bool, c: bool, d: bool, rest: Poly)
    ensures Value([a, b, c, d] + rest) == Digit(a) + 2 * Digit(b) + 4 * Digit(c) + 8 * Digit(d) + 16 * Value(rest)
  {
    var p1, p2, p3 := [b, c, d] + rest, [c, d] + rest, [d] + rest;
    assert ([a, b, c, d] + rest)[1..] == p1 && p1[1..] == p2 && p2[1..] == p3 && p3[1..] == rest;
    assert Value(p3) == Digit(d) + 2 * Value(rest);
    assert Value(p2) == Digit(c) + 2 * Value(p3);
    assert Value(p1) == Digit(b) + 2 * Value(p2);
  }

  lemma LowValue()
    ensures Value(LOW) == 0xEDB88320
  {
    var tail1 := [false, true, true, true];
    var tail2 := [true, false, true, true] + tail1;
    var tail3 := [true, true, false, true] + tail2;
    var tail4 := [false, false, false, true] + tail3;
    var tail5 := [false, false, false, true] + tail4;
    var tail6 := [true, true, false, false] + tail5;
    var tail7 := [false, true, false, false] + tail6;
    assert tail1 == tail1 + [];
    ValueNibble(false, true, true, true, []);
    ValueNibble(true, false, true, true, tail1);
    ValueNibble(true, true, false, true, tail2);
    ValueNibble(false, false, false, true, tail3);
    ValueNibble(false, false, false, true, tail4);
    ValueNibble(true, true, false, false, tail5);
    ValueNibble(false, true, false, false, tail6);
    ValueNibble(false, false, false, false, tail7);
  }

  // The constant is the generator without its leading term.
  lemma PolynomialBits()
    ensures WordBits(0xEDB88320) == LOW
  {
    LowValue();
    BitsOfValue(LOW);
    WordBitsAre(0xEDB88320);
  }

  lemma {:induction false} OnesOf(k: nat)
    ensures Bits(Pow2(k) - 1, k) == Ones(k)
    decreases k
  {
    if k > 0 {
      OnesOf(k - 1);
      assert (Pow2(k) - 1) / 2 == Pow2(k - 1) - 1;
    }
  }

  lemma OnesBits()
    ensures WordBits(0xffffffff) == Ones(32)
  {
    Pow2Word();
    OnesOf(32);
    WordBitsAre(0xffffffff);
  }

  lemma StepIsShift(c: Word)
    ensures WordBits(Step(c)) == Shift(WordBits(c), false)
  {
    HalfBits(c);
    if c % 2 == 1 {
      PolynomialBits();
      XorBits(0xEDB88320, c / 2);
    }
  }

  lemma {:induction false} StepsAreFeed(c: Word, n: nat)
    ensures WordBits(Steps(c, n)) == Feed(WordBits(c), Zeros(n))
    decreases n
  {
    if n > 0 {
      StepIsShift(c);
      StepsAreFeed(Step(c), n - 1);
      assert Zeros(n)[1..] == Zeros(n - 1);
    }
  }

  // A byte's bits, least significant first.
  function ByteBits(b: Byte): (r: Poly)
    ensures |r| == 8
  {
    Bits(b, 8)
  }

  lemma WidenedBits(b: Byte)
    ensures WordBits(b) == ByteBits(b) + Zeros(24)
  {
    Pow2Word();
    BitsAbove(b, 8, 24);
    WordBitsAre(b);
  }

  // Eight steps after adding a byte feed that byte's bits.
  lemma ByteIsFed(c: Word, b: Byte)
    ensures WordBits(Steps(Xor(c, b), 8)) == Feed(WordBits(c), ByteBits(b))
  {
    XorBits(c, b);
    WidenedBits(b);
    StepsAreFeed(Xor(c, b), 8);
    FeedAhead(WordBits(c), ByteBits(b));
  }

  // ---------------------------------------------------------------- the message

  // The message polynomial: each byte's least significant bit has the highest degree.
  function Message(buffer: Buffer): (r: Poly)
    ensures |r| == 8 * |buffer|
  {
    if buffer == [] then [] else ByteBits(buffer[0]) + Message(buffer[1..])
  }

  lemma {:induction false} RunIsFeed(c: Word, buffer: Buffer)
    ensures WordBits(Run(c, buffer)) == Feed(WordBits(c), Message(buffer))
    decreases |buffer|
  {
    if buffer != [] {
      ByteIsFed(c, buffer[0]);
      RunIsFeed(Steps(Xor(c, buffer[0]), 8), buffer[1..]);
      FeedConcat(WordBits(c), ByteBits(buffer[0]), Message(buffer[1..]));
    }
  }

  lemma ComplementBits(c: Word)
    ensures WordBits(Xor(c, 0xffffffff)) == Not(WordBits(c))
  {
    OnesBits();
    XorBits(c, 0xffffffff);
  }

  lemma CrcIsFeed(buffer: Buffer)
    ensures WordBits(CrcOf(buffer)) == Not(Feed(Ones(32), Message(buffer)))
  {
    ComplementBits(Run(0xffffffff, buffer));
    OnesBits();
    RunIsFeed(0xffffffff, buffer);
  }

  // The CRC-32 of section 3.4 of RFC 2083: the complement of the remainder of
  // all-ones * x^(8n) + message * x^32.
  lemma CrcIsRemainder(buffer: Buffer)
    ensures WordBits(CrcOf(buffer)) ==
            Not(Remainder(Add(Ones(32) + Zeros(8 * |buffer|), Message(buffer) + Zeros(32))))
  {
    CrcIsFeed(buffer);
    FeedIsRemainder(Ones(32), Message(buffer));
  }

  // ---------------------------------------------------------------- burst detection

  lemma {:induction false} MessageInjective(a: Buffer, b: Buffer)
    requires |a| == |b| && Message(a) == Message(b)
    ensures a == b
    decreases |a|
  {
    if a != [] {
      assert ByteBits(a[0]) == Message(a)[..8] == Message(b)[..8] == ByteBits(b[0]);
      assert Message(a[1..]) == Message(a)[8..] == Message(b)[8..] == Message(b[1..]);
      Pow2Word();
      ValueOfBits(a[0], 8);
      ValueOfBits(b[0], 8);
      MessageInjective(a[1..], b[1..]);
      assert a == [a[0]] + a[1..] && b == [b[0]] + b[1..];
    }
  }

  // The bit strings agree outside the 32 positions from `at` on.
  ghost predicate AgreeOutside(p: Poly, q: Poly, at: nat) {
    |p| == |q| && forall i | 0 <= i < |p| && !(at <= i < at + 32) :: p[i] == q[i]
  }

  lemma WindowDetected(p: Poly, q: Poly, at: nat)
    requires AgreeOutside(p, q, at) && p != q
    ensures Feed(Ones(32), p) != Feed(Ones(32), q)
  {
    var n := |p|;
    var lo := if at < n then at else n;
    var hi := if at + 32 < n then at + 32 else n;
    assert p == p[..lo] + p[lo..hi] + p[hi..] && q == q[..lo] + q[lo..hi] + q[hi..];
    assert p[..lo] == q[..lo] && p[hi..] == q[hi..];
    FeedDetectsBurst(Ones(32), p[..lo], p[lo..hi], q[lo..hi], p[hi..]);
  }

  // Two different buffers of one length whose bits differ only inside a window of 32 consecutive
  // bits, wherever it lies, have different CRCs.
  lemma BurstDetected(a: Buffer, b: Buffer, at: nat)
    requires |a| == |b| && a != b && AgreeOutside(Message(a), Message(b), at)
    ensures CrcOf(a) != CrcOf(b)
  {
    if Message(a) == Message(b) {
      MessageInjective(a, b);
    } else {
      WindowDetected(Message(a), Message(b), at);
      CrcIsFeed(a);
      CrcIsFeed(b);
      if CrcOf(a) == CrcOf(b) {
        NotInjective(Feed(Ones(32), Message(a)), Feed(Ones(32), Message(b)));
      }
    }
  }

  lemma NotInjective(p: Poly, q: Poly)
    requires Not(p) == Not(q)
    ensures p == q
  {
    assert |p| == |q|;
    assert forall i | 0 <= i < |p| :: Not(p)[i] == !p[i] && Not(q)[i] == !q[i];
  }

  // ---------------------------------------------------------------- the table

  lemma {:induction false} ValueConcat(p: Poly, q: Poly)
    ensures Value(p + q) == Value(p) + Pow2(|p|) * Value(q)
    decreases |p|
  {
    if p == [] {
      assert p + q == q;
    } else {
      assert (p + q)[1..] == p[1..] + q;
      ValueConcat(p[1..], q);
      DoubleProduct(Pow2(|p| - 1), Value(q));
    }
  }

  lemma DoubleProduct(a: nat, b: nat)
    ensures (2 * a) * b == 2 * (a * b)
  {
  }

  lemma DivModByte(n: nat, low: nat, high: nat)
    requires n == low + 0x100 * high && low < 0x100
    ensures n % 0x100 == low && n / 0x100 == high
  {
  }

  // Masking with 0xff and shifting right by 8 split the bits.
  lemma ByteSplits(n: nat, k: nat)
    requires n < Pow2(8 + k)
    ensures Bits(n, 8 + k) == Bits(n % 0x100, 8) + Bits(n / 0x100, k) && n / 0x100 < Pow2(k)
  {
    var p, q := Bits(n, 8 + k)[..8], Bits(n, 8 + k)[8..];
    assert Bits(n, 8 + k) == p + q;
    ValueOfBits(n, 8 + k);
    ValueConcat(p, q);
    Pow2Word();
    BitsOfValue(p);
    BitsOfValue(q);
    DivModByte(n, Value(p), Value(q));
  }

  lemma SplitByte(w: Word)
    ensures WordBits(w % 0x100) == WordBits(w)[..8] + Zeros(24)
    ensures WordBits(w / 0x100) == WordBits(w)[8..] + Zeros(8)
  {
    Pow2Word();
    ByteSplits(w, 24);
    BitsAbove(w % 0x100, 8, 24);
    BitsAbove(w / 0x100, 24, 8);
    WordBitsAre(w);
    WordBitsAre(w % 0x100);
    WordBitsAre(w / 0x100);
  }

  // Eight steps at once: one table entry and a shift.
  lemma TableStep(x: Word)
    ensures Steps(x, 8) == Xor(Steps(x % 0x100, 8), x / 0x100)
  {
    var low, high := WordBits(x)[..8], WordBits(x)[8..];
    SplitByte(x);
    StepsAreFeed(x, 8);
    StepsAreFeed(x % 0x100, 8);
    XorBits(Steps(x % 0x100, 8), x / 0x100);
    assert WordBits(x) == Add(low + Zeros(24), Zeros(8) + high);
    FeedAdds(low + Zeros(24), Zeros(8) + high, 8);
    FeedLeadingZeros(8, high);
    SameBits(Steps(x, 8), Xor(Steps(x % 0x100, 8), x / 0x100));
  }

  lemma XorByteHigh(c: Word, b: Byte)
    ensures Xor(c, b) / 0x100 == c / 0x100
  {
    XorBits(c, b);
    WidenedBits(b);
    SplitByte(c);
    SplitByte(Xor(c, b));
    assert WordBits(Xor(c, b))[8..] == WordBits(c)[8..];
    SameBits(Xor(c, b) / 0x100, c / 0x100);
  }

  ghost predicate TableComputed(table: seq<Word>) {
    |table| == 256 && forall i | 0 <= i < 256 :: table[i] == Steps(i, 8)
  }

  // The loop body of computeCrc feeds one byte.
  lemma LookupFeedsByte(table: seq<Word>, crc: Word, b: Byte)
    requires TableComputed(table)
    ensures Xor(table[Xor(crc, b) % 0x100], crc / 0x100) == Steps(Xor(crc, b), 8)
  {
    TableStep(Xor(crc, b));
    XorByteHigh(crc, b);
  }

  // computeCrc with its static table, filled on the first call.
  class CrcComputer {
    const crcTable: array<Word>
    var crcTableComputed: bool

    ghost predicate Valid()
      reads this, crcTable
    {
      crcTable.Length == 256 && (crcTableComputed ==> TableComputed(crcTable[..]))
    }

    constructor ()
      ensures Valid() && fresh(crcTable) && !crcTableComputed
    {
      crcTable := new Word[256];
      crcTableComputed := false;
    }

    method MakeCrcTable()
      requires crcTable.Length == 256
      modifies crcTable
      ensures TableComputed(crcTable[..])
    {
      for i := 0 to 256
        invariant forall j | 0 <= j < i :: crcTable[j] == Steps(j, 8)
      {
        var c: Word := i;
        for k := 0 to 8
          invariant Steps(c, 8 - k) == Steps(i, 8)
        {
          if c % 2 == 1 {
            c := Xor(0xEDB88320, c / 2);
          } else {
            c := c / 2;
          }
        }
        crcTable[i] := c;
      }
    }

    method ComputeCrc(buffer: Buffer) returns (result: Word)
      requires Valid()
      modifies this, crcTable
      ensures Valid() && crcTableComputed
      ensures result == CrcOf(buffer)
    {
      if !crcTableComputed {
        MakeCrcTable();
        crcTableComputed := true;
      }
      var crc := Update(0xffffffff, buffer);
      result := Xor(crc, 0xffffffff);
    }

    // The buffer loop, from a given register.
    method Update(start: Word, buffer: Buffer) returns (crc: Word)
      requires TableComputed(crcTable[..])
      ensures crc == Run(start, buffer)
    {
      crc := start;
      for i := 0 to |buffer|
        invariant Run(crc, buffer[i..]) == Run(start, buffer)
      {
        LookupFeedsByte(crcTable[..], crc, buffer[i]);
        RunNext(crc, buffer, i);
        var index := Xor(crc, buffer[i]) % 0x100;
        crc := Xor(crcTable[index], crc / 0x100);
      }
    }
  }

  lemma RunNext(c: Word, buffer: Buffer, i: nat)
    requires i < |buffer|
    ensures Run(c, buffer[i..]) == Run(Steps(Xor(c, buffer[i]), 8), buffer[i + 1..])
  {
    assert buffer[i..][0] == buffer[i] && buffer[i..][1..] == buffer[i + 1..];
  }
}
