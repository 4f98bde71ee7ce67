// Which errors the CRC misses: exactly the multiples of the generator.
module CrcErrors {
  import opened CrcBits
  import opened Crc

  // d is the generator times some polynomial.
  ghost predicate Multiple(d: Poly) {
    exists q :: |d| == |q| + 32 && d == Times(q)
  }

  lemma ShiftDifference(r: Poly, s: Poly, b: bool, c: bool)
    requires |r| == 32 && |s| == 32
    ensures Shift(Add(r, s), b != c) == Add(Shift(r, b), Shift(s, c))
  {
  }

  // The register is linear in start and message together.
  lemma {:induction false} FeedDifference(r: Poly, s: Poly, u: Poly, w: Poly)
    requires |r| == 32 && |s| == 32 && |u| == |w|
    ensures Feed(Add(r, s), Add(u, w)) == Add(Feed(r, u), Feed(s, w))
    decreases |u|
  {
    if u != [] {
      ShiftDifference(r, s, u[0], w[0]);
      FeedDifference(Shift(r, u[0]), Shift(s, w[0]), u[1..], w[1..]);
      assert Add(u, w)[1..] == Add(u[1..], w[1..]);
    }
  }

  // Multiplying by x^32 multiplies the remainder.
  lemma {:induction false} RemainderShifted(d: Poly, zeros: Poly)
    requires |d| >= 32 && zeros == Zeros(32)
    ensures Remainder(d + zeros) == Feed(Remainder(d), zeros)
    decreases |d|
  {
    if |d| == 32 {
      FeedIsRemainder(d, zeros);
      assert Add(d + Zeros(|zeros|), zeros + Zeros(32)) == d + zeros;
    } else {
      ReduceShifted(d, zeros);
      RemainderShifted(Reduce(d), zeros);
    }
  }

  lemma ReduceShifted(d: Poly, zeros: Poly)
    requires |d| > 32 && zeros == Zeros(|zeros|)
    ensures Reduce(d + zeros) == Reduce(d) + zeros
  {
    var low := Scale(d[0], LOW);
    assert (d + zeros)[1..] == d[1..] + zeros;
    assert low + Zeros(|d| + |zeros| - 33) == (low + Zeros(|d| - 33)) + zeros;
    assert Add(d[1..] + zeros, (low + Zeros(|d| - 33)) + zeros) == Add(d[1..], low + Zeros(|d| - 33)) + zeros;
  }

  lemma FeedFromZero(d: Poly, zeros: Poly)
    requires |d| >= 32 && zeros == Zeros(32)
    ensures Feed(zeros, d) == zeros <==> Remainder(d) == zeros
  {
    FeedIsRemainder(zeros, d);
    assert Add(zeros + Zeros(|d|), d + Zeros(32)) == d + zeros;
    RemainderShifted(d, zeros);
    FeedLeadingZeros(32, []);
    assert zeros + [] == zeros && [] + zeros == zeros;
    if Feed(zeros, d) == zeros {
      FeedInjective(Remainder(d), zeros, zeros);
    }
  }

  lemma RemainderZero(d: Poly, zeros: Poly)
    requires |d| >= 32 && zeros == Zeros(32)
    ensures Remainder(d) == zeros <==> Multiple(d)
  {
    if Remainder(d) == zeros {
      var q := RemainderDivides(d);
      NothingLeft(Times(q), |q|, zeros);
    }
    forall q | |d| == |q| + 32 && d == Times(q) ensures Remainder(d) == zeros {
      NothingLeft(Times(q), |q|, zeros);
      RemainderUnique(d, q, zeros);
    }
  }

  lemma NothingLeft(p: Poly, n: nat, zeros: Poly)
    requires zeros == Zeros(32) && |p| == n + 32
    ensures Add(p, Zeros(n) + zeros) == p
  {
    assert Zeros(n) + zeros == Zeros(|p|);
    AddZero(p);
  }

  lemma SumZero(p: Poly, q: Poly)
    requires |p| == |q|
    ensures Add(p, q) == Zeros(|p|) <==> p == q
  {
    assert forall i | 0 <= i < |p| :: Add(p, q)[i] == (p[i] != q[i]);
    if p != q {
      var i :| 0 <= i < |p| && p[i] != q[i];
      assert Add(p, q)[i] && !Zeros(|p|)[i];
    }
  }

  lemma SameIffMultiple(a: Buffer, b: Buffer)
    requires |a| == |b| >= 4
    ensures CrcOf(a) == CrcOf(b) <==> Multiple(Add(Message(a), Message(b)))
  {
    var u, w, ones, zeros := Message(a), Message(b), Ones(32), Zeros(32);
    SameCrc(a, b);
    SumZero(Feed(ones, u), Feed(ones, w));
    FeedDifference(ones, ones, u, w);
    assert Add(ones, ones) == zeros;
    FeedFromZero(Add(u, w), zeros);
    RemainderZero(Add(u, w), zeros);
  }

  lemma SameCrc(a: Buffer, b: Buffer)
    ensures CrcOf(a) == CrcOf(b) <==> Feed(Ones(32), Message(a)) == Feed(Ones(32), Message(b))
  {
    CrcIsFeed(a);
    CrcIsFeed(b);
    if CrcOf(a) == CrcOf(b) {
      NotInjective(Feed(Ones(32), Message(a)), Feed(Ones(32), Message(b)));
    } else if Feed(Ones(32), Message(a)) == Feed(Ones(32), Message(b)) {
      SameBits(CrcOf(a), CrcOf(b));
    }
  }

  // ---------------------------------------------------------------- four consecutive bytes

  lemma {:induction false} MessageAt(a: Buffer, j: nat, k: nat)
    requires j < |a| && k < 8
    ensures Message(a)[8 * j + k] == ByteBits(a[j])[k]
    decreases j
  {
    if j > 0 {
      MessageAt(a[1..], j - 1, k);
      assert Message(a)[8 * j + k] == Message(a[1..])[8 * (j - 1) + k];
    }
  }

  // Two different buffers of one length that agree outside four consecutive bytes have different
  // CRCs.
  lemma FourBytesDetected(a: Buffer, b: Buffer, at: nat)
    requires |a| == |b| && a != b
    requires forall j | 0 <= j < |a| && !(at <= j < at + 4) :: a[j] == b[j]
    ensures CrcOf(a) != CrcOf(b)
  {
    forall i | 0 <= i < |Message(a)| && !(8 * at <= i < 8 * at + 32) ensures Message(a)[i] == Message(b)[i] {
      var j, k := i / 8, i % 8;
      MessageAt(a, j, k);
      MessageAt(b, j, k);
    }
    BurstDetected(a, b, 8 * at);
  }

  // ---------------------------------------------------------------- exactly the multiples

  // Two messages of one length have the same CRC if and only if they are equal or their difference
  // is a multiple of the generator.
  lemma UndetectedIffMultiple(a: Buffer, b: Buffer)
    requires |a| == |b|
    ensures CrcOf(a) == CrcOf(b) <==> a == b || Multiple(Add(Message(a), Message(b)))
  {
    if |a| >= 4 {
      SameIffMultiple(a, b);
    } else if a != b {
      FourBytesDetected(a, b, 0);
    }
  }

  // ---------------------------------------------------------------- and one of them

  lemma {:induction false} TimesZeros(n: nat)
    ensures Times(Zeros(n)) == Zeros(n + 32)
    decreases n
  {
    if n > 0 {
      TimesZeros(n - 1);
      assert Zeros(n) == [false] + Zeros(n - 1);
      TimesCons(false, Zeros(n - 1));
      assert Scale(false, LOW) + Zeros(n - 1) == Zeros(n + 31);
      AddZero(Zeros(n + 31));
    }
  }

  // The generator itself, with zeros behind it, is a multiple.
  lemma GeneratorIsMultiple(n: nat)
    ensures Multiple(GENERATOR + Zeros(n))
  {
    var q := [true] + Zeros(n);
    TimesZeros(n);
    TimesCons(true, Zeros(n));
    AddZero(LOW + Zeros(n));
    assert Times(q) == GENERATOR + Zeros(n);
  }

  const BURST: Buffer := [0x41, 0x06, 0x71, 0xDB, 0x01]

  lemma ByteOfBits(p: Poly, value: Byte)
    requires |p| == 8 && Value(p) == value
    ensures ByteBits(value) == p
  {
    BitsOfValue(p);
  }

  lemma ByteValue(a: bool, b: bool, c: bool, d: bool, e: bool, f: bool, g: bool, h: bool)
    ensures Value([a, b, c, d] + [e, f, g, h]) ==
            Digit(a) + 2 * Digit(b) + 4 * Digit(c) + 8 * Digit(d) +
            16 * (Digit(e) + 2 * Digit(f) + 4 * Digit(g) + 8 * Digit(h))
  {
    ValueNibble(e, f, g, h, []);
    assert [e, f, g, h] + [] == [e, f, g, h];
    ValueNibble(a, b, c, d, [e, f, g, h]);
  }

  lemma ByteDigits(value: Byte, a: bool, b: bool, c: bool, d: bool, e: bool, f: bool, g: bool, h: bool)
    requires value == Digit(a) + 2 * Digit(b) + 4 * Digit(c) + 8 * Digit(d) +
                      16 * (Digit(e) + 2 * Digit(f) + 4 * Digit(g) + 8 * Digit(h))
    ensures ByteBits(value) == [a, b, c, d, e, f, g, h]
  {
    ByteValue(a, b, c, d, e, f, g, h);
    ByteOfBits([a, b, c, d] + [e, f, g, h], value);
  }

  lemma MessageOfFive(m: Buffer, p0: Poly, p1: Poly, p2: Poly, p3: Poly, p4: Poly)
    requires |m| == 5 && p0 == ByteBits(m[0]) && p1 == ByteBits(m[1]) && p2 == ByteBits(m[2])
    requires p3 == ByteBits(m[3]) && p4 == ByteBits(m[4])
    ensures Message(m) == p0 + (p1 + (p2 + (p3 + p4)))
  {
    var m1, m2, m3, m4 := m[1..], m[2..], m[3..], m[4..];
    assert m1[1..] == m2 && m2[1..] == m3 && m3[1..] == m4 && m4[1..] == [];
    assert Message(m4) == p4 + Message(m4[1..]);
    assert p4 + [] == p4;
    assert Message(m3) == p3 + Message(m4);
    assert Message(m2) == p2 + Message(m3);
    assert Message(m1) == p1 + Message(m2);
    assert Message(m) == p0 + Message(m1);
  }

  lemma BurstMessage(m: Buffer)
    requires m == BURST
    ensures Message(m) == GENERATOR + Zeros(7)
  {
    ByteDigits(m[0], true, false, false, false, false, false, true, false);
    ByteDigits(m[1], false, true, true, false, false, false, false, false);
    ByteDigits(m[2], true, false, false, false, true, true, true, false);
    ByteDigits(m[3], true, true, false, true, true, false, true, true);
    ByteDigits(m[4], true, false, false, false, false, false, false, false);
    MessageOfFive(m, ByteBits(m[0]), ByteBits(m[1]), ByteBits(m[2]), ByteBits(m[3]), ByteBits(m[4]));
    BurstDigits();
  }

  lemma BurstDigits()
    ensures [true, false, false, false, false, false, true, false] +
            ([false, true, true, false, false, false, false, false] +
             ([true, false, false, false, true, true, true, false] +
              ([true, true, false, true, true, false, true, true] +
               [true, false, false, false, false, false, false, false]))) == GENERATOR + Zeros(7)
  {
  }

  lemma ZeroMessage(m: Buffer)
    requires forall i | 0 <= i < |m| :: m[i] == 0
    ensures Message(m) == Zeros(8 * |m|)
  {
    if m != [] {
      ByteDigits(m[0], false, false, false, false, false, false, false, false);
      ZeroMessage(m[1..]);
    }
  }

  // 33 bits are one too many: these five bytes and five zero bytes have the same CRC.
  lemma BurstMissed(m: Buffer, zeros: Buffer)
    requires m == BURST && zeros == [0, 0, 0, 0, 0]
    ensures m != zeros && CrcOf(m) == CrcOf(zeros)
    ensures Add(Message(m), Message(zeros)) == GENERATOR + Zeros(7)
  {
    BurstMessage(m);
    ZeroMessage(zeros);
    AddZero(Message(m));
    GeneratorIsMultiple(7);
    SameIffMultiple(m, zeros);
  }
}
