// The CRC of a message followed by its own CRC.
module CrcResidue {
  import opened CrcBits
  import opened Crc
  import opened CrcConstant

  // A word's four bytes, least significant first.
  function LittleEndian(w: Word): (r: Buffer)
    ensures |r| == 4
  {
    [w % 0x100, w / 0x100 % 0x100, w / 0x1_0000 % 0x100, w / 0x100_0000]
  }

  lemma {:induction false} MessageConcat(a: Buffer, b: Buffer)
    ensures Message(a + b) == Message(a) + Message(b)
    decreases |a|
  {
    if a == [] {
      assert a + b == b;
    } else {
      assert (a + b)[1..] == a[1..] + b;
      MessageConcat(a[1..], b);
    }
  }

  // The bytes of a word, in this order, carry its bits in order.
  lemma LittleEndianBits(w: Word)
    ensures Message(LittleEndian(w)) == WordBits(w)
  {
    var w1, w2, w3 := w / 0x100, w / 0x1_0000, w / 0x100_0000;
    assert w1 / 0x100 == w2 && w2 / 0x100 == w3;
    Pow2Word();
    WordBitsAre(w);
    ByteSplits(w, 24);
    ByteSplits(w1, 16);
    ByteSplits(w2, 8);
    var s := LittleEndian(w);
    assert s[1..][0] == w1 % 0x100 && s[1..][1..][0] == w2 % 0x100 && s[1..][1..][1..] == [w3];
    assert Message(s) == ByteBits(s[0]) + (ByteBits(w1 % 0x100) + Message(s[1..][1..]));
    assert Message(s[1..][1..]) == ByteBits(w2 % 0x100) + (ByteBits(w3) + Message([]));
    assert ByteBits(w3) + Message([]) == ByteBits(w3);
  }

  // A register fed its own complement ends as a register of ones fed zeros.
  lemma FeedOwnComplement(r: Poly, ones: Poly, zeros: Poly)
    requires |r| == 32 && ones == Ones(32) && zeros == Zeros(32)
    ensures Feed(r, Not(r)) == Feed(ones, zeros)
  {
    FeedAhead(r, Not(r));
    assert Add(r, Not(r) + Zeros(32 - |Not(r)|)) == ones;
  }

  lemma OwnCrcFeeds(m: Buffer)
    ensures var r := Feed(Ones(32), Message(m));
            WordBits(CrcOf(m + LittleEndian(CrcOf(m)))) == Not(Feed(r, Not(r)))
  {
    var own := LittleEndian(CrcOf(m));
    CrcIsFeed(m);
    LittleEndianBits(CrcOf(m));
    MessageConcat(m, own);
    FeedConcat(Ones(32), Message(m), Message(own));
    CrcIsFeed(m + own);
  }

  const RESIDUE: Word := 0x2144DF1C

  // A message followed by its own CRC, least significant byte first, always has this CRC,
  lemma ResidueIsConstant(m: Buffer)
    ensures CrcOf(m + LittleEndian(CrcOf(m))) == RESIDUE
  {
    OwnCrcFeeds(m);
    FeedOwnComplement(Feed(Ones(32), Message(m)), Ones(32), Zeros(32));
    ResidueBits();
    SameBits(CrcOf(m + LittleEndian(CrcOf(m))), RESIDUE);
  }

  // and no other four bytes after it do.
  lemma ResidueChecksCrc(m: Buffer, tail: Buffer)
    requires |tail| == 4
    ensures CrcOf(m + tail) == RESIDUE <==> tail == LittleEndian(CrcOf(m))
  {
    var own := LittleEndian(CrcOf(m));
    ResidueIsConstant(m);
    if tail != own {
      MessageConcat(m, tail);
      MessageConcat(m, own);
      assert (m + tail)[|m|..] == tail && (m + own)[|m|..] == own;
      BurstDetected(m + tail, m + own, 8 * |m|);
    }
  }
}
