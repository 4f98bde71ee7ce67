// PNG datastreams as chunk lists (sections 3.1 and 3.2 of RFC 2083).
module Png {
  import opened Common
  import opened Crc

  type Bytes = seq<Byte>

  const SIGNATURE: Bytes := [0x89, 0x50, 0x4E, 0x47, 0x0D, 0x0A, 0x1A, 0x0A]
  const IHDR: Bytes := [0x49, 0x48, 0x44, 0x52]
  const TEXT: Bytes := [0x74, 0x45, 0x58, 0x74]

  // Section 3.2 limits a chunk's length field to 2^31 - 1.
  const MAX_LENGTH: nat := 0x7fff_ffff

  datatype Chunk = Chunk(kind: Bytes, data: Bytes, crc: Bytes)

  // ---------------------------------------------------------------- integers

  function BigEndian(w: Word): (r: Bytes)
    ensures |r| == 4
  {
    [w / 0x100_0000, w / 0x1_0000 % 0x100, w / 0x100 % 0x100, w % 0x100]
  }

  function FromBigEndian(b: Bytes): Word
    requires |b| == 4
  {
    var high: nat := b[0];
    ((high * 0x100 + b[1]) * 0x100 + b[2]) * 0x100 + b[3]
  }

  lemma BigEndianRoundTrip(w: Word)
    ensures FromBigEndian(BigEndian(w)) == w
  {
    var w1, w2, w3 := w / 0x100, w / 0x1_0000, w / 0x100_0000;
    assert w1 / 0x100 == w2 && w2 / 0x100 == w3;
  }

  lemma FromBigEndianRoundTrip(b: Bytes)
    requires |b| == 4
    ensures BigEndian(FromBigEndian(b)) == b
  {
    var w3: nat := b[0];
    var w2 := w3 * 0x100 + b[1];
    var w1 := w2 * 0x100 + b[2];
    var w := FromBigEndian(b);
    DivModByte(w, b[3], w1);
    DivModByte(w1, b[2], w2);
    DivModByte(w2, b[1], w3);
    assert w / 0x1_0000 == w1 / 0x100 && w / 0x100_0000 == w2 / 0x100;
  }

  // ---------------------------------------------------------------- chunks

  ghost predicate Framed(c: Chunk) {
    |c.kind| == 4 && |c.data| <= MAX_LENGTH && |c.crc| == 4
  }

  // The CRC field covers type and data but not the length (section 3.2).
  predicate CrcCorrect(c: Chunk) {
    c.crc == BigEndian(CrcOf(c.kind + c.data))
  }

  function Serialize(c: Chunk): (r: Bytes)
    requires |c.data| <= MAX_LENGTH
    ensures |r| == 4 + |c.kind| + |c.data| + |c.crc|
  {
    BigEndian(|c.data|) + c.kind + c.data + c.crc
  }

  // Splits a stream into chunks; None when a length field or the end of the stream is wrong.
  function Split(b: Bytes): Option<seq<Chunk>>
    decreases |b|
  {
    if b == [] then Some([])
    else if |b| < 12 then None
    else
      var n := FromBigEndian(b[..4]);
      if n > MAX_LENGTH || |b| < 12 + n then None
      else
        var rest := Split(b[12 + n..]);
        if rest.None? then None else Some([Chunk(b[4..8], b[8..8 + n], b[8 + n..12 + n])] + rest.value)
  }

  // A whole datastream: signature, framing and every CRC.
  function Parse(b: Bytes): Option<seq<Chunk>> {
    if SIGNATURE <= b && Split(b[8..]).Some? && (forall c | c in Split(b[8..]).value :: CrcCorrect(c))
    then Split(b[8..]) else None
  }

  // A serialised chunk is read back and reading continues behind it.
  lemma SplitSerialized(c: Chunk, rest: Bytes)
    requires Framed(c)
    ensures Split(Serialize(c) + rest) == if Split(rest).Some? then Some([c] + Split(rest).value) else None
  {
    var b, n := Serialize(c) + rest, |c.data|;
    BigEndianRoundTrip(n);
    assert b[..4] == BigEndian(n);
    assert b[4..8] == c.kind && b[8..8 + n] == c.data && b[8 + n..12 + n] == c.crc;
    assert b[12 + n..] == rest;
  }

  // Bytes that split start with their first chunk's serialisation.
  lemma SplitStartsWith(b: Bytes)
    requires Split(b).Some? && Split(b).value != []
    ensures var c := Split(b).value[0];
            && Framed(c) && b == Serialize(c) + b[|Serialize(c)|..]
            && Split(b[|Serialize(c)|..]) == Some(Split(b).value[1..])
  {
    var c, n := Split(b).value[0], FromBigEndian(b[..4]);
    FromBigEndianRoundTrip(b[..4]);
    assert c == Chunk(b[4..8], b[8..8 + n], b[8 + n..12 + n]);
    assert b[..12 + n] == Serialize(c);
  }

  lemma SplitTwo(first: Chunk, second: Chunk, tail: Bytes, chunks: seq<Chunk>)
    requires Framed(first) && Framed(second) && Split(tail) == Some(chunks)
    ensures Split(Serialize(first) + (Serialize(second) + tail)) == Some([first, second] + chunks)
  {
    SplitSerialized(second, tail);
    SplitSerialized(first, Serialize(second) + tail);
    assert [first] + ([second] + chunks) == [first, second] + chunks;
  }

  // Inserting a serialised chunk behind the first chunk's bytes inserts the chunk in the list.
  lemma InsertBehindFirst(b: Bytes, c: Chunk, at: nat)
    requires Split(b).Some? && Split(b).value != [] && Framed(c)
    requires at == 12 + |Split(b).value[0].data|
    ensures at <= |b|
    ensures Split(b[..at] + Serialize(c) + b[at..]) == Some([Split(b).value[0], c] + Split(b).value[1..])
  {
    var first := Split(b).value[0];
    SplitStartsWith(b);
    SplitTwo(first, c, b[at..], Split(b).value[1..]);
    Regroup(Serialize(first), b, Serialize(c), at);
  }

  lemma Regroup(head: Bytes, b: Bytes, middle: Bytes, at: nat)
    requires at == |head| <= |b| && b == head + b[at..]
    ensures b[..at] + middle + b[at..] == head + (middle + b[at..])
  {
  }
}
