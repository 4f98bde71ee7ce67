// PixelDumpSupport.cpp: a PNG printed with its checksum as a comment chunk.
module PixelDump {
  import opened Common
  import opened Crc
  import opened Png

  // "checksum" and its terminator, the keyword of the comment.
  const KEYWORD: Bytes := [0x63, 0x68, 0x65, 0x63, 0x6B, 0x73, 0x75, 0x6D, 0x00]

  // textCommentPrefix: length 0x29, "tEXt", keyword.
  const COMMENT_PREFIX: Bytes := [0x00, 0x00, 0x00, 0x29] + TEXT + KEYWORD

  const CHECKSUM_LENGTH: nat := 32
  const HEADER_LENGTH: nat := 8 + 25
  const WRITE_SIZE: nat := 0x8000

  // ---------------------------------------------------------------- what is to be printed

  function CommentChunk(checksum: Bytes): Chunk
    requires |checksum| >= CHECKSUM_LENGTH
  {
    var data := KEYWORD + checksum[..CHECKSUM_LENGTH];
    Chunk(TEXT, data, BigEndian(CrcOf(TEXT + data)))
  }

  function Comment(checksum: Bytes): (r: Bytes)
    requires |checksum| >= CHECKSUM_LENGTH
    ensures |r| == 53
  {
    Serialize(CommentChunk(checksum))
  }

  // The image with the comment spliced in behind its header chunk.
  function Spliced(image: Bytes, checksum: Bytes): Bytes
    requires |image| >= HEADER_LENGTH && |checksum| >= CHECKSUM_LENGTH
  {
    image[..HEADER_LENGTH] + Comment(checksum) + image[HEADER_LENGTH..]
  }

  // A datastream whose first chunk is a 13-byte IHDR.
  ghost predicate StartsWithHeader(image: Bytes) {
    && Parse(image).Some? && Parse(image).value != []
    && Parse(image).value[0].kind == IHDR && |Parse(image).value[0].data| == 13
  }

  // The printed stream parses to the original chunks with exactly one more, behind the first.
  lemma SplicedParses(image: Bytes, checksum: Bytes)
    requires StartsWithHeader(image) && |checksum| >= CHECKSUM_LENGTH
    ensures |image| >= HEADER_LENGTH
    ensures var chunks := Parse(image).value;
            Parse(Spliced(image, checksum)) == Some([chunks[0], CommentChunk(checksum)] + chunks[1..])
  {
    var comment := CommentChunk(checksum);
    InsertBehindFirst(image[8..], comment, 25);
    SplicedBody(image, Serialize(comment));
    var chunks := Parse(image).value;
    assert forall c | c in [chunks[0], comment] + chunks[1..] :: c == comment || c in chunks;
  }

  // The bytes of an ASCII text.
  function Characters(text: string): Bytes {
    if |text| == 0 then []
    else
      var first: Byte := text[0] as int % 0x80;
      [first] + Characters(text[1..])
  }

  // A tEXt chunk holds a keyword and a text with a zero byte between them (section 4.2.7).
  function ReadText(c: Chunk): Option<(Bytes, Bytes)> {
    if c.kind == Characters("tEXt") then SplitAtZero([], c.data) else None
  }

  function SplitAtZero(keyword: Bytes, data: Bytes): Option<(Bytes, Bytes)>
    decreases |data|
  {
    if data == [] then None
    else if data[0] == 0 then Some((keyword, data[1..]))
    else SplitAtZero(keyword + [data[0]], data[1..])
  }

  lemma {:induction false} SplitKeyword(before: Bytes, keyword: Bytes, text: Bytes)
    requires forall i | 0 <= i < |keyword| :: keyword[i] != 0
    ensures SplitAtZero(before, keyword + [0] + text) == Some((before + keyword, text))
    decreases |keyword|
  {
    var data := keyword + [0] + text;
    if keyword == [] {
      assert data[1..] == text && before + keyword == before;
    } else {
      assert data[1..] == keyword[1..] + [0] + text;
      SplitKeyword(before + [keyword[0]], keyword[1..], text);
      assert before + [keyword[0]] + keyword[1..] == before + keyword;
    }
  }

  lemma ChecksumName(name: Bytes)
    requires name == Characters("checksum")
    ensures KEYWORD == name + [0] && forall i | 0 <= i < |name| :: name[i] != 0
  {
    assert name == [0x63, 0x68, 0x65, 0x63, 0x6B, 0x73, 0x75, 0x6D];
  }

  // The comment is a text chunk named "checksum" whose text is the 32 bytes, with a correct CRC.
  lemma CommentReads(checksum: Bytes)
    requires |checksum| >= CHECKSUM_LENGTH
    ensures ReadText(CommentChunk(checksum)) == Some((Characters("checksum"), checksum[..32]))
    ensures CrcCorrect(CommentChunk(checksum)) && Framed(CommentChunk(checksum))
  {
    var name, text := Characters("checksum"), checksum[..CHECKSUM_LENGTH];
    ChecksumName(name);
    SplitKeyword([], name, text);
    assert [] + name == name;
    assert Characters("tEXt") == TEXT;
  }

  lemma SplicedBody(image: Bytes, comment: Bytes)
    requires |image| >= HEADER_LENGTH && SIGNATURE <= image
    ensures var r := image[..HEADER_LENGTH] + comment + image[HEADER_LENGTH..];
            SIGNATURE <= r && r[8..] == image[8..][..25] + comment + image[8..][25..]
  {
    assert image == SIGNATURE + image[8..];
    assert image[..HEADER_LENGTH] == SIGNATURE + image[8..][..25];
    assert image[HEADER_LENGTH..] == image[8..][25..];
  }

  // ---------------------------------------------------------------- the code

  // Vector<unsigned char>.
  class ByteVector {
    var bytes: Bytes

    constructor ()
      ensures bytes == []
    {
      bytes := [];
    }

    method Append(more: Bytes)
      modifies this
      ensures bytes == old(bytes) + more
    {
      bytes := bytes + more;
    }

    // New elements are left as they come.
    method Grow(size: nat)
      requires size >= |bytes|
      modifies this
      ensures |bytes| == size && old(bytes) <= bytes
    {
      bytes := bytes + seq(size - |bytes|, _ => 0);
    }

    method Set(i: nat, b: Byte)
      requires i < |bytes|
      modifies this
      ensures bytes == old(bytes)[i := b]
    {
      bytes := bytes[i := b];
    }
  }

  method AppendIntToVector(number: Word, vector: ByteVector)
    modifies vector
    ensures vector.bytes == old(vector.bytes) + BigEndian(number)
  {
    var offset := |vector.bytes|;
    vector.Grow(offset + 4);
    vector.Set(offset, number / 0x100_0000 % 0x100);
    vector.Set(offset + 1, number / 0x1_0000 % 0x100);
    vector.Set(offset + 2, number / 0x100 % 0x100);
    vector.Set(offset + 3, number % 0x100);
  }

  method ConvertChecksumToPngComment(checksum: Bytes, bytesToAdd: ByteVector, crc: CrcComputer)
    requires |checksum| >= CHECKSUM_LENGTH && crc.Valid()
    modifies bytesToAdd, crc, crc.crcTable
    ensures crc.Valid() && bytesToAdd.bytes == old(bytesToAdd.bytes) + Comment(checksum)
  {
    bytesToAdd.Append(COMMENT_PREFIX);
    bytesToAdd.Append(checksum[..CHECKSUM_LENGTH]);
    var dataToCrc := new ByteVector();
    dataToCrc.Append(COMMENT_PREFIX[4..]);
    dataToCrc.Append(checksum[..CHECKSUM_LENGTH]);
    assert dataToCrc.bytes == COMMENT_PREFIX[4..] + checksum[..CHECKSUM_LENGTH];
    var crc32 := crc.ComputeCrc(dataToCrc.bytes);
    AppendIntToVector(crc32, bytesToAdd);
    CommentLayout(checksum[..CHECKSUM_LENGTH], BigEndian(crc32));
    Regroup(old(bytesToAdd.bytes), COMMENT_PREFIX, checksum[..CHECKSUM_LENGTH], BigEndian(crc32));
  }

  lemma Regroup(a: Bytes, b: Bytes, c: Bytes, d: Bytes)
    ensures a + b + c + d == a + (b + c + d)
  {
  }

  lemma CommentLayout(text: Bytes, crc: Bytes)
    requires |text| == CHECKSUM_LENGTH
    ensures Serialize(Chunk(TEXT, KEYWORD + text, crc)) == COMMENT_PREFIX + text + crc
    ensures TEXT + (KEYWORD + text) == COMMENT_PREFIX[4..] + text
  {
    assert BigEndian(|KEYWORD + text|) == [0x00, 0x00, 0x00, 0x29];
    assert COMMENT_PREFIX[4..] == TEXT + KEYWORD;
  }

  // ---------------------------------------------------------------- writing

  // What has been printed, what was offered to be printed, and how much of each offer was taken.
  datatype Output = Output(written: Bytes, offered: seq<Bytes>, taken: seq<nat>)

  // The bytes taken of a list of offers.
  ghost function Accepted(offered: seq<Bytes>, taken: seq<nat>): Bytes
    requires Fit(offered, taken)
  {
    if offered == [] then [] else offered[0][..taken[0]] + Accepted(offered[1..], taken[1..])
  }

  ghost predicate Fit(offered: seq<Bytes>, taken: seq<nat>) {
    |taken| == |offered| && forall i | 0 <= i < |offered| :: taken[i] <= |offered[i]|
  }

  // From a to b exactly these offers were made, in this order, and so much of them taken.
  ghost predicate Wrote(a: Output, offered: seq<Bytes>, taken: seq<nat>, b: Output) {
    && Fit(offered, taken) && b.written == a.written + Accepted(offered, taken)
    && b.offered == a.offered + offered && b.taken == a.taken + taken
  }

  lemma {:induction false} AcceptedConcat(o: seq<Bytes>, t: seq<nat>, o': seq<Bytes>, t': seq<nat>)
    requires Fit(o, t) && Fit(o', t')
    ensures Fit(o + o', t + t') && Accepted(o + o', t + t') == Accepted(o, t) + Accepted(o', t')
    decreases |o|
  {
    if o == [] {
      assert o + o' == o' && t + t' == t';
    } else {
      assert (o + o')[1..] == o[1..] + o' && (t + t')[1..] == t[1..] + t';
      AcceptedConcat(o[1..], t[1..], o', t');
    }
  }

  lemma WroteThen(a: Output, o: seq<Bytes>, t: seq<nat>, b: Output, o': seq<Bytes>, t': seq<nat>, c: Output)
    requires Wrote(a, o, t, b) && Wrote(b, o', t', c)
    ensures Wrote(a, o + o', t + t', c)
  {
    AcceptedConcat(o, t, o', t');
    assert a.written + Accepted(o, t) + Accepted(o', t') == a.written + (Accepted(o, t) + Accepted(o', t'));
    assert a.offered + o + o' == a.offered + (o + o') && a.taken + t + t' == a.taken + (t + t');
  }

  // Every offer was taken whole.
  ghost predicate Complete(offered: seq<Bytes>, taken: seq<nat>) {
    |taken| == |offered| && forall i | 0 <= i < |offered| :: taken[i] == |offered[i]|
  }

  function Concat(blocks: seq<Bytes>): Bytes {
    if blocks == [] then [] else blocks[0] + Concat(blocks[1..])
  }

  lemma {:induction false} CompleteIsAll(offered: seq<Bytes>, taken: seq<nat>)
    requires Complete(offered, taken)
    ensures Accepted(offered, taken) == Concat(offered)
    decreases |offered|
  {
    if offered != [] {
      CompleteIsAll(offered[1..], taken[1..]);
    }
  }

  // stdout: each fwrite may take fewer bytes than offered, as `limits` says.
  class Stdout {
    var written: Bytes
    var limits: seq<nat>
    ghost var offered: seq<Bytes>
    ghost var taken: seq<nat>

    ghost function Now(): Output
      reads this
    {
      Output(written, offered, taken)
    }

    method Fwrite(data: Bytes) returns (n: nat)
      modifies this
      ensures n <= |data| && Wrote(old(Now()), [data], [n], Now())
    {
      n := if limits != [] && limits[0] < |data| then limits[0] else |data|;
      limits := if limits == [] then [] else limits[1..];
      written := written + data[..n];
      offered, taken := offered + [data], taken + [n];
      assert Accepted([data], [n]) == data[..n] + Accepted([], []);
    }
  }

  // ---------------------------------------------------------------- blocks

  // Data cut into blocks of 32768 bytes, the last one perhaps shorter.
  function Blocks(data: Bytes): seq<Bytes>
    decreases |data|
  {
    if |data| == 0 then []
    else if |data| <= WRITE_SIZE then [data]
    else [data[..WRITE_SIZE]] + Blocks(data[WRITE_SIZE..])
  }

  // The blocks put together are the data; none is empty or too long, and only the last may be short.
  lemma {:induction false} BlocksLaw(data: Bytes)
    ensures var b := Blocks(data);
            && Concat(b) == data && (forall i | 0 <= i < |b| :: 0 < |b[i]| <= WRITE_SIZE)
            && (forall i | 0 <= i < |b| - 1 :: |b[i]| == WRITE_SIZE)
    decreases |data|
  {
    if |data| > WRITE_SIZE {
      BlocksLaw(data[WRITE_SIZE..]);
      assert Blocks(data)[1..] == Blocks(data[WRITE_SIZE..]);
      assert data == data[..WRITE_SIZE] + data[WRITE_SIZE..];
    } else if |data| > 0 {
      assert [data][1..] == [] && data + [] == data;
    }
  }

  lemma FirstBlock(data: Bytes, done: nat, size: nat)
    requires done < |data| && size == if |data| - done < WRITE_SIZE then |data| - done else WRITE_SIZE
    ensures Blocks(data[done..]) == [data[done..done + size]] + Blocks(data[done + size..])
  {
    var rest := data[done..];
    if |rest| <= WRITE_SIZE {
      assert rest == data[done..done + size] && data[done + size..] == [];
    } else {
      assert rest[..WRITE_SIZE] == data[done..done + size] && rest[WRITE_SIZE..] == data[done + size..];
    }
  }

  // ---------------------------------------------------------------- printing

  // The first k blocks are offered: all of them, or up to the first that is not taken whole.
  ghost predicate StopsAtShort(blocks: seq<Bytes>, taken: seq<nat>, k: nat) {
    && |taken| == k <= |blocks|
    && (forall i | 0 <= i < k - 1 :: taken[i] == |blocks[i]|)
    && (k < |blocks| ==> k > 0 && taken[k - 1] < |blocks[k - 1]|)
  }

  // Returns the announced Content-Length. The header part, the comment and then the blocks of the
  // rest are offered in this order, the rest up to the first block that is not taken whole. When
  // every write is complete the spliced image has been printed.
  method PrintPng(image: Bytes, checksum: Bytes, out: Stdout, crc: CrcComputer)
    returns (contentLength: nat, ghost k: nat, ghost a: nat, ghost b: nat, ghost more: seq<nat>)
    requires |image| >= HEADER_LENGTH && |checksum| >= CHECKSUM_LENGTH && crc.Valid()
    modifies out, crc, crc.crcTable
    ensures crc.Valid() && contentLength == |Spliced(image, checksum)|
    ensures var blocks := Blocks(image[HEADER_LENGTH..]);
            && StopsAtShort(blocks, more, k)
            && var offered := [image[..HEADER_LENGTH], Comment(checksum)] + blocks[..k];
            && Wrote(old(out.Now()), offered, [a, b] + more, out.Now())
            && (Complete(offered, [a, b] + more) ==> out.written == old(out.written) + Spliced(image, checksum))
  {
    var bytesToAdd := new ByteVector();
    ConvertChecksumToPngComment(checksum, bytesToAdd, crc);
    var comment := bytesToAdd.bytes;
    assert comment == Comment(checksum);
    contentLength := |image| + |comment|;
    var head, rest := image[..HEADER_LENGTH], image[HEADER_LENGTH..];
    k, a, b, more := WriteParts(head, comment, rest, out);
    if Complete([head, comment] + Blocks(rest)[..k], [a, b] + more) {
      AllTaken(head, comment, rest, k, a, b, more);
    }
  }

  method WriteParts(head: Bytes, comment: Bytes, rest: Bytes, out: Stdout)
    returns (ghost k: nat, a: nat, b: nat, ghost more: seq<nat>)
    modifies out
    ensures StopsAtShort(Blocks(rest), more, k)
    ensures Wrote(old(out.Now()), [head, comment] + Blocks(rest)[..k], [a, b] + more, out.Now())
  {
    ghost var start := out.Now();
    a := out.Fwrite(head);
    ghost var second := out.Now();
    b := out.Fwrite(comment);
    ghost var third := out.Now();
    k, more := WriteRest(rest, out);
    WroteThen(start, [head], [a], second, [comment], [b], third);
    assert [head] + [comment] == [head, comment] && [a] + [b] == [a, b];
    WroteThen(start, [head, comment], [a, b], third, Blocks(rest)[..k], more, out.Now());
  }

  lemma ConcatBehind(head: Bytes, comment: Bytes, blocks: seq<Bytes>)
    ensures Concat([head, comment] + blocks) == head + comment + Concat(blocks)
  {
    var all, tail := [head, comment] + blocks, [comment] + blocks;
    assert all[1..] == tail && tail[1..] == blocks;
    assert Concat(all) == head + Concat(tail) && Concat(tail) == comment + Concat(blocks);
    assert head + (comment + Concat(blocks)) == head + comment + Concat(blocks);
  }

  // If every block offered was taken whole, every block was offered.
  lemma AllOffered(head: Bytes, comment: Bytes, blocks: seq<Bytes>, k: nat, a: nat, b: nat, more: seq<nat>)
    requires StopsAtShort(blocks, more, k) && Complete([head, comment] + blocks[..k], [a, b] + more)
    ensures k == |blocks| && blocks[..k] == blocks
  {
    var calls, taken := [head, comment] + blocks[..k], [a, b] + more;
    assert k > 0 ==> calls[k + 1] == blocks[k - 1] && taken[k + 1] == more[k - 1];
  }

  lemma AllTaken(head: Bytes, comment: Bytes, rest: Bytes, k: nat, a: nat, b: nat, more: seq<nat>)
    requires StopsAtShort(Blocks(rest), more, k) && Complete([head, comment] + Blocks(rest)[..k], [a, b] + more)
    ensures Accepted([head, comment] + Blocks(rest)[..k], [a, b] + more) == head + comment + rest
  {
    var blocks := Blocks(rest);
    AllOffered(head, comment, blocks, k, a, b, more);
    CompleteIsAll([head, comment] + blocks[..k], [a, b] + more);
    ConcatBehind(head, comment, blocks);
    BlocksLaw(rest);
  }

  // The chunked write loop, stopping at the first incomplete write.
  method WriteRest(data: Bytes, out: Stdout) returns (ghost k: nat, ghost taken: seq<nat>)
    modifies out
    ensures StopsAtShort(Blocks(data), taken, k) && Wrote(old(out.Now()), Blocks(data)[..k], taken, out.Now())
  {
    var done := 0;
    k, taken := 0, [];
    ghost var blocks, start := Blocks(data), out.Now();
    assert data[0..] == data;
    WroteNothing(start);
    while done < |data|
      invariant k <= |blocks| && done <= |data| && blocks[k..] == Blocks(data[done..])
      invariant Complete(blocks[..k], taken) && Wrote(start, blocks[..k], taken, out.Now())
    {
      var size := if |data| - done < WRITE_SIZE then |data| - done else WRITE_SIZE;
      var piece := data[done..done + size];
      ghost var before := out.Now();
      FirstBlock(data, done, size);
      var n := out.Fwrite(piece);
      BlockWritten(start, blocks, k, taken, before, piece, Blocks(data[done + size..]), n, out.Now());
      k, taken := k + 1, taken + [n];
      if n != size {
        return;
      }
      done := done + n;
    }
    assert data[done..] == [];
  }

  lemma WroteNothing(a: Output)
    ensures Wrote(a, [], [], a)
  {
    assert a.written + [] == a.written && a.offered + [] == a.offered && a.taken + [] == a.taken;
  }

  // One more block is offered behind blocks that were taken whole.
  lemma BlockWritten(start: Output, blocks: seq<Bytes>, k: nat, taken: seq<nat>, before: Output,
                     piece: Bytes, rest: seq<Bytes>, n: nat, after: Output)
    requires k <= |blocks| && blocks[k..] == [piece] + rest && n <= |piece|
    requires Complete(blocks[..k], taken) && Wrote(start, blocks[..k], taken, before)
    requires Wrote(before, [piece], [n], after)
    ensures k < |blocks| && blocks[k + 1..] == rest
    ensures Wrote(start, blocks[..k + 1], taken + [n], after)
    ensures if n == |piece| then Complete(blocks[..k + 1], taken + [n]) else StopsAtShort(blocks, taken + [n], k + 1)
  {
    assert blocks[k] == blocks[k..][0] == piece && blocks[k + 1..] == blocks[k..][1..];
    assert blocks[..k] + [piece] == blocks[..k + 1];
    WroteThen(start, blocks[..k], taken, before, [piece], [n], after);
    assert forall i | 0 <= i < k :: blocks[..k][i] == blocks[i];
  }
}
