// Splitting and joining paths (String::split of WTFString.cpp, find and reverseFind).
module PathStrings {
  import opened Common

  const SEPARATOR: char := '/'

  // The first position of c at or after `from`, if any.
  function Find(s: string, c: char, from: nat): (r: Option<nat>)
    requires from <= |s|
    ensures r.Some? ==> from <= r.value < |s| && s[r.value] == c && c !in s[from..r.value]
    ensures r.None? <==> c !in s[from..]
    decreases |s| - from
  {
    if from == |s| then None
    else if s[from] == c then Some(from)
    else
      var r := Find(s, c, from + 1);
      assert s[from..] == [s[from]] + s[from + 1..];
      assert r.Some? ==> s[from..r.value] == [s[from]] + s[from + 1..r.value];
      r
  }

  function ReverseFind(s: string, c: char): (r: Option<nat>)
    ensures r.Some? ==> r.value < |s| && s[r.value] == c && c !in s[r.value + 1..]
    ensures r.None? <==> c !in s
    decreases |s|
  {
    if s == "" then None
    else if s[|s| - 1] == c then Some(|s| - 1)
    else
      var r := ReverseFind(s[..|s| - 1], c);
      assert s == s[..|s| - 1] + [s[|s| - 1]];
      assert r.Some? ==> s[r.value + 1..] == s[..|s| - 1][r.value + 1..] + [s[|s| - 1]];
      r
  }

  // ---------------------------------------------------------------- splitting

  // A character in front of what has been split: a new empty piece, or the first piece grows.
  function ConsPiece(c: char, pieces: seq<string>): (r: seq<string>)
    requires |pieces| > 0
    ensures |r| > 0
  {
    if c == SEPARATOR then [""] + pieces else [[c] + pieces[0]] + pieces[1..]
  }

  // All pieces between separators, empty ones included; always at least one.
  function Pieces(s: string): (r: seq<string>)
    ensures |r| > 0
    decreases |s|
  {
    if |s| == 0 then [""] else ConsPiece(s[0], Pieces(s[1..]))
  }

  lemma ConsConcat(c: char, p: seq<string>, q: seq<string>)
    requires |p| > 0
    ensures ConsPiece(c, p + q) == ConsPiece(c, p) + q
  {
  }

  // Splitting at a separator that is written out.
  lemma {:induction false} PiecesConcat(a: string, b: string)
    ensures Pieces(a + [SEPARATOR] + b) == Pieces(a) + Pieces(b)
    decreases |a|
  {
    var whole := a + [SEPARATOR] + b;
    if |a| == 0 {
      assert whole[1..] == b;
    } else {
      assert whole[1..] == a[1..] + [SEPARATOR] + b;
      PiecesConcat(a[1..], b);
      ConsConcat(a[0], Pieces(a[1..]), Pieces(b));
    }
  }

  lemma {:induction false} PiecesOfOne(s: string)
    requires SEPARATOR !in s
    ensures Pieces(s) == [s]
    decreases |s|
  {
    if s != "" {
      PiecesOfOne(s[1..]);
      assert s == [s[0]] + s[1..];
    }
  }

  // No piece contains a separator.
  lemma {:induction false} PiecesArePlain(s: string, i: nat)
    requires i < |Pieces(s)|
    ensures SEPARATOR !in Pieces(s)[i]
    decreases |s|
  {
    if s != "" {
      PiecesArePlain(s[1..], if i == 0 || s[0] != SEPARATOR then i else i - 1);
    }
  }

  lemma NextPiece(s: string, start: nat, end: nat)
    requires start <= end < |s| && s[end] == SEPARATOR && SEPARATOR !in s[start..end]
    ensures Pieces(s[start..]) == [s[start..end]] + Pieces(s[end + 1..])
  {
    assert s[start..] == s[start..end] + [SEPARATOR] + s[end + 1..];
    PiecesOfOne(s[start..end]);
    PiecesConcat(s[start..end], s[end + 1..]);
  }

  function NonEmpty(pieces: seq<string>): (r: seq<string>)
    ensures forall i | 0 <= i < |r| :: r[i] != "" && r[i] in pieces
  {
    if pieces == [] then []
    else if pieces[0] == "" then NonEmpty(pieces[1..])
    else [pieces[0]] + NonEmpty(pieces[1..])
  }

  lemma {:induction false} NonEmptyConcat(a: seq<string>, b: seq<string>)
    ensures NonEmpty(a + b) == NonEmpty(a) + NonEmpty(b)
    decreases |a|
  {
    if a == [] {
      assert a + b == b;
    } else {
      assert (a + b)[1..] == a[1..] + b;
      NonEmptyConcat(a[1..], b);
    }
  }

  // endPos is the first separator from startPos on.
  ghost predicate FirstFrom(s: string, startPos: nat, endPos: Option<nat>)
    requires startPos <= |s|
  {
    if endPos.None? then SEPARATOR !in s[startPos..]
    else startPos <= endPos.value < |s| && s[endPos.value] == SEPARATOR && SEPARATOR !in s[startPos..endPos.value]
  }

  // String::split.
  method Split(s: string, allowEmptyEntries: bool) returns (result: seq<string>)
    ensures result == Kept(Pieces(s), allowEmptyEntries)
  {
    result := [];
    var startPos := 0;
    var endPos := Find(s, SEPARATOR, startPos);
    ghost var all := Kept(Pieces(s), allowEmptyEntries);
    ghost var left := all;
    assert s[0..] == s;
    while endPos.Some?
      invariant startPos <= |s| && FirstFrom(s, startPos, endPos)
      invariant left == Kept(Pieces(s[startPos..]), allowEmptyEntries) && result + left == all
      decreases |s| - startPos
    {
      ghost var rest := NextKept(s, startPos, endPos.value, allowEmptyEntries);
      if allowEmptyEntries || startPos != endPos.value {
        MoveOver(result, s[startPos..endPos.value], rest);
        result := result + [s[startPos..endPos.value]];
      }
      left := rest;
      startPos := endPos.value + 1;
      endPos := Find(s, SEPARATOR, startPos);
    }
    LastKept(s[startPos..], allowEmptyEntries);
    if allowEmptyEntries || startPos != |s| {
      result := result + [s[startPos..]];
    }
  }

  lemma MoveOver(done: seq<string>, piece: string, rest: seq<string>)
    ensures done + ([piece] + rest) == (done + [piece]) + rest
  {
  }

  lemma LastKept(s: string, allowEmptyEntries: bool)
    requires SEPARATOR !in s
    ensures Kept(Pieces(s), allowEmptyEntries) == if allowEmptyEntries || |s| != 0 then [s] else []
  {
    PiecesOfOne(s);
  }

  ghost function Kept(pieces: seq<string>, allowEmptyEntries: bool): seq<string> {
    if allowEmptyEntries then pieces else NonEmpty(pieces)
  }

  lemma NextKept(s: string, start: nat, end: nat, allowEmptyEntries: bool) returns (rest: seq<string>)
    requires start <= end < |s| && s[end] == SEPARATOR && SEPARATOR !in s[start..end]
    ensures rest == Kept(Pieces(s[end + 1..]), allowEmptyEntries)
    ensures Kept(Pieces(s[start..]), allowEmptyEntries) ==
            if allowEmptyEntries || start != end then [s[start..end]] + rest else rest
  {
    NextPiece(s, start, end);
    rest := Kept(Pieces(s[end + 1..]), allowEmptyEntries);
  }

  // ---------------------------------------------------------------- joining

  function Join(pieces: seq<string>): string {
    if pieces == [] then ""
    else if |pieces| == 1 then pieces[0]
    else pieces[0] + [SEPARATOR] + Join(pieces[1..])
  }

  // A piece that survives splitting and joining.
  ghost predicate Plain(piece: string) {
    piece != "" && SEPARATOR !in piece
  }

  ghost predicate AllPlain(pieces: seq<string>) {
    forall i | 0 <= i < |pieces| :: Plain(pieces[i])
  }

  lemma {:induction false} PiecesOfJoin(pieces: seq<string>)
    requires AllPlain(pieces) && pieces != []
    ensures Pieces(Join(pieces)) == pieces
    decreases |pieces|
  {
    PiecesOfOne(pieces[0]);
    if |pieces| > 1 {
      PiecesOfJoin(pieces[1..]);
      PiecesConcat(pieces[0], Join(pieces[1..]));
    }
  }

  lemma {:induction false} NonEmptyKeepsAll(pieces: seq<string>)
    requires AllPlain(pieces)
    ensures NonEmpty(pieces) == pieces
    decreases |pieces|
  {
    if pieces != [] {
      NonEmptyKeepsAll(pieces[1..]);
    }
  }

  // Joining plain pieces and splitting without empty entries is the identity.
  lemma SplitJoin(pieces: seq<string>)
    requires AllPlain(pieces)
    ensures NonEmpty(Pieces(Join(pieces))) == pieces
  {
    if pieces != [] {
      PiecesOfJoin(pieces);
    }
    NonEmptyKeepsAll(pieces);
  }

  lemma {:induction false} JoinLast(pieces: seq<string>, last: string)
    requires pieces != []
    ensures Join(pieces + [last]) == Join(pieces) + [SEPARATOR] + last
    decreases |pieces|
  {
    assert (pieces + [last])[1..] == pieces[1..] + [last];
    if |pieces| > 1 {
      JoinLast(pieces[1..], last);
    }
  }
}
