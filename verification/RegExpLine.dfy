// parseTestLine: one line of a regular-expression test file, and its printer.
module RegExpLine {
  import opened Common
  import opened RegExpText
  import opened RegExpScan

  datatype RegExpTest = RegExpTest(subject: seq<Unit>, offset: int, result: int, expectVector: seq<int>)

  // ---------------------------------------------------------------- what the parser computes

  // The text from the first character on that is one of `stops`, or that ends the line.
  function Skip(s: string, stops: set<char>): (r: string)
    ensures |r| <= |s|
  {
    if |s| == 0 || s[0] == NUL || s[0] in stops then s else Skip(s[1..], stops)
  }

  const BLANK: set<char> := {' '}
  const COMMA_OR_CLOSE: set<char> := {',', ')'}

  // The list of integer pairs behind the opening parenthesis; None when it is malformed.
  function ParsePairs(s: string): Option<seq<int>>
    decreases |s|
  {
    if Head(s) == NUL || Head(s) == ')' then Some([])
    else
      var pair, next := ReadPair(s), BehindPair(s);
      if pair.None? then None
      else if Head(next) == ')' then Some([pair.value.0, pair.value.1])
      else if Head(next) != ',' then None
      else Prepend([pair.value.0, pair.value.1], ParsePairs(next[1..]))
  }

  // The text at the second comma or closing parenthesis.
  function BehindPair(s: string): (r: string)
    ensures |r| <= |s|
  {
    Skip(Next(Skip(s, COMMA_OR_CLOSE)), COMMA_OR_CLOSE)
  }

  function Prepend(vector: seq<int>, more: Option<seq<int>>): Option<seq<int>> {
    if more.None? then None else Some(vector + more.value)
  }

  // The line from where scanning the subject stopped; an unterminated subject is not noticed here.
  function BehindSubject(line: string): string
    requires |line| >= 2
  {
    var r := Scan(line[2..], QUOTE, false, []);
    if r.found then r.rest else line[1..]
  }

  function ParseTest(line: string): Option<RegExpTest> {
    if Head(line) != ' ' || Head(Next(line)) != QUOTE then None
    else
      var subject := Scan(line[2..], QUOTE, false, []).built;
      var s := BehindSubject(line);
      if |s| <= 2 || s[0] != QUOTE || s[1] != ',' || s[2] != ' ' then None
      else ParseNumbers(subject, s[3..])
  }

  function ParseNumbers(subject: seq<Unit>, s: string): Option<RegExpTest> {
    var s1 := Next(Skip(s, BLANK));
    var s2 := Next(Skip(s1, BLANK));
    if ReadInt(s).None? || ReadInt(s1).None? || Head(s2) != '(' then None
    else Assemble(subject, ReadInt(s), ReadInt(s1), ParsePairs(s2[1..]))
  }

  function Assemble(subject: seq<Unit>, offset: Option<(int, string)>, result: Option<(int, string)>,
                    vector: Option<seq<int>>): Option<RegExpTest>
    requires offset.Some? && result.Some?
  {
    if vector.None? then None else Some(RegExpTest(subject, offset.value.0, result.value.0, vector.value))
  }

  // ---------------------------------------------------------------- printer

  const SEPARATOR: string := [',', ' ']

  function PrintPair(a: int, b: int, rest: string): string {
    PrintInt(a) + (SEPARATOR + (PrintInt(b) + rest))
  }

  // The pairs and the closing parenthesis.
  function PrintPairs(vector: seq<int>): string
    requires |vector| % 2 == 0
  {
    if vector == [] then ")"
    else PrintPair(vector[0], vector[1], if |vector| == 2 then ")" else SEPARATOR + PrintPairs(vector[2..]))
  }

  // Everything behind the subject's closing quote and separator.
  function PrintNumbers(t: RegExpTest): string
    requires |t.expectVector| % 2 == 0
  {
    PrintInt(t.offset) + (SEPARATOR + (PrintInt(t.result) + (SEPARATOR + (['('] + PrintPairs(t.expectVector)))))
  }

  function PrintTest(t: RegExpTest): string
    requires |t.expectVector| % 2 == 0
  {
    [' ', QUOTE] + (EscapeAll(t.subject) + ([QUOTE] + (SEPARATOR + PrintNumbers(t))))
  }

  // ---------------------------------------------------------------- round trip

  ghost predicate Free(s: string, stops: set<char>) {
    forall i | 0 <= i < |s| :: s[i] != NUL && s[i] !in stops
  }

  lemma {:induction false} SkipFree(s: string, rest: string, stops: set<char>)
    requires Free(s, stops) && rest != "" && (rest[0] == NUL || rest[0] in stops)
    ensures Skip(s + rest, stops) == rest
    decreases |s|
  {
    if |s| == 0 {
      assert s + rest == rest;
    } else {
      assert (s + rest)[1..] == s[1..] + rest;
      SkipFree(s[1..], rest, stops);
    }
  }

  lemma PrintedIsFree(n: int)
    ensures Free(PrintInt(n), BLANK + COMMA_OR_CLOSE) && PrintInt(n) != ""
  {
    var d := if n < 0 then Decimal(-n) else Decimal(n);
    forall i | 0 <= i < |d| ensures IsDigit(d[i]) {
      DecimalIsDigits(if n < 0 then -n else n, i);
    }
  }

  // A number, a comma and a blank are skipped as the parser skips them.
  lemma SkipNumber(n: int, rest: string)
    ensures Next(Skip(PrintInt(n) + (SEPARATOR + rest), BLANK)) == rest
    ensures ReadInt(PrintInt(n) + (SEPARATOR + rest)) == Some((n, SEPARATOR + rest))
  {
    PrintedIsFree(n);
    var text := PrintInt(n) + [','];
    assert PrintInt(n) + (SEPARATOR + rest) == text + ([' '] + rest);
    SkipFree(text, [' '] + rest, BLANK);
    ReadPrinted(n, SEPARATOR + rest);
  }

  lemma ReadPrintedPair(a: int, b: int, rest: string)
    requires rest != "" && (rest[0] == ',' || rest[0] == ')')
    ensures ReadPair(PrintPair(a, b, rest)) == Some((a, b))
  {
    var tail := PrintInt(b) + rest;
    ReadPrinted(a, SEPARATOR + tail);
    assert (SEPARATOR + tail)[1..] == [' '] + tail;
    ReadSpaced(tail);
    ReadPrinted(b, rest);
  }

  lemma SkipPrintedPair(a: int, b: int, rest: string)
    requires rest != "" && (rest[0] == ',' || rest[0] == ')')
    ensures BehindPair(PrintPair(a, b, rest)) == rest
  {
    PrintedIsFree(a);
    PrintedIsFree(b);
    var tail := ([' '] + PrintInt(b)) + rest;
    assert SEPARATOR + (PrintInt(b) + rest) == [','] + tail;
    SkipFree(PrintInt(a), [','] + tail, COMMA_OR_CLOSE);
    assert ([','] + tail)[1..] == tail;
    SkipFree([' '] + PrintInt(b), rest, COMMA_OR_CLOSE);
  }

  lemma PairStarts(a: int, b: int, rest: string)
    ensures var s := PrintPair(a, b, rest); |s| != 0 && s[0] != NUL && s[0] != ')' && s[0] != ' '
  {
    PrintedIsFree(a);
    assert PrintPair(a, b, rest)[0] == PrintInt(a)[0];
  }

  // s reads as the pair a, b and goes on with rest.
  ghost predicate StartsWithPair(s: string, a: int, b: int, rest: string) {
    Head(s) != NUL && Head(s) != ')' && ReadPair(s) == Some((a, b)) && BehindPair(s) == rest
  }

  // A printed pair does, also after a blank.
  lemma PrintedStarts(a: int, b: int, rest: string)
    requires rest != "" && (rest[0] == ',' || rest[0] == ')')
    ensures StartsWithPair(PrintPair(a, b, rest), a, b, rest)
    ensures StartsWithPair([' '] + PrintPair(a, b, rest), a, b, rest)
  {
    var s := PrintPair(a, b, rest);
    PairStarts(a, b, rest);
    ReadPrintedPair(a, b, rest);
    SkipPrintedPair(a, b, rest);
    ReadSpaced(s);
    assert ([' '] + s)[1..] == s;
  }

  // One round of the pair loop.
  lemma PairsStep(s: string, a: int, b: int, rest: string)
    requires StartsWithPair(s, a, b, rest)
    ensures ParsePairs(s) ==
            if Head(rest) == ')' then Some([a, b])
            else if Head(rest) != ',' then None
            else Prepend([a, b], ParsePairs(rest[1..]))
  {
  }

  lemma LastPair(s: string, a: int, b: int)
    requires s == PrintPair(a, b, ")") || s == [' '] + PrintPair(a, b, ")")
    ensures ParsePairs(s) == Some([a, b])
  {
    PrintedStarts(a, b, ")");
    PairsStep(s, a, b, ")");
  }

  lemma EarlierPair(s: string, a: int, b: int, text: string, later: seq<int>)
    requires s == PrintPair(a, b, SEPARATOR + text) || s == [' '] + PrintPair(a, b, SEPARATOR + text)
    requires ParsePairs([' '] + text) == Some(later)
    ensures ParsePairs(s) == Some([a, b] + later)
  {
    PrintedStarts(a, b, SEPARATOR + text);
    assert (SEPARATOR + text)[1..] == [' '] + text;
    PairsStep(s, a, b, SEPARATOR + text);
  }

  lemma {:induction false} ParsePrintedPairs(vector: seq<int>)
    requires |vector| % 2 == 0 && vector != []
    ensures ParsePairs(PrintPairs(vector)) == Some(vector)
    ensures ParsePairs([' '] + PrintPairs(vector)) == Some(vector)
    decreases |vector|
  {
    var a, b, later := vector[0], vector[1], vector[2..];
    var s := PrintPairs(vector);
    assert vector == [a, b] + later;
    if later == [] {
      LastPair(s, a, b);
      LastPair([' '] + s, a, b);
      assert vector == [a, b];
    } else {
      ParsePrintedPairs(later);
      EarlierPair(s, a, b, PrintPairs(later), later);
      EarlierPair([' '] + s, a, b, PrintPairs(later), later);
    }
  }

  lemma ParsePrintedNumbers(t: RegExpTest)
    requires |t.expectVector| % 2 == 0
    ensures ParseNumbers(t.subject, PrintNumbers(t)) == Some(t)
  {
    var pairs := ['('] + PrintPairs(t.expectVector);
    var s1 := PrintInt(t.result) + (SEPARATOR + pairs);
    SkipNumber(t.offset, s1);
    SkipNumber(t.result, pairs);
    if t.expectVector != [] {
      ParsePrintedPairs(t.expectVector);
    }
    assert pairs[1..] == PrintPairs(t.expectVector);
  }

  lemma ParseQuoted(text: string, built: seq<Unit>, tail: string, numbers: string)
    requires tail == [QUOTE] + (SEPARATOR + numbers)
    requires Scan(text + tail, QUOTE, false, []) == Scanned(true, built, tail)
    ensures ParseTest([' ', QUOTE] + (text + tail)) == ParseNumbers(built, numbers)
  {
    var line := [' ', QUOTE] + (text + tail);
    assert line[2..] == text + tail && line[1..][0] == QUOTE && tail[3..] == numbers;
  }

  // Printing a test and parsing the line gives the test back.
  lemma PrintParse(t: RegExpTest)
    requires |t.expectVector| % 2 == 0
    ensures ParseTest(PrintTest(t)) == Some(t)
  {
    var tail := [QUOTE] + (SEPARATOR + PrintNumbers(t));
    ScanPrinted(t.subject, tail, []);
    assert [] + t.subject == t.subject;
    ParseQuoted(EscapeAll(t.subject), t.subject, tail, PrintNumbers(t));
    ParsePrintedNumbers(t);
  }

  lemma {:induction false} PairsAreEven(s: string)
    ensures ParsePairs(s).Some? ==> |ParsePairs(s).value| % 2 == 0
    decreases |s|
  {
    if Head(s) != NUL && Head(s) != ')' {
      var next := BehindPair(s);
      if Head(next) == ',' {
        PairsAreEven(next[1..]);
      }
    }
  }

  // Every line that is accepted means the same as the line printed for what it was read as.
  lemma AcceptedHasPrintedForm(line: string)
    requires ParseTest(line).Some?
    ensures var t := ParseTest(line).value;
            |t.expectVector| % 2 == 0 && ParseTest(PrintTest(t)) == ParseTest(line)
  {
    var t := ParseTest(line).value;
    var s := BehindSubject(line)[3..];
    var s1 := Next(Skip(s, BLANK));
    var s2 := Next(Skip(s1, BLANK));
    PairsAreEven(s2[1..]);
    PrintParse(t);
  }

  // ---------------------------------------------------------------- the code

  // line + i.
  function From(line: string, i: nat): string {
    if i <= |line| then line[i..] else ""
  }

  function At(line: string, i: nat): char {
    if i < |line| then line[i] else NUL
  }

  lemma FromNext(line: string, i: nat)
    ensures From(line, i + 1) == Next(From(line, i)) && At(line, i) == Head(From(line, i))
  {
  }

  method SkipTo(line: string, start: nat, stops: set<char>) returns (i: nat)
    ensures i >= start && From(line, i) == Skip(From(line, start), stops)
  {
    i := start;
    while At(line, i) != NUL && At(line, i) !in stops
      invariant i >= start && Skip(From(line, i), stops) == Skip(From(line, start), stops)
      decreases |line| - i
    {
      FromNext(line, i);
      i := i + 1;
    }
    FromNext(line, i);
  }

  method ParseTestLine(line: string) returns (r: Option<RegExpTest>)
    ensures r == ParseTest(line)
  {
    if At(line, 0) != ' ' || At(line, 1) != QUOTE {
      return None;
    }
    var position, subject := ScanString(line[2..], QUOTE);
    ScanRest(line[2..], QUOTE, false, []);
    var i := position + 2;
    if i >= |line| - 2 || line[i] != QUOTE || line[i + 1] != ',' || line[i + 2] != ' ' {
      return None;
    }
    r := ParseNumbersFrom(line, i + 3, subject);
  }

  method ParseNumbersFrom(line: string, start: nat, subject: seq<Unit>) returns (r: Option<RegExpTest>)
    ensures r == ParseNumbers(subject, From(line, start))
  {
    r := None;
    var offset := ReadInt(From(line, start));
    var i := SkipBlank(line, start);
    var matchResult := ReadInt(From(line, i));
    var j := SkipBlank(line, i);
    FromNext(line, j);
    if offset.Some? && matchResult.Some? && At(line, j) == '(' {
      var vector := ParsePairList(line, j + 1);
      r := Assemble(subject, offset, matchResult, vector);
    }
  }

  method SkipBlank(line: string, i: nat) returns (j: nat)
    ensures From(line, j) == Next(Skip(From(line, i), BLANK))
  {
    j := SkipTo(line, i, BLANK);
    FromNext(line, j);
    j := j + 1;
  }

  method ParsePairList(line: string, start: nat) returns (r: Option<seq<int>>)
    ensures r == ParsePairs(From(line, start))
  {
    var vector: seq<int> := [];
    var i := start;
    EmptyPrepend(ParsePairs(From(line, start)));
    while At(line, i) != NUL && At(line, i) != ')'
      invariant Prepend(vector, ParsePairs(From(line, i))) == ParsePairs(From(line, start))
      decreases |line| - i
    {
      var ended;
      ended, r, vector, i := ParseOne(line, i, vector);
      if ended {
        return;
      }
    }
    FromNext(line, i);
    NothingLeft(From(line, i));
    assert vector + [] == vector;
    r := Some(vector);
  }

  // The loop body: ended with a result, or the longer vector and the next position.
  method ParseOne(line: string, i: nat, vector: seq<int>)
    returns (ended: bool, r: Option<seq<int>>, longer: seq<int>, next: nat)
    requires At(line, i) != NUL && At(line, i) != ')'
    ensures next > i
    ensures Prepend(vector, ParsePairs(From(line, i))) ==
            if ended then r else Prepend(longer, ParsePairs(From(line, next)))
  {
    ended, r, longer, next := true, None, vector, i + 1;
    FromNext(line, i);
    var pair := ReadPair(From(line, i));
    if pair.None? {
      return;
    }
    longer := vector + [pair.value.0, pair.value.1];
    var j := SkipPair(line, i);
    FromNext(line, j);
    PairsRound(vector, From(line, i), pair.value.0, pair.value.1, From(line, j));
    if At(line, j) == ')' {
      r := Some(longer);
    } else if At(line, j) == ',' {
      ended, next := false, j + 1;
    }
  }

  lemma NothingLeft(s: string)
    requires Head(s) == NUL || Head(s) == ')'
    ensures ParsePairs(s) == Some([])
  {
  }

  method SkipPair(line: string, i: nat) returns (j: nat)
    ensures j > i && From(line, j) == BehindPair(From(line, i))
  {
    j := SkipTo(line, i, COMMA_OR_CLOSE);
    FromNext(line, j);
    j := SkipTo(line, j + 1, COMMA_OR_CLOSE);
  }

  lemma EmptyPrepend(more: Option<seq<int>>)
    ensures Prepend([], more) == more
  {
    if more.Some? {
      assert [] + more.value == more.value;
    }
  }

  // One round of the loop, with what has been collected before it.
  lemma PairsRound(vector: seq<int>, s: string, a: int, b: int, next: string)
    requires StartsWithPair(s, a, b, next)
    ensures Prepend(vector, ParsePairs(s)) ==
            if Head(next) == ')' then Some(vector + [a, b])
            else if Head(next) != ',' then None
            else Prepend(vector + [a, b], ParsePairs(Next(next)))
  {
    PairsStep(s, a, b, next);
    if Head(next) == ',' {
      PrependTwice(vector, [a, b], ParsePairs(Next(next)));
    }
  }

  lemma PrependTwice(a: seq<int>, b: seq<int>, more: Option<seq<int>>)
    ensures Prepend(a, Prepend(b, more)) == Prepend(a + b, more)
  {
    if more.Some? {
      assert a + (b + more.value) == (a + b) + more.value;
    }
  }
}
