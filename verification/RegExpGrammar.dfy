// Which texts scanString and parseTestLine accept, and as what.
module RegExpGrammar {
  import opened Common
  import opened RegExpText
  import opened RegExpScan
  import opened RegExpLine

  // ---------------------------------------------------------------- hexadecimal fields

  // c is the hexadecimal digit of value v, in either case.
  predicate StandsFor(c: char, v: nat) {
    var code := c as int;
    if v < 10 then code == '0' as int + v
    else v < 16 && (code == 'a' as int + v - 10 || code == 'A' as int + v - 10)
  }

  lemma HexValueIs(c: char)
    ensures IsHex(c) <==> exists v :: StandsFor(c, v)
    ensures forall v :: StandsFor(c, v) ==> IsHex(c) && HexValue(c) == v
  {
    if IsHex(c) {
      assert StandsFor(c, HexValue(c));
    }
  }

  ghost predicate AllHex(s: string) {
    forall i | 0 <= i < |s| :: IsHex(s[i])
  }

  // The value of a string of hexadecimal digits by position.
  ghost function HexPositional(digits: string): nat
    requires AllHex(digits)
  {
    if |digits| == 0 then 0
    else HexPositional(digits[..|digits| - 1]) * 16 + HexValue(digits[|digits| - 1])
  }

  lemma HexPositionalNext(digits: string, c: char)
    requires AllHex(digits) && IsHex(c)
    ensures AllHex(digits + [c]) && HexPositional(digits + [c]) == HexPositional(digits) * 16 + HexValue(c)
  {
    assert (digits + [c])[..|digits|] == digits;
  }

  // The digits read are as many as fit: the field is full, or no digit follows.
  ghost predicate Ends(digits: string, width: nat, rest: string) {
    AllHex(digits) && |digits| <= width && (|digits| == width || !IsHex(Head(rest)))
  }

  lemma {:induction false} ReadHexAll(done: string, digits: string, width: nat, rest: string)
    requires AllHex(done) && Ends(digits, width, rest)
    ensures AllHex(done + digits)
    ensures ReadHex(digits + rest, width, HexPositional(done)) == HexPositional(done + digits)
    decreases |digits|
  {
    if |digits| == 0 {
      assert digits + rest == rest && done + digits == done;
    } else {
      assert (digits + rest)[1..] == digits[1..] + rest;
      HexPositionalNext(done, digits[0]);
      ReadHexAll(done + [digits[0]], digits[1..], width - 1, rest);
      assert done + [digits[0]] + digits[1..] == done + digits;
    }
  }

  lemma {:induction false} HexSplits(s: string, width: nat) returns (digits: string, rest: string)
    ensures s == digits + rest && Ends(digits, width, rest)
    ensures width > 0 && IsHex(Head(s)) ==> |digits| > 0
    decreases width
  {
    if width == 0 || |s| == 0 || !IsHex(s[0]) {
      digits, rest := "", s;
      assert "" + s == s;
    } else {
      digits, rest := HexSplits(s[1..], width - 1);
      digits := [s[0]] + digits;
    }
  }

  // An optional 0x, which is taken where it stands, and at least one digit.
  ghost predicate HexParts(prefix: string, digits: string, width: nat, rest: string) {
    && (prefix == "" || prefix == "0x" || prefix == "0X")
    && |prefix| <= width && |digits| > 0 && Ends(digits, width - |prefix|, rest)
    && (prefix == "" && width >= 2 ==> !(digits == "0" && (Head(rest) == 'x' || Head(rest) == 'X')))
  }

  lemma HexNumberReads(prefix: string, digits: string, width: nat, rest: string)
    requires HexParts(prefix, digits, width, rest)
    ensures HexNumber(prefix + (digits + rest), width) == Some(HexPositional(digits))
  {
    var s, tail := prefix + (digits + rest), digits + rest;
    ReadHexAll("", digits, width - |prefix|, rest);
    assert "" + digits == digits;
    if |prefix| == 0 {
      assert s == tail;
      assert |digits| > 1 ==> Next(s)[0] == digits[1];
      assert |digits| == 1 ==> Next(s) == rest;
    } else {
      assert s[2..] == tail && Next(s)[0] == prefix[1];
    }
  }

  lemma HexNumberSplits(s: string, width: nat) returns (prefix: string, digits: string, rest: string)
    requires HexNumber(s, width).Some?
    ensures HexParts(prefix, digits, width, rest) && s == prefix + (digits + rest)
  {
    var prefixed := width >= 2 && Head(s) == '0' && (Head(Next(s)) == 'x' || Head(Next(s)) == 'X');
    prefix := if prefixed then s[..2] else "";
    digits, rest := HexSplits(s[|prefix|..], width - |prefix|);
    assert s == s[..|prefix|] + s[|prefix|..];
    if !prefixed {
      assert s == digits + rest;
      assert |digits| == 1 ==> Next(s) == rest;
    } else {
      assert s[1] == Next(s)[0] && s[..2] == [s[0], s[1]];
    }
  }

  // Blanks, then a sign, a prefix and digits in four characters; u is their value, cut to 16 bits.
  ghost predicate FieldParts(blanks: string, sign: string, prefix: string, digits: string, rest: string, u: Unit) {
    && Blank(blanks) && (sign == "" || sign == "+" || sign == "-")
    && HexParts(prefix, digits, 4 - |sign|, rest)
    && u == (if sign == "-" then 0 - HexPositional(digits) else HexPositional(digits)) % 0x1_0000
  }

  lemma FieldSkips(blanks: string, t: string)
    requires Blank(blanks) && !IsSpace(Head(t))
    ensures HexField(blanks + t) == HexField(t)
  {
    SkipBlanks(blanks, t);
    assert SkipSpaces(t) == t;
  }

  lemma FieldSigned(sign: string, number: string, size: nat)
    requires (sign == "" || sign == "+" || sign == "-") && IsHex(Head(number))
    requires HexNumber(number, 4 - |sign|) == Some(size)
    ensures !IsSpace(Head(sign + number))
    ensures HexField(sign + number) == Some((if sign == "-" then 0 - size else size) % 0x1_0000)
  {
    var t := sign + number;
    assert t[|sign|..] == number;
    assert |sign| == 1 ==> t[0] == sign[0];
    assert |sign| == 0 ==> t == number;
    assert SkipSpaces(t) == t;
  }

  lemma HexFieldReads(blanks: string, sign: string, prefix: string, digits: string, rest: string, u: Unit)
    requires FieldParts(blanks, sign, prefix, digits, rest, u)
    ensures HexField(blanks + (sign + (prefix + (digits + rest)))) == Some(u)
  {
    var number := prefix + (digits + rest);
    HexNumberReads(prefix, digits, 4 - |sign|, rest);
    assert number[0] == if |prefix| == 0 then digits[0] else prefix[0];
    FieldSigned(sign, number, HexPositional(digits));
    FieldSkips(blanks, sign + number);
  }

  lemma HexFieldSplits(s: string)
    returns (blanks: string, sign: string, prefix: string, digits: string, rest: string)
    requires HexField(s).Some?
    ensures FieldParts(blanks, sign, prefix, digits, rest, HexField(s).value)
    ensures s == blanks + (sign + (prefix + (digits + rest)))
  {
    blanks := SkipSplits(s);
    var t := SkipSpaces(s);
    sign := if Head(t) == '-' || Head(t) == '+' then [t[0]] else "";
    var number := t[|sign|..];
    assert t == sign + number;
    prefix, digits, rest := HexNumberSplits(number, 4 - |sign|);
    HexNumberReads(prefix, digits, 4 - |sign|, rest);
  }

  // Four digits in either case are their value, whatever follows.
  lemma FourHexDigits(digits: string, rest: string)
    requires |digits| == 4 && AllHex(digits)
    ensures HexField(digits + rest) == Some(HexPositional(digits) % 0x1_0000)
  {
    HexFieldReads("", "", "", digits, rest, HexPositional(digits) % 0x1_0000);
    assert "" + ("" + ("" + (digits + rest))) == digits + rest;
  }

  // ---------------------------------------------------------------- escapes

  const ESCAPES: map<char, Unit> :=
    map['0' := 0, 'a' := 7, 'b' := 8, 't' := 9, 'n' := 10, 'v' := 11, 'f' := 12, 'r' := 13]

  // A byte as a signed char, widened to 16 bits.
  function Widened(c: char): Unit {
    ((c as int + 0x80) % 0x100 - 0x80) % 0x1_0000
  }

  lemma LowByte(k: nat, r: nat)
    requires r < 0x100
    ensures (0x100 * k + r) % 0x100 == r
  {
  }

  lemma UnitIsWidened(c: char)
    ensures ToUnit(c) == Widened(c)
  {
    var k, n := c as int / 0x100, c as int % 0x100;
    assert c as int == 0x100 * k + n;
    if n < 0x80 {
      LowByte(k, n + 0x80);
    } else {
      LowByte(k + 1, n - 0x80);
    }
  }

  // What a character means behind a backslash.
  function Meaning(c: char): Unit {
    if c in ESCAPES then ESCAPES[c] else Widened(c)
  }

  lemma UnescapeIs(c: char)
    ensures Unescape(c) == Meaning(c)
  {
    UnitIsWidened(c);
  }

  // The characters from i up to j stand for the unit u: one character other than the terminator and
  // the backslash, an escaped character, or four characters behind backslash and u whose place in the
  // text starts with a hexadecimal field.
  ghost predicate Piece(s: string, term: char, i: nat, j: nat, u: Unit) {
    && i < j <= |s| && s[i] != term
    && if s[i] != BACKSLASH then j == i + 1 && u == Widened(s[i])
       else if j == i + 2 then s[i + 1] != 'u' && u == Meaning(s[i + 1])
       else j == i + 6 && s[i + 1] == 'u' && HexField(s[i + 2..]) == Some(u)
  }

  // The text up to the last cut is cut into pieces for these units.
  ghost predicate Path(s: string, term: char, cuts: seq<nat>, units: seq<Unit>) {
    && |cuts| == |units| + 1 && cuts[0] == 0
    && forall k | 0 <= k < |units| :: Piece(s, term, cuts[k], cuts[k + 1], units[k])
  }

  lemma PieceScans(s: string, term: char, i: nat, j: nat, u: Unit, built: seq<Unit>)
    requires Piece(s, term, i, j, u)
    ensures Scan(s[i..], term, false, built) == Scan(s[j..], term, false, built + [u])
  {
    var t := s[i..];
    assert t[1..] == s[i + 1..];
    if s[i] != BACKSLASH {
      UnitIsWidened(s[i]);
    } else {
      var e := s[i + 1..];
      assert e[0] == s[i + 1] && e[1..] == s[i + 2..];
      if j == i + 2 {
        UnescapeIs(s[i + 1]);
      } else {
        assert e[5..] == s[j..];
      }
    }
  }

  lemma {:induction false} PathScans(s: string, term: char, cuts: seq<nat>, units: seq<Unit>, k: nat)
    requires Path(s, term, cuts, units) && k <= |units|
    ensures cuts[k] <= |s| && Scan(s[cuts[k]..], term, false, units[..k]) == Scan(s, term, false, [])
    decreases k
  {
    if k == 0 {
      assert s[0..] == s && units[..0] == [];
    } else {
      PathScans(s, term, cuts, units, k - 1);
      PieceScans(s, term, cuts[k - 1], cuts[k], units[k - 1], units[..k - 1]);
      assert units[..k] == units[..k - 1] + [units[k - 1]];
    }
  }

  // One more piece, if there is one and the scan finds its end.
  lemma NextCut(s: string, term: char, i: nat, built: seq<Unit>) returns (j: nat, u: Unit)
    requires i < |s| && s[i] != term && Scan(s[i..], term, false, built).found
    ensures Piece(s, term, i, j, u)
  {
    var t := s[i..];
    assert t[1..] == s[i + 1..];
    if s[i] != BACKSLASH {
      j, u := i + 1, Widened(s[i]);
    } else {
      var e := s[i + 1..];
      assert e[0] == s[i + 1] && e[1..] == s[i + 2..];
      if s[i + 1] != 'u' {
        j, u := i + 2, Meaning(s[i + 1]);
      } else {
        j, u := i + 6, HexField(s[i + 2..]).value;
      }
    }
  }

  lemma {:induction false} ScanHasPath(s: string, term: char, cuts: seq<nat>, units: seq<Unit>)
    returns (allCuts: seq<nat>)
    requires Path(s, term, cuts, units) && cuts[|units|] <= |s|
    requires Scan(s[cuts[|units|]..], term, false, units).found
    ensures var r := Scan(s[cuts[|units|]..], term, false, units);
            && Path(s, term, allCuts, r.built) && allCuts[|r.built|] < |s|
            && s[allCuts[|r.built|]] == term && r.rest == s[allCuts[|r.built|]..]
    decreases |s| - cuts[|units|]
  {
    var i := cuts[|units|];
    if s[i] == term {
      allCuts := cuts;
    } else {
      var j, u := NextCut(s, term, i, units);
      PieceScans(s, term, i, j, u, units);
      allCuts := ScanHasPath(s, term, cuts + [j], units + [u]);
    }
  }

  // scanString finds these units before a terminator at p exactly if the text before p is cut into
  // pieces for them.
  lemma ScanIff(s: string, term: char, units: seq<Unit>, p: nat)
    requires p < |s|
    ensures Scan(s, term, false, []) == Scanned(true, units, s[p..]) <==>
            s[p] == term && exists cuts :: Path(s, term, cuts, units) && cuts[|units|] == p
  {
    if Scan(s, term, false, []) == Scanned(true, units, s[p..]) {
      assert s[0..] == s;
      var cuts := ScanHasPath(s, term, [0], []);
      assert s[cuts[|units|]..] == s[p..] && |s[p..]| == |s| - p;
    }
    forall cuts | s[p] == term && Path(s, term, cuts, units) && cuts[|units|] == p
      ensures Scan(s, term, false, []) == Scanned(true, units, s[p..])
    {
      PathScans(s, term, cuts, units, |units|);
      assert units[..|units|] == units;
    }
  }

  // ---------------------------------------------------------------- lists of pairs

  lemma {:induction false} SkipFinds(s: string, stops: set<char>) returns (x: string)
    ensures s == x + Skip(s, stops) && Free(x, stops)
    ensures Head(Skip(s, stops)) == NUL || Head(Skip(s, stops)) in stops
    decreases |s|
  {
    if |s| == 0 || s[0] == NUL || s[0] in stops {
      x := "";
    } else {
      var more := SkipFinds(s[1..], stops);
      x := [s[0]] + more;
    }
  }

  lemma NumeralIsFree(text: string, n: int)
    requires Numeral(text, n)
    ensures Free(text, COMMA_OR_CLOSE)
  {
    var blanks, sign, digits :| text == blanks + (sign + digits) && Parts(blanks, sign, digits, n);
    assert forall i | 0 <= i < |text| ::
        text[i] == if i < |blanks| then blanks[i]
                   else if i < |blanks| + |sign| then sign[i - |blanks|]
                   else digits[i - |blanks| - |sign|];
  }

  // s starts with two numerals that have a comma between them, and r is where a comma or a closing
  // parenthesis comes next.
  ghost predicate PairThen(s: string, a: int, b: int, r: string) {
    exists first, second, gap, rest ::
      && s == first + ([','] + (second + rest)) && Numeral(first, a) && Numeral(second, b) && !IsDigit(Head(rest))
      && rest == gap + r && Free(gap, COMMA_OR_CLOSE) && (Head(r) == NUL || Head(r) in COMMA_OR_CLOSE)
  }

  lemma PairThenReads(s: string, a: int, b: int, r: string)
    requires PairThen(s, a, b, r) && (Head(r) == ',' || Head(r) == ')')
    ensures ReadPair(s) == Some((a, b)) && BehindPair(s) == r && Head(s) != NUL && Head(s) != ')'
  {
    var first, second, gap, rest :|
      && s == first + ([','] + (second + rest)) && Numeral(first, a) && Numeral(second, b) && !IsDigit(Head(rest))
      && rest == gap + r && Free(gap, COMMA_OR_CLOSE) && (Head(r) == NUL || Head(r) in COMMA_OR_CLOSE);
    ReadPairIff(s, a, b);
    NumeralIsFree(first, a);
    NumeralIsFree(second, b);
    var tail := second + rest;
    SkipFree(first, [','] + tail, COMMA_OR_CLOSE);
    assert ([','] + tail)[1..] == tail && tail == (second + gap) + r;
    SkipFree(second + gap, r, COMMA_OR_CLOSE);
    NumeralNotEmpty(first, a);
    assert s[0] == first[0];
  }

  lemma NumeralNotEmpty(text: string, n: int)
    requires Numeral(text, n)
    ensures text != ""
  {
  }

  lemma ReadsPairThen(s: string, a: int, b: int)
    requires ReadPair(s) == Some((a, b))
    ensures PairThen(s, a, b, BehindPair(s))
  {
    ReadPairIff(s, a, b);
    var first, second, rest :|
      s == first + ([','] + (second + rest)) && Numeral(first, a) && Numeral(second, b) && !IsDigit(Head(rest));
    NumeralIsFree(first, a);
    NumeralIsFree(second, b);
    var tail := second + rest;
    SkipFree(first, [','] + tail, COMMA_OR_CLOSE);
    assert ([','] + tail)[1..] == tail;
    var gap := SkipFinds(rest, COMMA_OR_CLOSE);
    SkipOver(second, rest, COMMA_OR_CLOSE);
  }

  lemma {:induction false} SkipOver(x: string, s: string, stops: set<char>)
    requires Free(x, stops)
    ensures Skip(x + s, stops) == Skip(s, stops)
    decreases |x|
  {
    if |x| == 0 {
      assert x + s == s;
    } else {
      assert (x + s)[1..] == x[1..] + s;
      SkipOver(x[1..], s, stops);
    }
  }

  // Reading a pair and skipping to what follows it is exactly this.
  lemma PairThenIff(s: string, a: int, b: int, r: string)
    requires Head(r) == ',' || Head(r) == ')'
    ensures ReadPair(s) == Some((a, b)) && BehindPair(s) == r <==> PairThen(s, a, b, r)
  {
    if ReadPair(s) == Some((a, b)) && BehindPair(s) == r {
      ReadsPairThen(s, a, b);
    }
    if PairThen(s, a, b, r) {
      PairThenReads(s, a, b, r);
    }
  }

  // Pairs separated by commas; the list ends with a closing parenthesis, or where a pair would start
  // also with the line.
  ghost predicate PairList(s: string, vector: seq<int>)
    decreases |vector|
  {
    if |vector| == 0 then Head(s) == NUL || Head(s) == ')'
    else
      && |vector| >= 2 && ReadPair(s) == Some((vector[0], vector[1]))
      && if Head(BehindPair(s)) == ')' then |vector| == 2
         else Head(BehindPair(s)) == ',' && PairList(BehindPair(s)[1..], vector[2..])
  }

  lemma PairNotEmpty(s: string)
    requires ReadPair(s).Some?
    ensures Head(s) != NUL && Head(s) != ')'
  {
  }

  lemma {:induction false} PairsIff(s: string, vector: seq<int>)
    ensures ParsePairs(s) == Some(vector) <==> PairList(s, vector)
    decreases |s|
  {
    if ReadPair(s).Some? {
      var a, b, r := ReadPair(s).value.0, ReadPair(s).value.1, BehindPair(s);
      PairNotEmpty(s);
      PairsStep(s, a, b, r);
      assert |vector| == 2 ==> vector == [vector[0], vector[1]];
      if Head(r) == ',' {
        if |vector| >= 2 {
          PairsIff(r[1..], vector[2..]);
          assert vector == [vector[0], vector[1]] + vector[2..];
        }
        PairsBehind(a, b, r, vector);
      }
    }
  }

  lemma PairsBehind(a: int, b: int, r: string, vector: seq<int>)
    requires Head(r) == ','
    ensures Prepend([a, b], ParsePairs(r[1..])) == Some(vector) <==>
            |vector| >= 2 && vector[0] == a && vector[1] == b && ParsePairs(r[1..]) == Some(vector[2..])
  {
    if ParsePairs(r[1..]).Some? {
      var later := ParsePairs(r[1..]).value;
      assert ([a, b] + later)[2..] == later;
      assert |vector| >= 2 ==> vector == [vector[0], vector[1]] + vector[2..];
    }
  }

  // ---------------------------------------------------------------- lines

  // p is the first blank from i on, or where the line ends.
  ghost predicate FirstBlank(line: string, i: nat, p: nat) {
    && i <= p && (At(line, p) == ' ' || At(line, p) == NUL)
    && forall k | i <= k < p :: At(line, k) != ' ' && At(line, k) != NUL
  }

  lemma {:induction false} SkipToBlank(line: string, i: nat, p: nat)
    requires FirstBlank(line, i, p)
    ensures Next(Skip(From(line, i), BLANK)) == From(line, p + 1)
    decreases p - i
  {
    FromNext(line, i);
    if i < p {
      assert At(line, i) != NUL;
      SkipToBlank(line, i + 1, p);
    }
  }

  lemma {:induction false} BlankExists(line: string, i: nat) returns (p: nat)
    ensures FirstBlank(line, i, p)
    decreases |line| - i
  {
    if At(line, i) == ' ' || At(line, i) == NUL {
      p := i;
    } else {
      p := BlankExists(line, i + 1);
    }
  }

  // The text starts with a numeral for n.
  predicate ReadsAs(s: string, n: int) {
    ReadInt(s).Some? && ReadInt(s).value.0 == n
  }

  // The numbers from i on: an integer, a blank, an integer, a blank, and a list in parentheses. What
  // stands between an integer and its blank does not matter.
  ghost predicate NumbersAt(line: string, i: nat, p: nat, q: nat, t: RegExpTest) {
    && FirstBlank(line, i, p) && FirstBlank(line, p + 1, q)
    && ReadsAs(From(line, i), t.offset) && ReadsAs(From(line, p + 1), t.result)
    && At(line, q + 1) == '(' && PairList(From(line, q + 2), t.expectVector)
  }

  ghost predicate Numbers(line: string, i: nat, t: RegExpTest) {
    exists p, q :: NumbersAt(line, i, p, q, t)
  }

  lemma OneBlank(line: string, i: nat, p: nat, p': nat)
    requires FirstBlank(line, i, p) && FirstBlank(line, i, p')
    ensures p == p'
  {
  }

  lemma NumbersRead(line: string, i: nat, p: nat, q: nat, t: RegExpTest)
    requires FirstBlank(line, i, p) && FirstBlank(line, p + 1, q)
    ensures ParseNumbers(t.subject, From(line, i)) == Some(t) <==> NumbersAt(line, i, p, q, t)
  {
    SkipToBlank(line, i, p);
    SkipToBlank(line, p + 1, q);
    FromNext(line, q + 1);
    PairsIff(From(line, q + 2), t.expectVector);
    AssembleIff(t, From(line, i), From(line, p + 1), From(line, q + 1));
  }

  lemma AssembleIff(t: RegExpTest, s: string, s1: string, s2: string)
    requires s1 == Next(Skip(s, BLANK)) && s2 == Next(Skip(s1, BLANK))
    ensures ParseNumbers(t.subject, s) == Some(t) <==>
            && ReadsAs(s, t.offset) && ReadsAs(s1, t.result)
            && Head(s2) == '(' && ParsePairs(Next(s2)) == Some(t.expectVector)
  {
  }

  lemma NumbersIff(line: string, i: nat, t: RegExpTest)
    ensures ParseNumbers(t.subject, From(line, i)) == Some(t) <==> Numbers(line, i, t)
  {
    var p := BlankExists(line, i);
    var q := BlankExists(line, p + 1);
    NumbersRead(line, i, p, q, t);
    forall p', q' | NumbersAt(line, i, p', q', t) ensures NumbersAt(line, i, p, q, t) {
      OneBlank(line, i, p, p');
      OneBlank(line, p + 1, q, q');
    }
  }

  // A test line: a blank and a quoted subject up to e, a comma and a blank, and the numbers.
  ghost predicate LineShape(line: string, e: nat, t: RegExpTest) {
    && 2 <= e && e + 2 < |line| && line[0] == ' ' && line[1] == QUOTE
    && line[e] == QUOTE && line[e + 1] == ',' && line[e + 2] == ' '
    && (exists cuts :: Path(line[2..], QUOTE, cuts, t.subject) && cuts[|t.subject|] == e - 2)
    && Numbers(line, e + 3, t)
  }

  lemma ShapeParses(line: string, e: nat, t: RegExpTest)
    requires LineShape(line, e, t)
    ensures Scan(line[2..], QUOTE, false, []).found && ParseTest(line) == Some(t)
  {
    assert line[2..][e - 2..] == line[e..] && Next(line)[0] == line[1];
    ScanIff(line[2..], QUOTE, t.subject, e - 2);
    assert line[e..][3..] == From(line, e + 3);
    NumbersIff(line, e + 3, t);
  }

  lemma ParsesAsShape(line: string, t: RegExpTest) returns (e: nat)
    requires ParseTest(line) == Some(t) && Scan(line[2..], QUOTE, false, []).found
    ensures LineShape(line, e, t)
  {
    var r := Scan(line[2..], QUOTE, false, []);
    ScanRest(line[2..], QUOTE, false, []);
    e := |line| - |r.rest|;
    assert line[2..][e - 2..] == r.rest == line[e..];
    ScanIff(line[2..], QUOTE, t.subject, e - 2);
    assert r.rest[3..] == From(line, e + 3) && Next(line)[0] == line[1];
    NumbersIff(line, e + 3, t);
  }

  // A line whose subject is terminated is accepted, and as t, exactly if it has this shape.
  lemma AcceptedIff(line: string, t: RegExpTest)
    requires |line| >= 2 && Scan(line[2..], QUOTE, false, []).found
    ensures ParseTest(line) == Some(t) <==> exists e :: LineShape(line, e, t)
  {
    if ParseTest(line) == Some(t) {
      var e := ParsesAsShape(line, t);
    }
    forall e | LineShape(line, e, t) ensures ParseTest(line) == Some(t) {
      ShapeParses(line, e, t);
    }
  }

  // A subject that is not terminated is noticed only if the line does not go on, behind the opening
  // quote, as it would behind a closing one.
  lemma UnterminatedIff(line: string, t: RegExpTest)
    requires |line| >= 2 && !Scan(line[2..], QUOTE, false, []).found
    ensures ParseTest(line) == Some(t) <==>
            && |line| > 3 && line[0] == ' ' && line[1] == QUOTE && line[2] == ',' && line[3] == ' '
            && t.subject == Scan(line[2..], QUOTE, false, []).built && Numbers(line, 4, t)
  {
    NumbersIff(line, 4, t);
    var s := line[1..];
    assert |s| > 2 ==> s[0] == line[1] && s[1] == line[2] && s[2] == line[3] && s[3..] == From(line, 4);
    assert Next(line) == s;
  }

  // Shorter lines are rejected.
  lemma ShortRejected(line: string)
    requires |line| < 2
    ensures ParseTest(line) == None
  {
  }
}
