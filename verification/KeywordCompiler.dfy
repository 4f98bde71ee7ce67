// The whole generator: every pass together, packed comparisons included, and what the emitted
// parseKeyword computes.
module KeywordCompiler {
  import opened Common
  import opened KeywordTrie
  import opened KeywordCoalesce
  import opened KeywordFillOut
  import opened KeywordCode
  import opened KeywordPacked

  // The driver: insert every line, compress (keeping the root), fill out.
  function Generate(table: Table, weights: Weights): Node {
    FillOut(CoalesceInPlace(InsertAll(NewNode([]), table)), [], weights)
  }

  // ---------------------------------------------------------------- the passes together

  lemma GenerateShape(table: Table, weights: Weights)
    ensures var g := Generate(table, weights);
            Branching(g) && Compressed(g) && Labelled(g, []) && Weighed(g, weights) && g.fullPrefix == []
  {
    var built := InsertAll(NewNode([]), table);
    InsertAllLaw(NewNode([]), table, []);
    RootPrefix(NewNode([]), table);
    CoalesceShape(built);
    FillOutShape(CoalesceInPlace(built), [], weights);
  }

  lemma {:induction false} RootPrefix(n: Node, table: Table)
    ensures InsertAll(n, table).prefix == n.prefix
    decreases |table|
  {
    if table != [] {
      RootPrefix(Insert(n, table[0].0, table[0].1), table[1..]);
    }
  }

  // The final trie denotes the table.
  lemma GenerateFinds(table: Table, weights: Weights, s: Text)
    ensures Find(Generate(table, weights), s) == LastValue(table, s)
  {
    var built := InsertAll(NewNode([]), table);
    InsertAllLaw(NewNode([]), table, s);
    CoalesceShape(built);
    CoalesceFinds(built, s);
    FillOutFinds(CoalesceInPlace(built), [], weights, s);
    assert Find(NewNode([]), s) == None;
  }

  // ---------------------------------------------------------------- the longest keyword

  function Longest(table: Table): nat {
    if table == [] then 0
    else
      var rest := Longest(table[1..]);
      if |table[0].0| > rest then |table[0].0| else rest
  }

  lemma {:induction false} LongestLaw(table: Table)
    ensures forall s | LastValue(table, s).Some? :: |s| <= Longest(table)
    ensures table != [] ==> exists s :: LastValue(table, s).Some? && |s| == Longest(table)
    decreases |table|
  {
    if table != [] {
      LongestLaw(table[1..]);
      assert LastValue(table, table[0].0).Some?;
      if |table[0].0| <= Longest(table[1..]) && table[1..] != [] {
        var s :| LastValue(table[1..], s).Some? && |s| == Longest(table[1..]);
        assert LastValue(table, s).Some?;
      }
    }
  }

  // Nothing below n is longer than maxLength, and below a node that leads to a token something is
  // that long.
  lemma {:induction false} MaxLengthBounds(n: Node, prefix: Text, s: Text)
    requires Labelled(n, prefix) && Find(n, s).Some?
    ensures |n.fullPrefix| + |s| <= MaxLength(n)
    decreases n, |n.kids| + 1
  {
    MaxOverKidsLaw(n.kids, |n.fullPrefix|);
    if s != [] {
      var i := FoundBelow(n.kids, s);
      MaxLengthBounds(n.kids[i], n.fullPrefix, s[|n.kids[i].prefix|..]);
    }
  }

  lemma {:induction false} FoundBelow(kids: seq<Node>, s: Text) returns (i: nat)
    requires FindKid(kids, s).Some?
    ensures i < |kids| && kids[i].prefix <= s && Find(kids[i], s[|kids[i].prefix|..]).Some?
    decreases |kids|
  {
    if kids[0].prefix <= s {
      i := 0;
    } else {
      i := FoundBelow(kids[1..], s);
      i := i + 1;
    }
  }

  lemma {:induction false} MaxLengthReached(n: Node, prefix: Text) returns (s: Text)
    requires Labelled(n, prefix) && Branching(n) && Compressed(n) && (n.value.Some? || n.kids != [])
    ensures Find(n, s).Some? && |n.fullPrefix| + |s| == MaxLength(n)
  {
    MaxOverKidsLaw(n.kids, |n.fullPrefix|);
    if MaxLength(n) == |n.fullPrefix| && n.value.Some? {
      s := [];
    } else {
      var i :| 0 <= i < |n.kids| && (MaxLength(n.kids[i]) == MaxLength(n) || MaxLength(n) == |n.fullPrefix|);
      MaxOverKidsLaw(n.kids[i].kids, |n.kids[i].fullPrefix|);
      var t := MaxLengthReached(n.kids[i], n.fullPrefix);
      s := n.kids[i].prefix + t;
      FindKidAt(n.kids, i, s);
      assert s[|n.kids[i].prefix|..] == t;
    }
  }

  lemma LongestOfTrie(g: Node, table: Table)
    requires Branching(g) && Compressed(g) && Labelled(g, []) && g.fullPrefix == []
    requires forall s :: Find(g, s) == LastValue(table, s)
    ensures MaxLength(g) == Longest(table)
  {
    LongestLaw(table);
    if table == [] {
      if g.value.Some? || g.kids != [] {
        var s := MaxLengthReached(g, []);
      }
    } else {
      var k :| LastValue(table, k).Some? && |k| == Longest(table);
      assert Find(g, k).Some?;
      MaxLengthBounds(g, [], k);
      var s := MaxLengthReached(g, []);
      assert LastValue(table, s).Some?;
    }
  }

  // maxTokenLength is one more than the longest keyword of the table.
  lemma MaxLengthIsLongest(table: Table, weights: Weights)
    ensures MaxLength(Generate(table, weights)) == Longest(table)
  {
    GenerateShape(table, weights);
    forall s ensures Find(Generate(table, weights), s) == LastValue(table, s) {
      GenerateFinds(table, weights, s);
    }
    LongestOfTrie(Generate(table, weights), table);
  }

  // ---------------------------------------------------------------- unit-by-unit correctness

  // Reference on the table alone: the first length, from `from` up, at which the input's prefix is
  // a keyword and no identifier part follows.
  function FirstKeyword(table: Table, lex: Lexical, input: Text, from: nat): Option<Accept>
    requires from <= |input|
    decreases |input| - from
  {
    if from == |input| then None
    else
      var found := LastValue(table, input[..from]);
      if found.Some? && !IdentAt(lex, input, from) then Some(Accept(from, input[..from], found.value))
      else FirstKeyword(table, lex, input, from + 1)
  }

  lemma {:induction false} ScanIsFirst(table: Table, weights: Weights, lex: Lexical, input: Text, from: nat)
    requires from <= |input|
    ensures Scan(Generate(table, weights), 0, lex, input, from) == FirstKeyword(table, lex, input, from)
    decreases |input| - from
  {
    if from < |input| {
      GenerateFinds(table, weights, input[0..from]);
      assert input[0..from] == input[..from];
      ScanIsFirst(table, weights, lex, input, from + 1);
    }
  }

  // Compiler correctness, for any table and any input longer than the longest keyword.
  lemma EmittedCodeCorrect(table: Table, weights: Weights, lex: Lexical, input: Text)
    requires Longest(table) < |input|
    ensures InBounds(Emit(Generate(table, weights)), Longest(table) + 1)
    ensures InBounds(Emit(Generate(table, weights)), |input|)
    ensures Exec(Emit(Generate(table, weights)), lex, input) == FirstKeyword(table, lex, input, 0)
  {
    var g := Generate(table, weights);
    GenerateShape(table, weights);
    MaxLengthIsLongest(table, weights);
    EmitInBounds(g, []);
    ExecScans(g, [], lex, input);
    ScanIsFirst(table, weights, lex, input, 0);
  }

  // ---------------------------------------------------------------- packed execution

  // Every comparison in the code has a macro: the emitted C compiles.
  predicate Compiles(code: Code) {
    forall i | 0 <= i < |code.branches| :: HasMacro(code.branches[i].test) && Compiles(code.branches[i].body)
  }

  // Every character literal in the code is ASCII.
  ghost predicate AsciiCode(code: Code) {
    forall i | 0 <= i < |code.branches| :: Ascii(code.branches[i].test.units) && AsciiCode(code.branches[i].body)
  }

  function Run(target: Target, width: Width, code: Code, lex: Lexical, input: Text): Option<Accept>
    requires Compiles(code) && InBounds(code, |input|)
    decreases code, |code.branches| + 1
  {
    if code.accept.Some? && !IdentAt(lex, input, code.accept.value.shift) then code.accept
    else RunChain(target, width, code, 0, lex, input)
  }

  function RunChain(target: Target, width: Width, code: Code, i: nat, lex: Lexical, input: Text): Option<Accept>
    requires Compiles(code) && InBounds(code, |input|) && i <= |code.branches|
    decreases code, |code.branches| - i
  {
    if i == |code.branches| then None
    else if PackedHolds(target, width, code.branches[i].test, input) then
      Run(target, width, code.branches[i].body, lex, input)
    else RunChain(target, width, code, i + 1, lex, input)
  }

  // Packed comparisons decide the same as unit-by-unit ones, on every target and for both widths.
  lemma {:induction false} PackedRunSame(target: Target, width: Width, code: Code, lex: Lexical, input: Text)
    requires Compiles(code) && AsciiCode(code) && InBounds(code, |input|) && Fits(input, width)
    ensures Run(target, width, code, lex, input) == Exec(code, lex, input)
    decreases code, |code.branches| + 1
  {
    PackedChainSame(target, width, code, 0, lex, input);
  }

  lemma {:induction false} PackedChainSame(target: Target, width: Width, code: Code, i: nat, lex: Lexical, input: Text)
    requires Compiles(code) && AsciiCode(code) && InBounds(code, |input|) && Fits(input, width)
    requires i <= |code.branches|
    ensures RunChain(target, width, code, i, lex, input) == ExecChain(code, i, lex, input)
    decreases code, |code.branches| - i
  {
    if i < |code.branches| {
      PackedLaw(target, width, code.branches[i].test, input);
      if Holds(code.branches[i].test, input) {
        PackedRunSame(target, width, code.branches[i].body, lex, input);
      } else {
        PackedChainSame(target, width, code, i + 1, lex, input);
      }
    }
  }
}
