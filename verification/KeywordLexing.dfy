// What the emitted parseKeyword means to the lexer.
module KeywordLexing {
  import opened Common
  import opened KeywordTrie
  import opened KeywordFillOut
  import opened KeywordCode
  import opened KeywordPacked
  import opened KeywordCompiler
  import opened KeywordEdges

  // The emitted C, with its packed word comparisons, on any target and for both character widths.
  lemma ParseKeywordCorrect(target: Target, width: Width, table: Table, weights: Weights, lex: Lexical, input: Text)
    requires AsciiTable(table) && forall k, p: nat :: !LongRun(table, k, p)
    requires Fits(input, width) && Longest(table) < |input|
    ensures var code := Emit(Generate(table, weights));
            && Compiles(code) && InBounds(code, |input|)
            && Run(target, width, code, lex, input) == FirstKeyword(table, lex, input, 0)
  {
    var g := Generate(table, weights);
    CompilesExactlyWhen(table, weights);
    GenerateHolds(table, weights);
    EmitsKeywords(g, [], table);
    EmitsAscii(Emit(g), table);
    EmittedCodeCorrect(table, weights, lex, input);
    PackedRunSame(target, width, Emit(g), lex, input);
  }

  // ---------------------------------------------------------------- which keyword

  // The input starts with keyword k, and k is not the start of a longer identifier.
  predicate Matches(table: Table, lex: Lexical, input: Text, k: Text) {
    IsKeyword(table, k) && k <= input && |k| < |input| && !IdentAt(lex, input, |k|)
  }

  // The reference picks the shortest match, for any table whatever.
  lemma {:induction false} FirstIsShortest(table: Table, lex: Lexical, input: Text, from: nat)
    requires from <= |input|
    ensures var r := FirstKeyword(table, lex, input, from);
            && (r.None? ==> forall k | Matches(table, lex, input, k) :: |k| < from)
            && (r.Some? ==>
                  && Matches(table, lex, input, r.value.ident)
                  && r == Some(Accept(|r.value.ident|, r.value.ident, LastValue(table, r.value.ident).value))
                  && from <= |r.value.ident|
                  && forall k | Matches(table, lex, input, k) && from <= |k| :: |r.value.ident| <= |k|)
    decreases |input| - from
  {
    if from < |input| && !(IsKeyword(table, input[..from]) && !IdentAt(lex, input, from)) {
      FirstIsShortest(table, lex, input, from + 1);
      forall k | Matches(table, lex, input, k) ensures |k| != from {
        assert k == input[..|k|];
      }
    }
  }

  // Keywords are made of identifier parts.
  ghost predicate KeywordsAreIdents(table: Table, lex: Lexical) {
    forall k, i | IsKeyword(table, k) && 0 <= i < |k| :: lex.part(k[i])
  }

  // Then at most one keyword matches, and it is returned exactly when it does.
  lemma KeywordReturnedIffMatches(table: Table, lex: Lexical, input: Text, k: Text)
    requires KeywordsAreIdents(table, lex)
    ensures Matches(table, lex, input, k) <==>
            IsKeyword(table, k) && FirstKeyword(table, lex, input, 0) == Some(Accept(|k|, k, LastValue(table, k).value))
    ensures FirstKeyword(table, lex, input, 0) == None <==> forall k' :: !Matches(table, lex, input, k')
    ensures forall k' | Matches(table, lex, input, k) && Matches(table, lex, input, k') :: k' == k
  {
    FirstIsShortest(table, lex, input, 0);
    forall j, j' | Matches(table, lex, input, j) && Matches(table, lex, input, j') ensures j == j' {
      OneMatch(table, lex, input, j, j');
      OneMatch(table, lex, input, j', j);
    }
  }

  lemma OneMatch(table: Table, lex: Lexical, input: Text, j: Text, k: Text)
    requires KeywordsAreIdents(table, lex)
    requires Matches(table, lex, input, j) && Matches(table, lex, input, k)
    ensures |j| >= |k| && (|j| == |k| ==> j == k)
  {
    assert k == input[..|k|] && j == input[..|j|];
    assert forall i | 0 <= i < |k| :: lex.part(k[i]) && k[i] == input[i];
  }

  // The longest run of identifier parts at the start of the input.
  function Leading(lex: Lexical, input: Text): (r: Text)
    ensures r <= input && (forall i | 0 <= i < |r| :: lex.part(input[i]))
    ensures |r| < |input| ==> !lex.part(input[|r|])
  {
    if input == [] || !lex.part(input[0]) then [] else [input[0]] + Leading(lex, input[1..])
  }

  // Lexing a keyword is dictionary lookup of the leading identifier, unless an escape continues it.
  lemma LooksUpLeadingIdentifier(table: Table, lex: Lexical, input: Text)
    requires KeywordsAreIdents(table, lex) && Longest(table) < |input|
    ensures var id := Leading(lex, input);
            FirstKeyword(table, lex, input, 0) ==
            if IsKeyword(table, id) && !(|id| < |input| && lex.escape(input, |id|))
            then Some(Accept(|id|, id, LastValue(table, id).value)) else None
  {
    var id := Leading(lex, input);
    FirstIsShortest(table, lex, input, 0);
    LongestLaw(table);
    forall k | Matches(table, lex, input, k) ensures k == id {
      assert k == input[..|k|];
      assert forall i | 0 <= i < |k| :: lex.part(k[i]) && k[i] == input[i];
    }
  }
}
