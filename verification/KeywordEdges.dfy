// Which table a generated trie's edges come from: when the emitted C has a macro for every
// comparison, and which literals it contains.
module KeywordEdges {
  import opened Common
  import opened KeywordTrie
  import opened KeywordFillOut
  import opened KeywordCode
  import opened KeywordPacked
  import opened KeywordCompiler

  predicate IsKeyword(table: Table, t: Text) {
    LastValue(table, t).Some?
  }

  // n holds exactly the keywords that start with its full prefix, and its subtree is in final form.
  ghost predicate Holder(n: Node, prefix: Text, table: Table) {
    && Branching(n) && Compressed(n) && Labelled(n, prefix)
    && forall s :: Find(n, s) == LastValue(table, n.fullPrefix + s)
  }

  lemma GenerateHolds(table: Table, weights: Weights)
    ensures Holder(Generate(table, weights), [], table)
  {
    GenerateShape(table, weights);
    forall s ensures Find(Generate(table, weights), s) == LastValue(table, [] + s) {
      GenerateFinds(table, weights, s);
      assert [] + s == s;
    }
  }

  lemma KidHolds(n: Node, prefix: Text, table: Table, i: nat)
    requires Holder(n, prefix, table) && i < |n.kids|
    ensures Holder(n.kids[i], n.fullPrefix, table)
  {
    var kid := n.kids[i];
    assert Labelled(kid, n.fullPrefix);
    forall s ensures Find(kid, s) == LastValue(table, kid.fullPrefix + s) {
      FindKidAt(n.kids, i, kid.prefix + s);
      assert (kid.prefix + s)[|kid.prefix|..] == s;
      assert n.fullPrefix + (kid.prefix + s) == kid.fullPrefix + s;
    }
  }

  // Every node below the root lies on a keyword.
  lemma KeywordThrough(n: Node, prefix: Text, table: Table) returns (k: Text)
    requires Holder(n, prefix, table) && (n.value.Some? || n.kids != [])
    ensures IsKeyword(table, k) && n.fullPrefix <= k
  {
    var s := MaxLengthReached(n, prefix);
    k := n.fullPrefix + s;
  }

  // ---------------------------------------------------------------- literals

  // Every comparison in the code compares a stretch of some keyword, at that stretch's own place.
  ghost predicate FromKeywords(code: Code, table: Table) {
    forall i | 0 <= i < |code.branches| ::
      PartOfKeyword(code.branches[i].test, table) && FromKeywords(code.branches[i].body, table)
  }

  ghost predicate PartOfKeyword(test: Compare, table: Table) {
    exists k :: IsKeyword(table, k) && StretchOf(test, k)
  }

  ghost predicate StretchOf(test: Compare, k: Text) {
    test.base + |test.units| <= |k| && k[test.base..test.base + |test.units|] == test.units
  }

  lemma EdgeIsStretch(kid: Node, prefix: Text, k: Text)
    requires Labelled(kid, prefix) && kid.fullPrefix <= k
    ensures StretchOf(Edge(kid, |prefix|), k)
  {
    assert prefix <= k by {
      assert prefix == kid.fullPrefix[..|prefix|];
    }
    EdgeHolds(kid, prefix, k);
  }

  lemma {:induction false} EmitsKeywords(n: Node, prefix: Text, table: Table)
    requires Holder(n, prefix, table)
    ensures FromKeywords(Emit(n), table)
  {
    forall i | 0 <= i < |n.kids|
      ensures PartOfKeyword(Emit(n).branches[i].test, table) && FromKeywords(Emit(n).branches[i].body, table)
    {
      EmitKidsAt(n.kids, |n.fullPrefix|, i);
      KidHolds(n, prefix, table, i);
      EmitsKeywords(n.kids[i], n.fullPrefix, table);
      var k := KeywordThrough(n.kids[i], n.fullPrefix, table);
      EdgeIsStretch(n.kids[i], n.fullPrefix, k);
    }
  }

  ghost predicate AsciiTable(table: Table) {
    forall k | IsKeyword(table, k) :: Ascii(k)
  }

  lemma {:induction false} EmitsAscii(code: Code, table: Table)
    requires FromKeywords(code, table) && AsciiTable(table)
    ensures AsciiCode(code)
  {
    forall i | 0 <= i < |code.branches|
      ensures Ascii(code.branches[i].test.units) && AsciiCode(code.branches[i].body)
    {
      var test := code.branches[i].test;
      EmitsAscii(code.branches[i].body, table);
      var k :| IsKeyword(table, k) && StretchOf(test, k);
      assert forall j | 0 <= j < |test.units| :: test.units[j] == k[test.base + j];
    }
  }

  // ---------------------------------------------------------------- where edges end

  // Some keyword starts with t.
  ghost predicate Extends(table: Table, t: Text) {
    exists k :: IsKeyword(table, k) && t <= k
  }

  // A text at which the trie must have a node: a keyword, or a point where keywords part.
  ghost predicate Stop(table: Table, t: Text) {
    IsKeyword(table, t) || exists a, b :: a != b && Extends(table, t + [a]) && Extends(table, t + [b])
  }

  lemma NodeIsStop(n: Node, prefix: Text, table: Table)
    requires Holder(n, prefix, table) && (n.value.Some? || |n.kids| >= 2)
    ensures Stop(table, n.fullPrefix)
  {
    if n.value.Some? {
      assert Find(n, []) == n.value && n.fullPrefix + [] == n.fullPrefix;
    } else {
      var a, b := n.kids[0].prefix[0], n.kids[1].prefix[0];
      ExtendsThrough(n, prefix, table, 0);
      ExtendsThrough(n, prefix, table, 1);
      assert a != b;
    }
  }

  lemma ExtendsThrough(n: Node, prefix: Text, table: Table, i: nat)
    requires Holder(n, prefix, table) && i < |n.kids|
    ensures Extends(table, n.fullPrefix + [n.kids[i].prefix[0]])
  {
    KidHolds(n, prefix, table, i);
    var k := KeywordThrough(n.kids[i], n.fullPrefix, table);
    assert k[|n.fullPrefix|] == n.kids[i].prefix[0];
  }

  // Inside an edge there is nothing to stop at.
  lemma NoStopInside(n: Node, prefix: Text, table: Table, i: nat, q: nat)
    requires Holder(n, prefix, table) && i < |n.kids|
    requires |n.fullPrefix| < q < |n.kids[i].fullPrefix|
    ensures !Stop(table, n.kids[i].fullPrefix[..q])
  {
    var kid := n.kids[i];
    var t := kid.fullPrefix[..q];
    assert Labelled(kid, n.fullPrefix);
    KidFinds(n, i, kid.fullPrefix, q);
    assert t == n.fullPrefix + kid.fullPrefix[|n.fullPrefix|..q];
    forall a | Extends(table, t + [a]) ensures a == kid.fullPrefix[q] {
      var k :| IsKeyword(table, k) && t + [a] <= k;
      assert k == n.fullPrefix + k[|n.fullPrefix|..];
      SameEdge(n, i, k[|n.fullPrefix|..]);
    }
  }

  // A keyword that enters child i's edge runs through all of it.
  lemma SameEdge(n: Node, i: nat, s: Text)
    requires HeadsDiffer(n.kids) && i < |n.kids| && s != [] && s[0] == n.kids[i].prefix[0]
    requires Find(n, s).Some?
    ensures n.kids[i].prefix <= s
  {
    var j := FoundBelow(n.kids, s);
    assert n.kids[j].prefix[0] == s[0];
  }

  // ---------------------------------------------------------------- macros

  // Nine units of keyword k, from p on, with nowhere to stop in between.
  ghost predicate LongRun(table: Table, k: Text, p: nat) {
    IsKeyword(table, k) && p + 9 <= |k| && forall q | p < q <= p + 8 :: !Stop(table, k[..q])
  }

  lemma LongEdge(n: Node, prefix: Text, table: Table, i: nat) returns (k: Text)
    requires Holder(n, prefix, table) && i < |n.kids| && |n.kids[i].prefix| > 8
    ensures LongRun(table, k, |n.fullPrefix|)
  {
    var kid, p := n.kids[i], |n.fullPrefix|;
    KidHolds(n, prefix, table, i);
    k := KeywordThrough(kid, n.fullPrefix, table);
    forall q | p < q <= p + 8 ensures !Stop(table, k[..q]) {
      NoStopInside(n, prefix, table, i, q);
      assert k[..q] == kid.fullPrefix[..q];
    }
  }

  lemma {:induction false} ShortRunsCompile(n: Node, prefix: Text, table: Table)
    requires Holder(n, prefix, table)
    requires forall k, p: nat :: !LongRun(table, k, p)
    ensures Compiles(Emit(n))
  {
    forall i | 0 <= i < |n.kids|
      ensures HasMacro(Emit(n).branches[i].test) && Compiles(Emit(n).branches[i].body)
    {
      EmitKidsAt(n.kids, |n.fullPrefix|, i);
      KidHolds(n, prefix, table, i);
      ShortRunsCompile(n.kids[i], n.fullPrefix, table);
      if |n.kids[i].prefix| > 8 {
        var k := LongEdge(n, prefix, table, i);
      }
    }
  }

  lemma {:induction false} LongRunFails(n: Node, prefix: Text, table: Table, k: Text, p: nat)
    requires Holder(n, prefix, table) && LongRun(table, k, p)
    requires n.fullPrefix <= k && |n.fullPrefix| <= p
    ensures !Compiles(Emit(n))
  {
    var s := k[|n.fullPrefix|..];
    assert k == n.fullPrefix + s;
    var i := FoundBelow(n.kids, s);
    var kid := n.kids[i];
    EmitKidsAt(n.kids, |n.fullPrefix|, i);
    KidHolds(n, prefix, table, i);
    assert kid.fullPrefix == k[..|kid.fullPrefix|];
    if |kid.fullPrefix| <= p {
      LongRunFails(kid, n.fullPrefix, table, k, p);
    } else {
      NodeIsStop(kid, n.fullPrefix, table);
      assert |kid.prefix| >= 9;
    }
  }

  // The emitted C compiles if and only if no nine units of a keyword pass without a keyword ending
  // or parting from another.
  lemma CompilesExactlyWhen(table: Table, weights: Weights)
    ensures Compiles(Emit(Generate(table, weights))) <==> forall k, p: nat :: !LongRun(table, k, p)
  {
    var g := Generate(table, weights);
    GenerateHolds(table, weights);
    GenerateShape(table, weights);
    if forall k, p: nat :: !LongRun(table, k, p) {
      ShortRunsCompile(g, [], table);
    } else {
      var k, p: nat :| LongRun(table, k, p);
      LongRunFails(g, [], table, k, p);
    }
  }

  // ---------------------------------------------------------------- and some tables do not

  // A keyword of more than eight units that stands alone.
  lemma LoneLongKeyword(key: Text, token: Token, weights: Weights)
    requires |key| > 8
    ensures !Compiles(Emit(Generate([(key, token)], weights)))
  {
    var table: Table := [(key, token)];
    forall k ensures IsKeyword(table, k) <==> k == key {
      assert LastValue(table[1..], k) == None;
    }
    forall q | 0 < q <= 8 ensures !Stop(table, key[..q]) {
      forall a | Extends(table, key[..q] + [a]) ensures a == key[q] {
        assert key[..q] + [a] <= key;
        assert (key[..q] + [a])[q] == a;
      }
    }
    assert LongRun(table, key, 0);
    CompilesExactlyWhen(table, weights);
  }

  // The table of the one keyword "arguments", for example.
  lemma ArgumentsAlone(token: Token, weights: Weights)
    ensures var arguments: Text := [0x61, 0x72, 0x67, 0x75, 0x6D, 0x65, 0x6E, 0x74, 0x73];
            !Compiles(Emit(Generate([(arguments, token)], weights)))
  {
    LoneLongKeyword([0x61, 0x72, 0x67, 0x75, 0x6D, 0x65, 0x6E, 0x74, 0x73], token, weights);
  }
}
