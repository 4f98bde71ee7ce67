// The C decision tree that Trie.printSubTreeAsC emits, its execution, and its correctness with
// comparisons read unit by unit.
module KeywordCode {
  import opened Common
  import opened KeywordTrie
  import opened KeywordFillOut

  // What a taken value test does: internalShift<shift>(), data->ident = <ident>Keyword, return token.
  datatype Accept = Accept(shift: nat, ident: Text, token: Token)

  // code[base] == c for one unit, COMPARE_<n>(code + base, ...) for more.
  datatype Compare = Compare(base: nat, units: Text)

  datatype Code = Code(accept: Option<Accept>, branches: seq<Branch>)
  datatype Branch = Branch(test: Compare, body: Code)

  // isIdentPartIncludingEscape: one unit of an identifier, or the start of an escaped one. Which
  // units and escapes count is left open.
  datatype Lexical = Lexical(part: nat -> bool, escape: (Text, nat) -> bool)

  predicate IdentAt(lex: Lexical, input: Text, pos: nat)
    requires pos < |input|
  {
    lex.part(input[pos]) || lex.escape(input, pos)
  }

  // ---------------------------------------------------------------- emission

  function Edge(kid: Node, root: nat): Compare {
    // A three-unit edge borrows the unit before it, to be compared as one four-unit word.
    if root > 0 && |kid.prefix| == 3 && |kid.fullPrefix| >= root then
      Compare(root - 1, [kid.fullPrefix[root - 1]] + kid.prefix)
    else Compare(root, kid.prefix)
  }

  function Emit(n: Node): Code
    decreases n, 1
  {
    Code(if n.value.Some? then Some(Accept(|n.fullPrefix|, n.fullPrefix, n.value.value)) else None,
         EmitKids(n.kids, |n.fullPrefix|))
  }

  function EmitKids(kids: seq<Node>, root: nat): (r: seq<Branch>)
    ensures |r| == |kids|
    decreases kids, 0
  {
    if kids == [] then [] else [Branch(Edge(kids[0], root), Emit(kids[0]))] + EmitKids(kids[1..], root)
  }

  function MaxLength(n: Node): nat
    decreases n, 1
  {
    MaxOverKids(n.kids, |n.fullPrefix|)
  }

  function MaxOverKids(kids: seq<Node>, max: nat): nat
    decreases kids, 0
  {
    if kids == [] then max
    else MaxOverKids(kids[1..], if MaxLength(kids[0]) > max then MaxLength(kids[0]) else max)
  }

  // ---------------------------------------------------------------- execution

  // Every unit the code can read, whatever the input, is one of the first n.
  predicate InBounds(code: Code, n: nat) {
    && (code.accept.Some? ==> code.accept.value.shift < n)
    && forall i | 0 <= i < |code.branches| ::
         code.branches[i].test.base + |code.branches[i].test.units| <= n && InBounds(code.branches[i].body, n)
  }

  predicate Holds(test: Compare, input: Text)
    requires test.base + |test.units| <= |input|
  {
    input[test.base..test.base + |test.units|] == test.units
  }

  // None is falling out of the tree, to the final return IDENT. A taken branch is never left for
  // its siblings.
  function Exec(code: Code, lex: Lexical, input: Text): Option<Accept>
    requires InBounds(code, |input|)
    decreases code, |code.branches| + 1
  {
    if code.accept.Some? && !IdentAt(lex, input, code.accept.value.shift) then code.accept
    else ExecChain(code, 0, lex, input)
  }

  // The if/else-if chain from branch i on.
  function ExecChain(code: Code, i: nat, lex: Lexical, input: Text): Option<Accept>
    requires InBounds(code, |input|) && i <= |code.branches|
    decreases code, |code.branches| - i
  {
    if i == |code.branches| then None
    else if Holds(code.branches[i].test, input) then Exec(code.branches[i].body, lex, input)
    else ExecChain(code, i + 1, lex, input)
  }

  // ---------------------------------------------------------------- bounds

  lemma {:induction false} MaxOverKidsLaw(kids: seq<Node>, max: nat)
    ensures MaxOverKids(kids, max) >= max
    ensures forall i | 0 <= i < |kids| :: MaxLength(kids[i]) <= MaxOverKids(kids, max)
    ensures MaxOverKids(kids, max) == max || exists i | 0 <= i < |kids| :: MaxLength(kids[i]) == MaxOverKids(kids, max)
    decreases |kids|
  {
    if kids != [] {
      MaxOverKidsLaw(kids[1..], if MaxLength(kids[0]) > max then MaxLength(kids[0]) else max);
    }
  }

  lemma {:induction false} EmitKidsAt(kids: seq<Node>, root: nat, i: nat)
    requires i < |kids|
    ensures EmitKids(kids, root)[i] == Branch(Edge(kids[i], root), Emit(kids[i]))
    decreases |kids|
  {
    if i > 0 {
      EmitKidsAt(kids[1..], root, i - 1);
    }
  }

  lemma {:induction false} InBoundsMonotone(code: Code, m: nat, n: nat)
    requires InBounds(code, m) && m <= n
    ensures InBounds(code, n)
  {
    forall i | 0 <= i < |code.branches| ensures InBounds(code.branches[i].body, n) {
      InBoundsMonotone(code.branches[i].body, m, n);
    }
  }

  // No bounds checks are needed: every unit read has an index below maxTokenLength = maxLength + 1.
  lemma {:induction false} EmitInBounds(n: Node, prefix: Text)
    requires Labelled(n, prefix)
    ensures InBounds(Emit(n), MaxLength(n) + 1)
  {
    var bound, root := MaxLength(n) + 1, |n.fullPrefix|;
    MaxOverKidsLaw(n.kids, root);
    forall i | 0 <= i < |n.kids|
      ensures var b := EmitKids(n.kids, root)[i];
              b.test.base + |b.test.units| <= bound && InBounds(b.body, bound)
    {
      var kid := n.kids[i];
      EmitKidsAt(n.kids, root, i);
      EmitInBounds(kid, n.fullPrefix);
      MaxOverKidsLaw(kid.kids, |kid.fullPrefix|);
      InBoundsMonotone(Emit(kid), MaxLength(kid) + 1, bound);
    }
  }

  // ---------------------------------------------------------------- correctness

  // Reference: the shortest prefix of the input of at least length `from` that is a keyword below n
  // and is not followed by an identifier part. `at` is where n's own text ends.
  function Scan(n: Node, at: nat, lex: Lexical, input: Text, from: nat): Option<Accept>
    requires at <= from <= |input|
    decreases |input| - from
  {
    if from == |input| then None
    else
      var found := Find(n, input[at..from]);
      if found.Some? && !IdentAt(lex, input, from) then Some(Accept(from, input[..from], found.value))
      else Scan(n, at, lex, input, from + 1)
  }

  lemma {:induction false} ScanSkip(n: Node, at: nat, lex: Lexical, input: Text, from: nat, end: nat)
    requires at <= from <= end <= |input|
    requires forall k | from <= k < end :: Find(n, input[at..k]).None?
    ensures Scan(n, at, lex, input, from) == Scan(n, at, lex, input, end)
    decreases end - from
  {
    if from < end {
      ScanSkip(n, at, lex, input, from + 1, end);
    }
  }

  lemma {:induction false} ScanInto(n: Node, at: nat, kid: Node, kidAt: nat, lex: Lexical, input: Text, from: nat)
    requires at <= kidAt <= from <= |input|
    requires forall k | kidAt <= k <= |input| :: Find(n, input[at..k]) == Find(kid, input[kidAt..k])
    ensures Scan(n, at, lex, input, from) == Scan(kid, kidAt, lex, input, from)
    decreases |input| - from
  {
    if from < |input| {
      ScanInto(n, at, kid, kidAt, lex, input, from + 1);
    }
  }

  lemma ContinuesWith(head: Text, edge: Text, input: Text)
    requires head <= input && |head| + |edge| <= |input|
    ensures head + edge <= input <==> input[|head|..|head| + |edge|] == edge
  {
    var whole, end := head + edge, |head| + |edge|;
    assert whole[..|head|] == head && whole[|head|..] == edge;
    assert input[..end] == input[..|head|] + input[|head|..end];
  }

  // One unit borrowed from a head that is already known to match decides nothing.
  lemma BorrowedUnit(head: Text, edge: Text, input: Text)
    requires head != [] && head <= input && |head| + |edge| <= |input|
    ensures input[|head| - 1..|head| + |edge|] == [head[|head| - 1]] + edge <==> input[|head|..|head| + |edge|] == edge
  {
    var last, end := |head| - 1, |head| + |edge|;
    assert input[last..end] == [head[last]] + input[|head|..end];
  }

  // What is compared for an edge: its own units in their place, and for three units below the root also
  // the unit before them, to make up a word of four.
  lemma EdgeLaw(kid: Node, prefix: Text)
    requires Labelled(kid, prefix)
    ensures Edge(kid, |prefix|) ==
            if |kid.prefix| == 3 && prefix != [] then Compare(|prefix| - 1, [prefix[|prefix| - 1]] + kid.prefix)
            else Compare(|prefix|, kid.prefix)
  {
    assert prefix != [] ==> kid.fullPrefix[|prefix| - 1] == prefix[|prefix| - 1];
  }

  // One chain position: branch i is taken exactly when the input continues with child i's edge.
  lemma EdgeHolds(kid: Node, prefix: Text, input: Text)
    requires Labelled(kid, prefix) && prefix <= input
    requires Edge(kid, |prefix|).base + |Edge(kid, |prefix|).units| <= |input|
    ensures Holds(Edge(kid, |prefix|), input) <==> kid.fullPrefix <= input
  {
    var edge := Edge(kid, |prefix|);
    ContinuesWith(prefix, kid.prefix, input);
    if edge.base != |prefix| {
      assert kid.fullPrefix[|prefix| - 1] == prefix[|prefix| - 1];
      BorrowedUnit(prefix, kid.prefix, input);
    }
  }

  lemma SliceBehind(head: Text, edge: Text, input: Text, k: nat)
    requires head + edge <= input && |head| < k <= |input|
    ensures var s := input[|head|..k];
            if k < |head| + |edge| then s < edge
            else edge <= s && s[|edge|..] == input[|head| + |edge|..k]
  {
    ContinuesWith(head, edge, input);
    var s, end := input[|head|..k], |head| + |edge|;
    if k < end {
      assert s == input[|head|..end][..k - |head|];
    } else {
      assert s == input[|head|..end] + input[end..k];
    }
  }

  // The child whose text continues in the input owns every longer keyword.
  lemma KidFinds(n: Node, i: nat, input: Text, k: nat)
    requires HeadsDiffer(n.kids) && i < |n.kids| && n.kids[i].fullPrefix == n.fullPrefix + n.kids[i].prefix
    requires n.kids[i].fullPrefix <= input && |n.fullPrefix| < k <= |input|
    ensures Find(n, input[|n.fullPrefix|..k]) ==
            if k < |n.kids[i].fullPrefix| then None else Find(n.kids[i], input[|n.kids[i].fullPrefix|..k])
  {
    SliceBehind(n.fullPrefix, n.kids[i].prefix, input, k);
    if k < |n.kids[i].fullPrefix| {
      FindInsideEdge(n, i, input[|n.fullPrefix|..k]);
    } else {
      FindBehindEdge(n, i, input[|n.fullPrefix|..k], input[|n.kids[i].fullPrefix|..k]);
    }
  }

  lemma FindBehindEdge(n: Node, i: nat, s: Text, rest: Text)
    requires HeadsDiffer(n.kids) && i < |n.kids| && n.kids[i].prefix <= s && s[|n.kids[i].prefix|..] == rest
    ensures Find(n, s) == Find(n.kids[i], rest)
  {
    FindKidAt(n.kids, i, s);
  }

  // A proper part of one child's edge finds nothing.
  lemma FindInsideEdge(n: Node, i: nat, s: Text)
    requires HeadsDiffer(n.kids) && i < |n.kids| && s != [] && s < n.kids[i].prefix
    ensures Find(n, s) == None
  {
    assert s[0] == n.kids[i].prefix[0];
    forall j | 0 <= j < |n.kids| ensures !(n.kids[j].prefix <= s) {
      if j < i {
        assert n.kids[j].prefix[0] != n.kids[i].prefix[0];
      } else if j > i {
        assert n.kids[i].prefix[0] != n.kids[j].prefix[0];
      }
    }
    FindKidNone(n.kids, s);
  }

  lemma ScanNoKid(n: Node, lex: Lexical, input: Text)
    requires n.fullPrefix <= input && |n.fullPrefix| < |input|
    requires forall j | 0 <= j < |n.kids| ::
               n.kids[j].fullPrefix == n.fullPrefix + n.kids[j].prefix && !(n.kids[j].fullPrefix <= input)
    ensures Scan(n, |n.fullPrefix|, lex, input, |n.fullPrefix| + 1) == None
  {
    var at := |n.fullPrefix|;
    forall k | at < k < |input| ensures Find(n, input[at..k]).None? {
      assert input[..k] == n.fullPrefix + input[at..k];
      FindKidNone(n.kids, input[at..k]);
    }
    ScanSkip(n, at, lex, input, at + 1, |input|);
  }

  lemma ScanKid(n: Node, i: nat, lex: Lexical, input: Text)
    requires HeadsDiffer(n.kids) && i < |n.kids| && n.kids[i].fullPrefix == n.fullPrefix + n.kids[i].prefix
    requires n.kids[i].fullPrefix <= input
    ensures Scan(n, |n.fullPrefix|, lex, input, |n.fullPrefix| + 1) ==
            Scan(n.kids[i], |n.kids[i].fullPrefix|, lex, input, |n.kids[i].fullPrefix|)
  {
    var at, kid := |n.fullPrefix|, n.kids[i];
    forall k | at < k <= |input|
      ensures Find(n, input[at..k]) ==
              if k < |kid.fullPrefix| then None else Find(kid, input[|kid.fullPrefix|..k])
    {
      KidFinds(n, i, input, k);
    }
    ScanSkip(n, at, lex, input, at + 1, |kid.fullPrefix|);
    ScanInto(n, at, kid, |kid.fullPrefix|, lex, input, |kid.fullPrefix|);
  }

  // The emitted tree computes the reference scan.
  lemma {:induction false} ExecScans(n: Node, prefix: Text, lex: Lexical, input: Text)
    requires Branching(n) && Labelled(n, prefix)
    requires n.fullPrefix <= input && MaxLength(n) < |input|
    ensures InBounds(Emit(n), |input|)
    ensures Exec(Emit(n), lex, input) == Scan(n, |n.fullPrefix|, lex, input, |n.fullPrefix|)
    decreases n, |n.kids| + 1
  {
    EmitInBounds(n, prefix);
    InBoundsMonotone(Emit(n), MaxLength(n) + 1, |input|);
    MaxOverKidsLaw(n.kids, |n.fullPrefix|);
    assert input[..|n.fullPrefix|] == n.fullPrefix;
    assert input[|n.fullPrefix|..|n.fullPrefix|] == [];
    ChainScans(n, prefix, 0, lex, input);
  }

  lemma {:induction false} ChainScans(n: Node, prefix: Text, i: nat, lex: Lexical, input: Text)
    requires Branching(n) && Labelled(n, prefix)
    requires n.fullPrefix <= input && |n.fullPrefix| <= MaxLength(n) < |input|
    requires InBounds(Emit(n), |input|)
    requires i <= |n.kids| && forall j | 0 <= j < i :: !(n.kids[j].fullPrefix <= input)
    ensures ExecChain(Emit(n), i, lex, input) == Scan(n, |n.fullPrefix|, lex, input, |n.fullPrefix| + 1)
    decreases n, |n.kids| - i
  {
    if i == |n.kids| {
      ScanNoKid(n, lex, input);
    } else {
      EmitKidsAt(n.kids, |n.fullPrefix|, i);
      EdgeHolds(n.kids[i], n.fullPrefix, input);
      if n.kids[i].fullPrefix <= input {
        MaxOverKidsLaw(n.kids, |n.fullPrefix|);
        ScanKid(n, i, lex, input);
        ExecScans(n.kids[i], n.fullPrefix, lex, input);
      } else {
        ChainScans(n, prefix, i + 1, lex, input);
      }
    }
  }
}
