// The trie of KeywordLookupGenerator.py as a value, the string-to-token map it denotes, and what
// insertion does to it.
module KeywordTrie {
  import opened Common

  type Token = string

  // One trie node. A Python dictionary is the sequence of its values in insertion order: every
  // entry is stored under its own prefix. The last three fields are set by fillOut.
  datatype Node = Node(prefix: Text, value: Option<Token>, kids: seq<Node>,
                       fullPrefix: Text, selfWeight: real, weight: real)

  function NewNode(prefix: Text): Node {
    Node(prefix, None, [], [], 0.0, 0.0)
  }

  // ---------------------------------------------------------------- meaning

  // The token stored for the text s below n, if any.
  function Find(n: Node, s: Text): Option<Token>
    decreases n, 1
  {
    if s == [] then n.value else FindKid(n.kids, s)
  }

  function FindKid(kids: seq<Node>, s: Text): Option<Token>
    decreases kids, 0
  {
    if kids == [] then None
    else if kids[0].prefix <= s then Find(kids[0], s[|kids[0].prefix|..])
    else FindKid(kids[1..], s)
  }

  // ---------------------------------------------------------------- invariants

  ghost predicate HeadsDiffer(kids: seq<Node>) {
    && (forall i | 0 <= i < |kids| :: kids[i].prefix != [])
    && (forall i, j | 0 <= i < j < |kids| :: kids[i].prefix[0] != kids[j].prefix[0])
  }

  lemma HeadsCons(x: Node, rest: seq<Node>)
    ensures HeadsDiffer([x] + rest) <==>
            x.prefix != [] && HeadsDiffer(rest) && forall y | y in rest :: y.prefix[0] != x.prefix[0]
  {
    var all := [x] + rest;
    assert forall i | 0 <= i < |rest| :: all[i + 1] == rest[i];
    if HeadsDiffer(all) {
      forall y | y in rest ensures y.prefix[0] != x.prefix[0] {
        var i :| 0 <= i < |rest| && rest[i] == y;
        assert all[0].prefix[0] != all[i + 1].prefix[0];
      }
    }
  }

  // No sibling is a dead end of another: prefixes are non-empty and differ in their first unit.
  ghost predicate Branching(n: Node) {
    HeadsDiffer(n.kids) && forall i | 0 <= i < |n.kids| :: Branching(n.kids[i])
  }

  // Built by insert: every edge is one unit long.
  ghost predicate Uncompressed(n: Node) {
    forall i | 0 <= i < |n.kids| :: |n.kids[i].prefix| == 1 && Uncompressed(n.kids[i])
  }

  // Every node below the root leads to a token.
  ghost predicate Live(n: Node) {
    forall i | 0 <= i < |n.kids| ::
      (n.kids[i].value.Some? || n.kids[i].kids != []) && Live(n.kids[i])
  }

  // Path-compressed: every node below the root carries a token or branches.
  ghost predicate Compressed(n: Node) {
    forall i | 0 <= i < |n.kids| ::
      (n.kids[i].value.Some? || |n.kids[i].kids| >= 2) && Compressed(n.kids[i])
  }

  lemma {:induction false} FindKidNone(kids: seq<Node>, s: Text)
    requires forall i | 0 <= i < |kids| :: !(kids[i].prefix <= s)
    ensures FindKid(kids, s) == None
    decreases |kids|
  {
    if kids != [] {
      FindKidNone(kids[1..], s);
    }
  }

  lemma {:induction false} FindKidAt(kids: seq<Node>, i: nat, s: Text)
    requires HeadsDiffer(kids) && i < |kids| && kids[i].prefix <= s
    ensures FindKid(kids, s) == Find(kids[i], s[|kids[i].prefix|..])
    decreases |kids|
  {
    if i > 0 {
      assert kids[0].prefix[0] != kids[i].prefix[0] == s[0];
      FindKidAt(kids[1..], i - 1, s);
    }
  }

  // ---------------------------------------------------------------- insert

  function Insert(n: Node, key: Text, value: Token): Node
    decreases |key|, 0, 1
  {
    if key == [] then n.(value := Some(value))
    else n.(kids := InsertKid(n.kids, key, value))
  }

  function InsertKid(kids: seq<Node>, key: Text, value: Token): seq<Node>
    requires key != []
    decreases |key|, 0, 0, |kids|
  {
    if kids == [] then [Insert(NewNode([key[0]]), key[1..], value)]
    else if kids[0].prefix == [key[0]] then [Insert(kids[0], key[1..], value)] + kids[1..]
    else [kids[0]] + InsertKid(kids[1..], key, value)
  }

  // The keyword table in file order; a later line for the same keyword wins.
  type Table = seq<(Text, Token)>

  function InsertAll(n: Node, table: Table): Node
    decreases |table|
  {
    if table == [] then n
    else InsertAll(Insert(n, table[0].0, table[0].1), table[1..])
  }

  function LastValue(table: Table, s: Text): Option<Token> {
    if table == [] then None
    else
      var rest := LastValue(table[1..], s);
      if rest.Some? then rest else if table[0].0 == s then Some(table[0].1) else None
  }

  ghost predicate Built(n: Node) {
    Branching(n) && Uncompressed(n) && Live(n)
  }

  ghost predicate KidBuilt(kid: Node) {
    |kid.prefix| == 1 && (kid.value.Some? || kid.kids != []) && Built(kid)
  }

  ghost predicate KidsBuilt(kids: seq<Node>) {
    && (forall i | 0 <= i < |kids| :: KidBuilt(kids[i]))
    && HeadsDiffer(kids)
  }

  lemma BuiltByKids(n: Node)
    ensures Built(n) <==> KidsBuilt(n.kids)
  {
  }

  // Insertion keeps the shape of an uncompressed trie.
  lemma {:induction false} InsertKeepsShape(n: Node, key: Text, value: Token)
    requires Built(n)
    ensures var r := Insert(n, key, value);
            Built(r) && r.prefix == n.prefix && (r.value.Some? || r.kids != [])
    decreases |key|, 0, 1
  {
    if key != [] {
      BuiltByKids(n);
      InsertKidKeepsShape(n.kids, key, value);
      BuiltByKids(Insert(n, key, value));
    }
  }

  lemma KidsBuiltCons(x: Node, rest: seq<Node>)
    ensures KidsBuilt([x] + rest) <==>
            KidBuilt(x) && KidsBuilt(rest) && forall y | y in rest :: y.prefix[0] != x.prefix[0]
  {
    HeadsCons(x, rest);
    var all := [x] + rest;
    assert all[0] == x && forall i | 0 < i < |all| :: all[i] == rest[i - 1];
    assert forall i | 0 <= i < |rest| :: rest[i] == all[i + 1];
  }

  ghost function Prefixes(kids: seq<Node>): set<Text> {
    set kid | kid in kids :: kid.prefix
  }

  lemma PrefixesCons(x: Node, rest: seq<Node>)
    ensures Prefixes([x] + rest) == {x.prefix} + Prefixes(rest)
  {
    forall p | p in {x.prefix} + Prefixes(rest) ensures p in Prefixes([x] + rest) {
      if p == x.prefix {
        assert x in [x] + rest;
      } else {
        var y :| y in rest && y.prefix == p;
        assert y in [x] + rest;
      }
    }
  }

  lemma {:induction false} InsertKidKeepsShape(kids: seq<Node>, key: Text, value: Token)
    requires key != [] && KidsBuilt(kids)
    ensures var r := InsertKid(kids, key, value);
            KidsBuilt(r) && r != [] && Prefixes(r) <= Prefixes(kids) + {[key[0]]}
    decreases |key|, 0, 0, |kids|
  {
    if kids == [] {
      InsertKeepsShape(NewNode([key[0]]), key[1..], value);
    } else {
      var first, rest := kids[0], kids[1..];
      assert kids == [first] + rest;
      KidsBuiltCons(first, rest);
      PrefixesCons(first, rest);
      if first.prefix == [key[0]] {
        InsertKeepsShape(first, key[1..], value);
        KidsBuiltCons(Insert(first, key[1..], value), rest);
        PrefixesCons(Insert(first, key[1..], value), rest);
      } else {
        InsertKidKeepsShape(rest, key, value);
        StillApart(first, rest, key, InsertKid(rest, key, value));
      }
    }
  }

  lemma StillApart(first: Node, rest: seq<Node>, key: Text, more: seq<Node>)
    requires KidsBuilt([first] + rest) && KidsBuilt(more) && key != [] && first.prefix != [key[0]]
    requires Prefixes(more) <= Prefixes(rest) + {[key[0]]}
    ensures KidsBuilt([first] + more) && Prefixes([first] + more) <= Prefixes([first] + rest) + {[key[0]]}
  {
    KidsBuiltCons(first, rest);
    forall y | y in more ensures y.prefix[0] != first.prefix[0] {
      assert y.prefix in Prefixes(more);
    }
    KidsBuiltCons(first, more);
    PrefixesCons(first, rest);
    PrefixesCons(first, more);
  }

  // Insertion changes the denoted map at the inserted key only.
  lemma {:induction false} InsertFinds(n: Node, key: Text, value: Token, s: Text)
    requires Uncompressed(n)
    ensures Find(Insert(n, key, value), s) == if s == key then Some(value) else Find(n, s)
    decreases |key|, 0, 1
  {
    if key != [] && s != [] {
      InsertKidFinds(n.kids, key, value, s);
    }
  }

  lemma {:induction false} InsertKidFinds(kids: seq<Node>, key: Text, value: Token, s: Text)
    requires key != [] && s != []
    requires forall i | 0 <= i < |kids| :: |kids[i].prefix| == 1 && Uncompressed(kids[i])
    ensures FindKid(InsertKid(kids, key, value), s) == if s == key then Some(value) else FindKid(kids, s)
    decreases |key|, 0, 0, |kids|
  {
    if kids == [] {
      InsertFinds(NewNode([key[0]]), key[1..], value, s[1..]);
    } else if kids[0].prefix == [key[0]] {
      InsertFinds(kids[0], key[1..], value, s[1..]);
    } else {
      InsertKidFinds(kids[1..], key, value, s);
    }
  }

  // Inserting a whole table: the trie denotes the table's last-line-wins dictionary.
  lemma {:induction false} InsertAllLaw(n: Node, table: Table, s: Text)
    requires Built(n)
    ensures Built(InsertAll(n, table))
    ensures Find(InsertAll(n, table), s) ==
            if LastValue(table, s).Some? then LastValue(table, s) else Find(n, s)
    decreases |table|
  {
    if table != [] {
      InsertKeepsShape(n, table[0].0, table[0].1);
      InsertFinds(n, table[0].0, table[0].1, s);
      InsertAllLaw(Insert(n, table[0].0, table[0].1), table[1..], s);
    }
  }
}
