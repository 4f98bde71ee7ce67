// Path compression: Trie.coalesce.
module KeywordCoalesce {
  import opened Common
  import opened KeywordTrie

  // keys[t.prefix] = t on an insertion-ordered dictionary: an equal key is overwritten in place.
  function DictSet(keys: seq<Node>, t: Node): seq<Node> {
    if keys == [] then [t]
    else if keys[0].prefix == t.prefix then [t] + keys[1..]
    else [keys[0]] + DictSet(keys[1..], t)
  }

  // What coalesce leaves in the node itself; the driver keeps only this of the root.
  function CoalesceInPlace(n: Node): Node
    decreases n, 1
  {
    n.(kids := CoalesceKids(n.kids, []))
  }

  function CoalesceKids(kids: seq<Node>, done: seq<Node>): seq<Node>
    decreases kids, 0
  {
    if kids == [] then done
    else CoalesceKids(kids[1..], DictSet(done, Coalesce(kids[0])))
  }

  // A node with no token and one child is replaced by a fresh node for both edges.
  function Absorb(n: Node): Node {
    if n.value.Some? || |n.kids| != 1 then n
    else Node(n.prefix + n.kids[0].prefix, n.kids[0].value, n.kids[0].kids, [], 0.0, 0.0)
  }

  // The node coalesce returns.
  function Coalesce(n: Node): Node
    decreases n, 2
  {
    Absorb(CoalesceInPlace(n))
  }

  // ---------------------------------------------------------------- re-keying

  function CoalesceEach(kids: seq<Node>): (r: seq<Node>)
    ensures |r| == |kids|
    ensures forall i | 0 <= i < |kids| :: r[i] == Coalesce(kids[i])
  {
    if kids == [] then [] else [Coalesce(kids[0])] + CoalesceEach(kids[1..])
  }

  lemma {:induction false} DictSetFresh(keys: seq<Node>, t: Node)
    requires forall i | 0 <= i < |keys| :: keys[i].prefix != t.prefix
    ensures DictSet(keys, t) == keys + [t]
  {
    if keys != [] {
      DictSetFresh(keys[1..], t);
    }
  }

  lemma CoalesceExtends(n: Node)
    ensures n.prefix <= Coalesce(n).prefix
  {
  }

  ghost predicate Apart(done: seq<Node>, kids: seq<Node>) {
    && (forall i | 0 <= i < |done| :: done[i].prefix != [])
    && (forall j | 0 <= j < |kids| :: kids[j].prefix != [])
    && (forall i, j | 0 <= i < |done| && 0 <= j < |kids| :: done[i].prefix[0] != kids[j].prefix[0])
  }

  lemma ApartStep(done: seq<Node>, kids: seq<Node>, t: Node)
    requires kids != [] && HeadsDiffer(kids) && Apart(done, kids)
    requires kids[0].prefix <= t.prefix
    ensures Apart(done + [t], kids[1..]) && HeadsDiffer(kids[1..])
    ensures forall i | 0 <= i < |done| :: done[i].prefix != t.prefix
  {
    assert t.prefix[0] == kids[0].prefix[0];
  }

  // Re-keying by merged prefix loses no child: siblings keep their distinct first units.
  lemma {:induction false} RekeyLosesNothing(kids: seq<Node>, done: seq<Node>)
    requires HeadsDiffer(kids) && Apart(done, kids)
    ensures CoalesceKids(kids, done) == done + CoalesceEach(kids)
    decreases |kids|
  {
    if kids != [] {
      var t := Coalesce(kids[0]);
      CoalesceExtends(kids[0]);
      ApartStep(done, kids, t);
      DictSetFresh(done, t);
      RekeyLosesNothing(kids[1..], done + [t]);
      assert (done + [t]) + CoalesceEach(kids[1..]) == done + ([t] + CoalesceEach(kids[1..]));
    }
  }

  lemma CoalesceInPlaceKids(n: Node)
    requires HeadsDiffer(n.kids)
    ensures CoalesceInPlace(n) == n.(kids := CoalesceEach(n.kids))
  {
    RekeyLosesNothing(n.kids, []);
    assert [] + CoalesceEach(n.kids) == CoalesceEach(n.kids);
  }

  // ---------------------------------------------------------------- shape

  // Coalescing keeps siblings distinguishable by their first unit and yields the compressed form.
  lemma {:induction false} CoalesceShape(n: Node)
    requires Branching(n) && Live(n)
    ensures Branching(CoalesceInPlace(n)) && Compressed(CoalesceInPlace(n))
    ensures |CoalesceInPlace(n).kids| == |n.kids|
    ensures Branching(Coalesce(n)) && Compressed(Coalesce(n))
    ensures n.value.Some? || n.kids != [] ==> Coalesce(n).value.Some? || |Coalesce(n).kids| >= 2
  {
    CoalesceInPlaceKids(n);
    var m := CoalesceInPlace(n);
    forall i | 0 <= i < |n.kids|
      ensures Branching(m.kids[i]) && Compressed(m.kids[i])
      ensures m.kids[i].value.Some? || |m.kids[i].kids| >= 2
      ensures m.kids[i].prefix != [] && m.kids[i].prefix[0] == n.kids[i].prefix[0]
    {
      CoalesceShape(n.kids[i]);
      CoalesceExtends(n.kids[i]);
    }
    assert HeadsDiffer(m.kids);
  }

  // ---------------------------------------------------------------- meaning

  // The token for s read from the start of n's own edge.
  function FindEdge(n: Node, s: Text): Option<Token> {
    if n.prefix <= s then Find(n, s[|n.prefix|..]) else None
  }

  // What is found below a node depends on its token and its children only.
  lemma SameBelow(m: Node, n: Node, s: Text)
    requires m.value == n.value && m.kids == n.kids
    ensures Find(m, s) == Find(n, s)
  {
    if s != [] {
      assert Find(m, s) == FindKid(m.kids, s);
    }
  }

  lemma AbsorbFinds(n: Node, s: Text)
    requires Branching(n)
    ensures FindEdge(Absorb(n), s) == FindEdge(n, s)
  {
    if n.value.None? && |n.kids| == 1 && n.prefix <= s {
      var kid, rest := n.kids[0], s[|n.prefix|..];
      assert Absorb(n).prefix <= s <==> kid.prefix <= rest;
      if kid.prefix <= rest {
        var end := rest[|kid.prefix|..];
        assert end == s[|Absorb(n).prefix|..];
        FindKidAt(n.kids, 0, rest);
        assert Find(n, rest) == Find(kid, end);
        SameBelow(kid, Absorb(n), end);
      } else {
        FindKidNone(n.kids, rest);
      }
    }
  }

  // Path compression preserves the denoted map, of the node itself and of the node returned.
  lemma {:induction false} CoalesceFinds(n: Node, s: Text)
    requires Branching(n) && Live(n)
    ensures Find(CoalesceInPlace(n), s) == Find(n, s)
    decreases n, 1
  {
    CoalesceInPlaceKids(n);
    if s != [] {
      CoalesceEachFinds(n.kids, s);
    }
  }

  lemma {:induction false} CoalesceFindsEdge(n: Node, s: Text)
    requires Branching(n) && Live(n)
    ensures FindEdge(Coalesce(n), s) == FindEdge(n, s)
    decreases n, 2
  {
    if n.prefix <= s {
      CoalesceFinds(n, s[|n.prefix|..]);
    }
    CoalesceShape(n);
    AbsorbFinds(CoalesceInPlace(n), s);
  }

  lemma {:induction false} CoalesceEachFinds(kids: seq<Node>, s: Text)
    requires HeadsDiffer(kids) && s != []
    requires forall i | 0 <= i < |kids| :: Branching(kids[i]) && Live(kids[i])
    ensures FindKid(CoalesceEach(kids), s) == FindKid(kids, s)
    decreases kids, 0
  {
    if kids != [] {
      CoalesceFindsEdge(kids[0], s);
      CoalesceExtends(kids[0]);
      if kids[0].prefix <= s {
        forall i | 0 < i < |kids| ensures !(Coalesce(kids[i]).prefix <= s) {
          CoalesceExtends(kids[i]);
        }
        FindKidNone(CoalesceEach(kids[1..]), s);
      } else {
        CoalesceEachFinds(kids[1..], s);
      }
    }
  }
}
