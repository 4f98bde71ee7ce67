// Trie.fillOut: full prefixes, weights, and children in order of decreasing weight.
module KeywordFillOut {
  import opened Common
  import opened KeywordTrie

  type Weights = map<Text, real>

  function WeightOf(keyword: Text, weights: Weights): real {
    if keyword in weights then weights[keyword] else 0.0
  }

  function FillOut(n: Node, prefix: Text, weights: Weights): Node
    decreases n, 1
  {
    var full := prefix + n.prefix;
    var own := WeightOf(full, weights);
    var kids := FillEach(n.kids, full, weights);
    Node(n.prefix, n.value, SortByWeight(kids), full, own, own + TotalWeight(kids))
  }

  function FillEach(kids: seq<Node>, prefix: Text, weights: Weights): (r: seq<Node>)
    ensures |r| == |kids|
    decreases kids, 0
  {
    if kids == [] then [] else [FillOut(kids[0], prefix, weights)] + FillEach(kids[1..], prefix, weights)
  }

  lemma {:induction false} FillEachAt(kids: seq<Node>, prefix: Text, weights: Weights, i: nat)
    requires i < |kids|
    ensures FillEach(kids, prefix, weights)[i] == FillOut(kids[i], prefix, weights)
    ensures FillEach(kids, prefix, weights)[i].prefix == kids[i].prefix
    decreases |kids|
  {
    if i > 0 {
      FillEachAt(kids[1..], prefix, weights, i - 1);
    }
  }

  function TotalWeight(kids: seq<Node>): real {
    if kids == [] then 0.0 else kids[0].weight + TotalWeight(kids[1..])
  }

  // Python's sorted(..., reverse=True): decreasing weight, equal weights in their old order.
  function SortByWeight(kids: seq<Node>): seq<Node> {
    if kids == [] then [] else Place(kids[0], SortByWeight(kids[1..]))
  }

  function Place(kid: Node, sorted: seq<Node>): seq<Node> {
    if sorted == [] || kid.weight >= sorted[0].weight then [kid] + sorted
    else [sorted[0]] + Place(kid, sorted[1..])
  }

  ghost predicate Descending(kids: seq<Node>) {
    forall i, j | 0 <= i < j < |kids| :: kids[i].weight >= kids[j].weight
  }

  // The children of one weight, in order.
  function OfWeight(kids: seq<Node>, w: real): seq<Node> {
    if kids == [] then [] else (if kids[0].weight == w then [kids[0]] else []) + OfWeight(kids[1..], w)
  }

  lemma {:induction false} PlaceMembers(kid: Node, sorted: seq<Node>)
    ensures multiset(Place(kid, sorted)) == multiset{kid} + multiset(sorted)
    ensures forall x :: x in Place(kid, sorted) <==> x == kid || x in sorted
    decreases |sorted|
  {
    if sorted != [] && kid.weight < sorted[0].weight {
      PlaceMembers(kid, sorted[1..]);
      assert sorted == [sorted[0]] + sorted[1..];
    }
  }

  lemma {:induction false} PlaceDescends(kid: Node, sorted: seq<Node>)
    requires Descending(sorted)
    ensures Descending(Place(kid, sorted))
    decreases |sorted|
  {
    if sorted != [] && kid.weight < sorted[0].weight {
      PlaceDescends(kid, sorted[1..]);
      PlaceMembers(kid, sorted[1..]);
      var rest := Place(kid, sorted[1..]);
      forall i | 0 <= i < |rest| ensures rest[i].weight <= sorted[0].weight {
        assert rest[i] in rest;
      }
    }
  }

  lemma {:induction false} PlaceStable(kid: Node, sorted: seq<Node>, w: real)
    requires Descending(sorted)
    ensures OfWeight(Place(kid, sorted), w) == OfWeight([kid] + sorted, w)
    decreases |sorted|
  {
    assert ([kid] + sorted)[1..] == sorted;
    if sorted != [] && kid.weight < sorted[0].weight {
      PlaceStable(kid, sorted[1..], w);
      assert ([kid] + sorted[1..])[1..] == sorted[1..];
    }
  }

  lemma {:induction false} SortMembers(kids: seq<Node>)
    ensures multiset(SortByWeight(kids)) == multiset(kids)
    ensures forall x :: x in SortByWeight(kids) <==> x in kids
    decreases |kids|
  {
    if kids != [] {
      SortMembers(kids[1..]);
      PlaceMembers(kids[0], SortByWeight(kids[1..]));
      assert kids == [kids[0]] + kids[1..];
    }
  }

  // fillOut's reordering is a stable sort by decreasing weight.
  lemma {:induction false} SortLaw(kids: seq<Node>, w: real)
    ensures var r := SortByWeight(kids);
            && Descending(r) && multiset(r) == multiset(kids) && OfWeight(r, w) == OfWeight(kids, w)
    ensures forall x :: x in SortByWeight(kids) <==> x in kids
    decreases |kids|
  {
    if kids != [] {
      var rest := SortByWeight(kids[1..]);
      SortLaw(kids[1..], w);
      PlaceDescends(kids[0], rest);
      PlaceStable(kids[0], rest, w);
      assert ([kids[0]] + rest)[1..] == rest;
    }
    SortMembers(kids);
  }

  // ---------------------------------------------------------------- meaning

  lemma {:induction false} PlaceFinds(kid: Node, sorted: seq<Node>, s: Text)
    requires HeadsDiffer([kid] + sorted)
    ensures HeadsDiffer(Place(kid, sorted))
    ensures FindKid(Place(kid, sorted), s) == FindKid([kid] + sorted, s)
    decreases |sorted|
  {
    assert ([kid] + sorted)[1..] == sorted;
    if sorted != [] && kid.weight < sorted[0].weight {
      var first, rest := sorted[0], sorted[1..];
      assert sorted == [first] + rest;
      HeadsCons(kid, sorted);
      HeadsCons(first, rest);
      HeadsCons(kid, rest);
      PlaceFinds(kid, rest, s);
      PlaceMembers(kid, rest);
      HeadsCons(first, Place(kid, rest));
      assert ([kid] + rest)[1..] == rest && ([first] + Place(kid, rest))[1..] == Place(kid, rest);
    }
  }

  lemma {:induction false} SortFinds(kids: seq<Node>, s: Text)
    requires HeadsDiffer(kids)
    ensures HeadsDiffer(SortByWeight(kids))
    ensures FindKid(SortByWeight(kids), s) == FindKid(kids, s)
    decreases |kids|
  {
    if kids != [] {
      var rest := SortByWeight(kids[1..]);
      assert kids == [kids[0]] + kids[1..];
      HeadsCons(kids[0], kids[1..]);
      SortFinds(kids[1..], s);
      SortLaw(kids[1..], 0.0);
      HeadsCons(kids[0], rest);
      PlaceFinds(kids[0], rest, s);
      assert ([kids[0]] + rest)[1..] == rest;
    }
  }

  lemma FillEachHeads(kids: seq<Node>, prefix: Text, weights: Weights)
    requires HeadsDiffer(kids)
    ensures HeadsDiffer(FillEach(kids, prefix, weights))
  {
    forall i | 0 <= i < |kids| ensures FillEach(kids, prefix, weights)[i].prefix == kids[i].prefix {
      FillEachAt(kids, prefix, weights, i);
    }
  }

  // Filling out and reordering preserve the denoted map.
  lemma {:induction false} FillOutFinds(n: Node, prefix: Text, weights: Weights, s: Text)
    requires Branching(n)
    ensures Find(FillOut(n, prefix, weights), s) == Find(n, s)
    decreases n, 1
  {
    if s != [] {
      FillEachFinds(n.kids, prefix + n.prefix, weights, s);
      FillEachHeads(n.kids, prefix + n.prefix, weights);
      SortFinds(FillEach(n.kids, prefix + n.prefix, weights), s);
    }
  }

  lemma {:induction false} FillEachFinds(kids: seq<Node>, prefix: Text, weights: Weights, s: Text)
    requires HeadsDiffer(kids)
    requires forall i | 0 <= i < |kids| :: Branching(kids[i])
    ensures FindKid(FillEach(kids, prefix, weights), s) == FindKid(kids, s)
    decreases kids, 0
  {
    if kids != [] {
      if kids[0].prefix <= s {
        FillOutFinds(kids[0], prefix, weights, s[|kids[0].prefix|..]);
      } else {
        FillEachFinds(kids[1..], prefix, weights, s);
      }
    }
  }

  // ---------------------------------------------------------------- shape

  // Every node knows the whole text from the root to its own end.
  ghost predicate Labelled(n: Node, prefix: Text) {
    n.fullPrefix == prefix + n.prefix && forall i | 0 <= i < |n.kids| :: Labelled(n.kids[i], n.fullPrefix)
  }

  // acc holds the running totals of the children's weights.
  ghost predicate Accumulates(kids: seq<Node>, acc: seq<real>) {
    |acc| == |kids| + 1 && forall i | 0 <= i < |kids| :: acc[i + 1] == acc[i] + kids[i].weight
  }

  ghost predicate IsSum(kids: seq<Node>, total: real) {
    exists acc :: Accumulates(kids, acc) && acc[0] == 0.0 && acc[|kids|] == total
  }

  lemma {:induction false} TotalIsSum(kids: seq<Node>, start: real) returns (acc: seq<real>)
    ensures Accumulates(kids, acc) && acc[0] == start && acc[|kids|] == start + TotalWeight(kids)
    decreases |kids|
  {
    if kids == [] {
      acc := [start];
    } else {
      var rest := TotalIsSum(kids[1..], start + kids[0].weight);
      acc := [start] + rest;
    }
  }

  // A node weighs its own keyword and its children, which are in order of decreasing weight. A text
  // without a weight of its own counts for nothing.
  ghost predicate Weighed(n: Node, weights: Weights) {
    && (n.fullPrefix in weights ==> n.selfWeight == weights[n.fullPrefix])
    && (n.fullPrefix !in weights ==> n.selfWeight == 0.0)
    && IsSum(n.kids, n.weight - n.selfWeight)
    && Descending(n.kids)
    && forall i | 0 <= i < |n.kids| :: Weighed(n.kids[i], weights)
  }

  ghost predicate FilledKid(kid: Node, prefix: Text, weights: Weights) {
    && Branching(kid) && Compressed(kid) && Labelled(kid, prefix) && Weighed(kid, weights)
    && (kid.value.Some? || |kid.kids| >= 2)
  }

  lemma {:induction false} PlaceWeight(kid: Node, sorted: seq<Node>)
    ensures TotalWeight(Place(kid, sorted)) == kid.weight + TotalWeight(sorted)
    decreases |sorted|
  {
    if sorted != [] && kid.weight < sorted[0].weight {
      PlaceWeight(kid, sorted[1..]);
    }
  }

  lemma {:induction false} SortWeight(kids: seq<Node>)
    ensures TotalWeight(SortByWeight(kids)) == TotalWeight(kids)
    decreases |kids|
  {
    if kids != [] {
      SortWeight(kids[1..]);
      PlaceWeight(kids[0], SortByWeight(kids[1..]));
    }
  }

  lemma SortKeepsFilled(kids: seq<Node>, prefix: Text, weights: Weights)
    requires forall i | 0 <= i < |kids| :: FilledKid(kids[i], prefix, weights)
    ensures var r := SortByWeight(kids);
            |r| == |kids| && Descending(r) && forall i | 0 <= i < |r| :: FilledKid(r[i], prefix, weights)
  {
    var r := SortByWeight(kids);
    SortLaw(kids, 0.0);
    assert |multiset(r)| == |r| && |multiset(kids)| == |kids|;
    forall i | 0 <= i < |r| ensures FilledKid(r[i], prefix, weights) {
      assert r[i] in r;
    }
  }

  // Filling out keeps the compressed form, labels every node and orders siblings by weight.
  lemma {:induction false} FillOutShape(n: Node, prefix: Text, weights: Weights)
    requires Branching(n) && Compressed(n)
    ensures var r := FillOut(n, prefix, weights);
            && Branching(r) && Compressed(r) && Labelled(r, prefix) && Weighed(r, weights)
            && |r.kids| == |n.kids|
  {
    var full := prefix + n.prefix;
    var filled := FillEach(n.kids, full, weights);
    forall i | 0 <= i < |n.kids| ensures FilledKid(filled[i], full, weights) {
      FillOutShape(n.kids[i], full, weights);
      FillEachAt(n.kids, full, weights, i);
    }
    FillEachHeads(n.kids, full, weights);
    SortFinds(filled, []);
    SortKeepsFilled(filled, full, weights);
    SortWeight(filled);
    var acc := TotalIsSum(SortByWeight(filled), 0.0);
  }
}
