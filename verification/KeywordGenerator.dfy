// The generator's Trie objects, updated in place, against the value model.
module KeywordGenerator {
  import opened Common
  import opened KeywordTrie
  import opened KeywordCoalesce
  import opened KeywordFillOut
  import opened KeywordCode
  import KeywordCompiler

  // Separate tries that stand for the given values and live in `owned`.
  ghost predicate Forest(ts: seq<Trie>, models: seq<Node>, owned: set<Trie>)
    reads owned
  {
    && |models| == |ts|
    && (forall i | 0 <= i < |ts| ::
          ts[i] in owned && ts[i].Repr <= owned && ts[i].model == models[i] && ts[i].Valid())
    && (forall i, j | 0 <= i < j < |ts| :: ts[i].Repr !! ts[j].Repr)
  }

  class Trie {
    var prefix: Text
    var keys: seq<Trie>
    var value: Option<Token>
    var fullPrefix: Text
    var selfWeight: real
    var weight: real

    ghost var Repr: set<Trie>
    ghost var model: Node

    ghost predicate Valid()
      reads this, Repr
      decreases Repr
    {
      && this in Repr
      && model == Node(prefix, value, model.kids, fullPrefix, selfWeight, weight)
      && |model.kids| == |keys|
      && (forall i | 0 <= i < |keys| ::
            && keys[i] in Repr && keys[i].Repr <= Repr && this !in keys[i].Repr
            && keys[i].model == model.kids[i]
            && keys[i].Valid())
      && (forall i, j | 0 <= i < j < |keys| :: keys[i].Repr !! keys[j].Repr)
    }

    constructor (prefix: Text)
      ensures Valid() && Repr == {this} && model == NewNode(prefix)
    {
      this.prefix := prefix;
      keys, value, fullPrefix, selfWeight, weight := [], None, [], 0.0, 0.0;
      Repr, model := {this}, NewNode(prefix);
    }

    // The position of the dictionary entry for a key, or the number of entries.
    static method Entry(keys: seq<Trie>, key: Text) returns (i: nat)
      ensures i <= |keys| && (i < |keys| ==> keys[i].prefix == key)
      ensures forall j | 0 <= j < i :: keys[j].prefix != key
    {
      i := 0;
      while i < |keys| && keys[i].prefix != key
        invariant i <= |keys| && forall j | 0 <= j < i :: keys[j].prefix != key
      {
        i := i + 1;
      }
    }

    method Insert(key: Text, value: Token)
      requires Valid()
      modifies Repr
      ensures Valid() && fresh(Repr - old(Repr))
      ensures model == KeywordTrie.Insert(old(model), key, value)
      decreases |key|, 1
    {
      if key == [] {
        this.value := Some(value);
        model := model.(value := Some(value));
        return;
      }
      var i := Entry(keys, [key[0]]);
      if i == |keys| {
        AddChild([key[0]]);
      }
      InsertAt(model.kids, old(model.kids), key, value, i);
      InsertChild(i, key[1..], value);
    }

    method InsertChild(i: nat, key: Text, value: Token)
      requires Valid() && i < |keys|
      modifies Repr
      ensures Valid() && fresh(Repr - old(Repr))
      ensures model == old(model).(kids := old(model.kids)[i := KeywordTrie.Insert(old(model.kids)[i], key, value)])
      decreases |key|, 2
    {
      var child := keys[i];
      child.Insert(key, value);
      assert forall j | 0 <= j < |keys| && j != i :: keys[j].Repr !! child.Repr;
      Repr := Repr + child.Repr;
      model := model.(kids := model.kids[i := child.model]);
    }

    method AddChild(first: Text)
      requires Valid()
      modifies this
      ensures Valid() && fresh(Repr - old(Repr))
      ensures model == old(model).(kids := old(model.kids) + [NewNode(first)])
      ensures |keys| == |old(keys)| + 1 && keys[..|old(keys)|] == old(keys)
    {
      var child := new Trie(first);
      keys := keys + [child];
      Repr := Repr + {child};
      model := model.(kids := model.kids + [child.model]);
    }

    // keys[t.prefix] = t
    static method SetEntry(keys: seq<Trie>, t: Trie, ghost models: seq<Node>, ghost owned: set<Trie>)
      returns (r: seq<Trie>)
      requires Forest(keys, models, owned) && t.Valid() && t.Repr !! owned
      ensures Forest(r, DictSet(models, t.model), owned + t.Repr)
    {
      var i := Entry(keys, t.prefix);
      DictSetAt(models, t.model, i);
      if i == |keys| {
        ForestAppend(keys, models, owned, t);
        r := keys + [t];
      } else {
        ForestReplace(keys, models, owned, t, i);
        r := keys[i := t];
      }
    }

    method Coalesce() returns (t: Trie)
      requires Valid()
      modifies Repr
      ensures Valid() && fresh(Repr - old(Repr)) && model == CoalesceInPlace(old(model))
      ensures t.Valid() && fresh(t.Repr - old(Repr)) && t.model == KeywordCoalesce.Coalesce(old(model))
      decreases Repr, 2
    {
      CoalesceChildren();
      if value.Some? || |keys| != 1 {
        return this;
      }
      var suffix := keys[0];
      t := new Trie(prefix + suffix.prefix);
      t.value, t.keys := suffix.value, suffix.keys;
      t.Repr := {t} + suffix.Repr;
      t.model := Absorb(model);
    }

    method CoalesceChildren()
      requires Valid()
      modifies Repr
      ensures Valid() && fresh(Repr - old(Repr)) && model == CoalesceInPlace(old(model))
      decreases Repr, 1
    {
      ghost var below := Repr - {this};
      assert Forest(keys, model.kids, below);
      var done, doneOwned := CoalesceAll(keys, model.kids, below);
      keys := done;
      Repr := Repr + doneOwned;
      model := CoalesceInPlace(model);
    }

    static method CoalesceAll(ts: seq<Trie>, ghost models: seq<Node>, ghost owned: set<Trie>)
      returns (r: seq<Trie>, ghost rOwned: set<Trie>)
      requires Forest(ts, models, owned)
      modifies owned
      ensures Forest(r, CoalesceKids(models, []), rOwned) && fresh(rOwned - owned)
      decreases owned, 3
    {
      r, rOwned := [], {};
      ghost var rModels: seq<Node>, rest := [], owned;
      var i := 0;
      while i < |ts|
        invariant i <= |ts| && Forest(r, rModels, rOwned) && Forest(ts[i..], models[i..], rest)
        invariant rOwned !! rest && rest <= owned && fresh(rOwned - owned)
        invariant CoalesceKids(models[i..], rModels) == CoalesceKids(models, [])
      {
        var child := ts[i];
        assert child == ts[i..][0] && ts[i + 1..] == ts[i..][1..] && models[i + 1..] == models[i..][1..];
        ghost var childOwned := child.Repr;
        SplitForest(ts[i..], models[i..], rest);
        var t := child.Coalesce();
        assert Forest(r, rModels, rOwned);
        assert Forest(ts[i + 1..], models[i + 1..], rest - childOwned);
        r := SetEntry(r, t, rModels, rOwned);
        rModels, rOwned, rest := DictSet(rModels, t.model), rOwned + t.Repr, rest - childOwned;
        i := i + 1;
      }
    }

    method FillOut(prefix: Text, weights: Weights)
      requires Valid()
      modifies Repr
      ensures Valid() && Repr == old(Repr) && model == KeywordFillOut.FillOut(old(model), prefix, weights)
      decreases Repr, 1
    {
      fullPrefix := prefix + this.prefix;
      selfWeight := if fullPrefix in weights then weights[fullPrefix] else 0.0;
      model := model.(fullPrefix := fullPrefix, selfWeight := selfWeight);
      FillChildren(weights);
    }

    method FillChildren(weights: Weights)
      requires Valid()
      modifies Repr
      ensures Valid() && Repr == old(Repr)
      ensures var filled := FillEach(old(model.kids), old(fullPrefix), weights);
              model == old(model).(kids := SortByWeight(filled), weight := old(selfWeight) + TotalWeight(filled))
      decreases Repr, 0
    {
      ghost var below, kids := Repr - {this}, model.kids;
      assert Forest(keys, kids, below);
      weight := FillAll(keys, kids, below, fullPrefix, weights, selfWeight);
      ghost var filled := FillEach(kids, fullPrefix, weights);
      keys := Sorted(keys, filled, below);
      model := model.(kids := SortByWeight(filled), weight := weight);
    }

    static method FillAll(ts: seq<Trie>, ghost models: seq<Node>, ghost owned: set<Trie>,
                          prefix: Text, weights: Weights, start: real)
      returns (weight: real)
      requires Forest(ts, models, owned)
      modifies owned
      ensures Forest(ts, FillEach(models, prefix, weights), owned)
      ensures weight == start + TotalWeight(FillEach(models, prefix, weights))
      decreases owned, 3
    {
      ghost var filled := FillEach(models, prefix, weights);
      ghost var now := models;
      weight := start;
      var i := 0;
      while i < |ts|
        invariant i <= |ts| && Forest(ts, now, owned)
        invariant forall j | 0 <= j < |ts| :: now[j] == if j < i then filled[j] else models[j]
        invariant weight + TotalWeight(filled[i..]) == start + TotalWeight(filled)
      {
        FillEachAt(models, prefix, weights, i);
        TotalFrom(filled, i);
        assert now[i] == models[i] && ts[i].Repr <= owned;
        now := FillAt(ts, i, now, owned, prefix, weights);
        assert ts[i].model == filled[i] && ts[i].Valid();
        weight := weight + ts[i].weight;
        i := i + 1;
      }
      assert now == filled;
    }

    static method FillAt(ts: seq<Trie>, i: nat, ghost models: seq<Node>, ghost owned: set<Trie>,
                         prefix: Text, weights: Weights)
      returns (ghost next: seq<Node>)
      requires Forest(ts, models, owned) && i < |ts|
      modifies ts[i].Repr
      ensures Forest(ts, next, owned) && next == models[i := KeywordFillOut.FillOut(models[i], prefix, weights)]
      decreases owned, 2
    {
      next := models[i := KeywordFillOut.FillOut(models[i], prefix, weights)];
      assert forall j | 0 <= j < |ts| && j != i :: ts[j].Repr !! ts[i].Repr;
      ts[i].FillOut(prefix, weights);
    }

    // sorted(keys, key=weight, reverse=True), by insertion from the right.
    static method Sorted(ts: seq<Trie>, ghost models: seq<Node>, ghost owned: set<Trie>) returns (r: seq<Trie>)
      requires Forest(ts, models, owned)
      ensures Forest(r, SortByWeight(models), owned)
    {
      r := [];
      var i: nat := |ts|;
      while i > 0
        invariant i <= |ts| && Forest(r, SortByWeight(models[i..]), owned)
        invariant forall t | t in r :: t in ts[i..]
      {
        i := i - 1;
        r := Placed(ts[i], r, SortByWeight(models[i + 1..]), owned);
        assert models[i..] == [models[i]] + models[i + 1..];
      }
      assert models[0..] == models;
    }

    static method Placed(t: Trie, sorted: seq<Trie>, ghost models: seq<Node>, ghost owned: set<Trie>)
      returns (r: seq<Trie>)
      requires Forest(sorted, models, owned) && t in owned && t.Repr <= owned && t.Valid()
      requires forall u | u in sorted :: u.Repr !! t.Repr
      ensures Forest(r, Place(t.model, models), owned)
      ensures forall u | u in r :: u == t || u in sorted
    {
      var i := 0;
      while i < |sorted| && t.weight < sorted[i].weight
        invariant i <= |sorted| && forall j | 0 <= j < i :: t.weight < sorted[j].weight
      {
        i := i + 1;
      }
      PlaceAt(t.model, models, i);
      ForestInsert(sorted, models, owned, t, i);
      r := sorted[..i] + [t] + sorted[i..];
    }

    method MaxLength() returns (max: nat)
      requires Valid()
      ensures max == KeywordCode.MaxLength(model)
      decreases Repr
    {
      max := |fullPrefix|;
      for i := 0 to |keys|
        invariant MaxOverKids(model.kids[i..], max) == KeywordCode.MaxLength(model)
      {
        var l := keys[i].MaxLength();
        if l > max {
          max := l;
        }
      }
    }

    method PrintSubTree(ghost before: Text) returns (code: Code)
      requires Valid() && Labelled(model, before)
      ensures code == Emit(model)
      decreases Repr
    {
      var branches: seq<Branch> := [];
      var rootIndex := |fullPrefix|;
      for i := 0 to |keys|
        invariant branches + EmitKids(model.kids[i..], rootIndex) == EmitKids(model.kids, rootIndex)
      {
        var trie := keys[i];
        var baseIndex, k := rootIndex, trie.prefix;
        assert Labelled(trie.model, model.fullPrefix);
        if baseIndex > 0 && |k| == 3 {
          baseIndex := baseIndex - 1;
          k := [trie.fullPrefix[baseIndex]] + k;
        }
        var body := trie.PrintSubTree(fullPrefix);
        branches := branches + [Branch(Compare(baseIndex, k), body)];
      }
      code := Code(if value.Some? then Some(Accept(|fullPrefix|, fullPrefix, value.value)) else None, branches);
    }
  }

  lemma {:induction false} PlaceAt(kid: Node, sorted: seq<Node>, i: nat)
    requires i <= |sorted| && (i < |sorted| ==> kid.weight >= sorted[i].weight)
    requires forall j | 0 <= j < i :: kid.weight < sorted[j].weight
    ensures Place(kid, sorted) == sorted[..i] + [kid] + sorted[i..]
    decreases i
  {
    if i > 0 {
      PlaceAt(kid, sorted[1..], i - 1);
    }
  }

  lemma TotalFrom(kids: seq<Node>, i: nat)
    requires i < |kids|
    ensures TotalWeight(kids[i..]) == kids[i].weight + TotalWeight(kids[i + 1..])
  {
    assert kids[i..][1..] == kids[i + 1..];
  }

  lemma ForestInsert(ts: seq<Trie>, models: seq<Node>, owned: set<Trie>, t: Trie, i: nat)
    requires Forest(ts, models, owned) && t in owned && t.Repr <= owned && t.Valid() && i <= |ts|
    requires forall u | u in ts :: u.Repr !! t.Repr
    ensures Forest(ts[..i] + [t] + ts[i..], models[..i] + [t.model] + models[i..], owned)
  {
    var r, m := ts[..i] + [t] + ts[i..], models[..i] + [t.model] + models[i..];
    forall j | 0 <= j < |r| ensures r[j] in owned && r[j].Repr <= owned && r[j].model == m[j] && r[j].Valid() {
      assert r[j] == if j < i then ts[j] else if j == i then t else ts[j - 1];
    }
    forall j, k | 0 <= j < k < |r| ensures r[j].Repr !! r[k].Repr {
      InsertedApart(ts, t, i, j, k);
    }
  }

  lemma InsertedApart(ts: seq<Trie>, t: Trie, i: nat, j: nat, k: nat)
    requires i <= |ts| && j < k <= |ts|
    requires forall a, b | 0 <= a < b < |ts| :: ts[a].Repr !! ts[b].Repr
    requires forall u | u in ts :: u.Repr !! t.Repr
    ensures var r := ts[..i] + [t] + ts[i..]; r[j].Repr !! r[k].Repr
  {
    var r := ts[..i] + [t] + ts[i..];
    assert r[j] == if j < i then ts[j] else if j == i then t else ts[j - 1];
    assert r[k] == if k < i then ts[k] else if k == i then t else ts[k - 1];
    if j == i {
      assert ts[k - 1] in ts;
    } else if k == i {
      assert ts[j] in ts;
    }
  }

  lemma ForestAppend(ts: seq<Trie>, models: seq<Node>, owned: set<Trie>, t: Trie)
    requires Forest(ts, models, owned) && t.Valid() && t.Repr !! owned
    ensures Forest(ts + [t], models + [t.model], owned + t.Repr)
  {
    assert forall i | 0 <= i < |ts| :: ts[i].Repr !! t.Repr;
  }

  lemma ForestReplace(ts: seq<Trie>, models: seq<Node>, owned: set<Trie>, t: Trie, i: nat)
    requires Forest(ts, models, owned) && t.Valid() && t.Repr !! owned && i < |ts|
    ensures Forest(ts[i := t], models[i := t.model], owned + t.Repr)
  {
    assert forall j | 0 <= j < |ts| :: ts[j].Repr !! t.Repr;
  }

  lemma SplitForest(ts: seq<Trie>, models: seq<Node>, owned: set<Trie>)
    requires Forest(ts, models, owned) && ts != []
    ensures ts[0].Valid() && ts[0].Repr <= owned && ts[0].model == models[0]
    ensures Forest(ts[1..], models[1..], owned - ts[0].Repr)
  {
    forall i | 0 < i < |ts| ensures ts[i].Repr <= owned - ts[0].Repr && ts[i] in ts[i].Repr {
      assert ts[0].Repr !! ts[i].Repr && ts[i].Valid();
    }
  }

  lemma {:induction false} DictSetAt(keys: seq<Node>, t: Node, i: nat)
    requires i <= |keys| && (i < |keys| ==> keys[i].prefix == t.prefix)
    requires forall j | 0 <= j < i :: keys[j].prefix != t.prefix
    ensures DictSet(keys, t) == if i == |keys| then keys + [t] else keys[i := t]
    decreases |keys|
  {
    if i > 0 {
      DictSetAt(keys[1..], t, i - 1);
    }
  }

  // Inserting below the entry for the first unit, which may just have been added.
  lemma {:induction false} InsertAt(kids: seq<Node>, before: seq<Node>, key: Text, value: Token, i: nat)
    requires key != [] && i < |kids| && kids[i].prefix == [key[0]]
    requires forall j | 0 <= j < i :: kids[j].prefix != [key[0]]
    requires before == kids || (i == |before| && kids == before + [NewNode([key[0]])])
    ensures InsertKid(before, key, value) == kids[i := KeywordTrie.Insert(kids[i], key[1..], value)]
    decreases |kids|
  {
    if i > 0 {
      InsertAt(kids[1..], before[1..], key, value, i - 1);
    }
  }

  // The whole script: the decision tree, which is the same for both character widths, and
  // maxTokenLength.
  method Generate(table: Table, weights: Weights) returns (code: Code, maxTokenLength: nat)
    ensures code == Emit(KeywordCompiler.Generate(table, weights))
    ensures maxTokenLength == KeywordCompiler.Longest(table) + 1
  {
    var trie := new Trie([]);
    for i := 0 to |table|
      invariant fresh(trie.Repr) && trie.Valid()
      invariant InsertAll(trie.model, table[i..]) == InsertAll(NewNode([]), table)
    {
      trie.Insert(table[i].0, table[i].1);
    }
    var discarded := trie.Coalesce();
    trie.FillOut([], weights);
    KeywordCompiler.GenerateShape(table, weights);
    KeywordCompiler.MaxLengthIsLongest(table, weights);
    var max := trie.MaxLength();
    code := trie.PrintSubTree([]);
    maxTokenLength := max + 1;
  }
}
