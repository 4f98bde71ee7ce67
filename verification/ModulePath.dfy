// Module resolution in the jsc shell: ModuleName, extractDirectoryName, resolvePath and the
// referrer-to-key step of moduleLoaderResolve, with the Unix separator.
module ModulePath {
  import opened Common
  import opened PathStrings

  datatype DirectoryName = DirectoryName(rootName: string, queryName: string)

  predicate StartsWithRoot(queries: seq<string>) {
    queries != [] && queries[0] == ""
  }

  // None when the path has no separator at all.
  function ExtractDirectoryName(path: string): Option<DirectoryName> {
    var first := Find(path, SEPARATOR, 0);
    if first.None? then None
    else
      var last := ReverseFind(path, SEPARATOR);
      assert path[0..] == path;
      var root := path[..first.value + 1];
      if first == last then Some(DirectoryName(root, ""))
      else
        assert first.value <= last.value by { LastIsLater(path, first.value, last.value); }
        Some(DirectoryName(root, path[first.value + 1..last.value]))
  }

  lemma LastIsLater(path: string, i: nat, j: nat)
    requires i < |path| && j < |path| && path[i] == SEPARATOR && SEPARATOR !in path[j + 1..]
    ensures i <= j
  {
    assert forall k | j < k < |path| :: path[k] == path[j + 1..][k - (j + 1)];
  }

  // ---------------------------------------------------------------- the walk

  // One path segment applied to the stack of directory pieces.
  function Segment(pieces: seq<string>, query: string): seq<string> {
    if query == ".." then if pieces == [] then [] else pieces[..|pieces| - 1]
    else if query != "" && query != "." then pieces + [query]
    else pieces
  }

  function Walk(pieces: seq<string>, queries: seq<string>): seq<string>
    decreases |queries|
  {
    if queries == [] then pieces else Walk(Segment(pieces, queries[0]), queries[1..])
  }

  function StartPieces(dir: DirectoryName, queries: seq<string>): seq<string> {
    if StartsWithRoot(queries) then [] else NonEmpty(Pieces(dir.queryName))
  }

  // What resolvePath returns.
  function Resolve(dir: DirectoryName, name: string): string {
    dir.rootName + Join(Walk(StartPieces(dir, Pieces(name)), Pieces(name)))
  }

  method ResolvePath(dir: DirectoryName, queries: seq<string>) returns (path: string)
    ensures path == dir.rootName + Join(Walk(StartPieces(dir, queries), queries))
  {
    var directoryPieces := Split(dir.queryName, false);
    if StartsWithRoot(queries) {
      directoryPieces := [];
    }
    for i := 0 to |queries|
      invariant Walk(directoryPieces, queries[i..]) == Walk(StartPieces(dir, queries), queries)
    {
      if queries[i] == ".." {
        if directoryPieces != [] {
          directoryPieces := directoryPieces[..|directoryPieces| - 1];
        }
      } else if queries[i] != "" && queries[i] != "." {
        directoryPieces := directoryPieces + [queries[i]];
      }
    }
    path := Build(dir.rootName, directoryPieces);
  }

  // The string builder of resolvePath.
  method Build(root: string, pieces: seq<string>) returns (path: string)
    ensures path == root + Join(pieces)
  {
    path := root;
    for i := 0 to |pieces|
      invariant path + Join(pieces[i..]) == root + Join(pieces)
    {
      path := path + pieces[i];
      if i + 1 != |pieces| {
        path := path + [SEPARATOR];
      }
    }
  }

  lemma {:induction false} WalkConcat(pieces: seq<string>, a: seq<string>, b: seq<string>)
    ensures Walk(pieces, a + b) == Walk(Walk(pieces, a), b)
    decreases |a|
  {
    if a == [] {
      assert a + b == b;
    } else {
      assert (a + b)[1..] == a[1..] + b;
      WalkConcat(Segment(pieces, a[0]), a[1..], b);
    }
  }

  // ---------------------------------------------------------------- a second definition

  function DropLast(pieces: seq<string>, n: nat): seq<string> {
    if n >= |pieces| then [] else pieces[..|pieces| - n]
  }

  // Right to left: each ".." cancels the nearest uncancelled name to its left.
  function Cancel(pieces: seq<string>, queries: seq<string>, pending: nat): seq<string>
    decreases |queries|
  {
    if queries == [] then DropLast(pieces, pending)
    else
      var before, query := queries[..|queries| - 1], queries[|queries| - 1];
      if query == ".." then Cancel(pieces, before, pending + 1)
      else if query == "" || query == "." then Cancel(pieces, before, pending)
      else if pending > 0 then Cancel(pieces, before, pending - 1)
      else Cancel(pieces, before, 0) + [query]
  }

  lemma {:induction false} WalkIsCancelDropped(pieces: seq<string>, queries: seq<string>, n: nat)
    ensures DropLast(Walk(pieces, queries), n) == Cancel(pieces, queries, n)
    decreases |queries|
  {
    if queries != [] {
      var before, query := queries[..|queries| - 1], queries[|queries| - 1];
      assert queries == before + [query];
      WalkConcat(pieces, before, [query]);
      var w := Walk(pieces, before);
      assert Walk(w, [query]) == Segment(w, query);
      WalkIsCancelDropped(pieces, before, n);
      WalkIsCancelDropped(pieces, before, n + 1);
      if n > 0 {
        WalkIsCancelDropped(pieces, before, n - 1);
      }
    }
  }

  // The stack walk is cancellation of names by later "..", with surplus ".." ignored at the root.
  lemma WalkIsCancel(pieces: seq<string>, queries: seq<string>)
    ensures Walk(pieces, queries) == Cancel(pieces, queries, 0)
  {
    WalkIsCancelDropped(pieces, queries, 0);
  }

  // ---------------------------------------------------------------- roots and files

  // What extractDirectoryName yields as a root name: text up to its only separator.
  ghost predicate IsRoot(root: string) {
    root != "" && root[|root| - 1] == SEPARATOR && SEPARATOR !in root[..|root| - 1]
  }

  // A name that the walk pushes.
  ghost predicate Ordinary(piece: string) {
    Plain(piece) && piece != "." && piece != ".."
  }

  ghost predicate AllOrdinary(pieces: seq<string>) {
    forall i | 0 <= i < |pieces| :: Ordinary(pieces[i])
  }

  lemma {:induction false} WalkKeepsPlain(pieces: seq<string>, queries: seq<string>)
    requires AllPlain(pieces) && forall i | 0 <= i < |queries| :: SEPARATOR !in queries[i]
    ensures AllPlain(Walk(pieces, queries))
    ensures AllOrdinary(pieces) ==> AllOrdinary(Walk(pieces, queries))
    decreases |queries|
  {
    if queries != [] {
      WalkKeepsPlain(Segment(pieces, queries[0]), queries[1..]);
    }
  }

  lemma StartIsPlain(dir: DirectoryName, queries: seq<string>)
    ensures AllPlain(StartPieces(dir, queries))
  {
    var all := Pieces(dir.queryName);
    forall i | 0 <= i < |all| ensures SEPARATOR !in all[i] {
      PiecesArePlain(dir.queryName, i);
    }
  }

  lemma NamePiecesPlain(name: string)
    ensures forall i | 0 <= i < |Pieces(name)| :: SEPARATOR !in Pieces(name)[i]
  {
    forall i | 0 <= i < |Pieces(name)| ensures SEPARATOR !in Pieces(name)[i] {
      PiecesArePlain(name, i);
    }
  }

  // The directory of a file is what precedes its name.
  lemma DirectoryOfFile(root: string, pieces: seq<string>, file: string)
    requires IsRoot(root) && SEPARATOR !in file
    ensures ExtractDirectoryName(root + Join(pieces + [file])) == Some(DirectoryName(root, Join(pieces)))
  {
    if pieces == [] {
      assert pieces + [file] == [file];
      DirectoryAtRoot(root, file);
    } else {
      JoinLast(pieces, file);
      DirectoryBelow(root, Join(pieces), file);
    }
  }

  lemma DirectoryAtRoot(root: string, file: string)
    requires IsRoot(root) && SEPARATOR !in file
    ensures ExtractDirectoryName(root + file) == Some(DirectoryName(root, ""))
  {
    var path, at := root + file, |root| - 1;
    assert path[..at] == root[..at] && path[at + 1..] == file && path[..at + 1] == root;
    FirstSeparator(path, at);
    LastSeparator(path, at);
  }

  lemma DirectoryBelow(root: string, name: string, file: string)
    requires IsRoot(root) && SEPARATOR !in file
    ensures ExtractDirectoryName(root + (name + [SEPARATOR] + file)) == Some(DirectoryName(root, name))
  {
    var path, first, last := root + (name + [SEPARATOR] + file), |root| - 1, |root| + |name|;
    assert path[..first] == root[..first] && path[..first + 1] == root;
    assert path[last + 1..] == file && path[first + 1..last] == name;
    FirstSeparator(path, first);
    LastSeparator(path, last);
  }

  lemma FirstSeparator(path: string, i: nat)
    requires i < |path| && path[i] == SEPARATOR && SEPARATOR !in path[..i]
    ensures Find(path, SEPARATOR, 0) == Some(i)
  {
    var f := Find(path, SEPARATOR, 0);
    assert path[0..] == path;
    assert path[0..f.value] == path[..f.value];
    assert forall k | 0 <= k < i :: path[k] == path[..i][k];
    assert forall k | 0 <= k < f.value :: path[k] == path[..f.value][k];
  }

  lemma LastSeparator(path: string, i: nat)
    requires i < |path| && path[i] == SEPARATOR && SEPARATOR !in path[i + 1..]
    ensures ReverseFind(path, SEPARATOR) == Some(i)
  {
    var f := ReverseFind(path, SEPARATOR);
    LastIsLater(path, i, f.value);
    LastIsLater(path, f.value, i);
  }

  // ---------------------------------------------------------------- composition

  lemma ResolvedPieces(dir: DirectoryName, name: string)
    ensures AllPlain(Walk(StartPieces(dir, Pieces(name)), Pieces(name)))
  {
    StartIsPlain(dir, Pieces(name));
    NamePiecesPlain(name);
    WalkKeepsPlain(StartPieces(dir, Pieces(name)), Pieces(name));
  }

  // b is relative: it names something and does not start at the root.
  ghost predicate Relative(b: string) {
    b != "" && b[0] != SEPARATOR
  }

  // Resolving b against the directory of a file that was itself resolved from a/f is resolving a/b.
  lemma ResolveComposes(dir: DirectoryName, a: string, f: string, b: string)
    requires IsRoot(dir.rootName) && Ordinary(f) && Relative(b)
    ensures var key := Resolve(dir, a + [SEPARATOR] + f);
            && ExtractDirectoryName(key).Some?
            && Resolve(ExtractDirectoryName(key).value, b) == Resolve(dir, a + [SEPARATOR] + b)
  {
    var start := StartPieces(dir, Pieces(a));
    var base := Walk(start, Pieces(a));
    ResolvedPieces(dir, a);
    PiecesConcat(a, f);
    PiecesConcat(a, b);
    PiecesOfOne(f);
    WalkConcat(start, Pieces(a), [f]);
    WalkConcat(start, Pieces(a), Pieces(b));
    assert Walk(base, [f]) == base + [f];
    DirectoryOfFile(dir.rootName, base, f);
    SplitJoin(base);
    assert Pieces(b)[0] != "";
  }

  // ---------------------------------------------------------------- normalised keys

  function Segments(path: string): seq<string> {
    NonEmpty(Pieces(path))
  }

  // An absolute path with no empty, "." or ".." segment.
  ghost predicate Normalised(path: string) {
    AllOrdinary(Segments(path)) && path == [SEPARATOR] + Join(Segments(path))
  }

  lemma JoinIsNormalised(pieces: seq<string>)
    requires AllOrdinary(pieces)
    ensures var path := [SEPARATOR] + Join(pieces); Normalised(path) && Segments(path) == pieces
  {
    assert "" + [SEPARATOR] + Join(pieces) == [SEPARATOR] + Join(pieces);
    PiecesConcat("", Join(pieces));
    SplitJoin(pieces);
    assert Pieces("") == [""] && [""] + Pieces(Join(pieces)) == Pieces([SEPARATOR] + Join(pieces));
    NonEmptyConcat([""], Pieces(Join(pieces)));
    assert NonEmpty([""]) == [];
  }

  ghost predicate NormalisedDirectory(dir: DirectoryName) {
    dir.rootName == [SEPARATOR] && AllOrdinary(NonEmpty(Pieces(dir.queryName)))
  }

  // A normalised directory yields normalised keys, for any module name at all.
  lemma KeyIsNormalised(dir: DirectoryName, name: string)
    requires NormalisedDirectory(dir)
    ensures Normalised(Resolve(dir, name))
  {
    StartIsPlain(dir, Pieces(name));
    NamePiecesPlain(name);
    WalkKeepsPlain(StartPieces(dir, Pieces(name)), Pieces(name));
    JoinIsNormalised(Walk(StartPieces(dir, Pieces(name)), Pieces(name)));
  }

  // The directory of a normalised key is normalised again.
  lemma KeyDirectory(key: string)
    requires Normalised(key)
    ensures ExtractDirectoryName(key).Some? && NormalisedDirectory(ExtractDirectoryName(key).value)
  {
    var pieces := Segments(key);
    var root := [SEPARATOR];
    if pieces == [] {
      DirectoryOfFile(root, [], "");
      assert [] + [""] == [""] && root + "" == root;
    } else {
      var before, file := pieces[..|pieces| - 1], pieces[|pieces| - 1];
      assert pieces == before + [file];
      DirectoryOfFile(root, before, file);
      SplitJoin(before);
    }
  }

  lemma {:induction false} WalkPushesAll(pieces: seq<string>, names: seq<string>)
    requires AllOrdinary(names)
    ensures Walk(pieces, names) == pieces + names
    decreases |names|
  {
    if names != [] {
      WalkPushesAll(pieces + [names[0]], names[1..]);
    }
  }

  // Resolving a normalised key returns it unchanged, whatever the referrer.
  lemma ResolveKeyAgain(dir: DirectoryName, key: string)
    requires dir.rootName == [SEPARATOR] && Normalised(key)
    ensures Resolve(dir, key) == key
  {
    var pieces := Segments(key);
    assert key == "" + [SEPARATOR] + Join(pieces);
    PiecesConcat("", Join(pieces));
    assert Pieces("") == [""];
    WalkConcat([], [""], Pieces(Join(pieces)));
    assert Walk([], [""]) == [];
    if pieces == [] {
      assert Pieces(Join(pieces)) == [""];
    } else {
      PiecesOfJoin(pieces);
      WalkPushesAll([], pieces);
      assert [] + pieces == pieces;
    }
  }

  // ---------------------------------------------------------------- the loader

  datatype Outcome = Key(path: string) | NoWorkingDirectory | BadReferrer

  // currentWorkingDirectory, given what getcwd returns.
  function WorkingDirectory(cwd: string): Option<DirectoryName> {
    if cwd == "" then None
    else if cwd[|cwd| - 1] == SEPARATOR then ExtractDirectoryName(cwd)
    else ExtractDirectoryName(cwd + [SEPARATOR])
  }

  // moduleLoaderResolve for a string key; no referrer stands for undefined or a symbol.
  function LoaderResolve(cwd: string, name: string, referrer: Option<string>): Outcome {
    match referrer
    case None =>
      var dir := WorkingDirectory(cwd);
      if dir.None? then NoWorkingDirectory else Key(Resolve(dir.value, name))
    case Some(path) =>
      var dir := ExtractDirectoryName(path);
      if dir.None? then BadReferrer else Key(Resolve(dir.value, name))
  }

  // A path names a directory exactly if it has a separator.
  lemma DirectoryExists(path: string)
    ensures ExtractDirectoryName(path).Some? <==> SEPARATOR in path
  {
    assert path[0..] == path;
  }

  lemma WorkingDirectoryExists(cwd: string)
    ensures WorkingDirectory(cwd).Some? <==> cwd != ""
  {
    if cwd != "" {
      DirectoryExists(cwd);
      DirectoryExists(cwd + [SEPARATOR]);
    }
  }

  // When resolution fails, and how; the working directory does not matter where there is a referrer.
  lemma LoaderFails(cwd: string, name: string, referrer: Option<string>)
    ensures LoaderResolve(cwd, name, referrer) == NoWorkingDirectory <==> referrer.None? && cwd == ""
    ensures LoaderResolve(cwd, name, referrer) == BadReferrer <==> referrer.Some? && SEPARATOR !in referrer.value
    ensures referrer.Some? ==> forall cwd' :: LoaderResolve(cwd', name, referrer) == LoaderResolve(cwd, name, referrer)
  {
    WorkingDirectoryExists(cwd);
    if referrer.Some? {
      DirectoryExists(referrer.value);
    }
  }

  // The name starts at the root: it is written so, or it is empty.
  predicate FromRoot(name: string) {
    name == "" || name[0] == SEPARATOR
  }

  lemma FromRootPieces(name: string)
    ensures StartsWithRoot(Pieces(name)) <==> FromRoot(name)
  {
  }

  // Where a name leads from a directory: its ".." cancel names to their left, those of the directory
  // included unless the name starts at the root.
  function Target(root: string, segments: seq<string>, name: string): string {
    root + Join(Cancel(if FromRoot(name) then [] else segments, Pieces(name), 0))
  }

  lemma ResolveIsTarget(dir: DirectoryName, name: string)
    ensures Resolve(dir, name) == Target(dir.rootName, Segments(dir.queryName), name)
  {
    FromRootPieces(name);
    WalkIsCancel(StartPieces(dir, Pieces(name)), Pieces(name));
  }

  // A module is looked up beside its referrer.
  lemma BesideReferrer(cwd: string, root: string, directory: string, file: string, name: string)
    requires IsRoot(root) && SEPARATOR !in file
    ensures LoaderResolve(cwd, name, Some(root + (directory + [SEPARATOR] + file))) ==
            Key(Target(root, Segments(directory), name))
    ensures LoaderResolve(cwd, name, Some(root + file)) == Key(Target(root, [], name))
  {
    DirectoryBelow(root, directory, file);
    DirectoryAtRoot(root, file);
    ResolveIsTarget(DirectoryName(root, directory), name);
    ResolveIsTarget(DirectoryName(root, ""), name);
  }

  // Without a referrer it is looked up in the working directory.
  lemma InWorkingDirectory(cwd: string, name: string)
    requires Normalised(cwd)
    ensures LoaderResolve(cwd, name, None) == Key(Target([SEPARATOR], Segments(cwd), name))
  {
    WorkingDirectoryNormalised(cwd);
    var dir := DirectoryName([SEPARATOR], Join(Segments(cwd)));
    SplitJoin(Segments(cwd));
    ResolveIsTarget(dir, name);
  }

  // An import by a module that was itself imported: b from a/f is a/b, wherever the process is now.
  lemma ImportsCompose(cwd: string, later: string, a: string, f: string, b: string)
    requires Normalised(cwd) && Ordinary(f) && Relative(b)
    ensures var key := LoaderResolve(cwd, a + [SEPARATOR] + f, None);
            && key.Key?
            && LoaderResolve(later, b, Some(key.path)) == LoaderResolve(cwd, a + [SEPARATOR] + b, None)
  {
    WorkingDirectoryNormalised(cwd);
    ResolveComposes(DirectoryName([SEPARATOR], Join(Segments(cwd))), a, f, b);
  }

  lemma WorkingDirectoryNormalised(cwd: string)
    requires Normalised(cwd)
    ensures WorkingDirectory(cwd) == Some(DirectoryName([SEPARATOR], Join(Segments(cwd))))
  {
    var pieces := Segments(cwd);
    if pieces == [] {
      DirectoryOfFile([SEPARATOR], [], "");
      assert [] + [""] == [""] && [SEPARATOR] + "" == [SEPARATOR] && Join(pieces) == "";
    } else {
      JoinLast(pieces, "");
      assert cwd + [SEPARATOR] == [SEPARATOR] + Join(pieces + [""]);
      DirectoryOfFile([SEPARATOR], pieces, "");
      LastIsPlain(pieces);
    }
  }

  lemma {:induction false} LastIsPlain(pieces: seq<string>)
    requires AllPlain(pieces) && pieces != []
    ensures Join(pieces) != "" && Join(pieces)[|Join(pieces)| - 1] != SEPARATOR
    decreases |pieces|
  {
    if |pieces| > 1 {
      LastIsPlain(pieces[1..]);
    }
  }

  // The key before the i-th one, if there is one.
  function Referrer(keys: seq<Outcome>, i: nat): Option<string>
    requires i <= |keys|
  {
    if i > 0 && keys[i - 1].Key? then Some(keys[i - 1].path) else None
  }

  // A chain of imports: each key is the referrer of the next.
  ghost predicate Imports(cwd: string, names: seq<string>, keys: seq<Outcome>) {
    |keys| == |names| &&
    forall i | 0 <= i < |names| :: keys[i] == LoaderResolve(cwd, names[i], Referrer(keys, i))
  }

  // One import in a chain gives a normalised key, whether or not it has a referrer.
  lemma ImportIsNormalised(cwd: string, name: string, referrer: Option<string>)
    requires Normalised(cwd) && (referrer.Some? ==> Normalised(referrer.value))
    ensures LoaderResolve(cwd, name, referrer).Key? && Normalised(LoaderResolve(cwd, name, referrer).path)
  {
    if referrer.None? {
      WorkingDirectoryNormalised(cwd);
      SplitJoin(Segments(cwd));
      KeyIsNormalised(WorkingDirectory(cwd).value, name);
    } else {
      KeyDirectory(referrer.value);
      KeyIsNormalised(ExtractDirectoryName(referrer.value).value, name);
    }
  }

  // Every key of every chain from a normalised working directory is normalised.
  lemma {:induction false} ChainStaysNormalised(cwd: string, names: seq<string>, keys: seq<Outcome>, i: nat)
    requires Normalised(cwd) && Imports(cwd, names, keys) && i < |keys|
    ensures keys[i].Key? && Normalised(keys[i].path)
    decreases i
  {
    if i > 0 {
      ChainStaysNormalised(cwd, names, keys, i - 1);
    }
    ImportIsNormalised(cwd, names[i], Referrer(keys, i));
  }

  // Any names can be imported in a chain.
  lemma {:induction false} ChainExists(cwd: string, names: seq<string>) returns (keys: seq<Outcome>)
    ensures Imports(cwd, names, keys)
    decreases |names|
  {
    if names == [] {
      keys := [];
    } else {
      var last := |names| - 1;
      var before := ChainExists(cwd, names[..last]);
      keys := before + [LoaderResolve(cwd, names[last], Referrer(before, last))];
      assert forall i | 0 <= i < |names| :: Referrer(keys, i) == Referrer(before, i);
    }
  }
}
