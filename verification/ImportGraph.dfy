/** The closure of a file under resolved relative imports. */
module ImportGraph {
  import opened Text

  /** A source tree: the import specifiers found in each readable file, and how a relative one resolves. */
  datatype Tree = Tree(imports: map<string, seq<string>>, resolve: (string, string) -> Option<string>)

  datatype Closure = Discovered(files: set<string>) | ReadFailed(path: string)

  /** The file that a specifier in `from` adds to the queue, if any. */
  function Target(t: Tree, from: string, specifier: string): Option<string> {
    if !("." <= specifier) then None
    else if t.resolve(from, specifier) == Some("") then None
    else t.resolve(from, specifier)
  }

  /** The file can be read, and one of its specifiers begins with a dot and resolves to the other file. */
  predicate Imports(t: Tree, from: string, to: string) {
    && from in t.imports && to != ""
    && exists k :: 0 <= k < |t.imports[from]|
         && "." <= t.imports[from][k] && t.resolve(from, t.imports[from][k]) == Some(to)
  }

  ghost predicate IsPath(t: Tree, path: seq<string>) {
    path != [] && forall i :: 0 <= i < |path| - 1 ==> Imports(t, path[i], path[i + 1])
  }

  ghost predicate Reaches(t: Tree, from: string, to: string) {
    exists path :: IsPath(t, path) && path[0] == from && path[|path| - 1] == to
  }

  lemma ReachesSelf(t: Tree, f: string)
    ensures Reaches(t, f, f)
  {
    assert IsPath(t, [f]);
  }

  lemma ReachesNext(t: Tree, from: string, via: string, to: string)
    requires Reaches(t, from, via) && Imports(t, via, to)
    ensures Reaches(t, from, to)
  {
    var path :| IsPath(t, path) && path[0] == from && path[|path| - 1] == via;
    assert IsPath(t, path + [to]);
  }

  ghost predicate ClosedUnderImports(t: Tree, files: set<string>) {
    forall f, g :: f in files && Imports(t, f, g) ==> g in files
  }

  lemma {:induction false} PathStaysInside(t: Tree, files: set<string>, path: seq<string>)
    requires ClosedUnderImports(t, files) && IsPath(t, path) && path[0] in files
    ensures path[|path| - 1] in files
  {
    if |path| > 1 {
      var init := path[..|path| - 1];
      assert IsPath(t, init);
      PathStaysInside(t, files, init);
      assert Imports(t, path[|path| - 2], path[|path| - 1]);
    }
  }

  /** A set that holds the entry, only reachable files, and everything its members import is the reachable set. */
  lemma ClosureIsReachable(t: Tree, entry: string, files: set<string>)
    requires entry in files && ClosedUnderImports(t, files)
    requires forall f <- files :: Reaches(t, entry, f)
    ensures forall f :: f in files <==> Reaches(t, entry, f)
  {
    forall f | Reaches(t, entry, f) ensures f in files {
      var path :| IsPath(t, path) && path[0] == entry && path[|path| - 1] == f;
      PathStaysInside(t, files, path);
    }
  }

  /** collectRelativeImportGraph: returns exactly the files reachable from the entry, or the first unreadable one it
      meets; it fails exactly when some reachable file cannot be read. */
  method CollectRelativeImportGraph(t: Tree, entry: string) returns (r: Closure)
    requires entry != ""
    ensures r.Discovered? ==> forall f :: f in r.files <==> Reaches(t, entry, f)
    ensures r.Discovered? <==> forall f :: Reaches(t, entry, f) ==> f in t.imports
    ensures r.ReadFailed? ==> Reaches(t, entry, r.path) && r.path !in t.imports
  {
    var discovered: set<string> := {};
    var queue := [entry];
    ReachesSelf(t, entry);
    while |queue| > 0
      invariant discovered <= t.imports.Keys && "" !in queue
      invariant entry in discovered || entry in queue
      invariant forall f :: f in discovered || f in queue ==> Reaches(t, entry, f)
      invariant forall f, g :: f in discovered && Imports(t, f, g) ==> g in discovered || g in queue
      decreases t.imports.Keys - discovered, |queue|
    {
      var currentPath := queue[|queue| - 1];
      ghost var popped := queue;
      queue := queue[..|queue| - 1];
      assert popped == queue + [currentPath];
      if currentPath == "" || currentPath in discovered { continue; }
      if currentPath !in t.imports {
        return ReadFailed(currentPath);
      }
      discovered := discovered + {currentPath};
      queue := PushTargets(t, currentPath, queue);
      forall g | g in queue ensures Reaches(t, entry, g) {
        if Imports(t, currentPath, g) { ReachesNext(t, entry, currentPath, g); }
      }
    }
    ClosureIsReachable(t, entry, discovered);
    return Discovered(discovered);
  }

  /** The inner loop: push every resolved target of the file's specifiers. */
  method PushTargets(t: Tree, from: string, queue: seq<string>) returns (pushed: seq<string>)
    requires from in t.imports && "" !in queue
    ensures forall g :: g in pushed <==> g in queue || Imports(t, from, g)
    ensures "" !in pushed
  {
    pushed := queue;
    var specifiers := t.imports[from];
    for k := 0 to |specifiers|
      invariant "" !in pushed
      invariant forall g :: g in pushed <==>
                  g in queue || (g != "" && exists i :: 0 <= i < k && "." <= specifiers[i] && t.resolve(from, specifiers[i]) == Some(g))
    {
      var target := Target(t, from, specifiers[k]);
      if target.Some? {
        pushed := pushed + [target.value];
      }
    }
  }
}
