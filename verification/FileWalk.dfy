/** The explicit-stack directory walk behind the repository's file checks. */
module FileWalk {
  import opened Text

  /** The root directory followed by entry names. */
  type Path = seq<string>

  /** A directory as readdir sees it; entries that are neither directories nor files, such as links, are Other. */
  datatype Listing = Unreadable | Readable(entries: seq<Entry>)

  datatype Entry = File(name: string) | Dir(name: string, listing: Listing) | Other(name: string)

  /** The walk's options; None stands for the default set of skipped directory names. */
  datatype Options = Options(includeFile: Path -> bool, skipDirNames: Option<set<string>>)

  const DEFAULT_SKIPPED_DIR_NAMES := {"node_modules", "dist", "coverage"}

  predicate Skips(o: Options, name: string) {
    name in if o.skipDirNames.Some? then o.skipDirNames.value else DEFAULT_SKIPPED_DIR_NAMES
  }

  predicate Entered(o: Options, e: Entry) {
    e.Dir? && !Skips(o, e.name)
  }

  predicate Taken(o: Options, path: Path, e: Entry) {
    e.File? && o.includeFile(path + [e.name])
  }

  // ---------------------------------------------------------------- the recursive specification

  /** The files the walk yields from a directory: its own in order, then those of its subdirectories, last one first. */
  function Walk(o: Options, path: Path, listing: Listing): seq<Path>
    decreases listing
  {
    match listing
    case Unreadable => []
    case Readable(entries) => OwnFiles(o, path, entries) + SubFiles(o, path, entries)
  }

  function OwnFiles(o: Options, path: Path, entries: seq<Entry>): seq<Path> {
    if entries == [] then []
    else
      var before, e := OwnFiles(o, path, entries[..|entries| - 1]), entries[|entries| - 1];
      if Taken(o, path, e) then before + [path + [e.name]] else before
  }

  function SubFiles(o: Options, path: Path, entries: seq<Entry>): seq<Path>
    decreases entries
  {
    if entries == [] then []
    else
      var before, e := SubFiles(o, path, entries[..|entries| - 1]), entries[|entries| - 1];
      if Entered(o, e) then Walk(o, path + [e.name], e.listing) + before else before
  }

  // ---------------------------------------------------------------- the walk

  datatype Frame = Frame(path: Path, listing: Listing)

  function WalkStack(o: Options, stack: seq<Frame>): seq<Path> {
    if stack == [] then []
    else
      var top := stack[|stack| - 1];
      Walk(o, top.path, top.listing) + WalkStack(o, stack[..|stack| - 1])
  }

  function Size(listing: Listing): (n: nat)
    ensures n >= 1
  {
    match listing
    case Unreadable => 1
    case Readable(entries) => 1 + EntriesSize(entries)
  }

  function EntriesSize(entries: seq<Entry>): nat {
    if entries == [] then 0
    else
      var e := entries[|entries| - 1];
      EntriesSize(entries[..|entries| - 1]) + (if e.Dir? then Size(e.listing) else 0)
  }

  function StackSize(stack: seq<Frame>): nat {
    if stack == [] then 0 else Size(stack[|stack| - 1].listing) + StackSize(stack[..|stack| - 1])
  }

  lemma PushedFrame(o: Options, stack: seq<Frame>, f: Frame)
    ensures WalkStack(o, stack + [f]) == Walk(o, f.path, f.listing) + WalkStack(o, stack)
    ensures StackSize(stack + [f]) == Size(f.listing) + StackSize(stack)
  {
  }

  lemma PoppedFrame(o: Options, stack: seq<Frame>)
    requires stack != []
    ensures var top, below := stack[|stack| - 1], stack[..|stack| - 1];
      && WalkStack(o, stack) == Walk(o, top.path, top.listing) + WalkStack(o, below)
      && StackSize(stack) == Size(top.listing) + StackSize(below)
  {
  }

  lemma DirectoryWalk(o: Options, f: Frame)
    ensures match f.listing
            case Unreadable => Walk(o, f.path, f.listing) == []
            case Readable(entries) =>
              && Walk(o, f.path, f.listing) == OwnFiles(o, f.path, entries) + SubFiles(o, f.path, entries)
              && Size(f.listing) == 1 + EntriesSize(entries)
  {
  }

  /** collectFilesSync: an explicit stack that pops directories until none is left. */
  method CollectFilesSync(rootDir: string, listing: Listing, o: Options) returns (files: seq<Path>)
    ensures files == if rootDir == "" then [] else Walk(o, [rootDir], listing)
  {
    hide OwnFiles, SubFiles, EntriesSize, Walk, WalkStack, Size, StackSize;
    files := [];
    if rootDir == "" { return; }
    var stack := [Frame([rootDir], listing)];
    SingleFrame(o, stack[0]);
    while |stack| > 0
      invariant files + WalkStack(o, stack) == Walk(o, [rootDir], listing)
      decreases StackSize(stack)
    {
      var current := stack[|stack| - 1];
      PoppedFrame(o, stack);
      DirectoryWalk(o, current);
      stack := stack[..|stack| - 1];
      if current.listing.Unreadable? { continue; }
      ghost var done, below := files, stack;
      files, stack := ReadDirectory(o, current.path, current.listing.entries, files, stack);
      assert files + WalkStack(o, stack) == done + (Walk(o, current.path, current.listing) + WalkStack(o, below));
    }
    NoFrames(o);
  }

  lemma SingleFrame(o: Options, f: Frame)
    ensures WalkStack(o, [f]) == Walk(o, f.path, f.listing)
  {
    assert [f][..0] == [];
  }

  lemma NoFrames(o: Options)
    ensures WalkStack(o, []) == []
  {
  }

  /** The inner loop: take the directory's files and push the subdirectories that are not skipped. */
  method ReadDirectory(o: Options, path: Path, entries: seq<Entry>, files: seq<Path>, stack: seq<Frame>)
    returns (files': seq<Path>, stack': seq<Frame>)
    ensures files' == files + OwnFiles(o, path, entries)
    ensures WalkStack(o, stack') == SubFiles(o, path, entries) + WalkStack(o, stack)
    ensures StackSize(stack') <= StackSize(stack) + EntriesSize(entries)
  {
    hide Walk, Size, WalkStack, StackSize;
    files', stack' := files, stack;
    for k := 0 to |entries|
      invariant files' == files + OwnFiles(o, path, entries[..k])
      invariant WalkStack(o, stack') == SubFiles(o, path, entries[..k]) + WalkStack(o, stack)
      invariant StackSize(stack') <= StackSize(stack) + EntriesSize(entries[..k])
    {
      assert entries[..k + 1][..k] == entries[..k];
      var entry := entries[k];
      var fullPath := path + [entry.name];
      if entry.Dir? {
        if Skips(o, entry.name) { continue; }
        PushedFrame(o, stack', Frame(fullPath, entry.listing));
        stack' := stack' + [Frame(fullPath, entry.listing)];
        continue;
      }
      if entry.File? && o.includeFile(fullPath) {
        files' := files' + [fullPath];
      }
    }
    assert entries[..|entries|] == entries;
  }

  // ---------------------------------------------------------------- which files those are

  /** The caller's set of names to skip, if it gives one, and else the three default names. */
  predicate Skipped(o: Options, name: string) {
    match o.skipDirNames
    case Some(names) => name in names
    case None => name == "node_modules" || name == "dist" || name == "coverage"
  }

  /** The names lead from the directory through readable directories that are not skipped to a file. */
  predicate Leads(o: Options, listing: Listing, names: seq<string>)
    decreases |names|
  {
    && names != [] && listing.Readable?
    && if |names| == 1 then File(names[0]) in listing.entries
       else exists e <- listing.entries :: e.Dir? && e.name == names[0] && !Skipped(o, e.name) && Leads(o, e.listing, names[1..])
  }

  ghost predicate Selected(o: Options, path: Path, listing: Listing, p: Path) {
    path <= p && Leads(o, listing, p[|path|..]) && o.includeFile(p)
  }

  lemma {:induction false} OwnFilesMembers(o: Options, path: Path, entries: seq<Entry>, p: Path)
    ensures p in OwnFiles(o, path, entries) <==>
            exists e :: e in entries && e.File? && p == path + [e.name] && o.includeFile(p)
  {
    if entries != [] {
      var init, last := entries[..|entries| - 1], entries[|entries| - 1];
      assert entries == init + [last];
      OwnFilesMembers(o, path, init, p);
    }
  }

  lemma {:induction false} SubFilesMembers(o: Options, path: Path, entries: seq<Entry>, p: Path)
    decreases entries
    ensures p in SubFiles(o, path, entries) <==>
            exists e :: e in entries && Entered(o, e) && Selected(o, path + [e.name], e.listing, p)
  {
    if entries != [] {
      var init, last := entries[..|entries| - 1], entries[|entries| - 1];
      assert entries == init + [last];
      SubFilesMembers(o, path, init, p);
      if Entered(o, last) {
        WalkMembers(o, path + [last.name], last.listing, p);
      }
    }
  }

  /** The walk yields exactly the accepted files reached through no skipped and no unreadable directory. */
  lemma {:induction false} WalkMembers(o: Options, path: Path, listing: Listing, p: Path)
    decreases listing
    ensures p in Walk(o, path, listing) <==> Selected(o, path, listing, p)
  {
    if listing.Readable? {
      OwnFilesMembers(o, path, listing.entries, p);
      SubFilesMembers(o, path, listing.entries, p);
      LeadsUnfolds(o, path, listing, p);
    }
  }

  /** A selected path is one of the directory's files, or is selected below one of its entered directories. */
  lemma LeadsUnfolds(o: Options, path: Path, listing: Listing, p: Path)
    requires listing.Readable?
    ensures Selected(o, path, listing, p) <==>
            || (exists e :: e in listing.entries && e.File? && p == path + [e.name] && o.includeFile(p))
            || (exists e :: e in listing.entries && Entered(o, e) && Selected(o, path + [e.name], e.listing, p))
  {
  }

  // ---------------------------------------------------------------- each file once

  predicate DistinctNames(listing: Listing) {
    listing.Readable? ==> DistinctEntries(listing.entries)
  }

  /** No directory, at any depth, lists one name twice. */
  predicate DistinctEntries(entries: seq<Entry>) {
    entries != [] ==>
      var init, last := entries[..|entries| - 1], entries[|entries| - 1];
      && DistinctEntries(init) && (forall e <- init :: e.name != last.name)
      && (last.Dir? ==> DistinctNames(last.listing))
  }

  predicate NoDuplicates(s: seq<Path>) {
    forall i, j :: 0 <= i < j < |s| ==> s[i] != s[j]
  }

  lemma ConcatNoDuplicates(a: seq<Path>, b: seq<Path>)
    requires NoDuplicates(a) && NoDuplicates(b) && forall p <- a :: p !in b
    ensures NoDuplicates(a + b)
  {
    var s := a + b;
    forall i, j | 0 <= i < j < |s| ensures s[i] != s[j] {
      assert j >= |a| ==> s[j] in b;
      assert i < |a| ==> s[i] in a;
    }
  }

  /** A directory's own files are one name below it, each once. */
  lemma {:induction false} OwnFilesAreShort(o: Options, path: Path, entries: seq<Entry>)
    requires DistinctEntries(entries)
    ensures NoDuplicates(OwnFiles(o, path, entries))
    ensures forall p <- OwnFiles(o, path, entries) :: |p| == |path| + 1 && path <= p && exists e <- entries :: e.name == p[|path|]
  {
    if entries != [] {
      var init, last := entries[..|entries| - 1], entries[|entries| - 1];
      assert entries == init + [last];
      OwnFilesAreShort(o, path, init);
    }
  }

  /** The files of its subdirectories are at least two names below it, each once. */
  lemma {:induction false} SubFilesAreLong(o: Options, path: Path, entries: seq<Entry>)
    requires DistinctEntries(entries)
    ensures NoDuplicates(SubFiles(o, path, entries))
    ensures forall p <- SubFiles(o, path, entries) :: |p| > |path| + 1 && path <= p && exists e <- entries :: e.name == p[|path|]
    decreases entries
  {
    if entries != [] {
      var init, last := entries[..|entries| - 1], entries[|entries| - 1];
      assert entries == init + [last];
      SubFilesAreLong(o, path, init);
      if Entered(o, last) {
        WalkHasNoDuplicates(o, path + [last.name], last.listing);
        forall p | p in Walk(o, path + [last.name], last.listing) ensures |p| > |path| + 1 && path <= p && p[|path|] == last.name {
          WalkMembers(o, path + [last.name], last.listing, p);
        }
        ConcatNoDuplicates(Walk(o, path + [last.name], last.listing), SubFiles(o, path, init));
      }
    }
  }

  /** When no directory lists a name twice, every file is yielded once. */
  lemma {:induction false} WalkHasNoDuplicates(o: Options, path: Path, listing: Listing)
    requires DistinctNames(listing)
    ensures NoDuplicates(Walk(o, path, listing))
    decreases listing
  {
    if listing.Readable? {
      OwnFilesAreShort(o, path, listing.entries);
      SubFilesAreLong(o, path, listing.entries);
      ConcatNoDuplicates(OwnFiles(o, path, listing.entries), SubFiles(o, path, listing.entries));
    }
  }
}
