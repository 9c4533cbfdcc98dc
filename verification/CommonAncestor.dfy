/** The directory an import closure is copied from: the common ancestor of absolute paths, as the loop finds it. */
module CommonAncestor {
  import opened Text

  /** An absolute path as its segments; [] is the root. */
  type Path = seq<string>

  function CommonLength(a: Path, b: Path): (n: nat)
    ensures n <= |a| && n <= |b| && a[..n] == b[..n]
    ensures n < |a| && n < |b| ==> a[n] != b[n]
  {
    if a != [] && b != [] && a[0] == b[0] then
      var n := CommonLength(a[1..], b[1..]);
      assert a[..n + 1] == [a[0]] + a[1..][..n] && b[..n + 1] == [b[0]] + b[1..][..n];
      n + 1
    else 0
  }

  function Common(a: Path, b: Path): Path {
    a[..CommonLength(a, b)]
  }

  /** Cutting one path short can only shorten the common part to the cut. */
  lemma CommonOfPrefix(a: Path, b: Path, n: nat)
    requires n <= |a|
    ensures CommonLength(a[..n], b) == Min(CommonLength(a, b), n)
    ensures Common(a[..n], b) == a[..Min(CommonLength(a, b), n)]
  {
  }

  // ---------------------------------------------------------------- the loop

  /** path.relative(ancestor, candidate) begins with a parent step and a separator: it climbs at least one level and
      is not the lone "..". */
  predicate Climbs(ancestor: Path, candidate: Path) {
    var n := CommonLength(ancestor, candidate);
    n < |ancestor| && (|ancestor| - n) + (|candidate| - n) >= 2
  }

  /** Where the inner loop stops for one candidate. */
  function Meet(ancestor: Path, candidate: Path): Path {
    if CommonLength(ancestor, candidate) == |candidate| < |ancestor| then ancestor[..|candidate| + 1]
    else Common(ancestor, candidate)
  }

  function MeetAll(first: Path, rest: seq<Path>): Path {
    if rest == [] then first else Meet(MeetAll(first, rest[..|rest| - 1]), rest[|rest| - 1])
  }

  lemma ClimbKeepsMeet(ancestor: Path, candidate: Path)
    requires Climbs(ancestor, candidate)
    ensures Meet(ancestor[..|ancestor| - 1], candidate) == Meet(ancestor, candidate)
  {
  }

  /** resolveCommonAncestor on resolved paths; None for the error on an empty path set. The source's exit at the root
      never fires, because nothing climbs out of the root. */
  method ResolveCommonAncestor(paths: seq<Path>) returns (r: Option<Path>)
    ensures r == if paths == [] then None else Some(MeetAll(paths[0], paths[1..]))
  {
    if paths == [] { return None; }
    var first, rest := paths[0], paths[1..];
    var ancestor := first;
    for i := 0 to |rest|
      invariant ancestor == MeetAll(first, rest[..i])
    {
      var candidate := rest[i];
      ghost var start := ancestor;
      while Climbs(ancestor, candidate)
        invariant Meet(ancestor, candidate) == Meet(start, candidate)
        decreases |ancestor|
      {
        ClimbKeepsMeet(ancestor, candidate);
        ancestor := ancestor[..|ancestor| - 1];
      }
      assert ancestor == Meet(ancestor, candidate);
      assert rest[..i + 1][..i] == rest[..i];
    }
    assert rest[..|rest|] == rest;
    return Some(ancestor);
  }

  // ---------------------------------------------------------------- against the longest common prefix

  function CommonOfAll(first: Path, rest: seq<Path>): Path {
    if rest == [] then first else Common(CommonOfAll(first, rest[..|rest| - 1]), rest[|rest| - 1])
  }

  /** The reference: CommonOfAll is a prefix of every path, and every such prefix is a prefix of it. */
  lemma {:induction false} CommonOfAllIsGreatest(first: Path, rest: seq<Path>, q: Path)
    ensures q <= CommonOfAll(first, rest) <==> q <= first && forall i :: 0 <= i < |rest| ==> q <= rest[i]
  {
    hide CommonLength;
    if rest != [] {
      var init, last := rest[..|rest| - 1], rest[|rest| - 1];
      CommonOfAllIsGreatest(first, init, q);
      PrefixOfCommon(CommonOfAll(first, init), last, q);
      assert forall i :: 0 <= i < |init| ==> rest[i] == init[i];
    }
  }

  lemma PrefixOfCommon(a: Path, b: Path, q: Path)
    ensures q <= Common(a, b) <==> q <= a && q <= b
  {
  }

  /** Some later path leaves `first` after exactly n segments by naming another child there. */
  ghost predicate DivergesAfter(first: Path, rest: seq<Path>, n: nat) {
    exists i :: 0 <= i < |rest| && |rest[i]| > n && CommonLength(first, rest[i]) == n
  }

  lemma DivergesSnoc(first: Path, rest: seq<Path>, n: nat)
    requires rest != []
    ensures var c := rest[|rest| - 1];
      DivergesAfter(first, rest, n) <==> DivergesAfter(first, rest[..|rest| - 1], n) || (|c| > n && CommonLength(first, c) == n)
  {
  }

  lemma {:induction false} NoDivergenceAbove(first: Path, rest: seq<Path>, n: nat)
    requires n < |CommonOfAll(first, rest)|
    ensures !DivergesAfter(first, rest, n)
  {
    hide CommonLength;
    if rest != [] {
      var init, c := rest[..|rest| - 1], rest[|rest| - 1];
      DivergesSnoc(first, rest, n);
      NoDivergenceAbove(first, init, n);
      CommonOfAllIsGreatest(first, init, CommonOfAll(first, init));
      CommonOfPrefix(first, c, |CommonOfAll(first, init)|);
    }
  }

  lemma MeetOfPrefix(first: Path, c: Path, n: nat)
    requires n <= |first|
    ensures Meet(first[..n], c) == first[..if CommonLength(first, c) == |c| < n then |c| + 1 else Min(CommonLength(first, c), n)]
  {
    hide CommonLength;
    CommonOfPrefix(first, c, n);
  }

  /** The loop ends on the common prefix or one level below it, and on it exactly when that is `first` itself or some
      later path names another child of it. */
  lemma {:induction false} CommonAncestorExactly(first: Path, rest: seq<Path>)
    ensures var got, want := MeetAll(first, rest), CommonOfAll(first, rest);
      && want <= got <= first && |got| <= |want| + 1
      && (got == want <==> want == first || DivergesAfter(first, rest, |want|))
  {
    hide CommonLength, Meet, Common, DivergesAfter;
    if rest != [] {
      var init, c := rest[..|rest| - 1], rest[|rest| - 1];
      CommonAncestorExactly(first, init);
      var got, want := MeetAll(first, init), CommonOfAll(first, init);
      assert got == first[..|got|] && want == first[..|want|];
      MeetOfPrefix(first, c, |got|);
      CommonOfPrefix(first, c, |want|);
      var m := Min(CommonLength(first, c), |want|);
      DivergesSnoc(first, rest, m);
      if m < |want| {
        NoDivergenceAbove(first, init, m);
      }
    }
  }

  /** An input on which the loop stops one level too low: a file's path followed by the directory above its own. */
  lemma StopsOneLevelTooLow()
    ensures MeetAll(["a", "b", "c"], [["a"]]) == ["a", "b"]
    ensures CommonOfAll(["a", "b", "c"], [["a"]]) == ["a"]
  {
    var first: Path, c: Path := ["a", "b", "c"], ["a"];
    var rest: seq<Path> := [c];
    assert first[1..] == ["b", "c"] && c[1..] == [];
    assert CommonLength(first, c) == 1;
    assert rest[..0] == [];
    assert first[..2] == ["a", "b"] && first[..1] == ["a"];
  }

  /** With no later path strictly above the first one, as when the first is a directory and the rest are files, the
      loop returns the common prefix. */
  lemma CommonAncestorOfDirectoryAndFiles(first: Path, rest: seq<Path>)
    requires forall i :: 0 <= i < |rest| ==> !(rest[i] < first)
    ensures MeetAll(first, rest) == CommonOfAll(first, rest)
  {
    CommonAncestorExactly(first, rest);
    SomePathAttains(first, rest);
  }

  lemma {:induction false} SomePathAttains(first: Path, rest: seq<Path>)
    requires forall i :: 0 <= i < |rest| ==> !(rest[i] < first)
    ensures CommonOfAll(first, rest) == first || DivergesAfter(first, rest, |CommonOfAll(first, rest)|)
  {
    hide CommonLength;
    if rest != [] {
      var init, c := rest[..|rest| - 1], rest[|rest| - 1];
      SomePathAttains(first, init);
      CommonOfAllIsGreatest(first, init, CommonOfAll(first, init));
      var want := CommonOfAll(first, init);
      assert want == first[..|want|];
      CommonOfPrefix(first, c, |want|);
      var m := Min(CommonLength(first, c), |want|);
      DivergesSnoc(first, rest, m);
      if m < |want| {
        assert c[..m] == first[..m];
      }
    }
  }
}
