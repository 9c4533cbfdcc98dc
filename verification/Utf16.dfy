/** Slicing UTF-16 text without cutting a surrogate pair (section 3.9 of the Unicode Standard). */
module Utf16 {
  import opened Text

  type CodeUnit = x: int | 0 <= x < 0x1_0000

  /** A decoded unit of text: a code point of either plane, or a surrogate that stands alone. */
  type CodePoint = nat

  predicate IsHighSurrogate(u: CodeUnit) {
    0xD800 <= u <= 0xDBFF
  }

  predicate IsLowSurrogate(u: CodeUnit) {
    0xDC00 <= u <= 0xDFFF
  }

  predicate PairAt(s: seq<CodeUnit>, i: int) {
    0 <= i < |s| - 1 && IsHighSurrogate(s[i]) && IsLowSurrogate(s[i + 1])
  }

  /** The number of code units that the first unit of text takes. */
  function Width(s: seq<CodeUnit>): (n: nat)
    requires s != []
    ensures 1 <= n <= 2 && n <= |s|
  {
    if PairAt(s, 0) then 2 else 1
  }

  function First(s: seq<CodeUnit>): CodePoint
    requires s != []
  {
    if PairAt(s, 0) then
      var high: int, low: int := s[0], s[1];
      0x1_0000 + 0x400 * (high - 0xD800) + (low - 0xDC00)
    else s[0]
  }

  /** Left-to-right decoding; a surrogate outside a pair decodes to itself. */
  function Decode(s: seq<CodeUnit>): seq<CodePoint> {
    if s == [] then [] else [First(s)] + Decode(s[Width(s)..])
  }

  /** The two code units of a code point above the first plane (table 3-5 of the Unicode Standard). */
  function Surrogates(c: CodePoint): seq<CodeUnit>
    requires 0x1_0000 <= c < 0x11_0000
  {
    [0xD800 + (c - 0x1_0000) / 0x400, 0xDC00 + (c - 0x1_0000) % 0x400]
  }

  /** The pairs are exactly the encodings of those code points, and decode to them. */
  lemma PairsEncodeCodePoints(s: seq<CodeUnit>, i: nat)
    requires i + 2 <= |s|
    ensures PairAt(s, i) <==> exists c :: 0x1_0000 <= c < 0x11_0000 && s[i..i + 2] == Surrogates(c)
    ensures PairAt(s, i) ==> var c := First(s[i..]); 0x1_0000 <= c < 0x11_0000 && s[i..i + 2] == Surrogates(c)
  {
    if PairAt(s, i) {
      var high: int, low: int := s[i] - 0xD800, s[i + 1] - 0xDC00;
      assert PairAt(s[i..], 0);
      assert First(s[i..]) == 0x1_0000 + 0x400 * high + low;
      assert s[i..i + 2] == Surrogates(First(s[i..]));
    }
    if c :| 0x1_0000 <= c < 0x11_0000 && s[i..i + 2] == Surrogates(c) {
      assert s[i] == s[i..i + 2][0] && s[i + 1] == s[i..i + 2][1];
    }
  }

  /** Index i does not fall inside a surrogate pair. */
  predicate Boundary(s: seq<CodeUnit>, i: int) {
    0 <= i <= |s| && !PairAt(s, i - 1)
  }

  lemma OneUnitPerPair(s: seq<CodeUnit>)
    ensures forall i :: PairAt(s, i) ==> !PairAt(s, i + 1)
  {
  }

  /** The first unit of text depends only on the code units it takes. */
  lemma FirstIsLocal(s: seq<CodeUnit>, i: nat)
    requires s != [] && Width(s) <= i <= |s|
    ensures First(s[..i]) == First(s) && Width(s[..i]) == Width(s)
  {
    hide IsHighSurrogate, IsLowSurrogate;
  }

  lemma DecodeUnfolds(s: seq<CodeUnit>)
    requires s != []
    ensures Decode(s) == [First(s)] + Decode(s[Width(s)..])
  {
    hide First, Width;
  }

  lemma SliceOfPrefix<T>(s: seq<T>, n: nat, i: nat)
    requires n <= i <= |s|
    ensures s[..i][n..] == s[n..][..i - n]
  {
  }

  lemma DecodeStep(s: seq<CodeUnit>, i: nat)
    requires s != [] && Width(s) <= i <= |s|
    ensures Decode(s) == [First(s)] + Decode(s[Width(s)..])
    ensures Decode(s[..i]) == [First(s)] + Decode(s[Width(s)..][..i - Width(s)])
  {
    hide Width, First, Decode;
    FirstIsLocal(s, i);
    DecodeUnfolds(s);
    DecodeUnfolds(s[..i]);
    SliceOfPrefix(s, Width(s), i);
  }

  lemma {:induction false} DecodeSplits(s: seq<CodeUnit>, i: int)
    requires Boundary(s, i)
    ensures Decode(s) == Decode(s[..i]) + Decode(s[i..])
  {
    hide IsHighSurrogate, IsLowSurrogate, Decode, First;
    if i == 0 {
      assert s[0..] == s && s[..0] == [];
      DecodeNothing();
    } else {
      OneUnitPerPair(s);
      var n := Width(s);
      DecodeStep(s, i);
      DecodeSplits(s[n..], i - n);
      assert s[i..] == s[n..][i - n..];
    }
  }

  lemma DecodeNothing()
    ensures Decode([]) == []
  {
  }

  lemma {:induction false} DecodeLength(s: seq<CodeUnit>, i: int)
    requires 0 <= i <= |s| && PairAt(s, i - 1)
    ensures |Decode(s[..i])| + |Decode(s[i..])| == |Decode(s)| + 1
  {
    DecodeSplits(s, i - 1);
    var t := s[i - 1..];
    assert s[..i][..i - 1] == s[..i - 1] && s[..i][i - 1..] == [s[i - 1]];
    assert Boundary(s[..i], i - 1);
    DecodeSplits(s[..i], i - 1);
    assert s[i..] == [s[i]] + s[i + 1..] && t[2..] == s[i + 1..] && s[i..][1..] == s[i + 1..];
    assert !PairAt(s[i..], 0);
    assert Decode([s[i - 1]]) == [s[i - 1]] + Decode([]);
  }

  /** Decoding distributes over a cut exactly at the boundaries. */
  lemma CutsDecodingExactlyAtBoundaries(s: seq<CodeUnit>, i: int)
    requires 0 <= i <= |s|
    ensures Decode(s) == Decode(s[..i]) + Decode(s[i..]) <==> Boundary(s, i)
  {
    if Boundary(s, i) {
      DecodeSplits(s, i);
    } else {
      DecodeLength(s, i);
    }
  }

  // ---------------------------------------------------------------- the slice

  function Max(a: int, b: int): int {
    if a > b then a else b
  }

  /** A slice bound as an index: negative bounds count from the end, all are clamped to the text. */
  function Clamp(len: nat, bound: int): (i: nat)
    ensures i <= len
  {
    if bound < 0 then Max(len + bound, 0) else Min(bound, len)
  }

  datatype Range = Range(from: nat, to: nat)

  /** The range asked for, with its ends in order. */
  function Requested(len: nat, start: int, end: Option<int>): (r: Range)
    ensures r.from <= r.to <= len
  {
    var a, b := Clamp(len, start), if end.None? then len else Clamp(len, end.value);
    Range(Min(a, b), Max(a, b))
  }

  function AlignUp(s: seq<CodeUnit>, i: nat): nat {
    if PairAt(s, i - 1) then i + 1 else i
  }

  function AlignDown(s: seq<CodeUnit>, i: nat): nat {
    if PairAt(s, i - 1) then i - 1 else i
  }

  /** What sliceUtf16Safe returns; ends that cross give the empty text, as in String.prototype.slice. */
  function SafeSlice(s: seq<CodeUnit>, r: Range): seq<CodeUnit>
    requires r.from <= r.to <= |s|
  {
    if AlignUp(s, r.from) <= AlignDown(s, r.to) then s[AlignUp(s, r.from)..AlignDown(s, r.to)] else []
  }

  /** sliceUtf16Safe */
  method SliceUtf16Safe(input: seq<CodeUnit>, start: int, end: Option<int>) returns (slice: seq<CodeUnit>)
    ensures slice == SafeSlice(input, Requested(|input|, start, end))
  {
    var len := |input|;
    var from := if start < 0 then Max(len + start, 0) else Min(start, len);
    var to := if end.None? then len else if end.value < 0 then Max(len + end.value, 0) else Min(end.value, len);
    if to < from {
      var tmp := from;
      from := to;
      to := tmp;
    }
    ghost var r := Requested(|input|, start, end);
    assert r == Range(from, to);
    if from > 0 && from < len {
      if IsLowSurrogate(input[from]) && IsHighSurrogate(input[from - 1]) {
        from := from + 1;
      }
    }
    assert from == AlignUp(input, r.from);
    if to > 0 && to < len {
      if IsHighSurrogate(input[to - 1]) && IsLowSurrogate(input[to]) {
        to := to - 1;
      }
    }
    assert to == AlignDown(input, r.to);
    if from <= to {
      slice := input[from..to];
    } else {
      slice := [];
    }
  }

  // ---------------------------------------------------------------- what the slice is

  /** The request is the empty range in the middle of a pair, the only one that contains no boundary. */
  predicate InsidePair(s: seq<CodeUnit>, r: Range) {
    r.from == r.to && PairAt(s, r.from - 1)
  }

  ghost predicate LargestAligned(s: seq<CodeUnit>, r: Range, from: nat, to: nat) {
    && r.from <= from <= to <= r.to <= |s|
    && Boundary(s, from) && Boundary(s, to)
    && (forall p: nat, q: nat :: r.from <= p <= q <= r.to && Boundary(s, p) && Boundary(s, q) ==> from <= p && q <= to)
  }

  /** The slice is the largest aligned range inside the requested one; it is empty for the one request without any. */
  lemma SliceIsLargestAligned(s: seq<CodeUnit>, r: Range)
    requires r.from <= r.to <= |s|
    ensures InsidePair(s, r) ==> SafeSlice(s, r) == [] && forall p :: r.from <= p <= r.to ==> !Boundary(s, p)
    ensures !InsidePair(s, r) ==>
              && LargestAligned(s, r, AlignUp(s, r.from), AlignDown(s, r.to))
              && SafeSlice(s, r) == s[AlignUp(s, r.from)..AlignDown(s, r.to)]
  {
  }

  /** The slice is the stretch from..to of the text, cut at boundaries, so that decoding the text is decoding what comes
      before it, the slice itself, and what comes after it. */
  ghost predicate CutsCleanly(s: seq<CodeUnit>, slice: seq<CodeUnit>, from: nat, to: nat) {
    && from <= to <= |s| && Boundary(s, from) && Boundary(s, to) && slice == s[from..to]
    && Decode(s) == Decode(s[..from]) + Decode(slice) + Decode(s[to..])
  }

  /** For every request the slice cuts only at boundaries; the request inside a pair gives the empty stretch before it. */
  lemma SliceKeepsDecoding(s: seq<CodeUnit>, r: Range)
    requires r.from <= r.to <= |s|
    ensures exists from: nat, to: nat :: CutsCleanly(s, SafeSlice(s, r), from, to)
  {
    SliceIsLargestAligned(s, r);
    if InsidePair(s, r) {
      BoundariesCutCleanly(s, r.from - 1, r.from - 1);
    } else {
      BoundariesCutCleanly(s, AlignUp(s, r.from), AlignDown(s, r.to));
    }
  }

  lemma BoundariesCutCleanly(s: seq<CodeUnit>, from: nat, to: nat)
    requires from <= to <= |s| && Boundary(s, from) && Boundary(s, to)
    ensures CutsCleanly(s, s[from..to], from, to)
  {
    DecodeSplits(s, to);
    assert Boundary(s[..to], from);
    DecodeSplits(s[..to], from);
    assert s[..to][..from] == s[..from] && s[..to][from..] == s[from..to];
  }

  /** A bound counts from the start, or from the end when it is negative; outside the text it is the nearer end. */
  lemma BoundsCountFromEitherEnd(len: nat, k: nat)
    ensures k <= len ==> Clamp(len, k) == k && (k > 0 ==> Clamp(len, 0 - k) == len - k)
    ensures k > len ==> Clamp(len, k) == len && Clamp(len, 0 - k) == 0
  {
  }

  lemma EndIsBoundary(s: seq<CodeUnit>)
    ensures Boundary(s, |s|)
  {
  }

  lemma AlignedStretch(s: seq<CodeUnit>, r: Range)
    requires r.from <= r.to <= |s|
    ensures Boundary(s, r.from) && Boundary(s, r.to) ==> SafeSlice(s, r) == s[r.from..r.to]
  {
  }

  /** A stretch between two boundaries can be asked for by its ends in either order, each counted from the start or, if
      it is not the end of the text, from the end; the end of the text can be left out. */
  lemma SliceOfStretch(s: seq<CodeUnit>, from: nat, to: nat)
    requires from <= to <= |s| && Boundary(s, from) && Boundary(s, to)
    ensures SafeSlice(s, Requested(|s|, from, Some(to))) == s[from..to]
    ensures SafeSlice(s, Requested(|s|, to, Some(from))) == s[from..to]
    ensures from < |s| ==> SafeSlice(s, Requested(|s|, from - |s|, Some(to))) == s[from..to]
    ensures to < |s| ==> SafeSlice(s, Requested(|s|, from, Some(to - |s|))) == s[from..to]
    ensures SafeSlice(s, Requested(|s|, from, None)) == s[from..]
    ensures from < |s| ==> SafeSlice(s, Requested(|s|, from - |s|, None)) == s[from..]
  {
    hide PairAt;
    AlignedStretch(s, Range(from, to));
    AlignedStretch(s, Range(from, |s|));
    assert Boundary(s, |s|) by { EndIsBoundary(s); }
    assert s[from..|s|] == s[from..];
  }

  // ---------------------------------------------------------------- truncation

  function Limit(maxLen: real): nat {
    Max(0, maxLen.Floor)
  }

  /** truncateUtf16Safe */
  function Truncate(s: seq<CodeUnit>, maxLen: real): seq<CodeUnit> {
    if |s| <= Limit(maxLen) then s else SafeSlice(s, Requested(|s|, 0, Some(Limit(maxLen))))
  }

  /** What fits the limit is what has at most that many code units, and the empty text. */
  lemma LimitMeans(maxLen: real, n: nat)
    ensures n <= Limit(maxLen) <==> n == 0 || n as real <= maxLen
  {
  }

  /** Truncation returns the longest aligned prefix within the limit, and when it cuts it loses at most one code unit
      against the limit. */
  lemma TruncateIsLongestAlignedPrefix(s: seq<CodeUnit>, maxLen: real)
    ensures var t := Truncate(s, maxLen);
      && t <= s && |t| <= Limit(maxLen) && Boundary(s, |t|)
      && (forall n :: 0 <= n <= Limit(maxLen) && Boundary(s, n) ==> n <= |t|)
      && (|s| > Limit(maxLen) ==> |t| >= Limit(maxLen) - 1)
      && Decode(s) == Decode(t) + Decode(s[|t|..])
  {
    var t := Truncate(s, maxLen);
    if |s| > Limit(maxLen) {
      SliceIsLargestAligned(s, Requested(|s|, 0, Some(Limit(maxLen))));
    }
    assert t == s[..|t|];
    DecodeSplits(s, |t|);
  }
}
