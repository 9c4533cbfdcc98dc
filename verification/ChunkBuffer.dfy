/** The bounded buffer that keeps the tail of a login command's output. */
module ChunkBuffer {
  import Utf16

  /** A piece of output; its length is in UTF-16 code units. */
  type Chunk = seq<Utf16.CodeUnit>

  const MAX_CAPTURED_CHARS := 8_000

  function Total(chunks: seq<Chunk>): nat {
    if chunks == [] then 0 else |chunks[0]| + Total(chunks[1..])
  }

  function NonEmpty(received: seq<Chunk>): seq<Chunk> {
    if received == [] then []
    else
      var before, last := NonEmpty(received[..|received| - 1]), received[|received| - 1];
      if last == [] then before else before + [last]
  }

  /** Chunks dropped from the front until the rest fits. */
  function Fit(chunks: seq<Chunk>): seq<Chunk> {
    if Total(chunks) <= MAX_CAPTURED_CHARS then chunks else Fit(chunks[1..])
  }

  lemma {:induction false} TotalSnoc(chunks: seq<Chunk>, c: Chunk)
    ensures Total(chunks + [c]) == Total(chunks) + |c|
  {
    if chunks != [] {
      assert (chunks + [c])[1..] == chunks[1..] + [c];
      TotalSnoc(chunks[1..], c);
    } else {
      assert [c][1..] == [];
    }
  }

  /** Dropping early loses nothing: fitting what was already fitted together with the next chunk fits the whole. */
  lemma {:induction false} FitSnoc(chunks: seq<Chunk>, c: Chunk)
    ensures Fit(Fit(chunks) + [c]) == Fit(chunks + [c])
  {
    if Total(chunks) > MAX_CAPTURED_CHARS {
      TotalSnoc(chunks, c);
      assert (chunks + [c])[1..] == chunks[1..] + [c];
      FitSnoc(chunks[1..], c);
    }
  }

  ghost predicate IsSuffix(t: seq<Chunk>, s: seq<Chunk>) {
    |t| <= |s| && s[|s| - |t|..] == t
  }

  /** Fit is the longest suffix of whole chunks within the cap. */
  lemma {:induction false} FitIsLongestSuffix(chunks: seq<Chunk>, t: seq<Chunk>)
    ensures IsSuffix(Fit(chunks), chunks) && Total(Fit(chunks)) <= 8_000
    ensures IsSuffix(t, chunks) && Total(t) <= 8_000 ==> IsSuffix(t, Fit(chunks))
  {
    if Total(chunks) > MAX_CAPTURED_CHARS {
      FitIsLongestSuffix(chunks[1..], t);
      if IsSuffix(t, chunks) && |t| < |chunks| {
        assert chunks[1..][|chunks| - 1 - |t|..] == t;
      }
    }
  }

  /** chunks.join("") */
  function Output(chunks: seq<Chunk>): Chunk {
    if chunks == [] then [] else chunks[0] + Output(chunks[1..])
  }

  lemma {:induction false} OutputConcat(a: seq<Chunk>, b: seq<Chunk>)
    ensures Output(a + b) == Output(a) + Output(b)
  {
    if a == [] {
      assert a + b == b;
    } else {
      OutputConcat(a[1..], b);
      assert (a + b)[1..] == a[1..] + b && (a + b)[0] == a[0];
      assert Output(a + b) == a[0] + (Output(a[1..]) + Output(b));
    }
  }

  lemma {:induction false} OutputLength(chunks: seq<Chunk>)
    ensures |Output(chunks)| == Total(chunks)
  {
    if chunks != [] {
      OutputLength(chunks[1..]);
    }
  }

  /** Leaving out the empty chunks leaves every other chunk, in order, and the output they make. */
  lemma {:induction false} NonEmptyKeepsOutput(received: seq<Chunk>)
    ensures Output(NonEmpty(received)) == Output(received)
  {
    hide Output;
    if received != [] {
      var init, last := received[..|received| - 1], received[|received| - 1];
      NonEmptyKeepsOutput(init);
      assert received == init + [last];
      OutputConcat(init, [last]);
      OutputConcat(NonEmpty(init), [last]);
      OutputOfOne(last);
    }
  }

  lemma {:induction false} NonEmptyHasNoEmpty(received: seq<Chunk>)
    ensures forall c <- NonEmpty(received) :: c != []
  {
    if received != [] {
      NonEmptyHasNoEmpty(received[..|received| - 1]);
    }
  }

  lemma {:induction false} NonEmptyKeepsOthers(received: seq<Chunk>)
    requires forall i :: 0 <= i < |received| ==> received[i] != []
    ensures NonEmpty(received) == received
  {
    if received != [] {
      NonEmptyKeepsOthers(received[..|received| - 1]);
    }
  }

  lemma OutputOfOne(c: Chunk)
    ensures Output([c]) == c
  {
    assert Output([c][1..]) == [];
  }

  /** What is kept is the end of the output received, at most 8,000 code units of it, and all of it while it fits. */
  lemma KeptIsTailOfOutput(received: seq<Chunk>)
    ensures var kept := Output(Fit(NonEmpty(received)));
      && |kept| <= 8_000 && |kept| <= |Output(received)| && Output(received)[|Output(received)| - |kept|..] == kept
      && (|Output(received)| <= 8_000 ==> kept == Output(received))
  {
    var chunks := NonEmpty(received);
    var fitted := Fit(chunks);
    NonEmptyKeepsOutput(received);
    FitIsLongestSuffix(chunks, chunks);
    OutputLength(chunks);
    OutputLength(fitted);
    var dropped := chunks[..|chunks| - |fitted|];
    assert chunks == dropped + fitted;
    OutputConcat(dropped, fitted);
  }

  class Buffer {
    var chunks: seq<Chunk>
    var total: nat
    /** Everything received so far, empty chunks included. */
    ghost var received: seq<Chunk>

    ghost predicate Valid()
      reads this
    {
      chunks == Fit(NonEmpty(received)) && total == Total(chunks)
    }

    constructor ()
      ensures Valid() && received == []
    {
      chunks, total, received := [], 0, [];
    }

    /** appendBoundedChunk: after any sequence of chunks the buffer is the longest suffix of the non-empty ones that
        fits, and the returned total is the sum of the retained lengths. */
    method AppendBoundedChunk(text: Chunk) returns (newTotal: nat)
      requires Valid()
      modifies this
      ensures Valid() && received == old(received) + [text]
      ensures newTotal == Total(chunks) == |Output(chunks)|
      ensures chunks == if text == [] then old(chunks) else Fit(old(chunks) + [text])
    {
      ghost var before := NonEmpty(received);
      received := received + [text];
      assert received[..|received| - 1] == old(received);
      OutputLength(chunks);
      if text == [] { return total; }
      FitSnoc(before, text);
      TotalSnoc(chunks, text);
      chunks := chunks + [text];
      total := total + |text|;
      while total > MAX_CAPTURED_CHARS && |chunks| > 0
        invariant received == old(received) + [text] && total == Total(chunks)
        invariant Fit(chunks) == Fit(NonEmpty(received)) == Fit(old(chunks) + [text])
        decreases |chunks|
      {
        total := total - |chunks[0]|;
        chunks := chunks[1..];
      }
      OutputLength(chunks);
      return total;
    }
  }
}
