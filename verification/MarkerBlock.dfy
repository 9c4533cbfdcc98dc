/** Replacing the lines between two markers of a text. */
module MarkerBlock {
  import opened Text

  datatype Outcome = Replaced(text: string) | MissingStart | MissingEnd

  /** The start of the line of index i: one past the last newline at or before i. */
  function LineStart(text: string, i: nat): (r: nat)
    requires i <= |text|
    ensures r <= i + 1 && r <= |text| && (r > 0 ==> text[r - 1] == '\n')
    ensures forall k :: r <= k <= i && k < |text| ==> text[k] != '\n'
  {
    if i < |text| && text[i] == '\n' then i + 1 else if i == 0 then 0 else LineStart(text, i - 1)
  }

  /** The end of the line of index i: one past the first newline at or after i, or the end of the text. */
  function LineEnd(text: string, i: nat): (r: nat)
    requires i <= |text|
    ensures i <= r <= |text| && (r < |text| ==> r > i && text[r - 1] == '\n')
    ensures forall k :: i <= k < r - 1 ==> text[k] != '\n'
    decreases |text| - i
  {
    if i == |text| then i else if text[i] == '\n' then i + 1 else LineEnd(text, i + 1)
  }

  function Indented(indent: string, lines: seq<string>): seq<string> {
    seq(|lines|, i requires 0 <= i < |lines| => indent + lines[i])
  }

  /** lines.join("\n") */
  function Join(lines: seq<string>): string {
    if lines == [] then "" else if |lines| == 1 then lines[0] else Join(lines[..|lines| - 1]) + "\n" + lines[|lines| - 1]
  }

  /** The parts of a text around its first block: what comes before the start marker's line, that line's indentation,
      and what comes after the end marker's line. */
  datatype Block = Block(before: string, indent: string, after: string)

  function BlockAt(text: string, start: nat, end: nat): Block
    requires start <= |text| && end <= |text|
  {
    var lineStart := LineStart(text, start);
    Block(text[..lineStart], if lineStart <= start then text[lineStart..start] else "", text[LineEnd(text, end)..])
  }

  function Replacement(indent: string, startMarker: string, endMarker: string, lines: seq<string>): string {
    Join([indent + startMarker] + Indented(indent, lines) + [indent + endMarker])
  }

  /** replaceBlockLines */
  function ReplaceBlockLines(text: string, startMarker: string, endMarker: string, lines: seq<string>): Outcome {
    match IndexOf(text, startMarker, 0)
    case None => MissingStart
    case Some(start) =>
      match IndexOf(text, endMarker, start)
      case None => MissingEnd
      case Some(end) =>
        var b := BlockAt(text, start, end);
        var replacement := Replacement(b.indent, startMarker, endMarker, lines);
        Replaced(if b.after == "" then b.before + replacement else b.before + replacement + "\n" + b.after)
  }

  ghost predicate FirstAt(text: string, marker: string, i: nat) {
    OccursAt(text, marker, i) && forall k :: 0 <= k < i ==> !OccursAt(text, marker, k)
  }

  /** The two errors: no start marker anywhere, or no end marker from the first start marker on. */
  lemma FailsExactly(text: string, startMarker: string, endMarker: string, lines: seq<string>)
    ensures ReplaceBlockLines(text, startMarker, endMarker, lines) == MissingStart <==> !Contains(text, startMarker)
    ensures ReplaceBlockLines(text, startMarker, endMarker, lines) == MissingEnd <==>
            exists i: nat :: FirstAt(text, startMarker, i) && forall j :: i <= j ==> !OccursAt(text, endMarker, j)
  {
    hide IndexOf, BlockAt, Replacement, OccursAt;
    var start := IndexOf(text, startMarker, 0);
    if Contains(text, startMarker) {
      var i :| OccursAt(text, startMarker, i);
      OccursFits(text, startMarker, i);
      assert FirstAt(text, startMarker, start.value);
      assert forall k: nat :: FirstAt(text, startMarker, k) ==> k == start.value;
    }
  }

  lemma OccursFits(s: string, marker: string, i: int)
    requires OccursAt(s, marker, i)
    ensures 0 <= i && i + |marker| <= |s|
  {
  }

  // ---------------------------------------------------------------- what stays, what goes

  /** A start marker that is not empty and does not begin with a newline, as the callers' constants are. */
  predicate ProperStart(marker: string) {
    marker != "" && marker[0] != '\n'
  }

  /** The lines from..to of the text form its first block: they start at the line of the first start marker, which
      stands after `indent`, and end with the line of the first end marker from there. */
  ghost predicate IsBlock(text: string, startMarker: string, endMarker: string, from: nat, to: nat, indent: string) {
    && from <= to <= |text|
    && (from == 0 || text[from - 1] == '\n') && '\n' !in indent
    && IndexOf(text, startMarker, 0) == Some(from + |indent|)
    && text[from..from + |indent|] == indent
    && var end := IndexOf(text, endMarker, from + |indent|);
       && end.Some? && end.value <= to
       && (to == |text| || (to > end.value && text[to - 1] == '\n'))
       && (forall k :: end.value <= k < to - 1 ==> text[k] != '\n')
  }

  /** The lines one below the other, each indented and ended by a newline. */
  function IndentedLines(indent: string, lines: seq<string>): string {
    if lines == [] then "" else indent + lines[0] + "\n" + IndentedLines(indent, lines[1..])
  }

  ghost predicate ReplacesBlock(text: string, startMarker: string, endMarker: string, lines: seq<string>,
                                from: nat, to: nat, indent: string)
    requires from <= to <= |text|
  {
    ReplaceBlockLines(text, startMarker, endMarker, lines)
    == Replaced(text[..from]
                + (indent + startMarker + "\n" + IndentedLines(indent, lines) + indent + endMarker)
                + if to == |text| then "" else "\n" + text[to..])
  }

  lemma JoinStep(first: string, rest: seq<string>)
    requires rest != []
    ensures Join([first] + rest) == first + "\n" + Join(rest)
    decreases |rest|
  {
    var all, init := [first] + rest, rest[..|rest| - 1];
    assert all[..|all| - 1] == [first] + init;
    if init == [] {
      assert Join([first]) == first && rest == [rest[0]];
    } else {
      JoinStep(first, init);
      assert Join(rest) == Join(init) + "\n" + rest[|rest| - 1];
    }
  }

  lemma {:induction false} JoinLines(indent: string, lines: seq<string>, last: string)
    ensures Join(Indented(indent, lines) + [last]) == IndentedLines(indent, lines) + last
  {
    if lines == [] {
      assert Indented(indent, lines) + [last] == [last];
    } else {
      var rest := Indented(indent, lines[1..]) + [last];
      assert Indented(indent, lines) + [last] == [indent + lines[0]] + rest;
      JoinStep(indent + lines[0], rest);
      JoinLines(indent, lines[1..], last);
    }
  }

  /** The replacement is the start marker, the lines in order and the end marker, each on its own line and indented. */
  lemma ReplacementIsIndentedLines(indent: string, startMarker: string, endMarker: string, lines: seq<string>)
    ensures Replacement(indent, startMarker, endMarker, lines)
         == indent + startMarker + "\n" + IndentedLines(indent, lines) + indent + endMarker
  {
    hide Join, Indented, IndentedLines;
    var rest := Indented(indent, lines) + [indent + endMarker];
    assert [indent + startMarker] + Indented(indent, lines) + [indent + endMarker] == [indent + startMarker] + rest;
    JoinStep(indent + startMarker, rest);
    JoinLines(indent, lines, indent + endMarker);
  }

  /** The first block becomes the start marker, the lines in order and the end marker, each on its own line and indented as
      the start marker was. Everything outside stays as it was, apart from a final newline when the block ends the text. */
  lemma OutsideIsUnchanged(text: string, startMarker: string, endMarker: string, lines: seq<string>)
    requires ReplaceBlockLines(text, startMarker, endMarker, lines).Replaced? && ProperStart(startMarker)
    ensures exists from: nat, to: nat, indent: string ::
              IsBlock(text, startMarker, endMarker, from, to, indent)
              && ReplacesBlock(text, startMarker, endMarker, lines, from, to, indent)
  {
    hide IndexOf, LineStart, LineEnd, Replacement, IndentedLines;
    var start := IndexOf(text, startMarker, 0).value;
    var end := IndexOf(text, endMarker, start).value;
    var from, to := LineStart(text, start), LineEnd(text, end);
    NoNewlineAt(text, startMarker, start);
    var indent := text[from..start];
    assert BlockAt(text, start, end) == Block(text[..from], indent, text[to..]);
    assert start == from + |indent|;
    assert IsBlock(text, startMarker, endMarker, from, to, indent);
    ReplacementIsIndentedLines(indent, startMarker, endMarker, lines);
    assert ReplacesBlock(text, startMarker, endMarker, lines, from, to, indent);
  }

  lemma NoNewlineAt(text: string, marker: string, i: nat)
    requires OccursAt(text, marker, i) && ProperStart(marker)
    ensures LineStart(text, i) <= i
  {
  }

  // ---------------------------------------------------------------- idempotence

  /** The replacement from its start marker up to its last line break: the start marker and the indented lines. */
  function Head(indent: string, startMarker: string, lines: seq<string>): string {
    Join([startMarker] + Indented(indent, lines))
  }

  lemma {:induction false} JoinPrepends(p: string, first: string, rest: seq<string>)
    ensures Join([p + first] + rest) == p + Join([first] + rest)
  {
    if rest != [] {
      var init := rest[..|rest| - 1];
      JoinPrepends(p, first, init);
      assert ([p + first] + rest)[..|rest|] == [p + first] + init && ([first] + rest)[..|rest|] == [first] + init;
    }
  }

  /** The replacement is its indentation, the head, and the indented end marker on a last line. */
  lemma ReplacementSplits(indent: string, startMarker: string, endMarker: string, lines: seq<string>)
    ensures Replacement(indent, startMarker, endMarker, lines)
         == indent + Head(indent, startMarker, lines) + "\n" + indent + endMarker
    ensures startMarker <= Head(indent, startMarker, lines)
  {
    var ls := [indent + startMarker] + Indented(indent, lines);
    assert (ls + [indent + endMarker])[..|ls|] == ls;
    JoinPrepends(indent, startMarker, Indented(indent, lines));
    JoinStarts(startMarker, Indented(indent, lines));
  }

  lemma {:induction false} JoinStarts(first: string, rest: seq<string>)
    ensures first <= Join([first] + rest)
  {
    if rest != [] {
      JoinStarts(first, rest[..|rest| - 1]);
      assert ([first] + rest)[..|rest|] == [first] + rest[..|rest| - 1];
    }
  }

  /** A text shares its first occurrence of a marker with every text that agrees with it up to the occurrence's end. */
  lemma SharedFirstOccurrence(text: string, other: string, marker: string, i: nat)
    requires IndexOf(text, marker, 0) == Some(i)
    requires i + |marker| <= |other| && other[..i + |marker|] == text[..i + |marker|]
    ensures IndexOf(other, marker, 0) == Some(i)
  {
    hide IndexOf, OccursAt;
    var n := i + |marker|;
    assert n <= |text| by { OccursFits(text, marker, i); }
    forall k: nat | k <= i ensures OccursAt(other, marker, k) <==> OccursAt(text, marker, k) {
      OccursInStretch(text, marker, 0, n, k);
      OccursInStretch(other, marker, 0, n, k);
      assert text[0..n] == text[..n] && other[0..n] == other[..n];
    }
  }

  lemma SharedLineStart(text: string, other: string, i: nat)
    requires i < |text| && i < |other| && text[..i + 1] == other[..i + 1]
    ensures LineStart(text, i) == LineStart(other, i)
  {
  }

  /** The text with its block replaced: before, indentation, head, last line and, if anything follows, the rest. */
  function Rebuilt(b: Block, head: string, endMarker: string): string {
    b.before + b.indent + head + "\n" + b.indent + endMarker + (if b.after == "" then "" else "\n" + b.after)
  }

  lemma RebuiltParts(b: Block, head: string, endMarker: string)
    ensures var r, start := Rebuilt(b, head, endMarker), |b.before| + |b.indent|;
      var last := start + |head| + 1;
      var close := last + |b.indent| + |endMarker|;
      && close <= |r| && r[start..last - 1] == head && r[last - 1] == '\n' && r[last..close] == b.indent + endMarker
      && (if b.after == "" then close == |r| else close < |r| && r[close] == '\n' && r[close + 1..] == b.after)
  {
  }

  lemma EndsOnLastLine(r: string, last: nat, indent: string, endMarker: string, end: nat)
    requires last + |indent| + |endMarker| <= |r| && r[last..last + |indent| + |endMarker|] == indent + endMarker
    requires '\n' !in indent && '\n' !in endMarker && endMarker != "" && last <= end <= last + |indent|
    ensures var close := last + |indent| + |endMarker|;
      && (close < |r| && r[close] == '\n' ==> LineEnd(r, end) == close + 1)
      && (close == |r| ==> LineEnd(r, end) == |r|)
  {
  }

  lemma OccursAfterIndent(r: string, last: nat, indent: string, endMarker: string)
    requires last + |indent| + |endMarker| <= |r| && r[last..last + |indent| + |endMarker|] == indent + endMarker
    ensures OccursAt(r, endMarker, last + |indent|)
  {
  }

  /** Where a second run finds its end marker: on the last line of the block when the head does not contain it. */
  lemma SecondEndMarker(b: Block, head: string, endMarker: string)
    requires endMarker != "" && '\n' !in endMarker && '\n' !in b.indent && !Contains(head, endMarker)
    ensures var r, start := Rebuilt(b, head, endMarker), |b.before| + |b.indent|;
      var end := IndexOf(r, endMarker, start);
      end.Some? && r[LineEnd(r, end.value)..] == b.after
  {
    hide IndexOf, LineEnd, Contains, Rebuilt, OccursAt;
    var r, start := Rebuilt(b, head, endMarker), |b.before| + |b.indent|;
    var last := start + |head| + 1;
    RebuiltParts(b, head, endMarker);
    OccursAfterIndent(r, last, b.indent, endMarker);
    var end := IndexOf(r, endMarker, start).value;
    OccurrenceAvoids(r, endMarker, end, start, last - 1);
    EndsOnLastLine(r, last, b.indent, endMarker, end);
  }

  /** A newline-free marker that does not occur between `from` and a newline has its next occurrence after the newline. */
  lemma OccurrenceAvoids(s: string, marker: string, i: nat, from: nat, newline: nat)
    requires OccursAt(s, marker, i) && from <= i && from <= newline < |s| && s[newline] == '\n'
    requires marker != "" && '\n' !in marker && !Contains(s[from..newline], marker)
    ensures i > newline
  {
    OccursClearOf(s, marker, i, '\n', newline);
    if i + |marker| <= newline {
      OccursInStretch(s, marker, from, newline, i);
    }
  }

  /** If the head contains the end marker, the second run's block stops inside the first replacement. */
  lemma EarlyEndMarker(b: Block, head: string, endMarker: string)
    requires endMarker != "" && Contains(head, endMarker)
    ensures var r, start := Rebuilt(b, head, endMarker), |b.before| + |b.indent|;
      var end := IndexOf(r, endMarker, start);
      end.Some? && LineEnd(r, end.value) <= start + |head| + 1 < |r|
  {
    hide IndexOf, LineEnd;
    var r, start := Rebuilt(b, head, endMarker), |b.before| + |b.indent|;
    var k :| OccursAt(head, endMarker, k);
    assert r[start..start + |head|] == head;
    OccursInStretch(r, endMarker, start, start + |head|, start + k);
    assert r[start + |head|] == '\n';
  }

  /** Running the replacement twice is running it once exactly when the end marker occurs neither in the start marker
      nor in an indented rendered line. */
  lemma IdempotentExactly(text: string, startMarker: string, endMarker: string, lines: seq<string>, b: Block)
    requires ProperStart(startMarker) && endMarker != "" && '\n' !in endMarker
    requires FirstBlock(text, startMarker, endMarker) == Some(b)
    ensures var r := ReplaceBlockLines(text, startMarker, endMarker, lines);
      && r.Replaced?
      && (ReplaceBlockLines(r.text, startMarker, endMarker, lines) == r <==>
          !Contains(startMarker, endMarker) && forall k :: 0 <= k < |lines| ==> !Contains(b.indent + lines[k], endMarker))
  {
    var head := Head(b.indent, startMarker, lines);
    var r := Rebuilt(b, head, endMarker);
    FirstRun(text, startMarker, endMarker, lines, b);
    SecondRun(text, startMarker, endMarker, lines, b);
    HeadContains(b.indent, startMarker, endMarker, lines);
  }

  /** The block that replaceBlockLines finds, if it finds one. */
  function FirstBlock(text: string, startMarker: string, endMarker: string): Option<Block> {
    match IndexOf(text, startMarker, 0)
    case None => None
    case Some(start) =>
      match IndexOf(text, endMarker, start)
      case None => None
      case Some(end) => Some(BlockAt(text, start, end))
  }

  lemma FirstRun(text: string, startMarker: string, endMarker: string, lines: seq<string>, b: Block)
    requires FirstBlock(text, startMarker, endMarker) == Some(b)
    ensures ReplaceBlockLines(text, startMarker, endMarker, lines)
         == Replaced(Rebuilt(b, Head(b.indent, startMarker, lines), endMarker))
  {
    hide IndexOf, BlockAt, Replacement, Head;
    ReplacementSplits(b.indent, startMarker, endMarker, lines);
    var head := Head(b.indent, startMarker, lines);
    assert b.before + (b.indent + head + "\n" + b.indent + endMarker) == b.before + b.indent + head + "\n" + b.indent + endMarker;
  }

  lemma RebuiltBegins(b: Block, head: string, startMarker: string, endMarker: string)
    requires startMarker <= head
    ensures var r, n := Rebuilt(b, head, endMarker), |b.before| + |b.indent|;
      && n + |startMarker| <= |r| && r[..n + |startMarker|] == b.before + b.indent + startMarker
      && r[..|b.before|] == b.before && r[|b.before|..n] == b.indent
  {
  }

  /** The rebuilt text has the same text before and the same indentation at its first start marker. */
  lemma SameStart(text: string, startMarker: string, endMarker: string, b: Block, head: string)
    requires ProperStart(startMarker) && startMarker <= head && FirstBlock(text, startMarker, endMarker) == Some(b)
    ensures var r, start := Rebuilt(b, head, endMarker), |b.before| + |b.indent|;
      && IndexOf(r, startMarker, 0) == Some(start) && LineStart(r, start) == |b.before|
      && r[..|b.before|] == b.before && r[|b.before|..start] == b.indent && '\n' !in b.indent
  {
    hide IndexOf, LineStart, Rebuilt;
    var start := IndexOf(text, startMarker, 0).value;
    NoNewlineAt(text, startMarker, start);
    var r, n := Rebuilt(b, head, endMarker), start + |startMarker|;
    assert b.before + b.indent == text[..start];
    RebuiltBegins(b, head, startMarker, endMarker);
    assert text[..n] == text[..start] + startMarker;
    SharedFirstOccurrence(text, r, startMarker, start);
    assert r[..start + 1] == r[..n][..start + 1] == text[..n][..start + 1] == text[..start + 1];
    SharedLineStart(text, r, start);
  }

  lemma RebuiltLength(b: Block, head: string, endMarker: string)
    ensures |Rebuilt(b, head, endMarker)|
         == |b.before| + 2 * |b.indent| + |head| + 1 + |endMarker| + (if b.after == "" then 0 else 1 + |b.after|)
  {
  }

  /** The second run finds a block that begins as the first one did. */
  lemma SecondBlock(text: string, startMarker: string, endMarker: string, b: Block, head: string)
    requires ProperStart(startMarker) && startMarker <= head && FirstBlock(text, startMarker, endMarker) == Some(b)
    requires IndexOf(Rebuilt(b, head, endMarker), endMarker, |b.before| + |b.indent|).Some?
    ensures var r, start := Rebuilt(b, head, endMarker), |b.before| + |b.indent|;
      FirstBlock(r, startMarker, endMarker) == Some(Block(b.before, b.indent, r[LineEnd(r, IndexOf(r, endMarker, start).value)..]))
  {
    hide IndexOf, LineStart, LineEnd, Rebuilt, OccursAt;
    SameStart(text, startMarker, endMarker, b, head);
  }

  lemma SecondRun(text: string, startMarker: string, endMarker: string, lines: seq<string>, b: Block)
    requires ProperStart(startMarker) && endMarker != "" && '\n' !in endMarker
    requires FirstBlock(text, startMarker, endMarker) == Some(b)
    ensures var head := Head(b.indent, startMarker, lines);
      var r := Rebuilt(b, head, endMarker);
      ReplaceBlockLines(r, startMarker, endMarker, lines) == Replaced(r) <==> !Contains(head, endMarker)
  {
    hide IndexOf, LineStart, LineEnd, Contains, Head, Rebuilt, FirstBlock, ReplaceBlockLines;
    var head := Head(b.indent, startMarker, lines);
    var r, start := Rebuilt(b, head, endMarker), |b.before| + |b.indent|;
    ReplacementSplits(b.indent, startMarker, endMarker, lines);
    SameStart(text, startMarker, endMarker, b, head);
    if Contains(head, endMarker) {
      EarlyEndMarker(b, head, endMarker);
    } else {
      SecondEndMarker(b, head, endMarker);
    }
    SecondBlock(text, startMarker, endMarker, b, head);
    var c := FirstBlock(r, startMarker, endMarker).value;
    FirstRun(r, startMarker, endMarker, lines, c);
    RebuiltLength(b, head, endMarker);
    RebuiltLength(c, head, endMarker);
  }

  /** A newline-free marker occurs in joined lines exactly when it occurs in one of them. */
  lemma {:induction false} JoinContains(lines: seq<string>, marker: string)
    requires lines != [] && marker != "" && '\n' !in marker
    ensures Contains(Join(lines), marker) <==> exists k :: 0 <= k < |lines| && Contains(lines[k], marker)
  {
    if |lines| > 1 {
      hide Contains;
      var init, last := lines[..|lines| - 1], lines[|lines| - 1];
      JoinContains(init, marker);
      ContainsAcrossNewline(Join(init), last, marker);
      assert forall k :: 0 <= k < |init| ==> init[k] == lines[k];
    }
  }

  lemma ContainsAcrossNewline(a: string, b: string, marker: string)
    requires marker != "" && '\n' !in marker
    ensures Contains(a + "\n" + b, marker) <==> Contains(a, marker) || Contains(b, marker)
  {
    var s := a + "\n" + b;
    var n := |a| + 1;
    assert s[0..|a|] == a && s[n..|s|] == b && s[|a|] == '\n';
    if i :| OccursAt(s, marker, i) {
      OccursClearOf(s, marker, i, '\n', |a|);
      if i > |a| {
        OccursInStretch(s, marker, n, |s|, i);
      } else {
        OccursInStretch(s, marker, 0, |a|, i);
      }
    }
    if i :| OccursAt(a, marker, i) {
      OccursInStretch(s, marker, 0, |a|, i);
    }
    if i :| OccursAt(b, marker, i) {
      OccursInStretch(s, marker, n, |s|, i + n);
    }
  }

  lemma HeadContains(indent: string, startMarker: string, endMarker: string, lines: seq<string>)
    requires endMarker != "" && '\n' !in endMarker
    ensures Contains(Head(indent, startMarker, lines), endMarker) <==>
            Contains(startMarker, endMarker) || exists k :: 0 <= k < |lines| && Contains(indent + lines[k], endMarker)
  {
    hide Contains, Join;
    var all := [startMarker] + Indented(indent, lines);
    JoinContains(all, endMarker);
    assert all[0] == startMarker;
    assert forall k :: 0 <= k < |lines| ==> all[k + 1] == indent + lines[k];
  }
}
