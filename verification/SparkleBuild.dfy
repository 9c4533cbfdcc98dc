/** Sparkle build floors made by decimal concatenation, and the appcast check built on them. */
module SparkleBuild {
  import opened Text

  // ---------------------------------------------------------------- floors of one version

  datatype Floors = Floors(dateKey: nat, legacyFloor: nat, laneFloor: nat, lane: nat)

  datatype Match = Match(year: string, month: string, day: string, suffix: string)

  /** The length of the digit run, at most two, at the start of s. */
  function UpToTwoDigits(s: string): (k: nat)
    ensures k <= 2 && k <= |s| && AllDigits(s[..k])
  {
    if s == "" || !IsDigit(s[0]) then 0 else if |s| == 1 || !IsDigit(s[1]) then 1 else 2
  }

  /** A character that `.` does not match in a regular expression. */
  predicate IsLineTerminator(c: char) {
    c == '\n' || c == '\r' || c == '\U{2028}' || c == '\U{2029}'
  }

  predicate IsSuffix(s: string) {
    s == "" || ((s[0] == '.' || s[0] == '-') && forall i :: 1 <= i < |s| ==> !IsLineTerminator(s[i]))
  }

  /** The calver pattern: four digits, two dotted fields of one or two digits, and a suffix starting with "." or "-". */
  function MatchCalver(s: string): (m: Option<Match>)
    ensures m.Some? ==> |m.value.year| == 4 && AllDigits(m.value.year) && AllDigits(m.value.month) && AllDigits(m.value.day)
  {
    if |s| < 5 || !AllDigits(s[..4]) || s[4] != '.' then None
    else
      var t := s[5..];
      var k := UpToTwoDigits(t);
      if k == 0 || k == |t| || t[k] != '.' then None
      else
        var u := t[k + 1..];
        var l := UpToTwoDigits(u);
        if l == 0 || !IsSuffix(u[l..]) then None
        else Some(Match(s[..4], t[..k], u[..l], u[l..]))
  }

  /** Nothing, or a "." or "-" and any further characters on the same line. */
  predicate AllowedSuffix(s: string) {
    && (s == "" || "." <= s || "-" <= s)
    && forall c <- s :: c !in {'\n', '\r', '\U{2028}', '\U{2029}'}
  }

  lemma SuffixExactly(s: string)
    ensures IsSuffix(s) <==> AllowedSuffix(s)
  {
    assert s != "" ==> ("." <= s <==> s[0] == '.') && ("-" <= s <==> s[0] == '-');
    assert (forall c <- s :: !IsLineTerminator(c)) <==> forall i :: 0 <= i < |s| ==> !IsLineTerminator(s[i]);
  }

  lemma SuffixHasNoDigitFirst(s: string)
    requires AllowedSuffix(s)
    ensures s == "" || !IsDigit(s[0])
  {
  }

  predicate CalverParts(m: Match) {
    && |m.year| == 4 && AllDigits(m.year)
    && 1 <= |m.month| <= 2 && AllDigits(m.month)
    && 1 <= |m.day| <= 2 && AllDigits(m.day)
    && AllowedSuffix(m.suffix)
  }

  lemma RunOf(digits: string, rest: string)
    requires 1 <= |digits| <= 2 && AllDigits(digits) && (rest == "" || !IsDigit(rest[0]))
    ensures UpToTwoDigits(digits + rest) == |digits|
    ensures (digits + rest)[..|digits|] == digits && (digits + rest)[|digits|..] == rest
  {
  }

  function CalverText(m: Match): string {
    m.year + "." + m.month + "." + m.day + m.suffix
  }

  lemma TextSplits(m: Match)
    requires |m.year| == 4
    ensures var s, u := CalverText(m), m.day + m.suffix;
      |s| >= 5 && s[..4] == m.year && s[4] == '.' && s[5..] == m.month + ("." + u) && ("." + u)[1..] == u
  {
  }

  lemma TextMatches(m: Match)
    requires CalverParts(m)
    ensures MatchCalver(CalverText(m)) == Some(m)
  {
    hide UpToTwoDigits, IsSuffix, CalverText, AllowedSuffix;
    SuffixExactly(m.suffix);
    SuffixHasNoDigitFirst(m.suffix);
    var u := m.day + m.suffix;
    TextSplits(m);
    RunOf(m.month, "." + u);
    assert (m.month + ("." + u))[|m.month| + 1..] == u;
    RunOf(m.day, m.suffix);
  }

  lemma MatchIsText(s: string)
    requires MatchCalver(s).Some?
    ensures CalverParts(MatchCalver(s).value) && s == CalverText(MatchCalver(s).value)
  {
    hide UpToTwoDigits, IsLineTerminator, IsSuffix, AllowedSuffix, AllDigits;
    SuffixExactly(MatchCalver(s).value.suffix);
  }

  /** The greedy matcher finds the one decomposition of a string that the pattern allows, if there is one. */
  lemma MatchesExactly(s: string, m: Match)
    ensures MatchCalver(s) == Some(m) <==> CalverParts(m) && s == CalverText(m)
  {
    hide MatchCalver, CalverParts, CalverText;
    if CalverParts(m) {
      TextMatches(m);
    }
    if MatchCalver(s).Some? {
      MatchIsText(s);
    }
  }

  /** Where the digit run at the end of s starts, given that everything from `from` on is digits. */
  function TrailingRunStart(s: string, from: nat): (k: nat)
    requires from <= |s| && forall i :: from <= i < |s| ==> IsDigit(s[i])
    ensures k <= |s| && (forall i :: k <= i < |s| ==> IsDigit(s[i])) && (k > 0 ==> !IsDigit(s[k - 1]))
  {
    if from > 0 && IsDigit(s[from - 1]) then TrailingRunStart(s, from - 1) else from
  }

  function LaneOf(suffix: string): (lane: nat)
    ensures suffix == "" ==> lane == 90
    ensures suffix != "" ==> lane <= 89
  {
    if suffix == "" then 90
    else
      var digits := suffix[TrailingRunStart(suffix, |suffix|)..];
      if digits != "" then Min(ParseNat(digits), 89) else 1
  }

  /** The lane of a suffix is the number it ends in, capped at 89, and 1 when it does not end in a number. */
  lemma LaneMeaning(before: string, digits: string)
    requires before + digits != "" && AllDigits(digits) && (before != "" ==> !IsDigit(before[|before| - 1]))
    ensures LaneOf(before + digits) == if digits == "" then 1 else Min(ParseNat(digits), 89)
  {
    hide ParseNat;
    var s := before + digits;
    var k := TrailingRunStart(s, |s|);
    assert forall i :: |before| <= i < |s| ==> IsDigit(s[i]);
    assert before != "" ==> s[|before| - 1] == before[|before| - 1];
    assert s[k..] == digits;
  }

  /** String(n).padStart(2, "0") */
  function PadStart2(n: nat): string {
    if |Dec(n)| < 2 then "0" + Dec(n) else Dec(n)
  }

  lemma PadStart2Parses(n: nat)
    requires n <= 99
    ensures AllDigits(PadStart2(n)) && |PadStart2(n)| == 2 && ParseNat(PadStart2(n)) == n
  {
    ParseDec(n);
    if n < 10 {
      assert |Dec(n)| == 1;
      ParseConcat("0", Dec(n));
      assert ParseNat("0") == 0 by { assert "0"[..0] == ""; }
    } else {
      assert Dec(n) == Dec(n / 10) + [DigitChar(n % 10)] && |Dec(n / 10)| == 1;
    }
  }

  lemma DecIsDigits(n: nat)
    ensures AllDigits(Dec(n))
  {
  }

  /** Number(`${year}${month padded}${day padded}`) */
  function DateKey(year: nat, month: nat, day: nat): nat
    requires month <= 99 && day <= 99
  {
    DecIsDigits(year);
    PadStart2Parses(month);
    PadStart2Parses(day);
    ParseNat(Dec(year) + PadStart2(month) + PadStart2(day))
  }

  /** sparkleBuildFloorsFromShortVersion on the matched groups */
  function FloorsOf(year: nat, month: nat, day: nat, suffix: string): Floors
    requires month <= 99 && day <= 99
  {
    var dateKey := DateKey(year, month, day);
    var lane := LaneOf(suffix);
    DecIsDigits(dateKey);
    PadStart2Parses(lane);
    Floors(dateKey, ParseNat(Dec(dateKey) + "0"), ParseNat(Dec(dateKey) + PadStart2(lane)), lane)
  }

  /** sparkleBuildFloorsFromShortVersion */
  function FloorsFromShortVersion(shortVersion: string): Option<Floors> {
    match MatchCalver(Trim(shortVersion))
    case None => None
    case Some(m) =>
      var year, month, day := ParseNat(m.year), ParseNat(m.month), ParseNat(m.day);
      if month < 1 || month > 12 || day < 1 || day > 31 then None else Some(FloorsOf(year, month, day, m.suffix))
  }

  // ---------------------------------------------------------------- the concatenations are arithmetic

  lemma ConcatTwo(n: nat, s: string)
    requires AllDigits(s) && |s| == 2
    ensures AllDigits(Dec(n) + s) && ParseNat(Dec(n) + s) == 100 * n + ParseNat(s)
  {
    ParseDec(n);
    ParseConcat(Dec(n), s);
    assert Pow10(2) == 100;
  }

  lemma DateKeyValue(year: nat, month: nat, day: nat)
    requires month <= 99 && day <= 99
    ensures DateKey(year, month, day) == 10_000 * year + 100 * month + day
  {
    PadStart2Parses(month);
    PadStart2Parses(day);
    ConcatTwo(year, PadStart2(month));
    ParseConcat(Dec(year) + PadStart2(month), PadStart2(day));
    assert Pow10(2) == 100;
  }

  /** The concatenated keys and floors are 10000y + 100m + d, ten times that, and a hundred times that plus the lane. */
  lemma FloorsValue(year: nat, month: nat, day: nat, suffix: string)
    requires month <= 99 && day <= 99
    ensures var f := FloorsOf(year, month, day, suffix);
      && f.dateKey == 10_000 * year + 100 * month + day
      && f.legacyFloor == 10 * f.dateKey
      && f.laneFloor == 100 * f.dateKey + f.lane
      && f.lane <= 90 && (f.lane == 90 <==> suffix == "")
  {
    DateKeyValue(year, month, day);
    var key := DateKey(year, month, day);
    PadStart2Parses(LaneOf(suffix));
    ConcatTwo(key, PadStart2(LaneOf(suffix)));
    ParseDec(key);
    ParseConcat(Dec(key), "0");
    assert ParseNat("0") == 0 by { assert "0"[..0] == ""; }
    assert Pow10(1) == 10;
  }

  predicate DateBefore(y: nat, m: nat, d: nat, y': nat, m': nat, d': nat) {
    y < y' || (y == y' && (m < m' || (m == m' && d < d')))
  }

  predicate CalendarFields(month: nat, day: nat) {
    1 <= month <= 12 && 1 <= day <= 31
  }

  /** Lane floors order versions by date first and lane second. */
  lemma LaneFloorsOrderLexicographically(y: nat, m: nat, d: nat, s: string, y': nat, m': nat, d': nat, s': string)
    requires CalendarFields(m, d) && CalendarFields(m', d')
    ensures FloorsOf(y, m, d, s).laneFloor < FloorsOf(y', m', d', s').laneFloor <==>
            DateBefore(y, m, d, y', m', d') || (y == y' && m == m' && d == d' && LaneOf(s) < LaneOf(s'))
  {
    hide LaneOf, DateKey;
    FloorsValue(y, m, d, s);
    FloorsValue(y', m', d', s');
  }

  /** On one day the unsuffixed version ranks strictly above every suffixed one. */
  lemma UnsuffixedRanksHighest(y: nat, m: nat, d: nat, suffix: string)
    requires CalendarFields(m, d) && suffix != ""
    ensures FloorsOf(y, m, d, suffix).laneFloor < FloorsOf(y, m, d, "").laneFloor
  {
    hide DateKey;
    FloorsValue(y, m, d, suffix);
    FloorsValue(y, m, d, "");
  }

  // ---------------------------------------------------------------- the floors of a short version

  /** The suffix ends in these digits, with no digit before them. */
  ghost predicate EndsIn(suffix: string, before: string, digits: string) {
    suffix == before + digits && AllDigits(digits) && (before != "" ==> !IsDigit(before[|before| - 1]))
  }

  /** The lane of a suffix: 90 without one, 1 for one that does not end in a digit, and else the number it ends in, but at
      most 89. */
  ghost predicate IsLane(suffix: string, lane: nat) {
    if suffix == "" then lane == 90
    else exists before, digits :: EndsIn(suffix, before, digits)
           && lane == if digits == "" then 1 else if ParseNat(digits) > 89 then 89 else ParseNat(digits)
  }

  lemma LaneExactly(suffix: string, lane: nat)
    ensures IsLane(suffix, lane) <==> lane == LaneOf(suffix)
  {
    hide LaneOf, ParseNat;
    if suffix == "" {
      assert LaneOf(suffix) == 90;
    } else {
      var k := TrailingRunStart(suffix, |suffix|);
      assert EndsIn(suffix, suffix[..k], suffix[k..]);
      forall before, digits | EndsIn(suffix, before, digits)
        ensures LaneOf(suffix) == if digits == "" then 1 else if ParseNat(digits) > 89 then 89 else ParseNat(digits)
      {
        LaneMeaning(before, digits);
      }
    }
  }

  /** The short version, trimmed, is the text of these parts, and its month and day are numbers of a calendar. */
  predicate IsShortVersion(shortVersion: string, m: Match) {
    CalverParts(m) && Trim(shortVersion) == CalverText(m) && 1 <= ParseNat(m.month) <= 12 && 1 <= ParseNat(m.day) <= 31
  }

  function KeyOf(m: Match): nat
    requires CalverParts(m)
  {
    10_000 * ParseNat(m.year) + 100 * ParseNat(m.month) + ParseNat(m.day)
  }

  /** A short version has floors exactly when it is a calver text, with or without a suffix; they are those of its date
      and of its suffix's lane. */
  lemma ShortVersionFloorsExactly(shortVersion: string, f: Floors)
    ensures FloorsFromShortVersion(shortVersion) == Some(f) <==>
            exists m :: IsShortVersion(shortVersion, m)
              && f.dateKey == KeyOf(m) && f.legacyFloor == 10 * KeyOf(m)
              && f.laneFloor == 100 * KeyOf(m) + f.lane && IsLane(m.suffix, f.lane)
  {
    hide MatchCalver, CalverText, FloorsOf, ParseNat, Trim, IsLane;
    forall m ensures MatchCalver(Trim(shortVersion)) == Some(m) <==> CalverParts(m) && Trim(shortVersion) == CalverText(m) {
      MatchesExactly(Trim(shortVersion), m);
    }
    forall m | IsShortVersion(shortVersion, m)
      ensures FloorsFromShortVersion(shortVersion) == Some(FloorsOf(ParseNat(m.year), ParseNat(m.month), ParseNat(m.day), m.suffix))
      ensures f == FloorsOf(ParseNat(m.year), ParseNat(m.month), ParseNat(m.day), m.suffix) <==>
              f.dateKey == KeyOf(m) && f.legacyFloor == 10 * KeyOf(m)
              && f.laneFloor == 100 * KeyOf(m) + f.lane && IsLane(m.suffix, f.lane)
    {
      FloorsOfParts(m, f);
    }
  }

  lemma FloorsOfParts(m: Match, f: Floors)
    requires CalverParts(m) && ParseNat(m.month) <= 99 && ParseNat(m.day) <= 99
    ensures f == FloorsOf(ParseNat(m.year), ParseNat(m.month), ParseNat(m.day), m.suffix) <==>
            f.dateKey == KeyOf(m) && f.legacyFloor == 10 * KeyOf(m)
            && f.laneFloor == 100 * KeyOf(m) + f.lane && IsLane(m.suffix, f.lane)
  {
    hide ParseNat, IsLane, LaneOf;
    FloorsValue(ParseNat(m.year), ParseNat(m.month), ParseNat(m.day), m.suffix);
    LaneExactly(m.suffix, f.lane);
    FloorsOfLane(ParseNat(m.year), ParseNat(m.month), ParseNat(m.day), m.suffix);
  }

  lemma FloorsOfLane(year: nat, month: nat, day: nat, suffix: string)
    requires month <= 99 && day <= 99
    ensures FloorsOf(year, month, day, suffix).lane == LaneOf(suffix)
  {
  }

  // ---------------------------------------------------------------- the appcast check

  const LANE_BUILD_MIN := 1_000_000_000
  const LANE_FLOOR_ADOPTION_DATE_KEY := 20260227

  /** An appcast item after tag extraction. */
  datatype Item = Item(title: string, shortVersion: Option<string>, sparkleVersion: Option<string>)

  datatype CalverItem = CalverItem(title: string, build: nat, floors: Floors)

  datatype AppcastError =
    | NoItems
    | MissingBuild(title: string)
    | NonNumericBuild(title: string)
    | BelowFloor(title: string, build: nat, laneFloorExpected: bool, floor: nat)

  /** The item's own error, if it has one; otherwise its calver record, if it has one. */
  datatype Classified = Bad(error: AppcastError) | Ignored | Calver(item: CalverItem)

  function Classify(item: Item): Classified {
    if item.sparkleVersion.None? || item.sparkleVersion.value == "" then Bad(MissingBuild(item.title))
    else if !AllDigits(item.sparkleVersion.value) then Bad(NonNumericBuild(item.title))
    else if item.shortVersion.None? || item.shortVersion.value == "" then Ignored
    else
      match FloorsFromShortVersion(item.shortVersion.value)
      case None => Ignored
      case Some(floors) => Calver(CalverItem(item.title, ParseNat(item.sparkleVersion.value), floors))
  }

  function ItemErrors(items: seq<Item>): seq<AppcastError> {
    if items == [] then []
    else
      var before, last := ItemErrors(items[..|items| - 1]), Classify(items[|items| - 1]);
      if last.Bad? then before + [last.error] else before
  }

  function CalverItems(items: seq<Item>): seq<CalverItem> {
    if items == [] then []
    else
      var before, last := CalverItems(items[..|items| - 1]), Classify(items[|items| - 1]);
      if last.Calver? then before + [last.item] else before
  }

  /** The smallest date key of the items with a lane-sized build, capped by the adoption date. */
  function EffectiveCutover(items: seq<CalverItem>): (key: nat)
    ensures key <= LANE_FLOOR_ADOPTION_DATE_KEY
    ensures forall item <- items :: item.build >= LANE_BUILD_MIN ==> key <= item.floors.dateKey
    ensures key == LANE_FLOOR_ADOPTION_DATE_KEY ||
            exists item <- items :: item.build >= LANE_BUILD_MIN && key == item.floors.dateKey
  {
    if items == [] then LANE_FLOOR_ADOPTION_DATE_KEY
    else
      var before, last := EffectiveCutover(items[..|items| - 1]), items[|items| - 1];
      assert items == items[..|items| - 1] + [last];
      if last.build >= LANE_BUILD_MIN then Min(before, last.floors.dateKey) else before
  }

  predicate ExpectsLaneFloor(item: CalverItem, cutover: nat) {
    item.build >= LANE_BUILD_MIN || item.floors.dateKey >= cutover
  }

  function FloorFor(item: CalverItem, cutover: nat): nat {
    if ExpectsLaneFloor(item, cutover) then item.floors.laneFloor else item.floors.legacyFloor
  }

  function FloorErrors(items: seq<CalverItem>, cutover: nat): seq<AppcastError> {
    if items == [] then []
    else
      var before, item := FloorErrors(items[..|items| - 1], cutover), items[|items| - 1];
      if item.build < FloorFor(item, cutover)
      then before + [BelowFloor(item.title, item.build, ExpectsLaneFloor(item, cutover), FloorFor(item, cutover))]
      else before
  }

  function AppcastErrors(items: seq<Item>): seq<AppcastError> {
    (if items == [] then [NoItems] else []) + ItemErrors(items)
    + FloorErrors(CalverItems(items), EffectiveCutover(CalverItems(items)))
  }

  /** collectAppcastSparkleVersionErrors after tag extraction: one pass to classify, then the floor pass. */
  method CollectAppcastSparkleVersionErrors(items: seq<Item>) returns (errors: seq<AppcastError>)
    ensures errors == AppcastErrors(items)
  {
    errors := if items == [] then [NoItems] else [];
    ghost var start := errors;
    var calverItems: seq<CalverItem> := [];
    for i := 0 to |items|
      invariant errors == start + ItemErrors(items[..i])
      invariant calverItems == CalverItems(items[..i])
    {
      assert items[..i + 1][..i] == items[..i];
      var c := Classify(items[i]);
      if c.Bad? {
        errors := errors + [c.error];
        continue;
      }
      if c.Ignored? { continue; }
      calverItems := calverItems + [c.item];
    }
    assert items[..|items|] == items;
    var cutover := EffectiveCutover(calverItems);
    ghost var classified := errors;
    for i := 0 to |calverItems|
      invariant errors == classified + FloorErrors(calverItems[..i], cutover)
    {
      assert calverItems[..i + 1][..i] == calverItems[..i];
      var item := calverItems[i];
      if item.build < FloorFor(item, cutover) {
        errors := errors + [BelowFloor(item.title, item.build, ExpectsLaneFloor(item, cutover), FloorFor(item, cutover))];
      }
    }
    assert calverItems[..|calverItems|] == calverItems;
  }

  // ---------------------------------------------------------------- what the check accepts

  /** Floors as a short version gives them. */
  predicate ProperFloors(f: Floors) {
    f.legacyFloor == 10 * f.dateKey && f.laneFloor == 100 * f.dateKey + f.lane && f.lane <= 90
  }

  /** A cutover date: builds before it are legacy-sized and above the legacy floor, builds from it on meet their own
      lane floor. */
  predicate Separates(items: seq<CalverItem>, cutover: nat) {
    forall i :: 0 <= i < |items| ==>
      if items[i].floors.dateKey < cutover
      then items[i].floors.legacyFloor <= items[i].build < 1_000_000_000
      else items[i].build >= items[i].floors.laneFloor
  }

  lemma {:induction false} CalverItemsHaveProperFloors(items: seq<Item>)
    ensures forall item <- CalverItems(items) :: ProperFloors(item.floors)
  {
    if items != [] {
      CalverItemsHaveProperFloors(items[..|items| - 1]);
      var last := items[|items| - 1];
      if Classify(last).Calver? {
        ShortVersionFloorsAreProper(last.shortVersion.value);
      }
    }
  }

  lemma ShortVersionFloorsAreProper(shortVersion: string)
    ensures FloorsFromShortVersion(shortVersion).Some? ==> ProperFloors(FloorsFromShortVersion(shortVersion).value)
  {
    hide FloorsOf;
    var m := MatchCalver(Trim(shortVersion));
    if m.Some? && FloorsFromShortVersion(shortVersion).Some? {
      FloorsValue(ParseNat(m.value.year), ParseNat(m.value.month), ParseNat(m.value.day), m.value.suffix);
    }
  }

  lemma {:induction false} NoFloorErrorsMeans(items: seq<CalverItem>, cutover: nat)
    ensures FloorErrors(items, cutover) == [] <==> forall item <- items :: item.build >= FloorFor(item, cutover)
  {
    if items != [] {
      assert items == items[..|items| - 1] + [items[|items| - 1]];
      NoFloorErrorsMeans(items[..|items| - 1], cutover);
    }
  }

  ghost predicate HasSeparating(items: seq<CalverItem>) {
    exists cutover: nat :: cutover <= LANE_FLOOR_ADOPTION_DATE_KEY && Separates(items, cutover)
  }

  /** The floor pass finds nothing exactly when some cutover date no later than the adoption date separates the items
      into a legacy part and a lane part; the inferred cutover is then such a date. */
  lemma FloorsHoldExactlyWhenSeparated(items: seq<CalverItem>)
    requires forall item <- items :: ProperFloors(item.floors)
    ensures FloorErrors(items, EffectiveCutover(items)) == [] <==> HasSeparating(items)
    ensures FloorErrors(items, EffectiveCutover(items)) == [] ==> Separates(items, EffectiveCutover(items))
  {
    var inferred := EffectiveCutover(items);
    NoFloorErrorsMeans(items, inferred);
    if FloorErrors(items, inferred) == [] {
      forall i | 0 <= i < |items|
        ensures if items[i].floors.dateKey < inferred
                then items[i].floors.legacyFloor <= items[i].build < LANE_BUILD_MIN
                else items[i].build >= items[i].floors.laneFloor
      {
        assert items[i] in items;
      }
      assert Separates(items, inferred);
    }
    if cutover: nat :| cutover <= LANE_FLOOR_ADOPTION_DATE_KEY && Separates(items, cutover) {
      forall item | item in items ensures item.build >= FloorFor(item, inferred) {
        SeparatedMeetsFloor(items, cutover, item);
      }
    }
  }

  lemma InferredIsNoEarlier(items: seq<CalverItem>, cutover: nat)
    requires cutover <= LANE_FLOOR_ADOPTION_DATE_KEY && Separates(items, cutover)
    ensures cutover <= EffectiveCutover(items)
  {
  }

  lemma SeparatedMeetsFloor(items: seq<CalverItem>, cutover: nat, item: CalverItem)
    requires forall item <- items :: ProperFloors(item.floors)
    requires cutover <= LANE_FLOOR_ADOPTION_DATE_KEY && Separates(items, cutover) && item in items
    ensures item.build >= FloorFor(item, EffectiveCutover(items))
  {
  }

  /** Across a separating cutover, every later build is strictly greater than every earlier one when the later version
      has a year from 1000 on. */
  lemma BuildsIncreaseAcrossCutover(items: seq<CalverItem>, cutover: nat, before: CalverItem, after: CalverItem)
    requires Separates(items, cutover) && before in items && after in items
    requires before.floors.dateKey < cutover <= after.floors.dateKey
    requires ProperFloors(after.floors) && after.floors.dateKey >= 10_000 * 1000
    ensures before.build < after.build
  {
  }

  predicate WellFormedItem(item: Item) {
    item.sparkleVersion.Some? && item.sparkleVersion.value != "" && AllDigits(item.sparkleVersion.value)
  }

  lemma BadMeansIllFormed(item: Item)
    ensures Classify(item).Bad? <==> !WellFormedItem(item)
  {
  }

  lemma {:induction false} NoItemErrorsMeans(items: seq<Item>)
    ensures ItemErrors(items) == [] <==> forall i :: 0 <= i < |items| ==> WellFormedItem(items[i])
  {
    hide Classify, WellFormedItem;
    if items != [] {
      var init, last := items[..|items| - 1], items[|items| - 1];
      NoItemErrorsMeans(init);
      BadMeansIllFormed(last);
      assert forall i :: 0 <= i < |init| ==> items[i] == init[i];
      assert |ItemErrors(items)| == |ItemErrors(init)| + (if Classify(last).Bad? then 1 else 0);
    }
  }

  /** The item has a numeric build and a calver short version of this date key and lane. */
  ghost predicate Dated(item: Item, build: nat, key: nat, lane: nat) {
    && WellFormedItem(item) && build == ParseNat(item.sparkleVersion.value)
    && item.shortVersion.Some?
    && exists m :: IsShortVersion(item.shortVersion.value, m) && key == KeyOf(m) && IsLane(m.suffix, lane)
  }

  lemma CalverTextIsNotBlank(shortVersion: string, m: Match)
    requires IsShortVersion(shortVersion, m)
    ensures shortVersion != ""
  {
    assert Trim("") == "";
  }

  function DatedItem(title: string, build: nat, key: nat, lane: nat): CalverItem {
    CalverItem(title, build, Floors(key, 10 * key, 100 * key + lane, lane))
  }

  /** Classification picks out exactly the dated items, with the floors of their date and lane. */
  lemma DatedExactly(item: Item, build: nat, key: nat, lane: nat)
    ensures Dated(item, build, key, lane) <==> Classify(item) == Calver(DatedItem(item.title, build, key, lane))
  {
    hide FloorsFromShortVersion, IsShortVersion, IsLane, KeyOf, ParseNat;
    if WellFormedItem(item) && item.shortVersion.Some? {
      var f := Floors(key, 10 * key, 100 * key + lane, lane);
      ShortVersionFloorsExactly(item.shortVersion.value, f);
      forall m | IsShortVersion(item.shortVersion.value, m) ensures item.shortVersion.value != "" {
        CalverTextIsNotBlank(item.shortVersion.value, m);
      }
    }
  }

  /** The cutover date splits the feed's dated items into legacy-sized builds of at least ten times their date key, and
      builds of at least a hundred times their date key plus their lane. */
  ghost predicate SplitsFeed(items: seq<Item>, cutover: nat) {
    forall i, build: nat, key: nat, lane: nat :: 0 <= i < |items| && Dated(items[i], build, key, lane) ==>
      if key < cutover then 10 * key <= build < 1_000_000_000 else build >= 100 * key + lane
  }

  /** Some cutover date no later than 27 February 2026 splits the feed. */
  ghost predicate HasCutover(items: seq<Item>) {
    exists cutover: nat :: cutover <= 2026_02_27 && SplitsFeed(items, cutover)
  }

  lemma {:induction false} CalverItemsMembers(items: seq<Item>, c: CalverItem)
    ensures c in CalverItems(items) <==> exists i :: 0 <= i < |items| && Classify(items[i]) == Calver(c)
  {
    hide Classify;
    if items != [] {
      var init, last := items[..|items| - 1], items[|items| - 1];
      CalverItemsMembers(init, c);
      assert forall i :: 0 <= i < |init| ==> init[i] == items[i];
      assert c in CalverItems(items) <==> c in CalverItems(init) || Classify(last) == Calver(c);
    }
  }

  lemma ClassifiedIsDated(item: Item, c: CalverItem)
    requires Classify(item) == Calver(c)
    ensures c == DatedItem(item.title, c.build, c.floors.dateKey, c.floors.lane)
    ensures Dated(item, c.build, c.floors.dateKey, c.floors.lane)
  {
    hide FloorsFromShortVersion, Dated;
    ShortVersionFloorsAreProper(item.shortVersion.value);
    DatedExactly(item, c.build, c.floors.dateKey, c.floors.lane);
  }

  lemma SplitsExactly(items: seq<Item>, cutover: nat)
    ensures SplitsFeed(items, cutover) <==> Separates(CalverItems(items), cutover)
  {
    hide Classify, Dated, CalverItems;
    var calver := CalverItems(items);
    if Separates(calver, cutover) {
      forall i, build: nat, key: nat, lane: nat | 0 <= i < |items| && Dated(items[i], build, key, lane)
        ensures if key < cutover then 10 * key <= build < 1_000_000_000 else build >= 100 * key + lane
      {
        DatedExactly(items[i], build, key, lane);
        CalverItemsMembers(items, DatedItem(items[i].title, build, key, lane));
      }
    }
    if SplitsFeed(items, cutover) {
      forall k | 0 <= k < |calver|
        ensures if calver[k].floors.dateKey < cutover
                then calver[k].floors.legacyFloor <= calver[k].build < 1_000_000_000
                else calver[k].build >= calver[k].floors.laneFloor
      {
        CalverItemsMembers(items, calver[k]);
        var i :| 0 <= i < |items| && Classify(items[i]) == Calver(calver[k]);
        ClassifiedIsDated(items[i], calver[k]);
      }
    }
  }

  lemma HasCutoverExactly(items: seq<Item>)
    ensures HasCutover(items) <==> HasSeparating(CalverItems(items))
  {
    hide SplitsFeed, Separates, CalverItems;
    if HasCutover(items) {
      var cutover: nat :| cutover <= 2026_02_27 && SplitsFeed(items, cutover);
      SplitsExactly(items, cutover);
    }
    if cutover: nat :| cutover <= LANE_FLOOR_ADOPTION_DATE_KEY && Separates(CalverItems(items), cutover) {
      SplitsExactly(items, cutover);
    }
  }

  /** The appcast check passes exactly for a non-empty feed of items with numeric builds whose dated items some cutover
      date no later than the adoption date splits. */
  lemma AppcastPassesExactly(items: seq<Item>)
    ensures AppcastErrors(items) == [] <==>
            && items != []
            && (forall i :: 0 <= i < |items| ==> WellFormedItem(items[i]))
            && HasCutover(items)
  {
    hide ItemErrors, CalverItems, FloorErrors, HasSeparating, HasCutover, WellFormedItem, Classify;
    NoItemErrorsMeans(items);
    CalverItemsHaveProperFloors(items);
    FloorsHoldExactlyWhenSeparated(CalverItems(items));
    HasCutoverExactly(items);
    var missing: seq<AppcastError> := if items == [] then [NoItems] else [];
    var a, b := ItemErrors(items), FloorErrors(CalverItems(items), EffectiveCutover(CalverItems(items)));
    assert AppcastErrors(items) == missing + a + b;
    assert missing + a + b == [] <==> missing == [] && a == [] && b == [];
    assert missing == [] <==> items != [];
    assert b == [] <==> HasCutover(items);
  }

  // ---------------------------------------------------------------- each error

  /** The inferred cutover date: the first date of a lane-sized build, but at latest 27 February 2026. */
  ghost predicate IsCutover(items: seq<Item>, cutover: nat) {
    && cutover <= 2026_02_27
    && (forall i, build: nat, key: nat, lane: nat ::
          0 <= i < |items| && Dated(items[i], build, key, lane) && build >= 1_000_000_000 ==> cutover <= key)
    && (cutover == 2026_02_27 ||
        exists i, build: nat, lane: nat :: 0 <= i < |items| && Dated(items[i], build, cutover, lane) && build >= 1_000_000_000)
  }

  lemma EffectiveCutoverIsCutover(items: seq<Item>)
    ensures IsCutover(items, EffectiveCutover(CalverItems(items)))
  {
    hide Classify, Dated, CalverItems;
    var calver := CalverItems(items);
    var cutover := EffectiveCutover(calver);
    forall i, build: nat, key: nat, lane: nat | 0 <= i < |items| && Dated(items[i], build, key, lane) && build >= 1_000_000_000
      ensures cutover <= key
    {
      DatedExactly(items[i], build, key, lane);
      CalverItemsMembers(items, DatedItem(items[i].title, build, key, lane));
    }
    if cutover != 2026_02_27 {
      var c :| c in calver && c.build >= LANE_BUILD_MIN && cutover == c.floors.dateKey;
      CalverItemsMembers(items, c);
      var i :| 0 <= i < |items| && Classify(items[i]) == Calver(c);
      ClassifiedIsDated(items[i], c);
    }
  }

  lemma {:induction false} ItemErrorsMembers(items: seq<Item>, e: AppcastError)
    ensures e in ItemErrors(items) <==> exists i :: 0 <= i < |items| && Classify(items[i]) == Bad(e)
  {
    hide Classify;
    if items != [] {
      var init, last := items[..|items| - 1], items[|items| - 1];
      ItemErrorsMembers(init, e);
      assert forall i :: 0 <= i < |init| ==> init[i] == items[i];
      assert e in ItemErrors(items) <==> e in ItemErrors(init) || Classify(last) == Bad(e);
    }
  }

  lemma {:induction false} FloorErrorsMembers(items: seq<CalverItem>, cutover: nat, e: AppcastError)
    ensures e in FloorErrors(items, cutover) <==>
            exists c :: c in items && c.build < FloorFor(c, cutover)
              && e == BelowFloor(c.title, c.build, ExpectsLaneFloor(c, cutover), FloorFor(c, cutover))
  {
    hide FloorFor, ExpectsLaneFloor;
    if items != [] {
      var init, last := items[..|items| - 1], items[|items| - 1];
      FloorErrorsMembers(init, cutover, e);
      assert items == init + [last];
    }
  }

  /** The item's own fault, if it is the one the error names. */
  predicate IsFaulty(item: Item, e: AppcastError) {
    match e
    case MissingBuild(title) => title == item.title && (item.sparkleVersion.None? || item.sparkleVersion.value == "")
    case NonNumericBuild(title) =>
      title == item.title && item.sparkleVersion.Some? && item.sparkleVersion.value != "" && !AllDigits(item.sparkleVersion.value)
    case _ => false
  }

  /** The item is dated and its build is below the floor of its side of the cutover: the lane floor for a lane-sized build
      or a date from the cutover on, and the legacy floor otherwise. */
  ghost predicate IsBelow(item: Item, cutover: nat, e: AppcastError) {
    && e.BelowFloor? && e.title == item.title && e.build < e.floor
    && exists key: nat, lane: nat :: Dated(item, e.build, key, lane)
         && e.laneFloorExpected == (e.build >= 1_000_000_000 || key >= cutover)
         && e.floor == if e.laneFloorExpected then 100 * key + lane else 10 * key
  }

  /** The check reports exactly: an empty feed, each missing or non-numeric build, and each build below its floor. */
  lemma EachAppcastErrorExactly(items: seq<Item>, cutover: nat, e: AppcastError)
    requires IsCutover(items, cutover)
    ensures e in AppcastErrors(items) <==>
            || (e == NoItems && items == [])
            || (exists i :: 0 <= i < |items| && (IsFaulty(items[i], e) || IsBelow(items[i], cutover, e)))
  {
    hide Classify, Dated, CalverItems, ItemErrors, FloorErrors, IsCutover, FloorFor, ExpectsLaneFloor;
    EffectiveCutoverIsCutover(items);
    CutoverIsUnique(items, cutover, EffectiveCutover(CalverItems(items)));
    ItemErrorsMembers(items, e);
    FloorErrorsMembers(CalverItems(items), cutover, e);
    forall i | 0 <= i < |items| ensures Classify(items[i]) == Bad(e) <==> IsFaulty(items[i], e) {
      FaultyExactly(items[i], e);
    }
    if e in FloorErrors(CalverItems(items), cutover) {
      var c :| c in CalverItems(items) && c.build < FloorFor(c, cutover)
               && e == BelowFloor(c.title, c.build, ExpectsLaneFloor(c, cutover), FloorFor(c, cutover));
      CalverItemsMembers(items, c);
      var i :| 0 <= i < |items| && Classify(items[i]) == Calver(c);
      BelowOfCalver(items[i], c, cutover);
    }
    if i :| 0 <= i < |items| && IsBelow(items[i], cutover, e) {
      var c := CalverOfBelow(items[i], cutover, e);
      CalverItemsMembers(items, c);
    }
  }

  lemma CutoverIsUnique(items: seq<Item>, a: nat, b: nat)
    requires IsCutover(items, a) && IsCutover(items, b)
    ensures a == b
  {
    hide Dated;
  }

  lemma FaultyExactly(item: Item, e: AppcastError)
    ensures Classify(item) == Bad(e) <==> IsFaulty(item, e)
  {
    hide FloorsFromShortVersion, AllDigits;
  }

  lemma BelowOfCalver(item: Item, c: CalverItem, cutover: nat)
    requires Classify(item) == Calver(c) && c.build < FloorFor(c, cutover)
    ensures IsBelow(item, cutover, BelowFloor(c.title, c.build, ExpectsLaneFloor(c, cutover), FloorFor(c, cutover)))
  {
    hide Classify, Dated;
    ClassifiedIsDated(item, c);
  }

  lemma CalverOfBelow(item: Item, cutover: nat, e: AppcastError) returns (c: CalverItem)
    requires IsBelow(item, cutover, e)
    ensures Classify(item) == Calver(c) && c.build < FloorFor(c, cutover)
    ensures e == BelowFloor(c.title, c.build, ExpectsLaneFloor(c, cutover), FloorFor(c, cutover))
  {
    hide Classify, Dated;
    var key: nat, lane: nat :| Dated(item, e.build, key, lane)
      && e.laneFloorExpected == (e.build >= 1_000_000_000 || key >= cutover)
      && e.floor == if e.laneFloorExpected then 100 * key + lane else 10 * key;
    DatedExactly(item, e.build, key, lane);
    c := DatedItem(item.title, e.build, key, lane);
  }

  /** `before` and `after` are items of a feed the check passes, on the two sides of the inferred cutover. */
  ghost predicate AcrossCutover(items: seq<Item>, before: CalverItem, after: CalverItem) {
    && AppcastErrors(items) == []
    && before in CalverItems(items) && after in CalverItems(items)
    && before.floors.dateKey < EffectiveCutover(CalverItems(items)) <= after.floors.dateKey
  }

  /** In a feed the check passes, every build dated from the inferred cutover on, in the year 1000 or later, is strictly
      greater than every build dated before it. */
  lemma PassingFeedBuildsIncrease(items: seq<Item>, before: CalverItem, after: CalverItem)
    requires AcrossCutover(items, before, after) && after.floors.dateKey >= 10_000 * 1000
    ensures before.build < after.build
  {
    hide ItemErrors, CalverItems, FloorErrors, EffectiveCutover;
    var items' := CalverItems(items);
    CalverItemsHaveProperFloors(items);
    FloorsHoldExactlyWhenSeparated(items');
    assert FloorErrors(items', EffectiveCutover(items')) == [] by {
      assert |AppcastErrors(items)| >= |FloorErrors(items', EffectiveCutover(items'))|;
    }
    BuildsIncreaseAcrossCutover(items', EffectiveCutover(items'), before, after);
  }

  // ---------------------------------------------------------------- why the year 1000

  /** The fields of an unsuffixed version. */
  predicate PlainVersion(m: Match) {
    CalverParts(m) && m.suffix == "" && CalendarFields(ParseNat(m.month), ParseNat(m.day))
  }

  function PlainFloors(m: Match): Floors
    requires PlainVersion(m)
  {
    FloorsOf(ParseNat(m.year), ParseNat(m.month), ParseNat(m.day), "")
  }

  /** The feed item of an unsuffixed version with a given build. */
  function PlainItem(m: Match, build: nat): Item {
    Item("release", Some(CalverText(m)), Some(Dec(build)))
  }

  lemma PlainItemIsCalver(m: Match, build: nat)
    requires PlainVersion(m)
    ensures WellFormedItem(PlainItem(m, build))
    ensures Classify(PlainItem(m, build)) == Calver(CalverItem("release", build, PlainFloors(m)))
  {
    hide MatchCalver, CalverText, FloorsOf, Dec;
    ParseDec(build);
    TextMatches(m);
    TextIsTrimmed(m);
  }

  lemma TextIsTrimmed(m: Match)
    requires CalverParts(m) && m.suffix == ""
    ensures Trim(CalverText(m)) == CalverText(m) != ""
  {
    hide Trim;
    var s := CalverText(m);
    assert s[0] == m.year[0] && s[|s| - 1] == m.day[|m.day| - 1];
    TrimTrims(s);
  }

  lemma CalverItemsOfThree(x: Item, y: Item, z: Item)
    requires Classify(x).Calver? && Classify(y).Calver? && Classify(z).Calver?
    ensures CalverItems([x, y, z]) == [Classify(x).item, Classify(y).item, Classify(z).item]
  {
    hide Classify;
    assert [x, y, z][..2] == [x, y] && [x, y][..1] == [x] && [x][..0] == [];
    assert CalverItems([x]) == [Classify(x).item];
    assert CalverItems([x, y]) == [Classify(x).item, Classify(y).item];
  }

  /** A feed of an early version with the largest legacy-sized build, and a later version with the smallest lane-sized
      build and with its own lane floor. */
  function EarlyFeed(b: Match, a: Match): seq<Item>
    requires PlainVersion(a)
  {
    [PlainItem(b, LANE_BUILD_MIN - 1), PlainItem(a, LANE_BUILD_MIN), PlainItem(a, PlainFloors(a).laneFloor)]
  }

  lemma EarlyFeedItems(b: Match, a: Match)
    requires PlainVersion(b) && PlainVersion(a)
    ensures |EarlyFeed(b, a)| == 3 && forall i :: 0 <= i < 3 ==> WellFormedItem(EarlyFeed(b, a)[i])
    ensures CalverItems(EarlyFeed(b, a)) ==
            [CalverItem("release", LANE_BUILD_MIN - 1, PlainFloors(b)), CalverItem("release", LANE_BUILD_MIN, PlainFloors(a)),
             CalverItem("release", PlainFloors(a).laneFloor, PlainFloors(a))]
  {
    hide Classify, WellFormedItem, PlainItem, PlainFloors, CalverItems, PlainVersion;
    PlainItemIsCalver(b, LANE_BUILD_MIN - 1);
    PlainItemIsCalver(a, LANE_BUILD_MIN);
    PlainItemIsCalver(a, PlainFloors(a).laneFloor);
    CalverItemsOfThree(PlainItem(b, LANE_BUILD_MIN - 1), PlainItem(a, LANE_BUILD_MIN), PlainItem(a, PlainFloors(a).laneFloor));
  }

  lemma PlainFloorsAreProper(m: Match)
    requires PlainVersion(m)
    ensures ProperFloors(PlainFloors(m))
  {
    hide FloorsOf;
    FloorsValue(ParseNat(m.year), ParseNat(m.month), ParseNat(m.day), "");
  }

  lemma EarlyItemsAreSeparated(items: seq<CalverItem>, b: Floors, a: Floors)
    requires items == [CalverItem("release", LANE_BUILD_MIN - 1, b), CalverItem("release", LANE_BUILD_MIN, a),
                       CalverItem("release", a.laneFloor, a)]
    requires ProperFloors(b) && ProperFloors(a) && b.dateKey < a.dateKey < 10_000 * 1000
    ensures Separates(items, a.dateKey) && EffectiveCutover(items) == a.dateKey && a.laneFloor < LANE_BUILD_MIN - 1
  {
    assert items[1] in items;
  }

  /** Before the year 1000 the order can fail: for any two dates there is a passing feed in which the later one, from
      the cutover on, has a smaller build than the earlier one, before it. */
  lemma EarlyYearsNeedNotIncrease(b: Match, a: Match)
    requires PlainVersion(b) && PlainVersion(a) && PlainFloors(b).dateKey < PlainFloors(a).dateKey < 10_000 * 1000
    ensures var before := CalverItem("release", LANE_BUILD_MIN - 1, PlainFloors(b));
      var after := CalverItem("release", PlainFloors(a).laneFloor, PlainFloors(a));
      AcrossCutover(EarlyFeed(b, a), before, after) && before.build > after.build
  {
    hide AppcastErrors, CalverItems, EarlyFeed, PlainFloors, PlainVersion, WellFormedItem, Separates, EffectiveCutover,
      HasCutover;
    var feed := EarlyFeed(b, a);
    EarlyFeedItems(b, a);
    PlainFloorsAreProper(b);
    PlainFloorsAreProper(a);
    EarlyItemsAreSeparated(CalverItems(feed), PlainFloors(b), PlainFloors(a));
    HasCutoverExactly(feed);
    assert HasCutover(feed);
    AppcastPassesExactly(feed);
  }

  /** Every passing feed orders the builds of two versions on the two sides of its cutover. */
  ghost predicate OrderIsForced(b: Floors, a: Floors) {
    forall items, before, after ::
      AcrossCutover(items, before, after) && before.floors == b && after.floors == a ==> before.build < after.build
  }

  /** Passing feeds order an earlier and a later version's builds across the cutover exactly when the later year is 1000
      or more. */
  lemma BuildsIncreaseExactlyFromYear1000(b: Match, a: Match)
    requires PlainVersion(b) && PlainVersion(a) && PlainFloors(b).dateKey < PlainFloors(a).dateKey
    ensures OrderIsForced(PlainFloors(b), PlainFloors(a)) <==> ParseNat(a.year) >= 1000
  {
    hide AcrossCutover, FloorsOf, EarlyFeed;
    FloorsValue(ParseNat(a.year), ParseNat(a.month), ParseNat(a.day), "");
    if ParseNat(a.year) >= 1000 {
      forall items, before, after | AcrossCutover(items, before, after) && before.floors == PlainFloors(b) && after.floors == PlainFloors(a)
        ensures before.build < after.build
      {
        PassingFeedBuildsIncrease(items, before, after);
      }
    } else {
      EarlyYearsNeedNotIncrease(b, a);
    }
  }
}
