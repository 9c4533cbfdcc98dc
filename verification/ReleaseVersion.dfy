/** Release version strings, release tags, and the five-day release window. */
module ReleaseVersion {
  import opened Text
  import opened Calendar

  const MAX_CALVER_DISTANCE_DAYS := 2

  datatype Channel = Stable | Beta

  datatype ParsedVersion = ParsedVersion(
    version: string,
    baseVersion: string,
    channel: Channel,
    year: nat,
    month: nat,
    day: nat,
    betaNumber: Option<nat>,
    correctionNumber: Option<nat>,
    date: int)

  // ---------------------------------------------------------------- matching

  datatype FieldMatch = FieldMatch(field: string, rest: string)

  datatype DateMatch = DateMatch(year: string, month: string, day: string, rest: string)

  /** `[1-9]\d?` at the start of s, greedily: what follows it in each pattern is never a digit. */
  function MatchField(s: string): Option<FieldMatch> {
    if s == "" || !IsDigit(s[0]) || s[0] == '0' then None
    else if |s| > 1 && IsDigit(s[1]) then Some(FieldMatch(s[..2], s[2..]))
    else Some(FieldMatch(s[..1], s[1..]))
  }

  /** `\d{4}\.` followed by two fields separated by a dot. */
  function MatchDate(s: string): Option<DateMatch> {
    if |s| < 5 || !AllDigits(s[..4]) || s[4] != '.' then None
    else
      match MatchField(s[5..])
      case None => None
      case Some(month) =>
        if month.rest == "" || month.rest[0] != '.' then None
        else
          match MatchField(month.rest[1..])
          case None => None
          case Some(day) => Some(DateMatch(s[..4], month.field, day.field, day.rest))
  }

  /** `[1-9]\d*` */
  predicate PositiveNumeral(s: string) {
    s != "" && AllDigits(s) && s[0] != '0'
  }

  function FieldValue(s: string): nat {
    if AllDigits(s) then ParseNat(s) else 0
  }

  /** The Date read back as the same calendar day. */
  predicate ReadsBack(year: int, month: int, day: int) {
    CivilOfDay(Day(DateUTC(year, month - 1, day))) == Civil(year, month - 1, day)
  }

  function BaseText(year: nat, month: nat, day: nat): string {
    Dec(year) + "." + Dec(month) + "." + Dec(day)
  }

  /** parseDateParts */
  function ParseDateParts(version: string, m: DateMatch, channel: Channel, beta: string): Option<ParsedVersion> {
    var year, month, day := FieldValue(m.year), FieldValue(m.month), FieldValue(m.day);
    if month < 1 || month > 12 || day < 1 || day > 31 then None
    else if channel == Beta && FieldValue(beta) < 1 then None
    else if !ReadsBack(year, month, day) then None
    else Some(ParsedVersion(version, BaseText(year, month, day), channel, year, month, day,
                            if channel == Beta then Some(FieldValue(beta)) else None, None, DateUTC(year, month - 1, day)))
  }

  const BETA_PREFIX := "-beta."

  /** The three shapes, told apart by what follows the date. */
  function ParseMatched(version: string, m: DateMatch): Option<ParsedVersion> {
    if m.rest == "" then ParseDateParts(version, m, Stable, "")
    else if BETA_PREFIX <= m.rest && PositiveNumeral(m.rest[6..]) then ParseDateParts(version, m, Beta, m.rest[6..])
    else if m.rest[0] == '-' && PositiveNumeral(m.rest[1..]) then
      var parsed := ParseDateParts(version, m, Stable, "");
      var correction := FieldValue(m.rest[1..]);
      if parsed.None? || correction < 1 then None
      else Some(parsed.value.(correctionNumber := Some(correction)))
    else None
  }

  /** parseReleaseVersion */
  function ParseReleaseVersion(version: string): Option<ParsedVersion> {
    var trimmed := Trim(version);
    match MatchDate(trimmed)
    case None => None
    case Some(m) => ParseMatched(trimmed, m)
  }

  // ---------------------------------------------------------------- the three shapes, printed

  datatype Suffix = NoSuffix | BetaSuffix(n: nat) | CorrectionSuffix(n: nat)

  datatype Release = Release(year: nat, month: nat, day: nat, suffix: Suffix)

  function SuffixText(s: Suffix): string {
    match s
    case NoSuffix => ""
    case BetaSuffix(n) => "-beta." + Dec(n)
    case CorrectionSuffix(n) => "-" + Dec(n)
  }

  /** A release of the reference calendar: a four-digit year from 100 on, an existing day, a positive suffix number. */
  predicate ValidRelease(r: Release) {
    && 100 <= r.year <= 9999 && r.month >= 1 && ValidCivil(r.year, r.month - 1, r.day)
    && (!r.suffix.NoSuffix? ==> r.suffix.n >= 1)
  }

  /** The version string of a release: YYYY.M.D, YYYY.M.D-beta.N or YYYY.M.D-N. */
  function Render(r: Release): string {
    Digits(r.year, 4) + "." + Dec(r.month) + "." + Dec(r.day) + SuffixText(r.suffix)
  }

  /** The record that parsing a release's version string should give. */
  function ParsedOf(r: Release): ParsedVersion
    requires ValidRelease(r)
  {
    ParsedVersion(Render(r), BaseText(r.year, r.month, r.day),
                  if r.suffix.BetaSuffix? then Beta else Stable, r.year, r.month, r.day,
                  if r.suffix.BetaSuffix? then Some(r.suffix.n) else None,
                  if r.suffix.CorrectionSuffix? then Some(r.suffix.n) else None,
                  MakeDay(r.year, r.month - 1, r.day) * MS_PER_DAY)
  }

  lemma YearDigits(y: nat)
    requires y <= 9999
    ensures AllDigits(Digits(y, 4)) && ParseNat(Digits(y, 4)) == y
    ensures Digits(y, 4) == Dec(y) <==> y >= 1000
  {
    assert Pow10(4) == 10_000 && Pow10(3) == 1000;
    DigitsParse(y, 4);
    DigitsAreDec(y, 4);
  }

  lemma YearParsed(s: string)
    requires |s| == 4 && AllDigits(s)
    ensures ParseNat(s) <= 9999 && Digits(ParseNat(s), 4) == s
  {
    assert Pow10(4) == 10_000;
    ParseBound(s);
    DigitsOfParsed(s);
  }

  /** A field followed by something that is not a digit is matched exactly, and only numerals of 1 to 99 are fields. */
  lemma FieldMatches(n: nat, rest: string)
    requires 1 <= n <= 99 && (rest == "" || !IsDigit(rest[0]))
    ensures MatchField(Dec(n) + rest) == Some(FieldMatch(Dec(n), rest))
  {
  }

  lemma FieldIsNumeral(s: string)
    requires MatchField(s).Some?
    ensures var m := MatchField(s).value;
      AllDigits(m.field) && ParseNat(m.field) >= 1 && Dec(ParseNat(m.field)) == m.field && s == m.field + m.rest
  {
    DecParse(MatchField(s).value.field);
  }

  lemma SuffixStart(s: Suffix)
    ensures SuffixText(s) == "" || !IsDigit(SuffixText(s)[0])
  {
    hide Dec;
  }

  lemma DateMatches(r: Release)
    requires r.year <= 9999 && 1 <= r.month <= 99 && 1 <= r.day <= 99
    ensures MatchDate(Render(r)) == Some(DateMatch(Digits(r.year, 4), Dec(r.month), Dec(r.day), SuffixText(r.suffix)))
  {
    hide Dec, Digits, ParseNat, MatchField, SuffixText;
    var s := Render(r);
    YearDigits(r.year);
    SuffixStart(r.suffix);
    var tail := Dec(r.day) + SuffixText(r.suffix);
    assert s == Digits(r.year, 4) + "." + (Dec(r.month) + ("." + tail));
    assert s[..4] == Digits(r.year, 4) && s[5..] == Dec(r.month) + ("." + tail);
    FieldMatches(r.month, "." + tail);
    assert ("." + tail)[1..] == tail;
    FieldMatches(r.day, SuffixText(r.suffix));
  }

  lemma DateMatchPrints(s: string)
    requires MatchDate(s).Some?
    ensures var m := MatchDate(s).value;
      && |m.year| == 4 && AllDigits(m.year) && AllDigits(m.month) && AllDigits(m.day)
      && ParseNat(m.month) >= 1 && ParseNat(m.day) >= 1
      && s == m.year + "." + Dec(ParseNat(m.month)) + "." + Dec(ParseNat(m.day)) + m.rest
  {
    hide Dec, ParseNat, MatchField;
    var month := MatchField(s[5..]).value;
    FieldIsNumeral(s[5..]);
    FieldIsNumeral(month.rest[1..]);
    assert s == s[..4] + "." + s[5..];
    assert month.rest == "." + month.rest[1..];
  }

  lemma DayOfMidnight(n: int)
    ensures Day(n * MS_PER_DAY) == n
  {
  }

  lemma TwoDigitYearNeverReadsBack(year: nat, month: int, day: int)
    requires year <= 99 && 1 <= month <= 12
    ensures !ReadsBack(year, month, day)
  {
    hide MakeDay, CivilOfDay, DaysInMonth, Day;
    var n := MakeDay(1900 + year, month - 1, day);
    DayOfMidnight(n);
    if CivilOfDay(n) == Civil(year, month - 1, day) {
      DayRoundTrip(n);
      LaterYearIsLater(year, month - 1, day, 1900 + year, month - 1, day);
    }
  }

  /** The year, month and day that survive the Date round trip are the existing days outside the years 0 to 99. */
  lemma ReadsBackExactly(year: nat, month: int, day: int)
    requires 1 <= month <= 12
    ensures ReadsBack(year, month, day) <==> year >= 100 && ValidCivil(year, month - 1, day)
  {
    hide MakeDay, CivilOfDay, DaysInMonth, Day;
    if year <= 99 {
      TwoDigitYearNeverReadsBack(year, month, day);
    } else {
      DayOfMidnight(MakeDay(year, month - 1, day));
      CivilRoundTrip(year, month - 1, day);
    }
  }

  // ---------------------------------------------------------------- parsing and printing are inverse

  lemma DatePartsOfRelease(version: string, r: Release, channel: Channel, beta: string)
    requires ValidRelease(r) && (channel == Beta ==> FieldValue(beta) >= 1)
    ensures var m := DateMatch(Digits(r.year, 4), Dec(r.month), Dec(r.day), SuffixText(r.suffix));
      ParseDateParts(version, m, channel, beta)
      == Some(ParsedVersion(version, BaseText(r.year, r.month, r.day), channel, r.year, r.month, r.day,
                            if channel == Beta then Some(FieldValue(beta)) else None, None,
                            MakeDay(r.year, r.month - 1, r.day) * MS_PER_DAY))
  {
    hide ReadsBack, Dec, Digits, ParseNat, MakeDay, BaseText, SuffixText;
    YearDigits(r.year);
    ParseDec(r.month);
    ParseDec(r.day);
    ReadsBackExactly(r.year, r.month, r.day);
  }

  lemma SuffixParts(s: Suffix)
    requires !s.NoSuffix? ==> s.n >= 1
    ensures var text := SuffixText(s);
      match s
      case NoSuffix => text == ""
      case BetaSuffix(n) => BETA_PREFIX <= text && PositiveNumeral(text[6..]) && FieldValue(text[6..]) == n
      case CorrectionSuffix(n) =>
        text != "" && text[0] == '-' && !(BETA_PREFIX <= text) && PositiveNumeral(text[1..]) && FieldValue(text[1..]) == n
  {
    var text := SuffixText(s);
    if !s.NoSuffix? {
      ParseDec(s.n);
      assert text[if s.BetaSuffix? then 6 else 1..] == Dec(s.n);
      assert s.CorrectionSuffix? ==> text[1] != BETA_PREFIX[1];
    }
  }

  lemma MatchedParses(version: string, r: Release)
    requires ValidRelease(r)
    ensures ParseMatched(version, DateMatch(Digits(r.year, 4), Dec(r.month), Dec(r.day), SuffixText(r.suffix)))
         == Some(ParsedOf(r).(version := version))
  {
    hide ParseDateParts, BaseText, MakeDay, Dec, Digits, FieldValue, SuffixText;
    SuffixParts(r.suffix);
    match r.suffix {
      case NoSuffix => DatePartsOfRelease(version, r, Stable, "");
      case BetaSuffix(n) => DatePartsOfRelease(version, r, Beta, SuffixText(r.suffix)[6..]);
      case CorrectionSuffix(n) => DatePartsOfRelease(version, r, Stable, "");
    }
  }

  /** Every valid release's version string, padded with white space or not, parses to that release. */
  lemma ParsesRendered(version: string, r: Release)
    requires ValidRelease(r) && Trim(version) == Render(r)
    ensures ParseReleaseVersion(version) == Some(ParsedOf(r))
  {
    DateMatches(r);
    MatchedParses(Trim(version), r);
  }

  function ReleaseOf(p: ParsedVersion): Release {
    Release(p.year, p.month, p.day,
            if p.betaNumber.Some? then BetaSuffix(p.betaNumber.value)
            else if p.correctionNumber.Some? then CorrectionSuffix(p.correctionNumber.value)
            else NoSuffix)
  }

  /** The record's date fields are those of an existing day from the year 100 on. */
  predicate DateAgrees(p: ParsedVersion, version: string, m: DateMatch) {
    && p.version == version && p.baseVersion == BaseText(p.year, p.month, p.day)
    && p.year == FieldValue(m.year) && p.month == FieldValue(m.month) && p.day == FieldValue(m.day)
    && p.year >= 100 && p.month >= 1 && ValidCivil(p.year, p.month - 1, p.day)
    && p.date == MakeDay(p.year, p.month - 1, p.day) * MS_PER_DAY
  }

  lemma DatePartsAreValid(version: string, m: DateMatch, channel: Channel, beta: string)
    ensures var p := ParseDateParts(version, m, channel, beta);
      p.Some? ==>
        && DateAgrees(p.value, version, m) && p.value.channel == channel && p.value.correctionNumber == None
        && p.value.betaNumber == (if channel == Beta then Some(FieldValue(beta)) else None)
  {
    hide ReadsBack, FieldValue, BaseText, MakeDay, DaysInMonth;
    if 1 <= FieldValue(m.month) <= 12 {
      ReadsBackExactly(FieldValue(m.year), FieldValue(m.month), FieldValue(m.day));
    }
  }

  lemma NumeralPrints(s: string)
    requires PositiveNumeral(s)
    ensures FieldValue(s) >= 1 && Dec(FieldValue(s)) == s
  {
    DecParse(s);
  }

  /** The suffix numbers of a parsed record agree with its channel and with the text after the date. */
  predicate SuffixAgrees(p: ParsedVersion, rest: string) {
    && SuffixText(ReleaseOf(p).suffix) == rest
    && (!ReleaseOf(p).suffix.NoSuffix? ==> ReleaseOf(p).suffix.n >= 1)
    && (p.channel == Beta <==> p.betaNumber.Some?)
    && (p.betaNumber.None? || p.correctionNumber.None?)
  }

  lemma MatchedAgrees(version: string, m: DateMatch)
    ensures var p := ParseMatched(version, m); p.Some? ==> DateAgrees(p.value, version, m) && SuffixAgrees(p.value, m.rest)
  {
    hide ParseDateParts, BaseText, MakeDay, FieldValue, Dec, ValidCivil;
    if ParseMatched(version, m).Some? {
      if m.rest == "" {
        DatePartsAreValid(version, m, Stable, "");
      } else if BETA_PREFIX <= m.rest && PositiveNumeral(m.rest[6..]) {
        DatePartsAreValid(version, m, Beta, m.rest[6..]);
        NumeralPrints(m.rest[6..]);
        assert m.rest == BETA_PREFIX + m.rest[6..];
      } else {
        DatePartsAreValid(version, m, Stable, "");
        NumeralPrints(m.rest[1..]);
        assert m.rest == "-" + m.rest[1..];
      }
    }
  }

  /** Whatever parses is the version string of the valid release it parses to. */
  lemma ParsedIsRendered(version: string)
    ensures var p := ParseReleaseVersion(version);
      p.Some? ==>
        var r := ReleaseOf(p.value);
        ValidRelease(r) && Trim(version) == Render(r) && p.value == ParsedOf(r)
  {
    hide MatchDate, ParseMatched, ParseDateParts, BaseText, MakeDay, Dec, Digits, ParseNat, DaysInMonth;
    var m := MatchDate(Trim(version));
    if m.Some? {
      DateMatchPrints(Trim(version));
      YearParsed(m.value.year);
      MatchedAgrees(Trim(version), m.value);
    }
  }

  /** parseReleaseVersion accepts exactly the strings that, trimmed, print a valid release. */
  lemma AcceptsExactlyReleases(version: string)
    ensures ParseReleaseVersion(version).Some? <==> exists r :: ValidRelease(r) && Trim(version) == Render(r)
  {
    if ParseReleaseVersion(version).Some? {
      ParsedIsRendered(version);
    }
    if r :| ValidRelease(r) && Trim(version) == Render(r) {
      ParsesRendered(version, r);
    }
  }

  lemma BaseTextPrints(year: nat, month: nat, day: nat, suffix: string)
    requires year <= 9999
    ensures BaseText(year, month, day) + suffix == Digits(year, 4) + "." + Dec(month) + "." + Dec(day) + suffix <==> year >= 1000
  {
    var rest := Dec(month) + "." + Dec(day) + suffix;
    YearDigits(year);
    ParseDec(year);
    assert BaseText(year, month, day) + suffix == Dec(year) + ['.'] + rest;
    assert Digits(year, 4) + "." + Dec(month) + "." + Dec(day) + suffix == Digits(year, 4) + ['.'] + rest;
    if Dec(year) + ['.'] + rest == Digits(year, 4) + ['.'] + rest {
      SplitAtSeparator('.', Dec(year), rest, Digits(year, 4), rest);
    }
  }

  /** The unpadded base version and the suffix print the trimmed input back exactly from the year 1000 on. */
  lemma BaseVersionPrintsBack(version: string)
    ensures var p := ParseReleaseVersion(version);
      p.Some? ==> (p.value.baseVersion + SuffixText(ReleaseOf(p.value).suffix) == Trim(version) <==> p.value.year >= 1000)
  {
    ParsedIsRendered(version);
    if ParseReleaseVersion(version).Some? {
      var p := ParseReleaseVersion(version).value;
      BaseTextPrints(p.year, p.month, p.day, SuffixText(ReleaseOf(p).suffix));
    }
  }

  lemma BaseTextInjective(y: nat, m: nat, d: nat, y': nat, m': nat, d': nat)
    requires BaseText(y, m, d) == BaseText(y', m', d')
    ensures y == y' && m == m' && d == d'
  {
    hide Dec, ParseNat;
    ParseDec(y);
    ParseDec(y');
    ParseDec(m);
    ParseDec(m');
    var tail, tail' := Dec(m) + ['.'] + Dec(d), Dec(m') + ['.'] + Dec(d');
    assert BaseText(y, m, d) == Dec(y) + ['.'] + tail && BaseText(y', m', d') == Dec(y') + ['.'] + tail';
    SplitAtSeparator('.', Dec(y), tail, Dec(y'), tail');
    SplitAtSeparator('.', Dec(m), Dec(d), Dec(m'), Dec(d'));
    DecInjective(y, y');
    DecInjective(m, m');
    DecInjective(d, d');
  }

  lemma RenderInjective(r: Release, q: Release)
    requires ValidRelease(r) && ValidRelease(q) && Render(r) == Render(q)
    ensures r == q
  {
    var s := Render(r);
    TrimOfRendered(r);
    ParsesRendered(s, r);
    ParsesRendered(s, q);
    assert ReleaseOf(ParsedOf(r)) == r && ReleaseOf(ParsedOf(q)) == q;
  }

  lemma TrimOfRendered(r: Release)
    requires ValidRelease(r)
    ensures Trim(Render(r)) == Render(r)
  {
    hide Dec, Digits, Trim, ParseNat, ValidCivil;
    var s := Render(r);
    var lastField := if r.suffix.NoSuffix? then Dec(r.day) else Dec(r.suffix.n);
    YearDigits(r.year);
    ParseDec(if r.suffix.NoSuffix? then r.day else r.suffix.n);
    assert s[0] == Digits(r.year, 4)[0];
    assert s[|s| - 1] == lastField[|lastField| - 1];
    TrimTrims(s);
  }

  // ---------------------------------------------------------------- release tags

  datatype TagError = BadPackageVersion | TagWithoutV | BadTag | TagMismatch | OutsideWindow(days: int) | NotOnMain

  predicate StartsWithV(tag: string) {
    tag != "" && tag[0] == 'v'
  }

  function TagVersion(tag: string): string {
    if StartsWithV(tag) then tag[1..] else tag
  }

  /** The `matchesExpectedTag` condition. */
  predicate TagMatches(version: Option<ParsedVersion>, tag: Option<ParsedVersion>) {
    && tag.Some? && version.Some? && tag.value.channel == version.value.channel
    && (|| tag.value.version == version.value.version
        || (&& version.value.channel == Stable && version.value.correctionNumber.None?
            && tag.value.correctionNumber.Some? && tag.value.baseVersion == version.value.baseVersion))
  }

  /** The inputs of the tag check; `contained` is git's answer on whether the commit is on the main ref. */
  datatype TagCheck = TagCheck(packageVersion: string, releaseTag: string, now: int,
                               releaseSha: string, releaseMainRef: string, contained: bool)

  predicate Uncontained(check: TagCheck) {
    Trim(check.releaseSha) != "" && Trim(check.releaseMainRef) != "" && !check.contained
  }

  function ReportIf(errors: seq<TagError>, wrong: bool, error: TagError): seq<TagError> {
    if wrong then errors + [error] else errors
  }

  /** The errors reported, in order, for the parsed package version and tag. */
  function TagErrorsOf(version: Option<ParsedVersion>, tag: Option<ParsedVersion>, tagHasV: bool, now: int,
                       uncontained: bool): seq<TagError>
  {
    var days := if version.Some? then UtcCalendarDayDistance(version.value.date, now) else 0;
    ReportIf(ReportIf(ReportIf(ReportIf(ReportIf(ReportIf([],
      version.None?, BadPackageVersion),
      !tagHasV, TagWithoutV),
      tag.None?, BadTag),
      !TagMatches(version, tag), TagMismatch),
      days > MAX_CALVER_DISTANCE_DAYS, OutsideWindow(days)),
      uncontained, NotOnMain)
  }

  function TagErrors(check: TagCheck): seq<TagError> {
    TagErrorsOf(ParseReleaseVersion(Trim(check.packageVersion)), ParseReleaseVersion(TagVersion(Trim(check.releaseTag))),
                StartsWithV(Trim(check.releaseTag)), check.now, Uncontained(check))
  }

  /** collectReleaseTagErrors */
  method CollectReleaseTagErrors(check: TagCheck) returns (errors: seq<TagError>)
    ensures errors == TagErrors(check)
  {
    var releaseTag, packageVersion := Trim(check.releaseTag), Trim(check.packageVersion);
    var parsedVersion := ParseReleaseVersion(packageVersion);
    var parsedTag := ParseReleaseVersion(TagVersion(releaseTag));
    errors := PushTagErrors(parsedVersion, parsedTag, StartsWithV(releaseTag), check.now, Uncontained(check));
  }

  method PushTagErrors(version: Option<ParsedVersion>, tag: Option<ParsedVersion>, tagHasV: bool, now: int, uncontained: bool)
    returns (errors: seq<TagError>)
    ensures errors == TagErrorsOf(version, tag, tagHasV, now, uncontained)
  {
    errors := [];
    if version.None? {
      errors := errors + [BadPackageVersion];
    }
    if !tagHasV {
      errors := errors + [TagWithoutV];
    }
    if tag.None? {
      errors := errors + [BadTag];
    }
    if !TagMatches(version, tag) {
      errors := errors + [TagMismatch];
    }
    if version.Some? {
      var dayDistance := UtcCalendarDayDistance(version.value.date, now);
      if dayDistance > MAX_CALVER_DISTANCE_DAYS {
        errors := errors + [OutsideWindow(dayDistance)];
      }
    }
    if uncontained {
      errors := errors + [NotOnMain];
    }
  }

  // ---------------------------------------------------------------- what the tag check accepts

  /** The tag's release t may tag r: it is r, or a correction of an unsuffixed r. */
  predicate Fits(r: Release, t: Release) {
    t == r || (r.suffix.NoSuffix? && t.suffix.CorrectionSuffix? && t.(suffix := NoSuffix) == r)
  }

  /** The tag releases r: "v" and the version string of a release t that may tag r. */
  predicate TagReleases(tag: string, r: Release, t: Release)
    requires ValidRelease(r) && ValidRelease(t)
  {
    "v" <= Trim(tag) && Trim(Trim(tag)[1..]) == Render(t) && Fits(r, t)
  }

  /** The release day is one of the five consecutive UTC days centred on the day `now` counts as. */
  predicate InWindow(r: Release, now: int)
    requires ValidRelease(r)
  {
    StartDay(now) - 2 <= MakeDay(r.year, r.month - 1, r.day) <= StartDay(now) + 2
  }

  ghost predicate Releasable(check: TagCheck, r: Release, t: Release) {
    && ValidRelease(r) && ValidRelease(t)
    && Trim(check.packageVersion) == Render(r)
    && TagReleases(check.releaseTag, r, t)
    && InWindow(r, check.now)
    && (Trim(check.releaseSha) != "" && Trim(check.releaseMainRef) != "" ==> check.contained)
  }

  lemma WindowIsFiveDays(r: Release, now: int)
    requires ValidRelease(r)
    ensures UtcCalendarDayDistance(ParsedOf(r).date, now) <= MAX_CALVER_DISTANCE_DAYS <==> InWindow(r, now)
  {
    hide UtcCalendarDayDistance, StartDay, MakeDay, ParsedOf;
    DistanceOfRelease(r, now);
  }

  lemma DistanceOfRelease(r: Release, now: int)
    requires ValidRelease(r)
    ensures UtcCalendarDayDistance(ParsedOf(r).date, now) == Abs(MakeDay(r.year, r.month - 1, r.day) - StartDay(now))
  {
    var n := MakeDay(r.year, r.month - 1, r.day);
    var date := ParsedOf(r).date;
    assert Day(date) == n;
    CivilRoundTrip(r.year, r.month - 1, r.day);
    StartOfUtcDayExact(date);
    DistanceCountsDays(date, now);
  }

  /** Checked from 1970 on, a release is in the window exactly when its day is at most two days from the day that
      contains the time of the check. */
  lemma WindowSinceEpoch(r: Release, now: nat)
    requires ValidRelease(r)
    ensures InWindow(r, now) <==> -2 <= MakeDay(r.year, r.month - 1, r.day) - now / 86_400_000 <= 2
  {
    hide MakeDay, CivilOfDay, UtcDay;
    SinceEpoch(now);
    StartOfUtcDayExact(now);
  }

  /** 8 March 2026 checked at noon of 10 March is two days away, and one day later three. */
  lemma WindowExample()
    ensures var r := Release(2026, 3, 8, NoSuffix);
      && ValidRelease(r) && MakeDay(2026, 2, 10) == 20_522
      && InWindow(r, 1_773_144_000_000) && !InWindow(r, 1_773_144_000_000 + 86_400_000)
  {
    hide CivilOfDay, InWindow;
    assert MakeDay(2026, 2, 8) == 20_520 && MakeDay(2026, 2, 10) == 20_522;
    WindowSinceEpoch(Release(2026, 3, 8, NoSuffix), 1_773_144_000_000);
    WindowSinceEpoch(Release(2026, 3, 8, NoSuffix), 1_773_144_000_000 + 86_400_000);
  }

  lemma TagMatchesExactly(r: Release, t: Release)
    requires ValidRelease(r) && ValidRelease(t)
    ensures TagMatches(Some(ParsedOf(r)), Some(ParsedOf(t))) <==> Fits(r, t)
  {
    if ParsedOf(r).version == ParsedOf(t).version {
      RenderInjective(r, t);
    }
    if ParsedOf(r).baseVersion == ParsedOf(t).baseVersion {
      BaseTextInjective(r.year, r.month, r.day, t.year, t.month, t.day);
    }
  }

  lemma TrimIsIdempotent(s: string)
    ensures Trim(Trim(s)) == Trim(s)
  {
    TrimTrims(s);
  }

  /** The tag check reports nothing exactly for a valid release inside the five-day window whose tag is "v" plus its
      version, or a correction tag for an unsuffixed version, with the commit on the main ref if that is asked for. */
  lemma NoTagErrorsExactlyWhenReleasable(check: TagCheck)
    ensures TagErrors(check) == [] <==> exists r, t :: Releasable(check, r, t)
  {
    var version := ParseReleaseVersion(Trim(check.packageVersion));
    var tag := ParseReleaseVersion(TagVersion(Trim(check.releaseTag)));
    TrimIsIdempotent(check.packageVersion);
    if TagErrors(check) == [] {
      ParsedIsRendered(Trim(check.packageVersion));
      ParsedIsRendered(TagVersion(Trim(check.releaseTag)));
      var r, t := ReleaseOf(version.value), ReleaseOf(tag.value);
      WindowIsFiveDays(r, check.now);
      TagMatchesExactly(r, t);
      assert Releasable(check, r, t);
    }
    if r, t :| Releasable(check, r, t) {
      ParsesRendered(Trim(check.packageVersion), r);
      ParsesRendered(TagVersion(Trim(check.releaseTag)), t);
      WindowIsFiveDays(r, check.now);
      TagMatchesExactly(r, t);
    }
  }

  // ---------------------------------------------------------------- each error

  /** The text is a valid release's version string, with or without white space around it. */
  ghost predicate Names(text: string, r: Release) {
    ValidRelease(r) && Trim(text) == Render(r)
  }

  ghost predicate IsVersion(text: string) {
    exists r :: Names(text, r)
  }

  /** The tag's text after a leading "v", if it has one. */
  function WithoutV(text: string): string {
    if "v" <= text then text[1..] else text
  }

  lemma ParseNames(text: string)
    ensures ParseReleaseVersion(text).Some? <==> IsVersion(text)
    ensures forall r :: Names(text, r) <==> ValidRelease(r) && ParseReleaseVersion(text) == Some(ParsedOf(r))
  {
    hide ParseReleaseVersion, Render, ValidRelease, ParsedOf, Trim;
    ParsedIsRendered(text);
    forall r | ValidRelease(r) ensures Names(text, r) <==> ParseReleaseVersion(text) == Some(ParsedOf(r)) {
      if Names(text, r) {
        ParsesRendered(text, r);
      } else if ParseReleaseVersion(text) == Some(ParsedOf(r)) {
        ParsedOfInjective(r, ReleaseOf(ParsedOf(r)));
      }
    }
  }

  lemma ParsedOfInjective(r: Release, q: Release)
    requires ValidRelease(r) && q == ReleaseOf(ParsedOf(r))
    ensures r == q
  {
  }

  function Place(e: TagError): nat {
    match e
    case BadPackageVersion => 0
    case TagWithoutV => 1
    case BadTag => 2
    case TagMismatch => 3
    case OutsideWindow(_) => 4
    case NotOnMain => 5
  }

  /** Errors in the order of the checks, each at most once. */
  predicate InOrder(errors: seq<TagError>) {
    forall i, j :: 0 <= i < j < |errors| ==> Place(errors[i]) < Place(errors[j])
  }

  predicate Below(errors: seq<TagError>, place: nat) {
    InOrder(errors) && forall e <- errors :: Place(e) < place
  }

  lemma ReportExtends(errors: seq<TagError>, wrong: bool, error: TagError)
    requires Below(errors, Place(error))
    ensures Below(ReportIf(errors, wrong, error), Place(error) + 1)
    ensures forall e :: e in ReportIf(errors, wrong, error) <==> e in errors || (wrong && e == error)
  {
    hide Place;
    var all := errors + [error];
    assert forall i :: 0 <= i < |errors| ==> all[i] == errors[i] && errors[i] in errors;
  }

  lemma ReportedExactly(version: Option<ParsedVersion>, tag: Option<ParsedVersion>, tagHasV: bool, now: int, uncontained: bool,
                        days: int)
    ensures var errors := TagErrorsOf(version, tag, tagHasV, now, uncontained);
      && InOrder(errors)
      && (BadPackageVersion in errors <==> version.None?) && (TagWithoutV in errors <==> !tagHasV)
      && (BadTag in errors <==> tag.None?) && (TagMismatch in errors <==> !TagMatches(version, tag))
      && (OutsideWindow(days) in errors <==>
            version.Some? && days == UtcCalendarDayDistance(version.value.date, now) && days > MAX_CALVER_DISTANCE_DAYS)
      && (NotOnMain in errors <==> uncontained)
  {
    hide TagMatches, UtcCalendarDayDistance, ReportIf, InOrder;
    var distance := if version.Some? then UtcCalendarDayDistance(version.value.date, now) else 0;
    assert Below([], 0) by { NothingInOrder(); }
    ReportExtends([], version.None?, BadPackageVersion);
    var e1 := ReportIf([], version.None?, BadPackageVersion);
    ReportExtends(e1, !tagHasV, TagWithoutV);
    var e2 := ReportIf(e1, !tagHasV, TagWithoutV);
    ReportExtends(e2, tag.None?, BadTag);
    var e3 := ReportIf(e2, tag.None?, BadTag);
    ReportExtends(e3, !TagMatches(version, tag), TagMismatch);
    var e4 := ReportIf(e3, !TagMatches(version, tag), TagMismatch);
    ReportExtends(e4, distance > MAX_CALVER_DISTANCE_DAYS, OutsideWindow(distance));
    var e5 := ReportIf(e4, distance > MAX_CALVER_DISTANCE_DAYS, OutsideWindow(distance));
    ReportExtends(e5, uncontained, NotOnMain);
  }

  lemma NothingInOrder()
    ensures InOrder([])
  {
  }

  /** Every error is reported exactly for its own fault, once, and in this order: the version, the missing "v", the tag,
      their mismatch, the distance in days, and the commit. */
  lemma EachTagErrorExactly(check: TagCheck, days: int)
    ensures var version, tag, errors := Trim(check.packageVersion), Trim(check.releaseTag), TagErrors(check);
      && InOrder(errors)
      && (BadPackageVersion in errors <==> !IsVersion(version))
      && (TagWithoutV in errors <==> !("v" <= tag))
      && (BadTag in errors <==> !IsVersion(WithoutV(tag)))
      && (TagMismatch in errors <==> !exists r, t :: Names(version, r) && Names(WithoutV(tag), t) && Fits(r, t))
      && (OutsideWindow(days) in errors <==>
            days > 2 && exists r :: Names(version, r) && days == Abs(MakeDay(r.year, r.month - 1, r.day) - StartDay(check.now)))
      && (NotOnMain in errors <==> Trim(check.releaseSha) != "" && Trim(check.releaseMainRef) != "" && !check.contained)
  {
    hide TagErrorsOf, TagMatches, UtcCalendarDayDistance, ParseReleaseVersion, Names, Trim, StartDay, MakeDay, ParsedOf, Fits,
      InOrder;
    var version, tag := Trim(check.packageVersion), Trim(check.releaseTag);
    var parsedVersion, parsedTag := ParseReleaseVersion(version), ParseReleaseVersion(WithoutV(tag));
    assert TagVersion(tag) == WithoutV(tag);
    ReportedExactly(parsedVersion, parsedTag, StartsWithV(tag), check.now, Uncontained(check), days);
    ParseNames(version);
    ParseNames(WithoutV(tag));
    NeedsBoth(parsedVersion, parsedTag);
    if IsVersion(version) {
      var r :| Names(version, r);
      NamesValid(version, r);
      DistanceOfRelease(r, check.now);
      if IsVersion(WithoutV(tag)) {
        var t :| Names(WithoutV(tag), t);
        NamesValid(WithoutV(tag), t);
        TagMatchesExactly(r, t);
      }
    }
  }

  lemma NeedsBoth(version: Option<ParsedVersion>, tag: Option<ParsedVersion>)
    ensures version.None? || tag.None? ==> !TagMatches(version, tag)
  {
  }

  lemma NamesValid(text: string, r: Release)
    requires Names(text, r)
    ensures ValidRelease(r) && forall q :: Names(text, q) ==> q == r
  {
    forall q | Names(text, q) ensures q == r {
      RenderInjective(q, r);
    }
  }
}
