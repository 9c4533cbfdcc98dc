/** Strings as the repository's scripts use them: trimming, decimal numerals and substring search. */
module Text {

  datatype Option<+T> = None | Some(value: T)

  function Min(a: int, b: int): int {
    if a < b then a else b
  }

  // ---------------------------------------------------------------- trimming

  /** White space and line terminators, sections 12.2 and 12.3 of ECMA-262. */
  predicate IsSpace(c: char) {
    || '\U{0009}' <= c <= '\U{000D}'
    || c == ' ' || c == '\U{00A0}' || c == '\U{1680}'
    || '\U{2000}' <= c <= '\U{200A}'
    || c == '\U{2028}' || c == '\U{2029}' || c == '\U{202F}'
    || c == '\U{205F}' || c == '\U{3000}' || c == '\U{FEFF}'
  }

  function TrimStart(s: string): string {
    if s != [] && IsSpace(s[0]) then TrimStart(s[1..]) else s
  }

  function TrimEnd(s: string): string {
    if s != [] && IsSpace(s[|s| - 1]) then TrimEnd(s[..|s| - 1]) else s
  }

  function Trim(s: string): string {
    TrimEnd(TrimStart(s))
  }

  predicate IsTrimmed(s: string) {
    s != [] ==> !IsSpace(s[0]) && !IsSpace(s[|s| - 1])
  }

  lemma TrimEndOfStarted(s: string)
    requires s != [] ==> !IsSpace(s[0])
    ensures IsTrimmed(TrimEnd(s))
  {
  }

  lemma TrimStartBegins(s: string)
    ensures var t := TrimStart(s); t != [] ==> !IsSpace(t[0])
  {
  }

  /** Trimming reaches a trimmed string, and leaves exactly the trimmed strings alone. */
  lemma TrimTrims(s: string)
    ensures IsTrimmed(Trim(s))
    ensures Trim(s) == s <==> IsTrimmed(s)
    ensures Trim(Trim(s)) == Trim(s)
  {
    TrimStartBegins(s);
    TrimEndOfStarted(TrimStart(s));
  }

  predicate AllSpaces(s: string) {
    forall i :: 0 <= i < |s| ==> IsSpace(s[i])
  }

  /** Trimming takes white space off both ends and nothing else; TrimTrims says that none is left. */
  lemma TrimDropsSpaces(s: string)
    ensures exists before, after :: s == before + Trim(s) + after && AllSpaces(before) && AllSpaces(after)
  {
    var before := TrimStartDrops(s);
    var after := TrimEndDrops(TrimStart(s));
    assert s == before + Trim(s) + after;
  }

  lemma {:induction false} TrimStartDrops(s: string) returns (before: string)
    ensures s == before + TrimStart(s) && AllSpaces(before)
  {
    if s != [] && IsSpace(s[0]) {
      before := TrimStartDrops(s[1..]);
      before := [s[0]] + before;
    } else {
      before := [];
    }
  }

  lemma {:induction false} TrimEndDrops(s: string) returns (after: string)
    ensures s == TrimEnd(s) + after && AllSpaces(after)
  {
    if s != [] && IsSpace(s[|s| - 1]) {
      after := TrimEndDrops(s[..|s| - 1]);
      after := after + [s[|s| - 1]];
    } else {
      after := [];
    }
  }

  lemma TrimEndShortens(s: string)
    ensures |TrimEnd(s)| <= |s| && (|TrimEnd(s)| == |s| ==> TrimEnd(s) == s)
  {
  }

  lemma TrimStartShortens(s: string)
    ensures |TrimStart(s)| <= |s| && (|TrimStart(s)| == |s| ==> TrimStart(s) == s)
  {
  }

  /** Trimming shortens exactly the strings that are not trimmed. */
  lemma TrimShortens(s: string)
    ensures |Trim(s)| <= |s| && (|Trim(s)| == |s| <==> IsTrimmed(s))
  {
    TrimTrims(s);
    TrimStartShortens(s);
    TrimEndShortens(TrimStart(s));
  }

  // ---------------------------------------------------------------- decimal numerals

  predicate IsDigit(c: char) {
    '0' <= c <= '9'
  }

  predicate AllDigits(s: string) {
    forall i :: 0 <= i < |s| ==> IsDigit(s[i])
  }

  function DigitChar(d: nat): (c: char)
    requires d < 10
    ensures IsDigit(c) && DigitValue(c) == d && (c == '0' <==> d == 0)
  {
    '0' + d as char
  }

  function DigitValue(c: char): (d: nat)
    requires IsDigit(c)
    ensures d < 10
  {
    (c - '0') as nat
  }

  lemma DigitCharOfValue(c: char)
    requires IsDigit(c)
    ensures DigitChar(DigitValue(c)) == c
  {
  }

  /** The ten digits in order. */
  lemma DigitsInOrder(d: nat)
    requires d < 10
    ensures DigitChar(d) == "0123456789"[d] && DigitValue("0123456789"[d]) == d
  {
  }

  /** String(n) for a natural number. */
  function Dec(n: nat): string {
    if n < 10 then [DigitChar(n)] else Dec(n / 10) + [DigitChar(n % 10)]
  }

  /** String(n) for an integer. */
  function OfInt(n: int): string {
    if n < 0 then "-" + Dec(-n) else Dec(n)
  }

  /** Number.parseInt(s, 10) on a string of digits; the empty string, which no caller passes, gives 0. */
  function ParseNat(s: string): nat
    requires AllDigits(s)
  {
    if s == [] then 0 else 10 * ParseNat(s[..|s| - 1]) + DigitValue(s[|s| - 1])
  }

  function Pow10(k: nat): (p: nat)
    ensures p >= 1
  {
    if k == 0 then 1 else 10 * Pow10(k - 1)
  }

  /** A numeral parses back to its number and has a leading zero only for zero itself. */
  lemma {:induction false} ParseDec(n: nat)
    ensures AllDigits(Dec(n)) && |Dec(n)| >= 1 && ParseNat(Dec(n)) == n
    ensures n > 0 ==> Dec(n)[0] != '0'
  {
    if n >= 10 {
      ParseDec(n / 10);
      var s := Dec(n);
      assert s[..|s| - 1] == Dec(n / 10);
    } else {
      assert Dec(n) == [DigitChar(n)];
      assert ParseNat(Dec(n)[..0]) == 0;
    }
  }

  lemma DivideByTen(x: nat, d: nat)
    requires d < 10
    ensures (10 * x + d) / 10 == x && (10 * x + d) % 10 == d
  {
  }

  /** Printing the number read from a numeral without leading zeros gives the numeral back. */
  lemma {:induction false} DecParse(s: string)
    requires AllDigits(s) && s != [] && s[0] != '0'
    ensures ParseNat(s) >= 1 && Dec(ParseNat(s)) == s
  {
    hide IsDigit;
    var init, last := s[..|s| - 1], s[|s| - 1];
    DigitCharOfValue(last);
    assert s == init + [last];
    DivideByTen(ParseNat(init), DigitValue(last));
    if init == [] {
      assert ParseNat(init) == 0;
    } else {
      DecParse(init);
    }
  }

  lemma DecInjective(m: nat, n: nat)
    requires Dec(m) == Dec(n)
    ensures m == n
  {
    ParseDec(m);
    ParseDec(n);
  }

  lemma Shift(x: int, p: int)
    ensures x * (10 * p) == 10 * (x * p)
  {
  }

  /** Concatenating numerals shifts the left one by the length of the right one. */
  lemma {:induction false} ParseConcat(a: string, b: string)
    requires AllDigits(a) && AllDigits(b)
    ensures AllDigits(a + b)
    ensures ParseNat(a + b) == ParseNat(a) * Pow10(|b|) + ParseNat(b)
  {
    if b == [] {
      assert a + b == a;
    } else {
      var init := b[..|b| - 1];
      ParseConcat(a, init);
      assert (a + b)[..|a + b| - 1] == a + init;
      Shift(ParseNat(a), Pow10(|init|));
    }
  }

  lemma {:induction false} ParseBound(s: string)
    requires AllDigits(s)
    ensures ParseNat(s) < Pow10(|s|)
  {
    if s != [] {
      ParseBound(s[..|s| - 1]);
    }
  }

  /** The last w decimal digits of n, with leading zeros. */
  function Digits(n: nat, w: nat): (s: string)
    ensures |s| == w
  {
    if w == 0 then [] else Digits(n / 10, w - 1) + [DigitChar(n % 10)]
  }

  lemma ParseSnoc(s: string, d: nat)
    requires AllDigits(s) && d < 10
    ensures AllDigits(s + [DigitChar(d)]) && ParseNat(s + [DigitChar(d)]) == 10 * ParseNat(s) + d
  {
    assert (s + [DigitChar(d)])[..|s|] == s;
  }

  lemma {:induction false} DigitsParse(n: nat, w: nat)
    requires n < Pow10(w)
    ensures AllDigits(Digits(n, w)) && ParseNat(Digits(n, w)) == n
  {
    hide IsDigit;
    if w > 0 {
      hide AllDigits;
      DigitsParse(n / 10, w - 1);
      ParseSnoc(Digits(n / 10, w - 1), n % 10);
    }
  }

  lemma {:induction false} DigitsOfParsed(s: string)
    requires AllDigits(s)
    ensures Digits(ParseNat(s), |s|) == s
  {
    if s != [] {
      DigitsOfParsed(s[..|s| - 1]);
      DigitCharOfValue(s[|s| - 1]);
      assert s == s[..|s| - 1] + [s[|s| - 1]];
    }
  }

  /** A padded numeral is the plain one exactly when the number has that many digits. */
  lemma {:induction false} DigitsAreDec(n: nat, w: nat)
    requires 1 <= w && n < Pow10(w)
    ensures Digits(n, w) == Dec(n) <==> w == 1 || n >= Pow10(w - 1)
  {
    if w == 1 {
      assert Digits(n / 10, 0) == [];
    } else {
      if n < 10 {
        assert |Dec(n)| == 1;
      } else {
        DigitsAreDec(n / 10, w - 1);
        assert Digits(n, w)[..w - 1] == Digits(n / 10, w - 1);
        assert Dec(n)[..|Dec(n)| - 1] == Dec(n / 10);
      }
    }
  }

  /** Splitting at a separator is unambiguous when it is the only one, or the first one on both sides. */
  lemma SplitAtSeparator(c: char, s: string, t: string, s': string, t': string)
    requires s + [c] + t == s' + [c] + t' && c !in s && (c !in s' || c !in t)
    ensures s == s' && t == t'
  {
    var whole := s + [c] + t;
    assert whole[|s|] == c && whole[|s'|] == c;
    assert forall i :: 0 <= i < |s| ==> whole[i] == s[i];
    assert forall i :: 0 <= i < |s'| ==> whole[i] == s'[i];
    assert forall i :: |s| < i < |whole| ==> whole[i] == t[i - |s| - 1];
    assert |s| == |s'|;
    assert s == whole[..|s|] && s' == whole[..|s'|];
    assert t == whole[|s| + 1..] && t' == whole[|s'| + 1..];
  }

  // ---------------------------------------------------------------- substring search

  /** `pattern` occurs in `s` at index i. */
  predicate OccursAt(s: string, pattern: string, i: int) {
    0 <= i <= |s| - |pattern| && s[i..i + |pattern|] == pattern
  }

  ghost predicate Contains(s: string, pattern: string) {
    exists i :: OccursAt(s, pattern, i)
  }

  /** s.indexOf(pattern, from), with None for -1. */
  function IndexOf(s: string, pattern: string, from: nat): (r: Option<nat>)
    ensures r.Some? ==> r.value >= from && OccursAt(s, pattern, r.value)
    ensures forall i :: from <= i && (r.Some? ==> i < r.value) ==> !OccursAt(s, pattern, i)
    decreases |s| - from
  {
    if from + |pattern| > |s| then None
    else if s[from..from + |pattern|] == pattern then Some(from)
    else IndexOf(s, pattern, from + 1)
  }

  /** An occurrence inside a stretch of s is an occurrence in that stretch. */
  lemma OccursInStretch(s: string, pattern: string, from: nat, to: nat, i: nat)
    requires from <= i && i + |pattern| <= to <= |s|
    ensures OccursAt(s[from..to], pattern, i - from) <==> OccursAt(s, pattern, i)
  {
    var inner, outer := s[from..to][i - from..i - from + |pattern|], s[i..i + |pattern|];
    forall j | 0 <= j < |pattern| ensures inner[j] == outer[j] {
    }
    assert inner == outer;
  }

  /** An occurrence of a pattern without c does not run over a c. */
  lemma OccursClearOf(s: string, pattern: string, i: nat, c: char, k: nat)
    requires OccursAt(s, pattern, i) && c !in pattern && k < |s| && s[k] == c
    ensures k < i || i + |pattern| <= k
  {
  }
}
