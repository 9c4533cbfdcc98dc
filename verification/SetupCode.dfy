/** The pairing setup code: base64 made URL-safe and unpadded (sections 3.2, 4 and 5 of RFC 4648), from payload bytes. */
module SetupCode {
  import opened Text

  type Byte = x: int | 0 <= x < 256
  type Sextet = x: int | 0 <= x < 64

  /** The base64 alphabet, table 1 of RFC 4648. */
  function CharOf(v: Sextet): (c: char)
    ensures InAlphabet(c) && ValueOf(c) == v && c != '='
  {
    if v < 26 then 'A' + v as char
    else if v < 52 then 'a' + (v - 26) as char
    else if v < 62 then '0' + (v - 52) as char
    else if v == 62 then '+'
    else '/'
  }

  predicate InAlphabet(c: char) {
    'A' <= c <= 'Z' || 'a' <= c <= 'z' || '0' <= c <= '9' || c == '+' || c == '/'
  }

  function ValueOf(c: char): Sextet
    requires InAlphabet(c)
  {
    if 'A' <= c <= 'Z' then (c - 'A') as int
    else if 'a' <= c <= 'z' then (c - 'a') as int + 26
    else if '0' <= c <= '9' then (c - '0') as int + 52
    else if c == '+' then 62
    else 63
  }

  /** The four characters of one to three bytes. */
  function Group(b: seq<Byte>): (g: string)
    requires 1 <= |b| <= 3
    ensures |g| == 4
  {
    if |b| == 1 then [CharOf(b[0] / 4), CharOf(b[0] % 4 * 16), '=', '=']
    else if |b| == 2 then [CharOf(b[0] / 4), CharOf(b[0] % 4 * 16 + b[1] / 16), CharOf(b[1] % 16 * 4), '=']
    else [CharOf(b[0] / 4), CharOf(b[0] % 4 * 16 + b[1] / 16), CharOf(b[1] % 16 * 4 + b[2] / 64), CharOf(b[2] % 64)]
  }

  /** Buffer.toString("base64") */
  function Base64(bytes: seq<Byte>): string {
    if bytes == [] then ""
    else if |bytes| <= 3 then Group(bytes)
    else Group(bytes[..3]) + Base64(bytes[3..])
  }

  /** s.replace(/a/g, b) for single characters */
  function ReplaceAll(s: string, a: char, b: char): (r: string)
    ensures |r| == |s| && forall i :: 0 <= i < |s| ==> r[i] == if s[i] == a then b else s[i]
  {
    seq(|s|, i requires 0 <= i < |s| => if s[i] == a then b else s[i])
  }

  /** s.replace(/=+$/g, "") */
  function StripPadding(s: string): string {
    if s != "" && s[|s| - 1] == '=' then StripPadding(s[..|s| - 1]) else s
  }

  /** encodeSetupCode on the UTF-8 bytes of the payload's JSON */
  function EncodeSetupCode(bytes: seq<Byte>): string {
    StripPadding(ReplaceAll(ReplaceAll(Base64(bytes), '+', '-'), '/', '_'))
  }

  // ---------------------------------------------------------------- the reader's side

  /** Back to the base64 alphabet, then padded to a multiple of four characters. */
  function Repad(code: string): string {
    var s := ReplaceAll(ReplaceAll(code, '-', '+'), '_', '/');
    if |s| % 4 == 2 then s + "==" else if |s| % 4 == 3 then s + "=" else s
  }

  /** One group of base64 characters without its padding: n characters carry n - 1 bytes. */
  function GroupBytes(g: string): (bytes: seq<Byte>)
    requires 2 <= |g| <= 4 && forall c <- g :: InAlphabet(c)
    ensures |bytes| == |g| - 1
  {
    var v0, v1 := ValueOf(g[0]), ValueOf(g[1]);
    var b0 := v0 * 4 + v1 / 16;
    if |g| == 2 then [b0]
    else
      var b1 := v1 % 16 * 16 + ValueOf(g[2]) / 4;
      if |g| == 3 then [b0, b1] else [b0, b1, ValueOf(g[2]) % 4 * 64 + ValueOf(g[3])]
  }

  /** Base64 decoding: groups of four, the last one possibly padded; None for anything else. */
  function DecodeBase64(s: string): Option<seq<Byte>> {
    if s == "" then Some([])
    else if |s| < 4 then None
    else
      var n := if |s| > 4 || s[3] != '=' then 4 else if s[2] != '=' then 3 else 2;
      if exists c <- s[..n] :: !InAlphabet(c) then None
      else
        match DecodeBase64(s[4..])
        case None => None
        case Some(rest) => Some(GroupBytes(s[..n]) + rest)
  }

  // ---------------------------------------------------------------- table 1 and section 4 of RFC 4648

  const UPPER := "ABCDEFGHIJKLMNOPQRSTUVWXYZ"
  const LOWER := "abcdefghijklmnopqrstuvwxyz"
  const ALPHABET := UPPER + LOWER + "0123456789" + "+/"

  lemma UpperLetters(v: nat)
    requires v < 26
    ensures UPPER[v] == 'A' + v as char
  {
  }

  lemma LowerLetters(v: nat)
    requires v < 26
    ensures LOWER[v] == 'a' + v as char
  {
  }

  lemma AlphabetParts(v: Sextet)
    ensures |ALPHABET| == 64
    ensures ALPHABET[v] == if v < 26 then UPPER[v] else if v < 52 then LOWER[v - 26] else "0123456789+/"[v - 52]
  {
    assert |UPPER| == 26 && |LOWER| == 26;
  }

  lemma CharsAreTheAlphabet(v: Sextet)
    ensures |ALPHABET| == 64 && CharOf(v) == ALPHABET[v]
  {
    hide ALPHABET, UPPER, LOWER;
    AlphabetParts(v);
    if v < 26 {
      UpperLetters(v);
    } else if v < 52 {
      LowerLetters(v - 26);
    }
  }

  lemma LowSextet(x: int, y: int, z: int)
    requires 0 <= x && 0 <= y && 0 <= z < 256
    ensures var n := 65_536 * x + 256 * y + z; n / 64 == 1_024 * x + 4 * y + z / 64 && n % 64 == z % 64
  {
  }

  lemma MiddleSextet(x: int, y: int, h: int)
    requires 0 <= x && 0 <= y < 256 && 0 <= h < 4
    ensures var n := 1_024 * x + 4 * y + h; n / 64 == 16 * x + y / 16 && n % 64 == y % 16 * 4 + h
  {
  }

  lemma HighSextets(x: int, h: int)
    requires 0 <= x < 256 && 0 <= h < 16
    ensures (16 * x + h) / 64 == x / 4 && (16 * x + h) % 64 == x % 4 * 16 + h
  {
  }

  lemma Quotients(n: nat)
    ensures n / 4_096 == n / 64 / 64 && n / 262_144 == n / 4_096 / 64
  {
  }

  lemma SextetsOfTriple(x: int, y: int, z: int)
    requires 0 <= x < 256 && 0 <= y < 256 && 0 <= z < 256
    ensures var n := 65_536 * x + 256 * y + z;
      && n / 262_144 == x / 4 && n / 4_096 % 64 == x % 4 * 16 + y / 16
      && n / 64 % 64 == y % 16 * 4 + z / 64 && n % 64 == z % 64
  {
    Quotients(65_536 * x + 256 * y + z);
    LowSextet(x, y, z);
    MiddleSextet(x, y, z / 64);
    HighSextets(x, y / 16);
  }

  /** The four sextets of a full group are its 24 bits from the left: three bytes as one number, read in base 64. */
  lemma GroupIsBigEndian(b: seq<Byte>, x: int, y: int, z: int)
    requires |b| == 3 && x == b[0] && y == b[1] && z == b[2]
    ensures var n := 65_536 * x + 256 * y + z;
      |ALPHABET| == 64 && Group(b) == [ALPHABET[n / 262_144], ALPHABET[n / 4_096 % 64], ALPHABET[n / 64 % 64], ALPHABET[n % 64]]
  {
    hide CharOf, ALPHABET;
    SextetsOfTriple(x, y, z);
    CharsAreTheAlphabet(x / 4);
    CharsAreTheAlphabet(x % 4 * 16 + y / 16);
    CharsAreTheAlphabet(y % 16 * 4 + z / 64);
    CharsAreTheAlphabet(z % 64);
  }

  lemma ZeroBits(v: Sextet)
    ensures v + 0 / 16 == v && v + 0 / 64 == v
  {
  }

  lemma OneByteGroup(x: Byte)
    ensures Group([x]) == [Group([x, 0, 0])[0], Group([x, 0, 0])[1], '=', '=']
  {
    hide CharOf;
    ZeroBits(x % 4 * 16);
    assert Group([x]) == [CharOf(x / 4), CharOf(x % 4 * 16), '=', '='];
    assert Group([x, 0, 0])[1] == CharOf(x % 4 * 16);
  }

  lemma TwoByteGroup(x: Byte, y: Byte)
    ensures Group([x, y]) == [Group([x, y, 0])[0], Group([x, y, 0])[1], Group([x, y, 0])[2], '=']
  {
    hide CharOf;
    ZeroBits(y % 16 * 4);
    assert Group([x, y, 0])[2] == CharOf(y % 16 * 4);
  }

  /** A short group is a full one with zero bytes added, the characters that carry no byte replaced by padding. */
  lemma ShortGroupIsPadded(b: seq<Byte>, i: nat)
    requires 1 <= |b| <= 2 && i < 4
    ensures Group(b)[i] == if i <= |b| then Group(if |b| == 1 then [b[0], 0, 0] else [b[0], b[1], 0])[i] else '='
  {
    hide Group;
    if |b| == 1 {
      assert b == [b[0]];
      OneByteGroup(b[0]);
    } else {
      assert b == [b[0], b[1]];
      TwoByteGroup(b[0], b[1]);
    }
  }

  // ---------------------------------------------------------------- the round trip

  lemma SextetsJoin(a: Byte, b: Byte)
    ensures var v := a % 4 * 16 + b / 16; v < 64 && a / 4 * 4 + v / 16 == a && v % 16 == b / 16
  {
  }

  lemma SextetsRejoin(b: Byte, c: Byte)
    ensures var v := b % 16 * 4 + c / 64; v < 64 && b / 16 * 16 + v / 4 == b && v % 4 * 64 + c % 64 == c
  {
  }

  /** A group is alphabet characters that carry its bytes, then padding up to four characters. */
  lemma GroupCarriesBytes(b: seq<Byte>)
    requires 1 <= |b| <= 3
    ensures (forall i :: 0 <= i <= |b| ==> InAlphabet(Group(b)[i]) && Group(b)[i] != '=')
    ensures (forall i :: |b| < i < 4 ==> Group(b)[i] == '=')
    ensures (forall c <- Group(b)[..|b| + 1] :: InAlphabet(c)) && GroupBytes(Group(b)[..|b| + 1]) == b
  {
    hide CharOf, ValueOf, InAlphabet;
    var g := Group(b)[..|b| + 1];
    SextetsJoin(b[0], if |b| > 1 then b[1] else 0);
    if |b| > 1 {
      SextetsRejoin(b[1], if |b| > 2 then b[2] else 0);
    }
    assert b == if |b| == 1 then [b[0]] else if |b| == 2 then [b[0], b[1]] else [b[0], b[1], b[2]];
  }

  lemma Base64Step(bytes: seq<Byte>, n: nat)
    requires bytes != [] && n == if |bytes| < 3 then |bytes| else 3
    ensures Base64(bytes) == Group(bytes[..n]) + Base64(bytes[n..])
  {
    hide Group;
    if |bytes| <= 3 {
      assert bytes[..n] == bytes && bytes[n..] == [];
    }
  }

  lemma DecodeGroup(b: seq<Byte>, rest: string)
    requires 1 <= |b| <= 3 && (|b| < 3 ==> rest == "")
    ensures DecodeBase64(Group(b) + rest) ==
            match DecodeBase64(rest) case None => None case Some(bytes) => Some(b + bytes)
  {
    hide Group, GroupBytes, InAlphabet;
    GroupCarriesBytes(b);
    var s := Group(b) + rest;
    assert s[4..] == rest && s[..|b| + 1] == Group(b)[..|b| + 1];
    assert forall i :: 0 <= i < 4 ==> s[i] == Group(b)[i];
  }

  lemma {:induction false} DecodesBase64(bytes: seq<Byte>)
    ensures DecodeBase64(Base64(bytes)) == Some(bytes)
  {
    hide Group, Base64;
    if bytes == [] {
      assert Base64([]) == "" by { Base64OfNothing(); }
    } else {
      var n := if |bytes| < 3 then |bytes| else 3;
      Base64OfNothing();
      Base64Step(bytes, n);
      assert bytes == bytes[..n] + bytes[n..];
      DecodesBase64(bytes[n..]);
      DecodeGroup(bytes[..n], Base64(bytes[n..]));
    }
  }

  lemma Base64OfNothing()
    ensures Base64([]) == ""
  {
  }

  /** ceil(4n / 3), the number of characters before the padding. */
  function CodeLength(n: nat): nat {
    (4 * n + 2) / 3
  }

  lemma {:induction false} Base64Length(bytes: seq<Byte>)
    ensures |Base64(bytes)| == 4 * ((|bytes| + 2) / 3)
  {
    hide Group;
    if |bytes| > 3 {
      Base64Length(bytes[3..]);
    }
  }

  lemma CodeLengthFits(n: nat)
    ensures CodeLength(n) <= 4 * ((n + 2) / 3) <= CodeLength(n) + 2 && CodeLength(n) % 4 != 1
    ensures n > 3 ==> CodeLength(n) == CodeLength(n - 3) + 4
  {
    var q, r := n / 3, n % 3;
    assert n == 3 * q + r;
    assert CodeLength(n) == 4 * q + (4 * r + 2) / 3;
  }

  lemma {:induction false} Base64Char(bytes: seq<Byte>, i: nat)
    requires i < |Base64(bytes)|
    ensures if i < CodeLength(|bytes|) then InAlphabet(Base64(bytes)[i]) else Base64(bytes)[i] == '='
  {
    hide Group, InAlphabet;
    if |bytes| <= 3 {
      GroupCarriesBytes(bytes);
    } else {
      CodeLengthFits(|bytes|);
      GroupCarriesBytes(bytes[..3]);
      if i >= 4 {
        Base64Char(bytes[3..], i - 4);
      } else {
        assert Base64(bytes)[i] == Group(bytes[..3])[i];
      }
    }
  }

  /** Base64 text is that many alphabet characters, then zero to two padding characters up to a multiple of four. */
  lemma Base64Shape(bytes: seq<Byte>)
    ensures var s, n := Base64(bytes), CodeLength(|bytes|);
      && n <= |s| && |s| % 4 == 0 && |s| - n <= 2
      && (forall i :: 0 <= i < n ==> InAlphabet(s[i]))
      && (forall i :: n <= i < |s| ==> s[i] == '=')
  {
    hide Base64, InAlphabet, CodeLength;
    Base64Length(bytes);
    CodeLengthFits(|bytes|);
    forall i: nat | i < |Base64(bytes)|
      ensures if i < CodeLength(|bytes|) then InAlphabet(Base64(bytes)[i]) else Base64(bytes)[i] == '='
    {
      Base64Char(bytes, i);
    }
  }

  lemma {:induction false} StripPaddingStops(s: string, n: nat)
    requires n <= |s| && (forall i :: n <= i < |s| ==> s[i] == '=') && (n > 0 ==> s[n - 1] != '=')
    ensures StripPadding(s) == s[..n]
  {
    if n < |s| {
      StripPaddingStops(s[..|s| - 1], n);
      assert s[..|s| - 1][..n] == s[..n];
    } else {
      assert s[..n] == s;
    }
  }

  predicate UrlSafe(c: char) {
    'A' <= c <= 'Z' || 'a' <= c <= 'z' || '0' <= c <= '9' || c == '-' || c == '_'
  }

  function UrlChar(c: char): char {
    if c == '+' then '-' else if c == '/' then '_' else c
  }

  /** The code is the unpadded base64 text with its two unsafe characters exchanged. */
  lemma CodeCharacters(bytes: seq<Byte>)
    ensures var code, n := EncodeSetupCode(bytes), CodeLength(|bytes|);
      |code| == n <= |Base64(bytes)| && forall i :: 0 <= i < n ==> code[i] == UrlChar(Base64(bytes)[i])
  {
    hide Base64;
    Base64Shape(bytes);
    var n := CodeLength(|bytes|);
    var s := ReplaceAll(ReplaceAll(Base64(bytes), '+', '-'), '/', '_');
    assert forall i :: 0 <= i < |s| ==> s[i] == UrlChar(Base64(bytes)[i]);
    StripPaddingStops(s, n);
  }

  /** Mapping the code back and padding it restores the base64 text. */
  lemma RepadRestoresBase64(bytes: seq<Byte>)
    ensures Repad(EncodeSetupCode(bytes)) == Base64(bytes)
  {
    hide Base64, EncodeSetupCode;
    Base64Shape(bytes);
    CodeCharacters(bytes);
    var code, text := EncodeSetupCode(bytes), Base64(bytes);
    var s := ReplaceAll(ReplaceAll(code, '-', '+'), '_', '/');
    assert forall i :: 0 <= i < |code| ==> s[i] == text[i] by {
      forall i | 0 <= i < |code| ensures s[i] == text[i] {
        assert InAlphabet(text[i]) && code[i] == UrlChar(text[i]);
      }
    }
    assert s == text[..|code|];
  }

  /** The setup code can be read back: restoring the alphabet and the padding and decoding recovers every byte. */
  lemma SetupCodeRoundTrip(bytes: seq<Byte>)
    ensures DecodeBase64(Repad(EncodeSetupCode(bytes))) == Some(bytes)
  {
    RepadRestoresBase64(bytes);
    DecodesBase64(bytes);
  }

  /** Distinct payloads have distinct codes. */
  lemma SetupCodeInjective(a: seq<Byte>, b: seq<Byte>)
    requires EncodeSetupCode(a) == EncodeSetupCode(b)
    ensures a == b
  {
    SetupCodeRoundTrip(a);
    SetupCodeRoundTrip(b);
  }

  /** The code is URL-safe characters only, its length is the unpadded base64 length, and never 1 mod 4. */
  lemma SetupCodeIsUrlSafe(bytes: seq<Byte>)
    ensures var code := EncodeSetupCode(bytes);
      |code| == CodeLength(|bytes|) && |code| % 4 != 1 && forall i :: 0 <= i < |code| ==> UrlSafe(code[i])
  {
    hide Base64, EncodeSetupCode, CodeLength;
    Base64Shape(bytes);
    CodeLengthFits(|bytes|);
    CodeCharacters(bytes);
  }
}
