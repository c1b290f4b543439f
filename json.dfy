/**
 * The part of Python's `json` module the records use: `json.dumps` of strings
 * and integers (with the default `ensure_ascii` escaping), of flat objects
 * with either the compact separators `(",", ":")` or the default ones
 * `(", ", ": ")`, and `json.loads` of such texts.  Floats, booleans, null,
 * arrays and nested objects are not modelled: the parser refuses them.
 */
module Json {
  import opened Wrappers
  import Text

  datatype Scalar = JStr(s: string) | JInt(n: int)

  type Member = (string, Scalar)

  // ---------------------------------------------------------------- printing

  function HexDigit(d: nat): char
    requires d < 16
  {
    if d < 10 then ('0' as int + d) as char else ('a' as int + d - 10) as char
  }

  /** Four lower-case hex digits, as in `'\\u{0:04x}'.format(n)`. */
  function Hex4(n: nat): (r: string)
    requires n < 0x10000
    ensures |r| == 4
  {
    var m := n / 16;
    var m2 := m / 16;
    [HexDigit(m2 / 16), HexDigit(m2 % 16), HexDigit(m % 16), HexDigit(n % 16)]
  }

  function UEscape(n: nat): (r: string)
    requires n < 0x10000
    ensures |r| == 6
  {
    "\\u" + Hex4(n)
  }

  /** Characters that `ensure_ascii` output carries unchanged. */
  predicate IsPrintable(c: char) {
    ' ' <= c <= '~' && c != '"' && c != '\\'
  }

  /** The letter of the two-character escape `json.dumps` uses for `c`, if it has one. */
  function ShortEscape(c: char): Option<char>
  {
    if c == '"' then Some('"')
    else if c == '\\' then Some('\\')
    else if c == '\n' then Some('n')
    else if c == '\r' then Some('r')
    else if c == '\t' then Some('t')
    else if c as int == 0x08 then Some('b')
    else if c as int == 0x0C then Some('f')
    else None
  }

  /** `\uXXXX` for a code point of the basic plane, a surrogate pair of them above it. */
  function UnicodeEscape(n: nat): (r: string)
    requires n < 0x110000
  {
    if n < 0x10000 then UEscape(n)
    else
      var v := n - 0x10000;
      UEscape(0xD800 + v / 0x400) + UEscape(0xDC00 + v % 0x400)
  }

  /** How `json.dumps` writes one character of a string. */
  function EscapeChar(c: char): (r: string)
    ensures |r| > 0 && r[0] != '"'
  {
    match ShortEscape(c)
    case Some(e) => ['\\', e]
    case None => if IsPrintable(c) then [c] else UnicodeEscape(c as int)
  }

  function Escape(s: string): string
  {
    if s == [] then "" else EscapeChar(s[0]) + Escape(s[1..])
  }

  /** `json.dumps(s)` for a string. */
  function Quote(s: string): (r: string)
    ensures |r| >= 2 && r[0] == '"' && r[|r| - 1] == '"'
  {
    "\"" + Escape(s) + "\""
  }

  function Digit(d: nat): char
    requires d < 10
  {
    ('0' as int + d) as char
  }

  function NatText(n: nat): (r: string)
    ensures |r| > 0
  {
    if n < 10 then [Digit(n)] else NatText(n / 10) + [Digit(n % 10)]
  }

  /** `json.dumps(i)` for an integer. */
  function IntText(i: int): string
  {
    if i < 0 then "-" + NatText(-i) else NatText(i)
  }

  function ScalarText(v: Scalar): string
  {
    match v
    case JStr(s) => Quote(s)
    case JInt(n) => IntText(n)
  }

  /** The two separator pairs `json.dumps` is called with: compact and default. */
  predicate ValidSeparators(itemSep: string, keySep: string) {
    (itemSep == "," || itemSep == ", ") && (keySep == ":" || keySep == ": ")
  }

  function MemberText(m: Member, keySep: string): (r: string)
    ensures r != [] && r[0] == '"'
  {
    Quote(m.0) + keySep + ScalarText(m.1)
  }

  function MembersText(ms: seq<Member>, itemSep: string, keySep: string): (r: string)
    ensures |ms| > 0 ==> r != [] && r[0] == '"'
  {
    if |ms| == 0 then ""
    else if |ms| == 1 then MemberText(ms[0], keySep)
    else MemberText(ms[0], keySep) + itemSep + MembersText(ms[1..], itemSep, keySep)
  }

  /** `json.dumps(dict(ms), separators=(itemSep, keySep))` for a flat object. */
  function ObjectText(ms: seq<Member>, itemSep: string, keySep: string): string
  {
    "{" + MembersText(ms, itemSep, keySep) + "}"
  }

  // ----------------------------------------------------------------- parsing

  predicate IsWs(c: char) {
    c == ' ' || c == '\t' || c == '\n' || c == '\r'
  }

  function SkipWs(s: string): (r: string)
    ensures |r| <= |s|
  {
    if s != [] && IsWs(s[0]) then SkipWs(s[1..]) else s
  }

  function HexValue(c: char): Option<nat>
  {
    if '0' <= c <= '9' then Some(c as int - '0' as int)
    else if 'a' <= c <= 'f' then Some(c as int - 'a' as int + 10)
    else if 'A' <= c <= 'F' then Some(c as int - 'A' as int + 10)
    else None
  }

  function ParseHex4(s: string): (r: Option<nat>)
    requires |s| == 4
    ensures r.Some? ==> r.value < 0x10000
  {
    match (HexValue(s[0]), HexValue(s[1]), HexValue(s[2]), HexValue(s[3]))
    case (Some(a), Some(b), Some(c), Some(d)) =>
      if a < 16 && b < 16 && c < 16 && d < 16 then Some(((a * 16 + b) * 16 + c) * 16 + d) else None
    case _ => None
  }

  predicate IsHighSurrogate(n: nat) { 0xD800 <= n <= 0xDBFF }
  predicate IsLowSurrogate(n: nat) { 0xDC00 <= n <= 0xDFFF }

  /** Decodes the `\uXXXX` escape at the start of `s` (past the backslash and 'u' already checked). */
  function DecodeU(s: string): (r: Result<(char, nat)>)
    requires |s| >= 2 && s[0] == '\\' && s[1] == 'u'
    ensures r.Ok? ==> 0 < r.value.1 <= |s|
  {
    if |s| < 6 then Fail(BadJson)
    else match ParseHex4(s[2..6])
    case None => Fail(BadJson)
    case Some(hi) =>
      if IsHighSurrogate(hi) then
        if |s| >= 12 && s[6] == '\\' && s[7] == 'u' && ParseHex4(s[8..12]).Some?
           && IsLowSurrogate(ParseHex4(s[8..12]).value)
        then
          var lo := ParseHex4(s[8..12]).value;
          Ok(((0x10000 + (hi - 0xD800) * 0x400 + (lo - 0xDC00)) as char, 12))
        else Fail(BadJson)   // a lone surrogate has no `char`
      else if IsLowSurrogate(hi) then Fail(BadJson)
      else Ok((hi as char, 6))
  }

  /** The character a two-character escape stands for. */
  function ShortUnescape(e: char): Option<char>
  {
    if e == '"' then Some('"')
    else if e == '\\' then Some('\\')
    else if e == '/' then Some('/')
    else if e == 'b' then Some(0x08 as char)
    else if e == 'f' then Some(0x0C as char)
    else if e == 'n' then Some('\n')
    else if e == 'r' then Some('\r')
    else if e == 't' then Some('\t')
    else None
  }

  /** Decodes one (possibly escaped) character of a string literal's body. */
  function DecodeUnit(s: string): (r: Result<(char, nat)>)
    requires s != [] && s[0] != '"'
    ensures r.Ok? ==> 0 < r.value.1 <= |s|
  {
    if s[0] == '\\' then
      if |s| < 2 then Fail(BadJson)
      else if s[1] == 'u' then DecodeU(s)
      else match ShortUnescape(s[1])
        case None => Fail(BadJson)
        case Some(c) => Ok((c, 2))
    else if (s[0] as int) < 0x20 then Fail(BadJson)   // strict mode refuses raw control characters
    else Ok((s[0], 1))
  }

  /** The body of a string literal up to its closing quote: the decoded text and what follows the quote. */
  function ParseStringBody(s: string): (r: Result<(string, string)>)
    ensures r.Ok? ==> |r.value.1| < |s|
    decreases |s|
  {
    if s == [] then Fail(BadJson)
    else if s[0] == '"' then Ok(("", s[1..]))
    else
      match DecodeUnit(s)
      case Fail(e) => Fail(e)
      case Ok((c, n)) =>
        match ParseStringBody(s[n..])
        case Fail(e) => Fail(e)
        case Ok((t, rest)) => Ok(([c] + t, rest))
  }

  function ParseString(s: string): (r: Result<(string, string)>)
    ensures r.Ok? ==> |r.value.1| < |s|
  {
    if s != [] && s[0] == '"' then ParseStringBody(s[1..]) else Fail(BadJson)
  }

  predicate IsDigit(c: char) { '0' <= c <= '9' }

  predicate AllDigits(s: string) { forall i :: 0 <= i < |s| ==> IsDigit(s[i]) }

  function DigitRun(s: string): (k: nat)
    ensures k <= |s| && AllDigits(s[..k])
  {
    if s != [] && IsDigit(s[0]) then
      var k := 1 + DigitRun(s[1..]);
      assert s[..k] == [s[0]] + s[1..][..k - 1];
      k
    else 0
  }

  function DigitsValue(ds: string): nat
    requires AllDigits(ds)
  {
    if ds == [] then 0 else DigitsValue(ds[..|ds| - 1]) * 10 + (ds[|ds| - 1] as int - '0' as int)
  }

  /** An integer literal; a fraction or an exponent (a float) is refused. */
  function ParseInt(s: string): (r: Result<(int, string)>)
    ensures r.Ok? ==> |r.value.1| < |s|
  {
    var neg := s != [] && s[0] == '-';
    var t := if neg then s[1..] else s;
    if t == [] || !IsDigit(t[0]) then Fail(BadJson)
    else
      var k := if t[0] == '0' then 1 else DigitRun(t);
      var rest := t[k..];
      if rest != [] && (rest[0] == '.' || rest[0] == 'e' || rest[0] == 'E') then Fail(BadJson)
      else
        var v: int := DigitsValue(t[..k]);
        Ok((if neg then -v else v, rest))
  }

  function ParseScalar(s: string): (r: Result<(Scalar, string)>)
    ensures r.Ok? ==> |r.value.1| < |s|
  {
    if s != [] && s[0] == '"' then
      match ParseString(s)
      case Fail(e) => Fail(e)
      case Ok((t, rest)) => Ok((JStr(t), rest))
    else
      match ParseInt(s)
      case Fail(e) => Fail(e)
      case Ok((n, rest)) => Ok((JInt(n), rest))
  }

  function ParseMember(s: string): (r: Result<(Member, string)>)
    ensures r.Ok? ==> |r.value.1| < |s|
  {
    match ParseString(s)
    case Fail(e) => Fail(e)
    case Ok((k, r1)) =>
      var r2 := SkipWs(r1);
      if r2 == [] || r2[0] != ':' then Fail(BadJson)
      else
        match ParseScalar(SkipWs(r2[1..]))
        case Fail(e) => Fail(e)
        case Ok((v, r3)) => Ok(((k, v), r3))
  }

  /** Members of an object from the first member's key to the closing brace. */
  function ParseMembers(s: string): (r: Result<(seq<Member>, string)>)
    ensures r.Ok? ==> |r.value.1| < |s|
    decreases |s|
  {
    match ParseMember(s)
    case Fail(e) => Fail(e)
    case Ok((m, r1)) =>
      var r2 := SkipWs(r1);
      if r2 != [] && r2[0] == ',' then
        match ParseMembers(SkipWs(r2[1..]))
        case Fail(e) => Fail(e)
        case Ok((ms, r3)) => Ok(([m] + ms, r3))
      else if r2 != [] && r2[0] == '}' then Ok(([m], r2[1..]))
      else Fail(BadJson)
  }

  function ParseObject(s: string): (r: Result<(seq<Member>, string)>)
  {
    if s == [] || s[0] != '{' then Fail(BadJson)
    else
      var r1 := SkipWs(s[1..]);
      if r1 != [] && r1[0] == '}' then Ok(([], r1[1..])) else ParseMembers(r1)
  }

  /** `json.loads(s)` where `s` holds a flat object. */
  function LoadsObject(s: string): Result<seq<Member>>
  {
    match ParseObject(SkipWs(s))
    case Fail(e) => Fail(e)
    case Ok((ms, rest)) => if SkipWs(rest) == [] then Ok(ms) else Fail(BadJson)
  }

  /** `json.loads(s)` where `s` holds a string literal. */
  function LoadsString(s: string): Result<string>
  {
    match ParseString(SkipWs(s))
    case Fail(e) => Fail(e)
    case Ok((t, rest)) => if SkipWs(rest) == [] then Ok(t) else Fail(BadJson)
  }

  /** `json.loads(s)` where `s` holds a string or an integer literal. */
  function LoadsScalar(s: string): Result<Scalar>
  {
    match ParseScalar(SkipWs(s))
    case Fail(e) => Fail(e)
    case Ok((v, rest)) => if SkipWs(rest) == [] then Ok(v) else Fail(BadJson)
  }

  /** `parsed[k]` on the dict `json.loads` builds: a repeated key keeps its last value. */
  function Lookup(ms: seq<Member>, k: string): (r: Option<Scalar>)
    ensures r.Some? <==> exists i :: 0 <= i < |ms| && ms[i].0 == k
  {
    if ms == [] then None
    else if ms[|ms| - 1].0 == k then Some(ms[|ms| - 1].1)
    else
      var r := Lookup(ms[..|ms| - 1], k);
      assert forall i :: 0 <= i < |ms| - 1 ==> ms[..|ms| - 1][i] == ms[i];
      r
  }

  // ------------------------------------------------------------ round trips

  lemma HexDigitValue(d: nat)
    requires d < 16
    ensures HexValue(HexDigit(d)) == Some(d)
  {
  }

  lemma Hex4RoundTrip(n: nat)
    requires n < 0x10000
    ensures ParseHex4(Hex4(n)) == Some(n)
  {
    var m := n / 16;
    var m2 := m / 16;
    HexDigitValue(m2 / 16);
    HexDigitValue(m2 % 16);
    HexDigitValue(m % 16);
    HexDigitValue(n % 16);
    assert n == m * 16 + n % 16;
    assert m == m2 * 16 + m % 16;
    assert m2 == (m2 / 16) * 16 + m2 % 16;
  }

  lemma ShortEscapeRoundTrip(c: char)
    requires ShortEscape(c).Some?
    ensures ShortEscape(c).value != 'u' && ShortUnescape(ShortEscape(c).value) == Some(c)
  {
  }

  lemma DecodeBasicPlane(n: nat, t: string)
    requires n < 0x10000 && !IsHighSurrogate(n) && !IsLowSurrogate(n)
    ensures DecodeU(UEscape(n) + t) == Ok((n as char, 6))
  {
    var s := UEscape(n) + t;
    assert s[2..6] == Hex4(n);
    Hex4RoundTrip(n);
  }

  /** The surrogate pair of a code point above the basic plane, and back. */
  lemma PairArithmetic(n: nat)
    requires 0x10000 <= n < 0x110000
    ensures var v := n - 0x10000;
            IsHighSurrogate(0xD800 + v / 0x400) && IsLowSurrogate(0xDC00 + v % 0x400)
            && 0x10000 + (v / 0x400) * 0x400 + v % 0x400 == n
  {
  }

  lemma DecodeSurrogates(s: string, hi: nat, lo: nat)
    requires IsHighSurrogate(hi) && IsLowSurrogate(lo)
    requires |s| >= 12 && s[0] == '\\' && s[1] == 'u' && s[6] == '\\' && s[7] == 'u'
    requires ParseHex4(s[2..6]) == Some(hi) && ParseHex4(s[8..12]) == Some(lo)
    ensures DecodeU(s) == Ok(((0x10000 + (hi - 0xD800) * 0x400 + (lo - 0xDC00)) as char, 12))
  {
  }

  lemma DecodePair(n: nat, t: string)
    requires 0x10000 <= n < 0x110000
    ensures DecodeU(UnicodeEscape(n) + t) == Ok((n as char, 12))
  {
    var v := n - 0x10000;
    var hi := 0xD800 + v / 0x400;
    var lo := 0xDC00 + v % 0x400;
    PairArithmetic(n);
    var s := UnicodeEscape(n) + t;
    assert s == "\\u" + Hex4(hi) + "\\u" + Hex4(lo) + t;
    assert s[2..6] == Hex4(hi) && s[8..12] == Hex4(lo);
    Hex4RoundTrip(hi);
    Hex4RoundTrip(lo);
    DecodeSurrogates(s, hi, lo);
  }

  /** Every escape `json.dumps` writes decodes back to its character. */
  lemma DecodeEscapeChar(c: char, t: string)
    ensures DecodeUnit(EscapeChar(c) + t) == Ok((c, |EscapeChar(c)|))
  {
    var s := EscapeChar(c) + t;
    match ShortEscape(c)
    case Some(e) =>
      ShortEscapeRoundTrip(c);
      assert s[0] == '\\' && s[1] == e;
    case None =>
      if !IsPrintable(c) {
        var n := c as int;
        if n < 0x10000 {
          DecodeBasicPlane(n, t);
        } else {
          DecodePair(n, t);
        }
      }
  }

  lemma {:induction false} StringBodyRoundTrip(s: string, t: string)
    ensures ParseStringBody(Escape(s) + "\"" + t) == Ok((s, t))
  {
    if s == [] {
      assert Escape(s) + "\"" + t == "\"" + t;
    } else {
      var e := EscapeChar(s[0]);
      var tail := Escape(s[1..]) + "\"" + t;
      assert Escape(s) + "\"" + t == e + tail;
      DecodeEscapeChar(s[0], tail);
      assert (e + tail)[|e|..] == tail;
      StringBodyRoundTrip(s[1..], t);
      assert [s[0]] + s[1..] == s;
    }
  }

  /** `json.loads` inverts `json.dumps` on strings, whatever follows the literal. */
  lemma QuoteRoundTrip(s: string, t: string)
    ensures ParseString(Quote(s) + t) == Ok((s, t))
  {
    QuoteThen(s, t);
    StringBodyRoundTrip(s, t);
  }

  lemma QuoteThen(s: string, t: string)
    ensures var u := Quote(s) + t;
            u != [] && u[0] == '"' && u[1..] == Escape(s) + "\"" + t
  {
    var u := Quote(s) + t;
    assert u == "\"" + (Escape(s) + "\"" + t);
  }

  lemma LoadsQuote(s: string)
    ensures LoadsString(Quote(s)) == Ok(s)
  {
    QuoteRoundTrip(s, "");
    assert Quote(s) + "" == Quote(s);
  }

  /** `json.loads(json.dumps(v)) == v` for a string or an integer. */
  lemma LoadsScalarText(v: Scalar)
    ensures LoadsScalar(ScalarText(v)) == Ok(v)
  {
    ScalarStart(v, "");
    assert ScalarText(v) + "" == ScalarText(v);
    ScalarRoundTrip(v, "");
  }

  lemma {:induction false} NatTextDigits(n: nat)
    ensures AllDigits(NatText(n)) && DigitsValue(NatText(n)) == n
    ensures NatText(n)[0] == '0' ==> n == 0 && |NatText(n)| == 1
  {
    if n >= 10 {
      NatTextDigits(n / 10);
      var r := NatText(n);
      assert r[..|r| - 1] == NatText(n / 10);
    }
  }

  lemma {:induction false} DigitRunAppend(ds: string, t: string)
    requires AllDigits(ds)
    requires t == [] || !IsDigit(t[0])
    ensures DigitRun(ds + t) == |ds|
  {
    if ds != [] {
      assert (ds + t)[1..] == ds[1..] + t;
      DigitRunAppend(ds[1..], t);
    } else {
      assert ds + t == t;
    }
  }

  /** What may follow a number without extending it. */
  predicate EndsNumber(t: string) {
    t == [] || !(IsDigit(t[0]) || t[0] == '.' || t[0] == 'e' || t[0] == 'E')
  }

  lemma NatRoundTrip(n: nat, t: string)
    requires EndsNumber(t)
    ensures var s := NatText(n) + t;
            var k := if s[0] == '0' then 1 else DigitRun(s);
            k == |NatText(n)| && s[..k] == NatText(n) && s[k..] == t
  {
    NatTextDigits(n);
    DigitRunAppend(NatText(n), t);
  }

  /** The digits of a natural number, followed by `t`, as `ParseInt` reads them. */
  lemma DigitsThen(d: nat, t: string)
    requires EndsNumber(t)
    ensures var s := NatText(d) + t;
            var k := if s[0] == '0' then 1 else DigitRun(s);
            s != [] && IsDigit(s[0]) && k <= |s| && AllDigits(s[..k])
            && s[..k] == NatText(d) && s[k..] == t && DigitsValue(s[..k]) == d
  {
    NatRoundTrip(d, t);
    NatTextDigits(d);
  }

  lemma IntRoundTrip(n: int, t: string)
    requires EndsNumber(t)
    ensures ParseInt(IntText(n) + t) == Ok((n, t))
  {
    var d := if n < 0 then -n else n;
    DigitsThen(d, t);
    if n < 0 {
      var s := IntText(n) + t;
      assert s == "-" + (NatText(d) + t);
      assert s[0] == '-' && s[1..] == NatText(d) + t;
    }
  }

  lemma ScalarRoundTrip(v: Scalar, t: string)
    requires EndsNumber(t)
    ensures ParseScalar(ScalarText(v) + t) == Ok((v, t))
  {
    match v
    case JStr(s) => QuoteRoundTrip(s, t);
    case JInt(n) =>
      IntRoundTrip(n, t);
      NatTextDigits(if n < 0 then -n else n);
  }

  lemma SkipSpace(x: string)
    ensures SkipWs(" " + x) == SkipWs(x)
  {
    assert (" " + x)[1..] == x;
  }

  lemma SkipNone(x: string)
    requires x != [] && !IsWs(x[0])
    ensures SkipWs(x) == x
  {
  }

  /** Every printed scalar starts with a quote, a minus sign or a digit. */
  lemma ScalarStart(v: Scalar, t: string)
    ensures var u := ScalarText(v) + t; u != [] && (u[0] == '"' || u[0] == '-' || IsDigit(u[0]))
  {
    match v
    case JStr(s) =>
    case JInt(n) => NatTextDigits(if n < 0 then -n else n);
  }

  lemma ParseMemberStep(x: string, k: string, r1: string, w: string, v: Scalar, r3: string)
    requires ParseString(x) == Ok((k, r1))
    requires SkipWs(r1) == r1 && r1 != [] && r1[0] == ':'
    requires SkipWs(r1[1..]) == w && ParseScalar(w) == Ok((v, r3))
    ensures ParseMember(x) == Ok(((k, v), r3))
  {
  }

  /** After a key separator, skipping whitespace lands on the value. */
  lemma SkipKeySep(keySep: string, w: string)
    requires keySep == ":" || keySep == ": "
    requires w != [] && !IsWs(w[0])
    ensures var u := keySep + w; SkipWs(u) == u && u[0] == ':' && SkipWs(u[1..]) == w
  {
    var u := keySep + w;
    SkipNone(u);
    SkipNone(w);
    if keySep == ":" {
      assert u[1..] == w;
    } else {
      assert u[1..] == " " + w;
      SkipSpace(w);
    }
  }

  lemma ConcatAssoc3(a: string, b: string, c: string, d: string)
    ensures a + b + c + d == a + (b + (c + d))
  {
  }

  lemma MemberRoundTrip(m: Member, keySep: string, t: string)
    requires keySep == ":" || keySep == ": "
    requires t != [] && (t[0] == ',' || t[0] == '}')
    ensures ParseMember(MemberText(m, keySep) + t) == Ok((m, t))
  {
    var w := ScalarText(m.1) + t;
    var after := keySep + w;
    var x := Quote(m.0) + after;
    assert MemberText(m, keySep) + t == x by {
      ConcatAssoc3(Quote(m.0), keySep, ScalarText(m.1), t);
    }
    assert ParseMember(x) == Ok((m, t)) by {
      ScalarStart(m.1, t);
      SkipKeySep(keySep, w);
      ScalarRoundTrip(m.1, t);
      QuoteRoundTrip(m.0, after);
      ParseMemberStep(x, m.0, after, w, m.1, t);
    }
  }

  lemma ParseMembersComma(x: string, m: Member, r1: string, rest: string, ms: seq<Member>, r3: string)
    requires ParseMember(x) == Ok((m, r1))
    requires SkipWs(r1) == r1 && r1 != [] && r1[0] == ','
    requires SkipWs(r1[1..]) == rest && ParseMembers(rest) == Ok((ms, r3))
    ensures ParseMembers(x) == Ok(([m] + ms, r3))
  {
  }

  lemma ParseMembersClose(x: string, m: Member, r1: string)
    requires ParseMember(x) == Ok((m, r1))
    requires SkipWs(r1) != [] && SkipWs(r1)[0] == '}'
    ensures ParseMembers(x) == Ok(([m], SkipWs(r1)[1..]))
  {
  }

  lemma ConcatAssoc(a: string, b: string, c: string, d: string, e: string)
    ensures a + b + c + d + e == a + (b + (c + d + e))
  {
  }

  lemma LastMemberRoundTrip(m: Member, itemSep: string, keySep: string, t: string)
    requires ValidSeparators(itemSep, keySep)
    ensures ParseMembers(MembersText([m], itemSep, keySep) + "}" + t) == Ok(([m], t))
  {
    var x := MemberText(m, keySep) + ("}" + t);
    assert MembersText([m], itemSep, keySep) + "}" + t == x;
    assert ParseMembers(x) == Ok(([m], t)) by {
      MemberRoundTrip(m, keySep, "}" + t);
      SkipNone("}" + t);
      assert ("}" + t)[1..] == t;
      ParseMembersClose(x, m, "}" + t);
    }
  }

  /** After an item separator, skipping whitespace lands on the next key. */
  lemma SkipItemSep(itemSep: string, rest: string)
    requires itemSep == "," || itemSep == ", "
    requires rest != [] && rest[0] == '"'
    ensures var u := itemSep + rest; SkipWs(u) == u && u[0] == ',' && SkipWs(u[1..]) == rest
  {
    var u := itemSep + rest;
    SkipNone(u);
    SkipNone(rest);
    if itemSep == "," {
      assert u[1..] == rest;
    } else {
      assert u[1..] == " " + rest;
      SkipSpace(rest);
    }
  }

  lemma {:induction false} MembersRoundTrip(ms: seq<Member>, itemSep: string, keySep: string, t: string)
    requires |ms| > 0 && ValidSeparators(itemSep, keySep)
    ensures ParseMembers(MembersText(ms, itemSep, keySep) + "}" + t) == Ok((ms, t))
  {
    if |ms| == 1 {
      LastMemberRoundTrip(ms[0], itemSep, keySep, t);
      assert ms == [ms[0]];
    } else {
      var rest := MembersText(ms[1..], itemSep, keySep) + "}" + t;
      var x := MemberText(ms[0], keySep) + (itemSep + rest);
      assert MembersText(ms, itemSep, keySep) + "}" + t == x by {
        ConcatAssoc(MemberText(ms[0], keySep), itemSep, MembersText(ms[1..], itemSep, keySep), "}", t);
      }
      assert ParseMembers(x) == Ok((ms, t)) by {
        MemberRoundTrip(ms[0], keySep, itemSep + rest);
        SkipItemSep(itemSep, rest);
        MembersRoundTrip(ms[1..], itemSep, keySep, t);
        ParseMembersComma(x, ms[0], itemSep + rest, rest, ms[1..], t);
        assert [ms[0]] + ms[1..] == ms;
      }
    }
  }

  lemma LoadsObjectStep(s: string, ms: seq<Member>)
    requires s != [] && s[0] == '{' && SkipWs(s) == s
    requires SkipWs(s[1..]) == s[1..] && s[1..] != [] && s[1] != '}'
    requires ParseMembers(s[1..]) == Ok((ms, ""))
    ensures LoadsObject(s) == Ok(ms)
  {
  }

  /** `json.loads(json.dumps(obj))` gives back the members, in order. */
  lemma ObjectRoundTrip(ms: seq<Member>, itemSep: string, keySep: string)
    requires ValidSeparators(itemSep, keySep)
    ensures LoadsObject(ObjectText(ms, itemSep, keySep)) == Ok(ms)
  {
    var s := ObjectText(ms, itemSep, keySep);
    if |ms| == 0 {
      assert s == "{}";
    } else {
      var body := MembersText(ms, itemSep, keySep) + "}" + "";
      assert s[1..] == body;
      assert LoadsObject(s) == Ok(ms) by {
        SkipNone(s);
        SkipNone(body);
        MembersRoundTrip(ms, itemSep, keySep, "");
        LoadsObjectStep(s, ms);
      }
    }
  }

  // ------------------------------------------------------- shape of the text

  /** The characters an escape sequence is written with. */
  predicate InEscapeAlphabet(y: char) {
    y == '\\' || y == '"' || y == 'b' || y == 'f' || y == 'n' || y == 'r' || y == 't' || y == 'u'
    || IsDigit(y) || 'a' <= y <= 'f'
  }

  /** A character that no escape and no number contains. */
  predicate Plain(x: char) {
    IsPrintable(x) && !InEscapeAlphabet(x) && x != '-'
  }

  lemma UEscapeAlphabet(n: nat)
    requires n < 0x10000
    ensures forall i :: 0 <= i < |UEscape(n)| ==> InEscapeAlphabet(UEscape(n)[i])
  {
  }

  lemma UnicodeEscapeAlphabet(n: nat)
    requires n < 0x110000
    ensures forall i :: 0 <= i < |UnicodeEscape(n)| ==> InEscapeAlphabet(UnicodeEscape(n)[i])
  {
    if n < 0x10000 {
      UEscapeAlphabet(n);
    } else {
      var v := n - 0x10000;
      var a := UEscape(0xD800 + v / 0x400);
      var b := UEscape(0xDC00 + v % 0x400);
      UEscapeAlphabet(0xD800 + v / 0x400);
      UEscapeAlphabet(0xDC00 + v % 0x400);
      assert forall i :: 0 <= i < |a + b| ==> (a + b)[i] == if i < |a| then a[i] else b[i - |a|];
    }
  }

  /** A printable character is written as itself; any other only with escape characters. */
  lemma EscapeCharAlphabet(c: char)
    ensures IsPrintable(c) ==> EscapeChar(c) == [c]
    ensures !IsPrintable(c) ==> forall i :: 0 <= i < |EscapeChar(c)| ==> InEscapeAlphabet(EscapeChar(c)[i])
  {
    if ShortEscape(c).None? && !IsPrintable(c) {
      UnicodeEscapeAlphabet(c as int);
    }
  }

  lemma EscapeCharKeeps(c: char, x: char)
    requires Plain(x)
    ensures x in EscapeChar(c) <==> x == c
  {
    EscapeCharAlphabet(c);
  }

  /** A string of printable characters is written as itself. */
  lemma {:induction false} EscapePrintable(s: string)
    requires forall i :: 0 <= i < |s| ==> IsPrintable(s[i])
    ensures Escape(s) == s
  {
    if s != [] {
      EscapeCharAlphabet(s[0]);
      EscapePrintable(s[1..]);
      assert s == [s[0]] + s[1..];
    }
  }

  /** A string of printable characters is quoted as it is. */
  lemma QuotePrintable(s: string)
    requires forall i :: 0 <= i < |s| ==> IsPrintable(s[i])
    ensures Quote(s) == "\"" + s + "\""
  {
    EscapePrintable(s);
  }

  lemma MembersTextThree(a: Member, b: Member, c: Member, itemSep: string, keySep: string)
    ensures MembersText([a, b, c], itemSep, keySep)
            == MemberText(a, keySep) + itemSep + (MemberText(b, keySep) + itemSep + MemberText(c, keySep))
  {
    assert [a, b, c][1..] == [b, c];
    assert [b, c][1..] == [c];
    assert MembersText([c], itemSep, keySep) == MemberText(c, keySep);
    assert MembersText([b, c], itemSep, keySep) == MemberText(b, keySep) + itemSep + MemberText(c, keySep);
  }

  /** A plain character occurs in the escaped text exactly when it occurs in the string. */
  lemma {:induction false} EscapeKeeps(s: string, x: char)
    requires Plain(x)
    ensures x in Escape(s) <==> x in s
  {
    if s != [] {
      EscapeCharKeeps(s[0], x);
      EscapeKeeps(s[1..], x);
      assert s == [s[0]] + s[1..];
    }
  }

  /** A character occurs in a member's key or string value. */
  predicate MemberHas(m: Member, x: char) {
    x in m.0 || (m.1.JStr? && x in m.1.s)
  }

  /** What a character other than the printer's own punctuation can occur in. */
  predicate Foreign(x: char, itemSep: string, keySep: string) {
    Plain(x) && x !in itemSep && x !in keySep && x != '{' && x != '}'
  }

  lemma QuoteHas(s: string, x: char)
    requires Plain(x)
    ensures x in Quote(s) <==> x in s
  {
    EscapeKeeps(s, x);
  }

  lemma MemberTextHas(m: Member, keySep: string, x: char)
    requires Plain(x) && x !in keySep
    ensures x in MemberText(m, keySep) <==> MemberHas(m, x)
  {
    QuoteHas(m.0, x);
    match m.1
    case JStr(v) => QuoteHas(v, x);
    case JInt(n) => IntTextPlain(n, x);
  }

  lemma {:induction false} MembersTextHas(ms: seq<Member>, itemSep: string, keySep: string, x: char)
    requires Foreign(x, itemSep, keySep)
    ensures x in MembersText(ms, itemSep, keySep) <==> exists i :: 0 <= i < |ms| && MemberHas(ms[i], x)
  {
    if |ms| > 0 {
      MemberTextHas(ms[0], keySep, x);
      MembersTextHas(ms[1..], itemSep, keySep, x);
      assert forall i :: 1 <= i < |ms| ==> ms[i] == ms[1..][i - 1];
    }
  }

  /** A character foreign to the printer occurs in an object's text exactly when some key or string value holds it. */
  lemma ObjectTextHas(ms: seq<Member>, itemSep: string, keySep: string, x: char)
    requires Foreign(x, itemSep, keySep)
    ensures x in ObjectText(ms, itemSep, keySep) <==> exists i :: 0 <= i < |ms| && MemberHas(ms[i], x)
  {
    MembersTextHas(ms, itemSep, keySep, x);
  }

  lemma NatTextPlain(n: nat, x: char)
    requires Plain(x)
    ensures x !in NatText(n)
  {
    NatTextDigits(n);
  }

  lemma IntTextPlain(n: int, x: char)
    requires Plain(x)
    ensures x !in IntText(n)
  {
    NatTextPlain(if n < 0 then -n else n, x);
  }

  lemma EscapeCharNoBreak(c: char)
    ensures Text.NoLineBreak(EscapeChar(c))
  {
    EscapeCharAlphabet(c);
  }

  /** `json.dumps` never writes a line boundary into a string literal. */
  lemma {:induction false} QuoteNoBreak(s: string)
    ensures Text.NoLineBreak(Quote(s))
  {
    EscapeNoBreak(s);
    Text.NoBreakConcat("\"", Escape(s));
    Text.NoBreakConcat("\"" + Escape(s), "\"");
  }

  lemma {:induction false} EscapeNoBreak(s: string)
    ensures Text.NoLineBreak(Escape(s))
  {
    if s != [] {
      EscapeCharNoBreak(s[0]);
      EscapeNoBreak(s[1..]);
      Text.NoBreakConcat(EscapeChar(s[0]), Escape(s[1..]));
    }
  }

  lemma IntTextNoBreak(n: int)
    ensures Text.NoLineBreak(IntText(n))
  {
    NatTextDigits(if n < 0 then -n else n);
  }

  lemma ScalarTextNoBreak(v: Scalar)
    ensures Text.NoLineBreak(ScalarText(v))
  {
    match v
    case JStr(s) => QuoteNoBreak(s);
    case JInt(n) => IntTextNoBreak(n);
  }

  lemma {:induction false} MembersTextNoBreak(ms: seq<Member>, itemSep: string, keySep: string)
    requires ValidSeparators(itemSep, keySep)
    ensures Text.NoLineBreak(MembersText(ms, itemSep, keySep))
  {
    if |ms| > 0 {
      QuoteNoBreak(ms[0].0);
      ScalarTextNoBreak(ms[0].1);
      var head := MemberText(ms[0], keySep);
      Text.NoBreakConcat(Quote(ms[0].0), keySep);
      Text.NoBreakConcat(Quote(ms[0].0) + keySep, ScalarText(ms[0].1));
      if |ms| > 1 {
        MembersTextNoBreak(ms[1..], itemSep, keySep);
        Text.NoBreakConcat(head, itemSep);
        Text.NoBreakConcat(head + itemSep, MembersText(ms[1..], itemSep, keySep));
      }
    }
  }

  lemma ObjectTextNoBreak(ms: seq<Member>, itemSep: string, keySep: string)
    requires ValidSeparators(itemSep, keySep)
    ensures Text.NoLineBreak(ObjectText(ms, itemSep, keySep))
  {
    MembersTextNoBreak(ms, itemSep, keySep);
    Text.NoBreakConcat("{", MembersText(ms, itemSep, keySep));
    Text.NoBreakConcat("{" + MembersText(ms, itemSep, keySep), "}");
  }
}
