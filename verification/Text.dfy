/** Characters, decimal integers and JSON string literals as the canonical encoder writes them. */
module Text {
  import opened Contracts

  /** Code point order, as Python compares strings. */
  predicate Before(a: string, b: string) {
    b != [] && (a == [] || a[0] < b[0] || (a[0] == b[0] && Before(a[1..], b[1..])))
  }

  /** The two agree up to position `k`, where `a` ends or has the smaller code point. */
  predicate LessAt(a: string, b: string, k: nat) {
    k <= |a| && k < |b| && a[..k] == b[..k] && (k == |a| || a[k] as nat < b[k] as nat)
  }

  ghost predicate CodePointLess(a: string, b: string) {
    exists k: nat :: LessAt(a, b, k)
  }

  lemma {:induction false} BeforeExactly(a: string, b: string)
    ensures Before(a, b) <==> CodePointLess(a, b)
  {
    if a != [] && b != [] && a[0] == b[0] {
      BeforeExactly(a[1..], b[1..]);
      LessAfterHead(a, b);
    } else {
      LessAtHead(a, b);
    }
  }

  lemma SharedHead(a: string, b: string, k: nat)
    requires LessAt(a, b, k)
    ensures k > 0 ==> a[0] == b[0]
  {
    if k > 0 {
      assert a[..k][0] == b[..k][0];
    }
  }

  lemma LessAtHead(a: string, b: string)
    requires a == [] || b == [] || a[0] != b[0]
    ensures CodePointLess(a, b) <==> b != [] && (a == [] || a[0] < b[0])
  {
    assert a[..0] == b[..0];
    if b != [] && (a == [] || a[0] < b[0]) {
      assert LessAt(a, b, 0);
    }
    forall k: nat | LessAt(a, b, k) ensures k == 0 {
      SharedHead(a, b, k);
    }
  }

  lemma LessAfterHead(a: string, b: string)
    requires a != [] && b != [] && a[0] == b[0]
    ensures CodePointLess(a, b) <==> CodePointLess(a[1..], b[1..])
  {
    var s, t := a[1..], b[1..];
    forall k: nat | LessAt(s, t, k) ensures LessAt(a, b, k + 1) {
      assert a[..k + 1] == [a[0]] + s[..k] && b[..k + 1] == [b[0]] + t[..k];
    }
    forall k: nat | LessAt(a, b, k) ensures k > 0 && LessAt(s, t, k - 1) {
      assert k > 0 ==> s[..k - 1] == a[..k][1..] && t[..k - 1] == b[..k][1..];
    }
  }

  lemma {:induction false} BeforeTransitive(a: string, b: string, c: string)
    requires Before(a, b) && Before(b, c)
    ensures Before(a, c)
  {
    if a != [] && a[0] == b[0] == c[0] {
      BeforeTransitive(a[1..], b[1..], c[1..]);
    }
  }

  lemma {:induction false} BeforeTotal(a: string, b: string)
    ensures Before(a, b) || a == b || Before(b, a)
    ensures !(Before(a, b) && Before(b, a))
  {
    if a != [] && b != [] && a[0] == b[0] {
      BeforeTotal(a[1..], b[1..]);
      assert a == [a[0]] + a[1..] && b == [b[0]] + b[1..];
    }
  }

  /** Code point order is strict and total. */
  lemma CodePointTotal(a: string, b: string)
    ensures CodePointLess(a, b) || a == b || CodePointLess(b, a)
    ensures !(CodePointLess(a, b) && CodePointLess(b, a)) && !CodePointLess(a, a)
  {
    BeforeExactly(a, b);
    BeforeExactly(b, a);
    BeforeExactly(a, a);
    BeforeTotal(a, b);
    BeforeTotal(a, a);
  }

  // ---------------------------------------------------------------- decimal integers

  predicate IsDigit(c: char) {
    '0' <= c <= '9'
  }

  function DigitChar(d: nat): (c: char)
    requires d < 10
  {
    '0' + d as char
  }

  function DigitValue(c: char): (d: nat)
    requires IsDigit(c)
  {
    (c - '0') as nat
  }

  function Digits(n: nat): (s: string) {
    if n < 10 then [DigitChar(n)] else Digits(n / 10) + [DigitChar(n % 10)]
  }

  function Decimal(n: int): string {
    if n < 0 then "-" + Digits(-n) else Digits(n)
  }

  /** The value of a digit string read left to right, after `acc` has been read. */
  function DigitsValue(s: string, acc: nat): nat
    requires forall i | 0 <= i < |s| :: IsDigit(s[i])
  {
    if s == [] then acc else DigitsValue(s[1..], acc * 10 + DigitValue(s[0]))
  }

  /** How many leading characters of `s` are digits. */
  function DigitRun(s: string): (n: nat)
    ensures n <= |s|
    ensures forall i | 0 <= i < n :: IsDigit(s[i])
    ensures n < |s| ==> !IsDigit(s[n])
  {
    if s == [] || !IsDigit(s[0]) then 0 else 1 + DigitRun(s[1..])
  }

  /** An unsigned integer literal: a lone 0, or digits without a leading 0. */
  function ParseNat(s: string): (r: Option<(nat, string)>)
    ensures r.Some? ==> |r.value.1| < |s|
  {
    var run := DigitRun(s);
    if run == 0 then None
    else if s[0] == '0' then Some((0, s[1..]))
    else Some((DigitsValue(s[..run], 0), s[run..]))
  }

  function ParseInt(s: string): (r: Option<(int, string)>)
    ensures r.Some? ==> |r.value.1| < |s|
  {
    var negative := s != [] && s[0] == '-';
    match ParseNat(if negative then s[1..] else s)
    case None => None
    case Some((n, rest)) => Some((if negative then -(n as int) else n, rest))
  }

  lemma {:induction false} DigitsWellFormed(n: nat)
    ensures Digits(n) != []
    ensures forall i | 0 <= i < |Digits(n)| :: IsDigit(Digits(n)[i])
    ensures Digits(n)[0] == '0' <==> n == 0
  {
    if n >= 10 {
      DigitsWellFormed(n / 10);
    }
  }

  lemma {:induction false} DigitsValueAppend(s: string, c: char, acc: nat)
    requires IsDigit(c) && forall i | 0 <= i < |s| :: IsDigit(s[i])
    ensures DigitsValue(s + [c], acc) == DigitsValue(s, acc) * 10 + DigitValue(c)
  {
    if s == [] {
      assert s + [c] == [c];
      assert [c][1..] == [];
    } else {
      assert (s + [c])[1..] == s[1..] + [c];
      DigitsValueAppend(s[1..], c, acc * 10 + DigitValue(s[0]));
    }
  }

  lemma {:induction false} DigitsRoundTrip(n: nat)
    ensures forall i | 0 <= i < |Digits(n)| :: IsDigit(Digits(n)[i])
    ensures DigitsValue(Digits(n), 0) == n
  {
    DigitsWellFormed(n);
    if n < 10 {
      assert Digits(n)[1..] == [];
    } else {
      DigitsRoundTrip(n / 10);
      DigitsWellFormed(n / 10);
      DigitsValueAppend(Digits(n / 10), DigitChar(n % 10), 0);
    }
  }

  lemma {:induction false} DigitRunAppend(s: string, rest: string)
    requires forall i | 0 <= i < |s| :: IsDigit(s[i])
    requires rest == [] || !IsDigit(rest[0])
    ensures DigitRun(s + rest) == |s|
  {
    if s == [] {
      assert s + rest == rest;
    } else {
      DigitRunAppend(s[1..], rest);
      assert (s + rest)[1..] == s[1..] + rest;
    }
  }

  lemma ParseNatDigits(n: nat, rest: string)
    requires rest == [] || !IsDigit(rest[0])
    ensures ParseNat(Digits(n) + rest) == Some((n, rest))
  {
    DigitsWellFormed(n);
    DigitsRoundTrip(n);
    DigitRunAppend(Digits(n), rest);
    var text := Digits(n) + rest;
    assert text[..|Digits(n)|] == Digits(n) && text[|Digits(n)|..] == rest;
    if n == 0 {
      assert Digits(0) == ['0'];
    }
  }

  /** Decimal text reads back as the integer it was written from, before any non-digit. */
  lemma ParseIntDecimal(n: int, rest: string)
    requires rest == [] || !IsDigit(rest[0])
    ensures ParseInt(Decimal(n) + rest) == Some((n, rest))
  {
    var magnitude := if n < 0 then -n else n;
    ParseNatDigits(magnitude, rest);
    DigitsWellFormed(magnitude);
    SignSplits(n < 0, Digits(magnitude), rest);
  }

  lemma SignSplits(negative: bool, digits: string, rest: string)
    requires digits != [] && IsDigit(digits[0])
    ensures var s := (if negative then "-" + digits else digits) + rest;
            s != [] && (s[0] == '-' <==> negative) && (if negative then s[1..] else s) == digits + rest
  {
  }

  /** A natural below 10^k has at most k digits. */
  lemma {:induction false} DigitsBound(n: nat, k: nat)
    requires k >= 1 && n < Pow10(k)
    ensures 1 <= |Digits(n)| <= k
  {
    if n >= 10 {
      DigitsBound(n / 10, k - 1);
    }
  }

  function Pow10(k: nat): nat {
    if k == 0 then 1 else 10 * Pow10(k - 1)
  }

  // ---------------------------------------------------------------- string literals

  function HexDigit(d: nat): (c: char)
    requires d < 16
  {
    if d < 10 then '0' + d as char else 'a' + (d - 10) as char
  }

  function HexValue(c: char): (d: Option<nat>)
    ensures d.Some? ==> d.value < 16
  {
    if '0' <= c <= '9' then Some((c - '0') as nat)
    else if 'a' <= c <= 'f' then Some((c - 'a') as nat + 10)
    else if 'A' <= c <= 'F' then Some((c - 'A') as nat + 10)
    else None
  }

  /** Four lower-case hexadecimal digits, the most significant first. */
  function Hex4(u: nat): (s: string)
    requires u < 0x10000
    ensures |s| == 4 && forall i | 0 <= i < 4 :: 48 <= s[i] as nat <= 57 || 97 <= s[i] as nat <= 102
  {
    [HexDigit(u / 4096), HexDigit(u / 256 % 16), HexDigit(u / 16 % 16), HexDigit(u % 16)]
  }

  function ParseHex4(s: string): (r: Option<nat>)
    requires |s| >= 4
    ensures r.Some? ==> r.value < 0x10000
  {
    var a :- HexValue(s[0]);
    var b :- HexValue(s[1]);
    var c :- HexValue(s[2]);
    var d :- HexValue(s[3]);
    Some(a * 4096 + b * 256 + c * 16 + d)
  }

  lemma ParseHex4RoundTrip(u: nat, rest: string)
    requires u < 0x10000
    ensures ParseHex4(Hex4(u) + rest) == Some(u)
  {
    var a, b, c, d := u / 4096, u / 256 % 16, u / 16 % 16, u % 16;
    var s := Hex4(u) + rest;
    assert HexValue(s[0]) == Some(a) by { HexRoundTrip(a); }
    assert HexValue(s[1]) == Some(b) by { HexRoundTrip(b); }
    assert HexValue(s[2]) == Some(c) by { HexRoundTrip(c); }
    assert HexValue(s[3]) == Some(d) by { HexRoundTrip(d); }
    HexPlaces(u);
  }

  lemma HexPlaces(u: nat)
    ensures u / 4096 * 4096 + u / 256 % 16 * 256 + u / 16 % 16 * 16 + u % 16 == u
  {
    assert u / 4096 == u / 16 / 16 / 16 && u / 256 == u / 16 / 16;
  }

  lemma HexRoundTrip(d: nat)
    requires d < 16
    ensures HexValue(HexDigit(d)) == Some(d)
  {
  }

  /** One character inside an ASCII-only JSON string literal. */
  function EscapeChar(c: char): (s: string) {
    if c == '"' then "\\\""
    else if c == '\\' then "\\\\"
    else if c == '\n' then "\\n"
    else if c == '\r' then "\\r"
    else if c == '\t' then "\\t"
    else if c == 12 as char then "\\f"
    else if c == 8 as char then "\\b"
    else if ' ' <= c <= '~' then [c]
    else if c as nat < 0x10000 then "\\u" + Hex4(c as nat)
    else
      var v := c as nat - 0x10000;
      "\\u" + Hex4(0xD800 + v / 1024) + "\\u" + Hex4(0xDC00 + v % 1024)
  }

  function Escape(text: string): string {
    if text == [] then [] else EscapeChar(text[0]) + Escape(text[1..])
  }

  function Quote(text: string): string {
    "\"" + Escape(text) + "\""
  }

  /** The unit after `\u`: a scalar value, or a surrogate pair spelled as two escapes. */
  function ParseUnicodeEscape(s: string): (r: Option<(char, string)>)
    ensures r.Some? ==> |r.value.1| < |s|
  {
    if |s| < 4 then None else
    var u :- ParseHex4(s);
    if u < 0xD800 || u >= 0xE000 then Some((u as char, s[4..]))
    else if u >= 0xDC00 || |s| < 10 || s[4] != '\\' || s[5] != 'u' then None
    else
      var w :- ParseHex4(s[6..]);
      if 0xDC00 <= w < 0xE000 then
        Some(((0x10000 + (u - 0xD800) * 1024 + (w - 0xDC00)) as char, s[10..]))
      else None
  }

  function ParseChar(s: string): (r: Option<(char, string)>)
    ensures r.Some? ==> |r.value.1| < |s|
  {
    if s == [] || s[0] == '"' || s[0] < ' ' then None
    else if s[0] != '\\' then Some((s[0], s[1..]))
    else if |s| < 2 then None
    else if s[1] == '"' || s[1] == '\\' || s[1] == '/' then Some((s[1], s[2..]))
    else if s[1] == 'n' then Some(('\n', s[2..]))
    else if s[1] == 'r' then Some(('\r', s[2..]))
    else if s[1] == 't' then Some(('\t', s[2..]))
    else if s[1] == 'f' then Some((12 as char, s[2..]))
    else if s[1] == 'b' then Some((8 as char, s[2..]))
    else if s[1] == 'u' then ParseUnicodeEscape(s[2..])
    else None
  }

  /** The rest of a string literal whose opening quote has been read. */
  function ParseString(s: string): (r: Option<(string, string)>)
    ensures r.Some? ==> |r.value.1| < |s|
    decreases |s|
  {
    if s != [] && s[0] == '"' then Some(([], s[1..]))
    else
      var (c, rest) :- ParseChar(s);
      var (text, remainder) :- ParseString(rest);
      Some(([c] + text, remainder))
  }

  /** A surrogate pair is put together from its two halves. */
  lemma ParsePair(hi: nat, lo: nat, rest: string)
    requires 0xD800 <= hi < 0xDC00 <= lo < 0xE000
    ensures ParseUnicodeEscape(Hex4(hi) + ("\\u" + Hex4(lo) + rest))
         == Some(((0x10000 + (hi - 0xD800) * 1024 + (lo - 0xDC00)) as char, rest))
  {
    var s := Hex4(hi) + ("\\u" + Hex4(lo) + rest);
    ParseHex4RoundTrip(hi, "\\u" + Hex4(lo) + rest);
    assert s[6..] == Hex4(lo) + rest && s[10..] == rest;
    ParseHex4RoundTrip(lo, rest);
  }

  function HighHalf(c: char): (hi: nat)
    requires c as nat >= 0x10000
    ensures 0xD800 <= hi < 0xDC00
  {
    0xD800 + (c as nat - 0x10000) / 1024
  }

  function LowHalf(c: char): (lo: nat)
    requires c as nat >= 0x10000
    ensures 0xDC00 <= lo < 0xE000
  {
    0xDC00 + (c as nat - 0x10000) % 1024
  }

  lemma EscapesToPair(c: char)
    requires c as nat >= 0x10000
    ensures EscapeChar(c) == "\\u" + Hex4(HighHalf(c)) + "\\u" + Hex4(LowHalf(c))
  {
  }

  lemma HalvesOf(c: char)
    requires c as nat >= 0x10000
    ensures 0x10000 + (HighHalf(c) - 0xD800) * 1024 + (LowHalf(c) - 0xDC00) == c as nat
  {
  }

  lemma ReadsPair(hi: nat, lo: nat, rest: string)
    requires 0xD800 <= hi < 0xDC00 <= lo < 0xE000
    ensures ParseChar(("\\u" + Hex4(hi) + "\\u" + Hex4(lo)) + rest)
         == Some(((0x10000 + (hi - 0xD800) * 1024 + (lo - 0xDC00)) as char, rest))
  {
    JoinPair(Hex4(hi), Hex4(lo), rest);
    ParsePair(hi, lo, rest);
    EscapeStart(Hex4(hi) + ("\\u" + Hex4(lo) + rest));
  }

  lemma ParseEscapedSurrogates(c: char, rest: string)
    requires c as nat >= 0x10000
    ensures ParseChar(EscapeChar(c) + rest) == Some((c, rest))
  {
    EscapesToPair(c);
    HalvesOf(c);
    ReadsPair(HighHalf(c), LowHalf(c), rest);
  }

  lemma JoinPair(hi: string, lo: string, rest: string)
    ensures ("\\u" + hi + "\\u" + lo) + rest == "\\u" + (hi + ("\\u" + lo + rest))
  {
  }

  lemma EscapeStart(inner: string)
    ensures ParseChar("\\u" + inner) == ParseUnicodeEscape(inner)
  {
    assert ("\\u" + inner)[2..] == inner;
  }

  /** Every character reads back from its escaped form, whatever follows. */
  lemma ParseEscapedChar(c: char, rest: string)
    ensures ParseChar(EscapeChar(c) + rest) == Some((c, rest))
  {
    var text := EscapeChar(c) + rest;
    if c as nat >= 0x10000 {
      ParseEscapedSurrogates(c, rest);
    } else if |EscapeChar(c)| == 1 {
      assert text[1..] == rest;
    } else if |EscapeChar(c)| == 2 {
      assert text[2..] == rest;
    } else {
      assert text[2..] == Hex4(c as nat) + rest;
      ParseHex4RoundTrip(c as nat, rest);
      assert text[2..][4..] == rest;
    }
  }

  /** Every text reads back from its quoted form, whatever follows the closing quote. */
  lemma {:induction false} ParseQuoted(text: string, rest: string)
    ensures ParseString(Escape(text) + "\"" + rest) == Some((text, rest))
  {
    if text == [] {
      assert Escape(text) + "\"" + rest == "\"" + rest;
    } else {
      var tail := Escape(text[1..]) + "\"" + rest;
      assert Escape(text) + "\"" + rest == EscapeChar(text[0]) + tail;
      ParseQuoted(text[1..], rest);
      ParsesFirstChar(text[0], tail, text[1..], rest);
      assert [text[0]] + text[1..] == text;
    }
  }

  lemma ParsesFirstChar(c: char, tail: string, text: string, rest: string)
    requires ParseString(tail) == Some((text, rest))
    ensures ParseString(EscapeChar(c) + tail) == Some(([c] + text, rest))
  {
    ParseEscapedChar(c, tail);
    assert (EscapeChar(c) + tail)[0] != '"';
  }

  // ---------------------------------------------------------------- sizes and ASCII

  predicate IsAscii(s: string) {
    forall i | 0 <= i < |s| :: s[i] as nat < 128
  }

  /** Length of a character's escaped form: 1, 2, 6, or 12 for a surrogate pair. */
  function EscapedSize(c: char): (n: nat)
    ensures n == |EscapeChar(c)|
  {
    if c == '"' || c == '\\' || c == '\n' || c == '\r' || c == '\t' || c == 12 as char || c == 8 as char then 2
    else if ' ' <= c <= '~' then 1
    else if c as nat < 0x10000 then 6
    else 12
  }

  /** Length of the inside of a string literal. */
  function EscapedLength(text: string): (n: nat)
    ensures n == |Escape(text)|
  {
    if text == [] then 0 else EscapedSize(text[0]) + EscapedLength(text[1..])
  }

  predicate EscapesWithin(text: string, most: nat) {
    forall i | 0 <= i < |text| :: EscapedSize(text[i]) <= most
  }

  lemma {:induction false} EscapedLengthBound(text: string, most: nat)
    requires EscapesWithin(text, most)
    ensures EscapedLength(text) <= most * |text|
  {
    if text == [] {
    } else {
      assert EscapedSize(text[0]) <= most;
      assert EscapesWithin(text[1..], most);
      EscapedLengthBound(text[1..], most);
      TimesSuccessor(most, |text[1..]|);
    }
  }

  lemma {:induction false} PlainEscapedLength(text: string)
    requires EscapesWithin(text, 1)
    ensures EscapedLength(text) == |text|
  {
    if text != [] {
      assert EscapedSize(text[0]) == 1;
      assert EscapesWithin(text[1..], 1);
      PlainEscapedLength(text[1..]);
    }
  }

  lemma {:induction false} UniformLength(text: string, size: nat)
    requires forall i | 0 <= i < |text| :: EscapedSize(text[i]) == size
    ensures EscapedLength(text) == size * |text|
  {
    if text != [] {
      UniformLength(text[1..], size);
      TimesSuccessor(size, |text[1..]|);
    }
  }

  lemma TimesSuccessor(m: nat, n: nat)
    ensures m * (n + 1) == m + m * n
  {
  }

  lemma {:induction false} EscapeAscii(text: string)
    ensures IsAscii(Escape(text))
  {
    if text != [] {
      EscapeAscii(text[1..]);
      assert IsAscii(EscapeChar(text[0]));
    }
  }

  lemma {:induction false} DecimalAscii(n: int)
    ensures IsAscii(Decimal(n))
  {
    DigitsWellFormed(if n < 0 then -n else n);
  }
}
