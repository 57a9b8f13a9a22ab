/** Base64 with the standard alphabet and padding (section 4 of RFC 4648). */
module Base64 {
  import opened Contracts
  import opened Text

  function Symbol(v: nat): (c: char)
    requires v < 64
  {
    if v < 26 then 'A' + v as char
    else if v < 52 then 'a' + (v - 26) as char
    else if v < 62 then '0' + (v - 52) as char
    else if v == 62 then '+' else '/'
  }

  predicate InAlphabet(c: char) {
    IsAlnum(c) || c == '+' || c == '/'
  }

  function SymbolValue(c: char): (v: nat)
    requires InAlphabet(c)
    ensures v < 64
  {
    if 'A' <= c <= 'Z' then (c - 'A') as nat
    else if 'a' <= c <= 'z' then (c - 'a') as nat + 26
    else if '0' <= c <= '9' then (c - '0') as nat + 52
    else if c == '+' then 62 else 63
  }

  lemma SymbolRoundTrip(v: nat)
    requires v < 64
    ensures InAlphabet(Symbol(v)) && SymbolValue(Symbol(v)) == v
  {
  }

  /** The standard table, by code point: A to Z, a to z, 0 to 9, then + and /. */
  lemma SymbolExactly(v: nat)
    requires v < 64
    ensures v <= 25 ==> Symbol(v) as nat == 65 + v
    ensures 26 <= v <= 51 ==> Symbol(v) as nat == 97 + (v - 26)
    ensures 52 <= v <= 61 ==> Symbol(v) as nat == 48 + (v - 52)
    ensures Symbol(62) == '+' && Symbol(63) == '/'
  {
  }

  // ---------------------------------------------------------------- encoding

  predicate AllSymbols(s: string) {
    forall i | 0 <= i < |s| :: InAlphabet(s[i])
  }

  /** Three bytes as four symbols of six bits. */
  function Quad(x: Byte, y: Byte, z: Byte): (s: string)
    ensures |s| == 4 && AllSymbols(s)
  {
    var x, y, z := x as int, y as int, z as int;
    [Symbol(x / 4), Symbol(x % 4 * 16 + y / 16), Symbol(y % 16 * 4 + z / 64), Symbol(z % 64)]
  }

  /** The 24 bits of three bytes, most significant first, are those of their four symbols. */
  lemma QuadExactly(x: Byte, y: Byte, z: Byte)
    ensures var s := Quad(x, y, z);
            ((SymbolValue(s[0]) * 64 + SymbolValue(s[1])) * 64 + SymbolValue(s[2])) * 64 + SymbolValue(s[3])
            == (x as int * 256 + y as int) * 256 + z as int
  {
    var i, j, k := x as int, y as int, z as int;
    SymbolRoundTrip(i / 4);
    SymbolRoundTrip(i % 4 * 16 + j / 16);
    SymbolRoundTrip(j % 16 * 4 + k / 64);
    SymbolRoundTrip(k % 64);
  }

  /** The symbols of `b`, before padding; a short last group is filled with zero bits. */
  function Symbols(b: Bytes): (s: string)
    ensures AllSymbols(s)
    ensures |s| == |b| + (|b| + 2) / 3
  {
    if b == [] then []
    else if |b| == 1 then Quad(b[0], 0, 0)[..2]
    else if |b| == 2 then Quad(b[0], b[1], 0)[..3]
    else Quad(b[0], b[1], b[2]) + Symbols(b[3..])
  }

  function Padding(b: Bytes): string {
    if |b| % 3 == 1 then "==" else if |b| % 3 == 2 then "=" else ""
  }

  function Encode(b: Bytes): string {
    Symbols(b) + Padding(b)
  }

  // ---------------------------------------------------------------- decoding

  function AlphabetRun(s: string): (n: nat)
    ensures n <= |s|
    ensures forall i | 0 <= i < n :: InAlphabet(s[i])
    ensures n < |s| ==> !InAlphabet(s[n])
  {
    if s == [] || !InAlphabet(s[0]) then 0 else 1 + AlphabetRun(s[1..])
  }

  /** Four symbols as three bytes. */
  function Triple(s: string): (b: Bytes)
    requires |s| == 4 && AllSymbols(s)
    ensures |b| == 3
  {
    var p, q, u, v := SymbolValue(s[0]), SymbolValue(s[1]), SymbolValue(s[2]), SymbolValue(s[3]);
    [(p * 4 + q / 16) as Byte, (q % 16 * 16 + u / 4) as Byte, (u % 4 * 64 + v) as Byte]
  }

  function DecodeSymbols(s: string, pad: nat): (r: Option<Bytes>)
    requires AllSymbols(s)
  {
    if s == [] then Some([])
    else if |s| == 1 then None
    else if |s| == 2 then (if pad == 2 then Some(Triple(s + "AA")[..1]) else None)
    else if |s| == 3 then (if pad >= 1 then Some(Triple(s + "A")[..2]) else None)
    else
      var more :- DecodeSymbols(s[4..], pad);
      Some(Triple(s[..4]) + more)
  }

  /** Strict about the alphabet, lenient about spare padding and spare bits. */
  function Decode(s: string): Option<Bytes> {
    var n := AlphabetRun(s);
    if |s| - n <= 2 && forall i | n <= i < |s| :: s[i] == '='
    then DecodeSymbols(s[..n], |s| - n)
    else None
  }

  // ---------------------------------------------------------------- round trip and size

  lemma {:induction false} AlphabetRunAppend(s: string, rest: string)
    requires forall i | 0 <= i < |s| :: InAlphabet(s[i])
    requires rest == [] || !InAlphabet(rest[0])
    ensures AlphabetRun(s + rest) == |s|
  {
    if s == [] {
      assert s + rest == rest;
    } else {
      assert (s + rest)[1..] == s[1..] + rest;
      AlphabetRunAppend(s[1..], rest);
    }
  }

  lemma Regroup(x: nat, y: nat, z: nat)
    requires x < 256 && y < 256 && z < 256
    ensures x / 4 * 4 + (x % 4 * 16 + y / 16) / 16 == x
    ensures (x % 4 * 16 + y / 16) % 16 * 16 + (y % 16 * 4 + z / 64) / 4 == y
    ensures (y % 16 * 4 + z / 64) % 4 * 64 + z % 64 == z
  {
    assert (x % 4 * 16 + y / 16) / 16 == x % 4 && (x % 4 * 16 + y / 16) % 16 == y / 16;
    assert (y % 16 * 4 + z / 64) / 4 == y % 16 && (y % 16 * 4 + z / 64) % 4 == z / 64;
  }

  lemma TripleQuad(x: Byte, y: Byte, z: Byte)
    ensures Triple(Quad(x, y, z)) == [x, y, z]
  {
    var i, j, k := x as int, y as int, z as int;
    Regroup(i, j, k);
    SymbolRoundTrip(i / 4);
    SymbolRoundTrip(i % 4 * 16 + j / 16);
    SymbolRoundTrip(j % 16 * 4 + k / 64);
    SymbolRoundTrip(k % 64);
  }

  lemma DecodeShortGroup(b: Bytes)
    requires 1 <= |b| <= 2
    ensures DecodeSymbols(Symbols(b), |Padding(b)|) == Some(b)
  {
    var quad := Quad(b[0], if |b| == 2 then b[1] else 0, 0);
    assert quad[3] == 'A' && (|b| == 1 ==> quad[2] == 'A');
    TripleQuad(b[0], if |b| == 2 then b[1] else 0, 0);
    if |b| == 1 {
      assert Symbols(b) + "AA" == quad;
      assert Triple(quad)[..1] == b;
    } else {
      assert Symbols(b) + "A" == quad;
      assert Triple(quad)[..2] == b;
    }
  }

  lemma DecodeStep(b: Bytes, quad: string, more: string, pad: nat)
    requires |quad| == 4 && AllSymbols(quad) && AllSymbols(more) && |b| >= 3
    requires Triple(quad) == b[..3] && DecodeSymbols(more, pad) == Some(b[3..])
    ensures DecodeSymbols(quad + more, pad) == Some(b)
  {
    var s := quad + more;
    assert s[..4] == quad && s[4..] == more;
    assert b[..3] + b[3..] == b;
  }

  lemma PaddingStep(b: Bytes)
    requires |b| >= 3
    ensures Padding(b[3..]) == Padding(b)
  {
    var n := |b| - 3;
    assert |b[3..]| == n && (n + 3) % 3 == n % 3;
  }

  lemma {:induction false} DecodeSymbolsRoundTrip(b: Bytes, s: string, pad: nat)
    requires s == Symbols(b) && pad == |Padding(b)|
    ensures DecodeSymbols(s, pad) == Some(b)
  {
    if 1 <= |b| <= 2 {
      DecodeShortGroup(b);
    } else if |b| >= 3 {
      var quad, more := Quad(b[0], b[1], b[2]), Symbols(b[3..]);
      PaddingStep(b);
      DecodeSymbolsRoundTrip(b[3..], more, pad);
      assert Triple(quad) == b[..3] by {
        TripleQuad(b[0], b[1], b[2]);
      }
      DecodeStep(b, quad, more, pad);
    }
  }

  /** Every byte string decodes back from its encoding. */
  lemma DecodeEncode(b: Bytes)
    ensures Decode(Encode(b)) == Some(b)
  {
    AlphabetRunAppend(Symbols(b), Padding(b));
    assert Encode(b)[..|Symbols(b)|] == Symbols(b);
    DecodeSymbolsRoundTrip(b, Symbols(b), |Padding(b)|);
  }

  // ---------------------------------------------------------------- canonical texts

  /** Symbols that fill their bytes exactly: a short last group leaves no spare bit set. */
  predicate NoSpareBits(s: string, pad: nat)
    requires AllSymbols(s)
  {
    && (pad == 1 ==> s != [] && SymbolValue(s[|s| - 1]) % 4 == 0)
    && (pad == 2 ==> s != [] && SymbolValue(s[|s| - 1]) % 16 == 0)
  }

  /** Whole groups of four, with the padding that the last group needs and no spare bits. */
  predicate Canonical(s: string) {
    var n := AlphabetRun(s);
    var pad := |s| - n;
    && |s| % 4 == 0 && pad <= 2 && (forall i | n <= i < |s| :: s[i] == '=')
    && NoSpareBits(s[..n], pad)
  }

  lemma QuadTriple(s: string)
    requires |s| == 4 && AllSymbols(s)
    ensures var b := Triple(s); Quad(b[0], b[1], b[2]) == s
  {
    var b := Triple(s);
    var p, q, u, v := SymbolValue(s[0]), SymbolValue(s[1]), SymbolValue(s[2]), SymbolValue(s[3]);
    Ungroup(p, q, u, v);
    QuadOf(b[0], b[1], b[2], p, q, u, v);
    SymbolOfValue(s[0]);
    SymbolOfValue(s[1]);
    SymbolOfValue(s[2]);
    SymbolOfValue(s[3]);
  }

  lemma QuadOf(x: Byte, y: Byte, z: Byte, p: nat, q: nat, u: nat, v: nat)
    requires p < 64 && q < 64 && u < 64 && v < 64
    requires p == x as int / 4 && q == x as int % 4 * 16 + y as int / 16
    requires u == y as int % 16 * 4 + z as int / 64 && v == z as int % 64
    ensures Quad(x, y, z) == [Symbol(p), Symbol(q), Symbol(u), Symbol(v)]
  {
  }

  lemma Ungroup(p: nat, q: nat, u: nat, v: nat)
    requires p < 64 && q < 64 && u < 64 && v < 64
    ensures (p * 4 + q / 16) / 4 == p
    ensures (p * 4 + q / 16) % 4 * 16 + (q % 16 * 16 + u / 4) / 16 == q
    ensures (q % 16 * 16 + u / 4) % 16 * 4 + (u % 4 * 64 + v) / 64 == u
    ensures (u % 4 * 64 + v) % 64 == v
  {
    assert (p * 4 + q / 16) % 4 == q / 16 && (q % 16 * 16 + u / 4) / 16 == q % 16;
    assert (q % 16 * 16 + u / 4) % 16 == u / 4 && (u % 4 * 64 + v) / 64 == u % 4;
  }

  lemma SymbolOfValue(c: char)
    requires InAlphabet(c)
    ensures Symbol(SymbolValue(c)) == c
  {
  }

  /** A short group with no spare bits is what its bytes encode to. */
  lemma ShortGroupEncodes(s: string, pad: nat)
    requires AllSymbols(s) && |s| == 4 - pad && 1 <= pad <= 2 && NoSpareBits(s, pad)
    ensures DecodeSymbols(s, pad).Some? && Symbols(DecodeSymbols(s, pad).value) == s
    ensures |DecodeSymbols(s, pad).value| == 3 - pad && |Padding(DecodeSymbols(s, pad).value)| == pad
  {
    var full := s + if pad == 2 then "AA" else "A";
    var b := Triple(full);
    QuadTriple(full);
    assert SymbolValue('A') == 0;
    assert s == full[..4 - pad];
    if pad == 2 {
      assert b[1] == 0 && b[2] == 0;
    } else {
      assert b[2] == 0;
    }
  }

  lemma ShortLength(n: nat, pad: nat)
    requires 0 < n < 4 && pad <= 2 && (n + pad) % 4 == 0
    ensures n == 4 - pad
  {
  }

  lemma {:induction false} SymbolsEncode(s: string, pad: nat)
    requires AllSymbols(s) && pad <= 2 && (|s| + pad) % 4 == 0 && NoSpareBits(s, pad)
    ensures DecodeSymbols(s, pad).Some? && Symbols(DecodeSymbols(s, pad).value) == s
    ensures |Padding(DecodeSymbols(s, pad).value)| == pad
    decreases |s|
  {
    if s == [] {
      assert DecodeSymbols(s, pad) == Some([]);
    } else if |s| < 4 {
      ShortLength(|s|, pad);
      ShortGroupEncodes(s, pad);
    } else {
      RestHasNoSpareBits(s, pad);
      SymbolsEncode(s[4..], pad);
      GroupDecodes(s, pad);
    }
  }

  lemma RestHasNoSpareBits(s: string, pad: nat)
    requires AllSymbols(s) && |s| >= 4 && pad <= 2 && (|s| + pad) % 4 == 0 && NoSpareBits(s, pad)
    ensures AllSymbols(s[4..]) && (|s[4..]| + pad) % 4 == 0 && NoSpareBits(s[4..], pad)
  {
    if pad > 0 {
      assert |s| > 4;
      assert s[4..][|s| - 5] == s[|s| - 1];
    }
  }

  lemma GroupDecodes(s: string, pad: nat)
    requires AllSymbols(s) && |s| >= 4 && DecodeSymbols(s[4..], pad).Some?
    requires Symbols(DecodeSymbols(s[4..], pad).value) == s[4..]
    requires |Padding(DecodeSymbols(s[4..], pad).value)| == pad
    ensures DecodeSymbols(s, pad).Some? && Symbols(DecodeSymbols(s, pad).value) == s
    ensures |Padding(DecodeSymbols(s, pad).value)| == pad
  {
    var group, more := s[..4], DecodeSymbols(s[4..], pad).value;
    QuadTriple(group);
    GroupEncodes(Triple(group), more);
    assert group + s[4..] == s;
  }

  lemma GroupEncodes(b: Bytes, more: Bytes)
    requires |b| == 3
    ensures Symbols(b + more) == Quad(b[0], b[1], b[2]) + Symbols(more) && Padding(b + more) == Padding(more)
  {
    assert (b + more)[3..] == more;
    PaddingStep(b + more);
  }

  lemma DecodesTo(symbols: string, padding: string, b: Bytes)
    requires AllSymbols(symbols) && |padding| <= 2 && forall i | 0 <= i < |padding| :: padding[i] == '='
    requires DecodeSymbols(symbols, |padding|) == Some(b)
    ensures Decode(symbols + padding) == Some(b)
  {
    AlphabetRunAppend(symbols, padding);
    assert (symbols + padding)[..|symbols|] == symbols;
  }

  lemma PaddingOf(b: Bytes, padding: string)
    requires |padding| == |Padding(b)| && forall i | 0 <= i < |padding| :: padding[i] == '='
    ensures Padding(b) == padding
  {
  }

  lemma CanonicalEncodes(s: string)
    requires Canonical(s)
    ensures Decode(s).Some? && Encode(Decode(s).value) == s
  {
    var n := AlphabetRun(s);
    var symbols, padding := s[..n], s[n..];
    assert symbols + padding == s;
    SymbolsEncode(symbols, |padding|);
    EncodesTo(symbols, padding);
  }

  lemma EncodesTo(symbols: string, padding: string)
    requires AllSymbols(symbols) && |padding| <= 2 && forall i | 0 <= i < |padding| :: padding[i] == '='
    requires DecodeSymbols(symbols, |padding|).Some?
    requires Symbols(DecodeSymbols(symbols, |padding|).value) == symbols
    requires |Padding(DecodeSymbols(symbols, |padding|).value)| == |padding|
    ensures Decode(symbols + padding).Some? && Encode(Decode(symbols + padding).value) == symbols + padding
  {
    var b := DecodeSymbols(symbols, |padding|).value;
    DecodesTo(symbols, padding, b);
    PaddingOf(b, padding);
  }

  lemma {:induction false} SymbolsFill(b: Bytes)
    ensures NoSpareBits(Symbols(b), |Padding(b)|)
    decreases |b|
  {
    if |b| == 1 {
      SymbolRoundTrip(b[0] as int % 4 * 16);
    } else if |b| == 2 {
      SymbolRoundTrip(b[1] as int % 16 * 4);
    } else if |b| >= 3 {
      PaddingStep(b);
      SymbolsFill(b[3..]);
      SpareBitsAfter(Quad(b[0], b[1], b[2]), Symbols(b[3..]), |Padding(b)|);
    }
  }

  lemma SpareBitsAfter(group: string, rest: string, pad: nat)
    requires AllSymbols(group) && AllSymbols(rest) && NoSpareBits(rest, pad)
    ensures NoSpareBits(group + rest, pad)
  {
    assert rest != [] ==> (group + rest)[|group + rest| - 1] == rest[|rest| - 1];
  }

  lemma EncodeIsCanonical(b: Bytes)
    ensures Canonical(Encode(b))
  {
    SymbolsFill(b);
    WholeGroups(b);
    FilledIsCanonical(Symbols(b), Padding(b));
  }

  lemma WholeGroups(b: Bytes)
    ensures (|Symbols(b)| + |Padding(b)|) % 4 == 0
  {
    RoundUp(|b|);
    MultipleOfFour((|b| + 2) / 3);
  }

  lemma MultipleOfFour(k: nat)
    ensures k * 4 % 4 == 0
  {
  }

  lemma FilledIsCanonical(symbols: string, padding: string)
    requires AllSymbols(symbols) && |padding| <= 2 && forall i | 0 <= i < |padding| :: padding[i] == '='
    requires (|symbols| + |padding|) % 4 == 0 && NoSpareBits(symbols, |padding|)
    ensures Canonical(symbols + padding)
  {
    AlphabetRunAppend(symbols, padding);
    assert (symbols + padding)[..|symbols|] == symbols;
  }

  /** Exactly the canonical texts are encodings, and each is the encoding of what it decodes to. */
  lemma CanonicalExactly(s: string)
    ensures Canonical(s) <==> Decode(s).Some? && Encode(Decode(s).value) == s
  {
    if Canonical(s) {
      CanonicalEncodes(s);
    } else if Decode(s).Some? {
      EncodeIsCanonical(Decode(s).value);
    }
  }

  /** A text with spare bits set that decodes and yet is no encoding. */
  lemma SpareBitsDecode()
    ensures Decode("QR==") == Some([65]) && Encode([65]) == "QQ=="
  {
    assert "QR" + "AA" == "QRAA" && Triple("QRAA") == [65, 16, 0];
    assert Triple("QRAA")[..1] == [65];
    DecodesTo("QR", "==", [65]);
    assert "QR" + "==" == "QR==";
    assert Quad(65, 0, 0)[..2] == "QQ";
  }

  /** And one with spare padding. */
  lemma SparePaddingDecodes()
    ensures Decode("QUJD=") == Some([65, 66, 67]) && Encode([65, 66, 67]) == "QUJD"
  {
    var b: Bytes := [65, 66, 67];
    assert "QUJD"[..4] == "QUJD" && "QUJD"[4..] == "" && Triple("QUJD") == b;
    assert b + [] == b;
    DecodesTo("QUJD", "=", b);
    assert "QUJD" + "=" == "QUJD=";
    assert b[3..] == [] && Quad(65, 66, 67) == "QUJD";
  }

  lemma NeverEscaped(b: Bytes)
    ensures EscapesWithin(Encode(b), 1)
  {
    var s := Encode(b);
    forall i | 0 <= i < |s| ensures EscapedSize(s[i]) <= 1 {
      assert InAlphabet(s[i]) || s[i] == '=';
    }
  }

  /** Four characters for every three bytes, rounded up, and none of them is ever escaped. */
  lemma EncodedSize(b: Bytes)
    ensures |Encode(b)| == EscapedLength(Encode(b)) == (|b| + 2) / 3 * 4
  {
    NeverEscaped(b);
    PlainEscapedLength(Encode(b));
    RoundUp(|b|);
  }

  lemma RoundUp(n: nat)
    ensures n + (n + 2) / 3 + (if n % 3 == 0 then 0 else 3 - n % 3) == (n + 2) / 3 * 4
  {
  }
}
