/**
  Base64 text (sections 4 and 5 of RFC 4648) as the upload checks read it: the decoded length computed
  from the text alone, and the decoding of a short leading slice.
 */
module Base64 {
  import opened Bits

  // ----- Characters --------------------------------------------------------------------------

  /** The whitespace that the pattern \\s of JavaScript matches. */
  predicate IsSpace(c: char) {
    || '\t' <= c <= '\r' || c == ' ' || c == '\U{00A0}' || c == '\U{1680}' || '\U{2000}' <= c <= '\U{200A}'
    || c == '\U{2028}' || c == '\U{2029}' || c == '\U{202F}' || c == '\U{205F}' || c == '\U{3000}' || c == '\U{FEFF}'
  }

  /** Both alphabets, which the decoder of Node.js accepts side by side. */
  predicate IsBase64Char(c: char) {
    'A' <= c <= 'Z' || 'a' <= c <= 'z' || '0' <= c <= '9' || c == '+' || c == '/' || c == '-' || c == '_'
  }

  function Sextet(c: char): (d: nat)
    ensures d < 64
  {
    if 'A' <= c <= 'Z' then (c - 'A') as int
    else if 'a' <= c <= 'z' then (c - 'a') as int + 26
    else if '0' <= c <= '9' then (c - '0') as int + 52
    else if c == '+' || c == '-' then 62
    else 63
  }

  /** The character of a sextet in the standard alphabet, or in the one for URLs. */
  function CharOf(d: nat, url: bool): (c: char)
    requires d < 64
    ensures IsBase64Char(c) && Sextet(c) == d
  {
    if d < 26 then 'A' + d as char
    else if d < 52 then 'a' + (d - 26) as char
    else if d < 62 then '0' + (d - 52) as char
    else if d == 62 then if url then '-' else '+'
    else if url then '_' else '/'
  }

  const CAPITALS: string := "ABCDEFGHIJKLMNOPQRSTUVWXYZ"
  const SMALL_LETTERS: string := "abcdefghijklmnopqrstuvwxyz"
  const DIGITS: string := "0123456789"

  /** The alphabets of sections 4 and 5 of RFC 4648, which differ in the last two characters. */
  lemma AlphabetsOfTheStandard(d: nat, url: bool)
    requires d < 64
    ensures d < 26 ==> CharOf(d, url) == CAPITALS[d]
    ensures 26 <= d < 52 ==> CharOf(d, url) == SMALL_LETTERS[d - 26]
    ensures 52 <= d < 62 ==> CharOf(d, url) == DIGITS[d - 52]
    ensures d >= 62 ==> CharOf(d, url) == if url then "-_"[d - 62] else "+/"[d - 62]
  {
    if d < 26 {
      CapitalsInOrder(d);
    } else if d < 52 {
      SmallLettersInOrder(d - 26);
    } else if d < 62 {
      DigitsInOrder(d - 52);
    }
  }

  lemma CapitalsInOrder(d: nat)
    requires d < 26
    ensures CAPITALS[d] == 'A' + d as char
  {
  }

  lemma SmallLettersInOrder(d: nat)
    requires d < 26
    ensures SMALL_LETTERS[d] == 'a' + d as char
  {
  }

  lemma DigitsInOrder(d: nat)
    requires d < 10
    ensures DIGITS[d] == '0' + d as char
  {
  }

  function SextetBits(d: nat): (r: BitString)
    requires d < 64
    ensures |r| == 6
  {
    var (b0, d0) := Split(d, 32);
    var (b1, d1) := Split(d0, 16);
    var (b2, d2) := Split(d1, 8);
    var (b3, d3) := Split(d2, 4);
    var (b4, d4) := Split(d3, 2);
    [b0, b1, b2, b3, b4, d4 == 1]
  }

  function SextetOf(r: BitString): (d: nat)
    requires |r| == 6
    ensures d < 64
  {
    (if r[0] then 32 else 0) + (if r[1] then 16 else 0) + (if r[2] then 8 else 0)
    + (if r[3] then 4 else 0) + (if r[4] then 2 else 0) + (if r[5] then 1 else 0)
  }

  /** The highest bit of a sextet comes first. */
  lemma SextetOrder()
    ensures SextetBits(32) == [true, false, false, false, false, false]
    ensures SextetBits(16) == [false, true, false, false, false, false]
    ensures SextetBits(8) == [false, false, true, false, false, false]
    ensures SextetBits(4) == [false, false, false, true, false, false]
    ensures SextetBits(2) == [false, false, false, false, true, false]
    ensures SextetBits(1) == [false, false, false, false, false, true]
  {
  }

  lemma SextetRoundTrip(r: BitString)
    requires |r| == 6
    ensures SextetBits(SextetOf(r)) == r
  {
  }

  // ----- Decoding ----------------------------------------------------------------------------

  predicate IsBody(s: string) {
    forall c | c in s :: IsBase64Char(c)
  }

  function TextBits(s: string): (r: BitString)
    ensures |r| == 6 * |s|
  {
    if s == [] then [] else SextetBits(Sextet(s[0])) + TextBits(s[1..])
  }

  /** What the decoder of Node.js reads: it stops at the first padding sign and skips all other strangers. */
  function Kept(s: string): (body: string)
    ensures IsBody(body) && |body| <= |s|
  {
    if s == [] || s[0] == '=' then []
    else if IsBase64Char(s[0]) then [s[0]] + Kept(s[1..])
    else Kept(s[1..])
  }

  /** Decoding: the whole bytes of the sextets that are kept. */
  function Decoded(s: string): (bytes: seq<bv8>)
    ensures |bytes| == 6 * |Kept(s)| / 8
  {
    BitsToBytes(TextBits(Kept(s)))
  }

  function Padding(p: nat): string {
    seq(p, _ => '=')
  }

  lemma {:induction false} BodyIsKept(body: string, p: nat)
    requires IsBody(body)
    ensures Kept(body + Padding(p)) == body
    decreases |body|
  {
    if body != [] {
      assert body[0] in body;
      assert (body + Padding(p))[1..] == body[1..] + Padding(p);
      BodyIsKept(body[1..], p);
    }
  }

  /** Reading on after a cut. */
  lemma {:induction false} KeptAppend(a: string, b: string)
    ensures Kept(a) <= Kept(a + b)
    decreases |a|
  {
    if a != [] {
      assert (a + b)[1..] == a[1..] + b;
      KeptAppend(a[1..], b);
    }
  }

  lemma {:induction false} TextBitsAppend(a: string, b: string)
    ensures TextBits(a + b) == TextBits(a) + TextBits(b)
    decreases |a|
  {
    hide SextetBits, Sextet;
    if a == [] {
      assert a + b == b;
    } else {
      assert (a + b)[1..] == a[1..] + b;
      TextBitsAppend(a[1..], b);
      var first := SextetBits(Sextet(a[0]));
      assert first + (TextBits(a[1..]) + TextBits(b)) == first + TextBits(a[1..]) + TextBits(b);
    }
  }

  // ----- Encoding, as the reference ----------------------------------------------------------

  function TextOf(r: BitString, url: bool): (s: string)
    ensures |s| == (|r| + 5) / 6
    ensures IsBody(s)
    decreases |r|
  {
    if r == [] then ""
    else if |r| < 6 then [CharOf(SextetOf(r + Zeros(6 - |r|)), url)]
    else [CharOf(SextetOf(r[..6]), url)] + TextOf(r[6..], url)
  }

  /** Unpadded text of the bytes. */
  function EncodedBody(bytes: seq<bv8>, url: bool): (s: string)
    ensures |s| == (8 * |bytes| + 5) / 6
    ensures IsBody(s)
  {
    TextOf(BytesBits(bytes), url)
  }

  /** Padded text in the standard alphabet: a multiple of four characters. */
  function Encoded(bytes: seq<bv8>): string {
    var body := EncodedBody(bytes, false);
    body + Padding((4 - |body| % 4) % 4)
  }

  lemma {:induction false} TextKeepsBits(r: BitString, url: bool)
    ensures TextBits(TextOf(r, url)) == r + Zeros(6 * ((|r| + 5) / 6) - |r|)
    decreases |r|
  {
    hide SextetBits, SextetOf, Sextet;
    if r == [] {
    } else if |r| < 6 {
      var d := SextetOf(r + Zeros(6 - |r|));
      SextetRoundTrip(r + Zeros(6 - |r|));
      assert TextOf(r, url) == [CharOf(d, url)];
      assert TextBits(TextOf(r, url)) == SextetBits(d) + TextBits([]);
    } else {
      SextetRoundTrip(r[..6]);
      TextKeepsBits(r[6..], url);
      assert TextOf(r, url)[1..] == TextOf(r[6..], url);
      assert r == r[..6] + r[6..];
    }
  }

  /** Decoding either alphabet, with any padding, gives the bytes back. */
  lemma DecodesWhatWasEncoded(bytes: seq<bv8>, url: bool, p: nat)
    ensures Decoded(EncodedBody(bytes, url) + Padding(p)) == bytes
  {
    hide TextBits, TextOf, BitsToBytes;
    var r := BytesBits(bytes);
    BodyIsKept(EncodedBody(bytes, url), p);
    TextKeepsBits(r, url);
    BytesRoundTrip(bytes, Zeros(6 * ((|r| + 5) / 6) - |r|));
  }

  // ----- The length formula ------------------------------------------------------------------

  function StripSpace(s: string): (r: string)
    ensures forall c | c in r :: !IsSpace(c)
  {
    if s == [] then [] else if IsSpace(s[0]) then StripSpace(s[1..]) else [s[0]] + StripSpace(s[1..])
  }

  function TrailingPadding(s: string): (p: nat)
    ensures p <= |s|
  {
    if s == [] || s[|s| - 1] != '=' then 0 else 1 + TrailingPadding(s[..|s| - 1])
  }

  function DecodedBase64ByteLength(base64: string): int {
    var normalized := StripSpace(base64);
    (|normalized| * 3) / 4 - TrailingPadding(normalized)
  }

  lemma {:induction false} TrailingPaddingOf(body: string, p: nat)
    requires IsBody(body)
    ensures TrailingPadding(body + Padding(p)) == p
    decreases p
  {
    var s := body + Padding(p);
    if p == 0 {
      assert s == body;
      assert body != [] ==> body[|body| - 1] in body;
    } else {
      assert s[..|s| - 1] == body + Padding(p - 1);
      TrailingPaddingOf(body, p - 1);
    }
  }

  lemma {:induction false} KeptAndPadding(s: string)
    ensures |Kept(s)| + TrailingPadding(s) <= |s|
    decreases |s|
  {
    if s != [] && s[|s| - 1] == '=' {
      var front := s[..|s| - 1];
      assert s == front + "=";
      KeptAndPadding(front);
      KeptStopsAtPadding(front);
    }
  }

  lemma {:induction false} KeptStopsAtPadding(s: string)
    ensures Kept(s + "=") == Kept(s)
    decreases |s|
  {
    if s != [] {
      assert (s + "=")[1..] == s[1..] + "=";
      KeptStopsAtPadding(s[1..]);
    }
  }

  /**
    The formula gives the decoded length of a text if and only if its padding makes up for the
    characters that the decoder does not read: with m characters kept and e others that are not
    trailing padding, when the padding p is at most 3 * m % 4 + 3 * e, and more than that less four.
   */
  lemma LengthFormulaExact(base64: string)
    ensures var s := StripSpace(base64);
            var m, p := |Kept(s)|, TrailingPadding(s);
            var e := |s| - p - m;
            && e >= 0
            && (DecodedBase64ByteLength(base64) == |Decoded(s)| <==> p <= 3 * m % 4 + 3 * e < p + 4)
  {
    hide StripSpace, TextBits, Kept, TrailingPadding, IsBody;
    var s := StripSpace(base64);
    KeptAndPadding(s);
    PaddingFits(|Kept(s)|, TrailingPadding(s), |s| - TrailingPadding(s) - |Kept(s)|);
    SextetBytes(|Kept(s)|);
  }

  /** For four padding signs and nothing else the formula gives minus one. */
  lemma LengthCanBeNegative()
    ensures DecodedBase64ByteLength("====") == -1 && Decoded(StripSpace("====")) == []
  {
    var text := "====";
    BodyHasNoSpace(text);
    TrailingPaddingOf("", 4);
    assert text == "" + Padding(4);
  }

  /** For well-formed text: when the padding does not run past the next multiple of four characters. */
  lemma LengthOfWellFormed(base64: string, body: string, p: nat)
    requires StripSpace(base64) == body + Padding(p) && IsBody(body)
    ensures DecodedBase64ByteLength(base64) == |Decoded(StripSpace(base64))| <==> p <= (4 - |body| % 4) % 4
  {
    hide StripSpace, TextBits, Kept, TrailingPadding, IsBody, DecodedBase64ByteLength, Decoded;
    TrailingPaddingOf(body, p);
    BodyIsKept(body, p);
    LengthFormulaExact(base64);
    UpToFour(|body|);
  }

  lemma PaddingFits(m: nat, p: nat, e: nat)
    ensures (m + e + p) * 3 / 4 - p == 3 * m / 4 <==> p <= 3 * m % 4 + 3 * e < p + 4
  {
    var q, r := 3 * m / 4, 3 * m % 4;
    assert 3 * m == 4 * q + r;
    assert (m + e + p) * 3 / 4 - p == q + (r + 3 * e - p) / 4;
  }

  lemma UpToFour(m: nat)
    ensures 3 * m % 4 == (4 - m % 4) % 4
  {
    var q, r := m / 4, m % 4;
    TripleRemainder(q, r);
    assert r == 0 || r == 1 || r == 2 || r == 3;
  }

  lemma TripleRemainder(q: nat, r: nat)
    requires r < 4
    ensures 3 * (4 * q + r) % 4 == 3 * r % 4
  {
    assert 3 * (4 * q + r) == 4 * (3 * q) + 3 * r;
    RemainderOfSum(3 * q, 3 * r);
  }

  lemma RemainderOfSum(a: nat, b: nat)
    ensures (4 * a + b) % 4 == b % 4
  {
  }

  lemma SextetBytes(m: nat)
    ensures 6 * m / 8 == 3 * m / 4
  {
  }

  /** Whitespace in the text does not matter to the decoder. */
  lemma {:induction false} KeptIgnoresSpace(s: string)
    ensures Kept(StripSpace(s)) == Kept(s)
    decreases |s|
  {
    if s != [] {
      KeptIgnoresSpace(s[1..]);
      assert !IsSpace(s[0]) ==> StripSpace(s)[1..] == StripSpace(s[1..]);
    }
  }

  lemma {:induction false} BodyHasNoSpace(s: string)
    requires forall c | c in s :: !IsSpace(c)
    ensures StripSpace(s) == s
    decreases |s|
  {
    if s != [] {
      BodyHasNoSpace(s[1..]);
    }
  }

  /** For every byte sequence the formula on its padded encoding is the number of bytes. */
  lemma LengthOfEncoded(bytes: seq<bv8>)
    ensures DecodedBase64ByteLength(Encoded(bytes)) == |bytes| && Decoded(Encoded(bytes)) == bytes
  {
    hide TextOf, BitsToBytes, TextBits, DecodedBase64ByteLength;
    var body := EncodedBody(bytes, false);
    var p := (4 - |body| % 4) % 4;
    forall c | c in Encoded(bytes)
      ensures !IsSpace(c)
    {
    }
    BodyHasNoSpace(Encoded(bytes));
    DecodesWhatWasEncoded(bytes, false, p);
    LengthOfWellFormed(Encoded(bytes), body, p);
  }

  // ----- Peeking -----------------------------------------------------------------------------

  function Min(a: nat, b: nat): nat {
    if a <= b then a else b
  }

  /** The decoding of just enough leading characters for maxBytes bytes. */
  function PeekDecodedBytes(base64: string, maxBytes: nat): seq<bv8> {
    var normalized := StripSpace(base64);
    if normalized == [] then []
    else
      var charsNeeded := (maxBytes + 2) / 3 * 4;
      var bytes := Decoded(normalized[..Min(|normalized|, charsNeeded)]);
      bytes[..Min(|bytes|, maxBytes)]
  }

  /** Cutting a text anywhere cuts its decoding. */
  lemma CutDecodesPrefix(text: string, n: nat)
    requires n <= |text|
    ensures Decoded(text[..n]) <= Decoded(text)
  {
    hide TextBits, BitsToBytes, Kept;
    assert text == text[..n] + text[n..];
    KeptAppend(text[..n], text[n..]);
    var head := Kept(text[..n]);
    var tail := Kept(text)[|head|..];
    assert Kept(text) == head + tail;
    TextBitsAppend(head, tail);
    PrefixBytes(TextBits(head), TextBits(tail));
  }

  /** The slice that is decoded for a peek. */
  function PeekSlice(base64: string, maxBytes: nat): string {
    var normalized := StripSpace(base64);
    normalized[..Min(|normalized|, (maxBytes + 2) / 3 * 4)]
  }

  /**
    The peek is always the beginning of the whole decoding, and all of its first maxBytes bytes if and
    only if the slice keeps characters enough for them.
   */
  lemma PeekIsPrefix(base64: string, maxBytes: nat)
    ensures var all, peek := Decoded(StripSpace(base64)), PeekDecodedBytes(base64, maxBytes);
            && peek <= all && |peek| <= maxBytes
            && (peek == all[..Min(|all|, maxBytes)]
                <==> 3 * |Kept(PeekSlice(base64, maxBytes))| / 4 >= Min(3 * |Kept(StripSpace(base64))| / 4, maxBytes))
  {
    hide StripSpace, Decoded, IsBody;
    var text, slice := StripSpace(base64), PeekSlice(base64, maxBytes);
    CutDecodesPrefix(text, |slice|);
    SextetBytes(|Kept(text)|);
    SextetBytes(|Kept(slice)|);
    EmptyDecodes();
  }

  /** Text of the alphabets with padding at its end is peeked at in full. */
  lemma PeekOfWellFormed(base64: string, body: string, p: nat, maxBytes: nat)
    requires StripSpace(base64) == body + Padding(p) && IsBody(body)
    ensures var all := Decoded(StripSpace(base64));
            PeekDecodedBytes(base64, maxBytes) == all[..Min(|all|, maxBytes)]
  {
    hide StripSpace, Decoded, PeekDecodedBytes, Kept, IsBody;
    var text, slice := body + Padding(p), PeekSlice(base64, maxBytes);
    var n := |slice|;
    PeekIsPrefix(base64, maxBytes);
    BodyIsKept(body, p);
    if n <= |body| {
      assert slice == body[..n] + Padding(0);
      HeadIsBody(body, n);
      BodyIsKept(body[..n], 0);
    } else {
      assert slice == body + Padding(n - |body|);
      BodyIsKept(body, n - |body|);
    }
  }

  lemma HeadIsBody(body: string, n: nat)
    requires IsBody(body) && n <= |body|
    ensures IsBody(body[..n])
  {
  }

  lemma EmptyDecodes()
    ensures Decoded([]) == []
  {
  }
}
