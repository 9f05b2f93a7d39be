/**
  Crockford Base32 recovery codes of src/utils/security.js. The loop works on a 32-bit word: the
  shifts drop high bits exactly as the int32 operators of JavaScript do.
 */
module Base32 {
  import opened Bits

  const CROCKFORD_ALPHABET: string := "0123456789ABCDEFGHJKMNPQRSTVWXYZ"

  /** The number of five bits. */
  function Digit(r: BitString): (d: nat)
    requires |r| == 5
    ensures d < 32
  {
    (if r[0] then 16 else 0) + (if r[1] then 8 else 0) + (if r[2] then 4 else 0)
    + (if r[3] then 2 else 0) + (if r[4] then 1 else 0)
  }

  function DigitBits(d: nat): (r: BitString)
    requires d < 32
    ensures |r| == 5
  {
    var (b0, d0) := Split(d, 16);
    var (b1, d1) := Split(d0, 8);
    var (b2, d2) := Split(d1, 4);
    var (b3, d3) := Split(d2, 2);
    [b0, b1, b2, b3, d3 == 1]
  }

  lemma DigitRoundTrip(r: BitString)
    requires |r| == 5
    ensures DigitBits(Digit(r)) == r
  {
  }

  /** Reference encoding: the symbols of the bits in groups of five, the last one filled with zeros. */
  function Symbols(r: BitString): (s: string)
    ensures |s| == (|r| + 4) / 5
    decreases |r|
  {
    if r == [] then ""
    else if |r| < 5 then [CROCKFORD_ALPHABET[Digit(r + Zeros(5 - |r|))]]
    else [CROCKFORD_ALPHABET[Digit(r[..5])]] + Symbols(r[5..])
  }

  function Encoded(bytes: seq<bv8>): string {
    Symbols(BytesBits(bytes))
  }

  lemma {:induction false} SymbolsAppend(a: BitString, b: BitString)
    requires |a| % 5 == 0
    ensures Symbols(a + b) == Symbols(a) + Symbols(b)
    decreases |a|
  {
    hide Digit;
    if a == [] {
      assert a + b == b;
    } else {
      assert (a + b)[..5] == a[..5] && (a + b)[5..] == a[5..] + b;
      SymbolsAppend(a[5..], b);
    }
  }

  // ----- The 32-bit accumulator --------------------------------------------------------------

  predicate BitAt(v: bv32, k: nat)
    requires k < 13
  {
    if k == 0 then v & 1 != 0 else if k == 1 then v & 2 != 0 else if k == 2 then v & 4 != 0
    else if k == 3 then v & 8 != 0 else if k == 4 then v & 16 != 0 else if k == 5 then v & 32 != 0
    else if k == 6 then v & 64 != 0 else if k == 7 then v & 128 != 0 else if k == 8 then v & 256 != 0
    else if k == 9 then v & 512 != 0 else if k == 10 then v & 1024 != 0 else if k == 11 then v & 2048 != 0
    else v & 4096 != 0
  }

  /** The n low bits of the word. */
  function LowBits(v: bv32, n: nat): (r: BitString)
    requires n <= 13
    ensures |r| == n
  {
    seq(n, i requires 0 <= i < n => BitAt(v, n - 1 - i))
  }

  lemma ShiftInByteBit(v: bv32, b: bv8, k: nat)
    requires k < 8
    ensures BitAt((v << 8) | (b as bv32), k) == ByteBits(b)[7 - k]
  {
    if k == 0 {} else if k == 1 {} else if k == 2 {} else if k == 3 {}
    else if k == 4 {} else if k == 5 {} else if k == 6 {} else {}
  }

  lemma ShiftUpBit(v: bv32, b: bv8, k: nat)
    requires k < 5
    ensures BitAt((v << 8) | (b as bv32), k + 8) == BitAt(v, k)
  {
    if k == 0 {} else if k == 1 {} else if k == 2 {} else if k == 3 {} else {}
  }

  lemma ShiftInByte(v: bv32, b: bv8, n: nat)
    requires n <= 4
    ensures LowBits((v << 8) | (b as bv32), n + 8) == LowBits(v, n) + ByteBits(b)
  {
    hide BitAt, ByteBits;
    var word, joined := LowBits((v << 8) | (b as bv32), n + 8), LowBits(v, n) + ByteBits(b);
    forall i | 0 <= i < n + 8
      ensures word[i] == joined[i]
    {
      if i < n {
        ShiftUpBit(v, b, n - 1 - i);
      } else {
        ShiftInByteBit(v, b, n + 7 - i);
      }
    }
  }

  lemma TakeBit(v: bv32, n: nat, k: nat)
    requires n <= 7 && k < 5
    ensures BitAt((v >> n) & 31, k) == BitAt(v, n + k)
  {
    if n == 0 {} else if n == 1 {} else if n == 2 {} else if n == 3 {}
    else if n == 4 {} else if n == 5 {} else if n == 6 {} else {}
  }

  lemma TakeSymbol(v: bv32, n: nat)
    requires n <= 7
    ensures LowBits(v, n + 5) == LowBits((v >> n) & 31, 5) + LowBits(v, n)
  {
    hide BitAt;
    var whole, symbol := LowBits(v, n + 5), LowBits((v >> n) & 31, 5);
    forall i | 0 <= i < 5
      ensures whole[i] == symbol[i]
    {
      TakeBit(v, n, 4 - i);
    }
  }

  lemma FillBit(v: bv32, n: nat, k: nat)
    requires 1 <= n <= 4 && k < 5
    ensures BitAt((v << (5 - n)) & 31, k) == if k < 5 - n then false else BitAt(v, k - (5 - n))
  {
    if n == 1 {} else if n == 2 {} else if n == 3 {} else {}
  }

  lemma FillSymbol(v: bv32, n: nat)
    requires 1 <= n <= 4
    ensures LowBits((v << (5 - n)) & 31, 5) == LowBits(v, n) + Zeros(5 - n)
  {
    hide BitAt;
    var symbol, filled := LowBits((v << (5 - n)) & 31, 5), LowBits(v, n) + Zeros(5 - n);
    forall i | 0 <= i < 5
      ensures symbol[i] == filled[i]
    {
      FillBit(v, n, 4 - i);
    }
  }

  lemma FiveBits(x: bv32)
    ensures var y := x & 31;
            y as int == (if BitAt(y, 4) then 16 else 0) + (if BitAt(y, 3) then 8 else 0)
                       + (if BitAt(y, 2) then 4 else 0)
                        + (if BitAt(y, 1) then 2 else 0) + (if BitAt(y, 0) then 1 else 0)
  {
  }

  lemma WordDigit(x: bv32)
    ensures (x & 31) as int == Digit(LowBits(x & 31, 5))
  {
    hide BitAt;
    FiveBits(x);
  }

  // ----- The encoder -------------------------------------------------------------------------

  /** The symbol of the five bits above the `bits` low ones. */
  function SymbolAbove(value: bv32, bits: nat): char
    requires bits <= 7
  {
    WordDigit(value >> bits);
    CROCKFORD_ALPHABET[((value >> bits) & 31) as int]
  }

  /** The symbol of the last `bits` bits, filled with zeros. */
  function LastSymbol(value: bv32, bits: nat): char
    requires 1 <= bits <= 4
  {
    WordDigit(value << (5 - bits));
    CROCKFORD_ALPHABET[((value << (5 - bits)) & 31) as int]
  }

  /** The symbols written so far and the pending low bits of the word are all the bits read. */
  ghost predicate Progress(output: string, emitted: BitString, value: bv32, bits: nat, read: BitString) {
    bits <= 12 && |emitted| % 5 == 0 && output == Symbols(emitted) && emitted + LowBits(value, bits) == read
  }

  lemma ByteRead(output: string, emitted: BitString, value: bv32, bits: nat, bytes: seq<bv8>, b: bv8)
    requires bits < 5 && Progress(output, emitted, value, bits, BytesBits(bytes))
    ensures Progress(output, emitted, (value << 8) | (b as bv32), bits + 8, BytesBits(bytes + [b]))
  {
    hide LowBits, ByteBits, Symbols;
    ShiftInByte(value, b, bits);
    BytesBitsAppend(bytes, [b]);
    assert BytesBits([b]) == ByteBits(b);
    assert emitted + (LowBits(value, bits) + ByteBits(b)) == emitted + LowBits(value, bits) + ByteBits(b);
  }

  lemma SymbolWritten(output: string, emitted: BitString, value: bv32, bits: nat, read: BitString)
    requires bits <= 7 && Progress(output, emitted, value, bits + 5, read)
    ensures Progress(output + [SymbolAbove(value, bits)],
                     emitted + LowBits((value >> bits) & 31, 5), value, bits, read)
  {
    hide LowBits, Digit, Symbols;
    var group := LowBits((value >> bits) & 31, 5);
    TakeSymbol(value, bits);
    WordDigit(value >> bits);
    EmitGroup(emitted, group);
    assert emitted + (group + LowBits(value, bits)) == emitted + group + LowBits(value, bits);
  }

  lemma LastWritten(output: string, emitted: BitString, value: bv32, bits: nat, read: BitString)
    requires 1 <= bits < 5 && Progress(output, emitted, value, bits, read)
    ensures output + [LastSymbol(value, bits)] == Symbols(read)
  {
    hide LowBits, Digit, Symbols;
    FillSymbol(value, bits);
    WordDigit(value << (5 - bits));
    EmitLast(emitted, LowBits(value, bits));
  }

  lemma NothingPending(output: string, emitted: BitString, value: bv32, read: BitString)
    requires Progress(output, emitted, value, 0, read)
    ensures output == Symbols(read)
  {
    hide Symbols;
    assert LowBits(value, 0) == [];
    assert emitted + [] == emitted;
  }

  /** Emits exactly the reference encoding: no bit lost to the 32-bit word was still needed. */
  method EncodeCrockfordBase32(src: seq<bv8>) returns (output: string)
    ensures output == Encoded(src)
  {
    var bits: nat := 0;
    var value: bv32 := 0;
    output := "";
    ghost var emitted: BitString := [];
    assert BytesBits(src[..0]) == emitted + LowBits(value, 0);
    hide Progress, LowBits, BitAt, BytesBits, Symbols, SymbolAbove, LastSymbol;
    for i := 0 to |src|
      invariant bits < 5 && Progress(output, emitted, value, bits, BytesBits(src[..i]))
    {
      ByteRead(output, emitted, value, bits, src[..i], src[i]);
      assert src[..i + 1] == src[..i] + [src[i]];
      value := (value << 8) | (src[i] as bv32);
      bits := bits + 8;
      while bits >= 5
        invariant bits <= 12 && Progress(output, emitted, value, bits, BytesBits(src[..i + 1]))
      {
        bits := bits - 5;
        SymbolWritten(output, emitted, value, bits, BytesBits(src[..i + 1]));
        output := output + [SymbolAbove(value, bits)];
        emitted := emitted + LowBits((value >> bits) & 31, 5);
      }
    }
    assert src[..|src|] == src;
    if bits > 0 {
      LastWritten(output, emitted, value, bits, BytesBits(src));
      output := output + [LastSymbol(value, bits)];
    } else {
      NothingPending(output, emitted, value, BytesBits(src));
    }
  }

  lemma EmitGroup(emitted: BitString, group: BitString)
    requires |emitted| % 5 == 0 && |group| == 5
    ensures Symbols(emitted + group) == Symbols(emitted) + [CROCKFORD_ALPHABET[Digit(group)]]
  {
    hide Digit;
    SymbolsAppend(emitted, group);
    assert group[..5] == group && group[5..] == [];
  }

  lemma EmitLast(emitted: BitString, rest: BitString)
    requires |emitted| % 5 == 0 && 1 <= |rest| < 5
    ensures Symbols(emitted + rest) == Symbols(emitted) + [CROCKFORD_ALPHABET[Digit(rest + Zeros(5 - |rest|))]]
  {
    hide Digit;
    SymbolsAppend(emitted, rest);
  }

  // ----- Decoding ----------------------------------------------------------------------------

  /** Reading a symbol, as Crockford's specification lists the values. */
  function SymbolValue(c: char): (d: nat)
    ensures d < 32
  {
    if '0' <= c <= '9' then (c - '0') as int
    else if 'A' <= c <= 'H' then (c - 'A') as int + 10
    else if 'J' <= c <= 'K' then (c - 'J') as int + 18
    else if 'M' <= c <= 'N' then (c - 'M') as int + 20
    else if 'P' <= c <= 'T' then (c - 'P') as int + 22
    else if 'V' <= c <= 'Z' then (c - 'V') as int + 27
    else 0
  }

  lemma AlphabetRoundTrip(d: nat)
    requires d < 32
    ensures SymbolValue(CROCKFORD_ALPHABET[d]) == d
  {
  }

  function SymbolBits(s: string): (r: BitString)
    ensures |r| == 5 * |s|
  {
    if s == [] then [] else DigitBits(SymbolValue(s[0])) + SymbolBits(s[1..])
  }

  /** Reference decoding: the whole bytes of the symbols' bits. */
  function Decoded(s: string): seq<bv8> {
    BitsToBytes(SymbolBits(s))
  }

  lemma {:induction false} SymbolsKeepBits(r: BitString)
    ensures SymbolBits(Symbols(r)) == r + Zeros(5 * ((|r| + 4) / 5) - |r|)
    decreases |r|
  {
    hide Digit, DigitBits, SymbolValue;
    if r == [] {
    } else if |r| < 5 {
      var d := Digit(r + Zeros(5 - |r|));
      AlphabetRoundTrip(d);
      DigitRoundTrip(r + Zeros(5 - |r|));
      assert SymbolBits(Symbols(r)) == DigitBits(d) + SymbolBits([]);
    } else {
      var d := Digit(r[..5]);
      AlphabetRoundTrip(d);
      DigitRoundTrip(r[..5]);
      SymbolsKeepBits(r[5..]);
      assert Symbols(r)[1..] == Symbols(r[5..]);
      assert r == r[..5] + r[5..];
    }
  }

  /** Decoding what the loop emits gives the bytes back; the length is the number of started groups of five bits. */
  lemma EncodingRoundTrip(bytes: seq<bv8>)
    ensures Decoded(Encoded(bytes)) == bytes
    ensures |Encoded(bytes)| == (8 * |bytes| + 4) / 5
  {
    hide SymbolBits, Symbols, BitsToBytes;
    var r := BytesBits(bytes);
    SymbolsKeepBits(r);
    BytesRoundTrip(bytes, Zeros(5 * ((|r| + 4) / 5) - |r|));
  }

  // ----- Recovery codes ----------------------------------------------------------------------

  function Grouped(s: string): string
    decreases |s|
  {
    if |s| <= 4 then s else s[..4] + "-" + Grouped(s[4..])
  }

  lemma {:induction false} GroupsOfFour(s: string, m: nat)
    requires |s| == 4 * m && m >= 1 && '-' !in s
    ensures |Grouped(s)| == 5 * m - 1
    ensures forall i | 0 <= i < |Grouped(s)| :: Grouped(s)[i] == if i % 5 == 4 then '-' else s[i - i / 5]
    decreases m
  {
    if m > 1 {
      GroupsOfFour(s[4..], m - 1);
      var rest := Grouped(s[4..]);
      forall i | 5 <= i < |Grouped(s)|
        ensures Grouped(s)[i] == if i % 5 == 4 then '-' else s[i - i / 5]
      {
        assert Grouped(s)[i] == rest[i - 5];
      }
    }
  }

  lemma {:induction false} NoHyphen(r: BitString)
    ensures '-' !in Symbols(r)
    decreases |r|
  {
    hide Digit;
    if |r| >= 5 {
      NoHyphen(r[5..]);
    }
  }

  /** Fifteen random bytes make six groups of four symbols, and hold all 120 bits. */
  method CreateRecoveryCode(raw: seq<bv8>) returns (code: string)
    requires |raw| == 15
    ensures |code| == 29
    ensures forall i | 0 <= i < 29 :: code[i] == if i % 5 == 4 then '-' else Encoded(raw)[i - i / 5]
    ensures |Encoded(raw)| == 24 && Decoded(Encoded(raw)) == raw
  {
    hide Symbols, BitsToBytes, SymbolBits, Grouped;
    EncodingRoundTrip(raw);
    NoHyphen(BytesBits(raw));
    var encoded := EncodeCrockfordBase32(raw);
    GroupsOfFour(encoded, 6);
    code := Grouped(encoded);
  }
}
