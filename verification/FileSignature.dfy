/** Upload type detection from magic bytes, src/utils/fileSignature.js. */
module FileSignature {
  import opened Base64

  datatype FileType = Pdf | Jpeg | Png | Webp | Heic | Doc | Docx | Unknown

  const PEEK_BYTES: nat := 16

  const HEIC_BRANDS: set<string> := {"heic", "heif", "mif1", "msf1", "heix", "heim"}

  predicate StartsAt(buf: seq<bv8>, ascii: string, offset: nat) {
    |buf| >= offset + |ascii| && forall i | 0 <= i < |ascii| :: buf[offset + i] as int == ascii[i] as int
  }

  predicate StartsWithBytes(buf: seq<bv8>, signature: seq<bv8>) {
    signature <= buf
  }

  /** `toString('ascii')` drops the high bit; `toLowerCase` then lowers A to Z. */
  function LowerAscii(b: bv8): char {
    var c := (b & 127) as int as char;
    if 'A' <= c <= 'Z' then c + 32 as char else c
  }

  function Brand(buf: seq<bv8>): string
    requires |buf| >= 12
  {
    [LowerAscii(buf[8]), LowerAscii(buf[9]), LowerAscii(buf[10]), LowerAscii(buf[11])]
  }

  /** The type of a file, in the order in which the signatures are tried. */
  function TypeOf(buf: seq<bv8>): FileType {
    if |buf| < 4 then Unknown
    else if StartsAt(buf, "%PDF", 0) then Pdf
    else if StartsWithBytes(buf, [0xff, 0xd8, 0xff]) then Jpeg
    else if StartsWithBytes(buf, [0x89, 0x50, 0x4e, 0x47]) then Png
    else if StartsAt(buf, "RIFF", 0) && StartsAt(buf, "WEBP", 8) then Webp
    else if |buf| >= 12 && StartsAt(buf, "ftyp", 4) && Brand(buf) in HEIC_BRANDS then Heic
    else if StartsWithBytes(buf, [0xd0, 0xcf, 0x11, 0xe0]) then Doc
    else if StartsWithBytes(buf, [0x50, 0x4b]) then Docx
    else Unknown
  }

  // ----- Signatures without their order ------------------------------------------------------

  /** The file carries the signature of the type. */
  predicate Matches(buf: seq<bv8>, t: FileType) {
    |buf| >= 4 &&
    match t
    case Pdf => StartsAt(buf, "%PDF", 0)
    case Jpeg => StartsWithBytes(buf, [0xff, 0xd8, 0xff])
    case Png => StartsWithBytes(buf, [0x89, 0x50, 0x4e, 0x47])
    case Webp => StartsAt(buf, "RIFF", 0) && StartsAt(buf, "WEBP", 8)
    case Heic => |buf| >= 12 && StartsAt(buf, "ftyp", 4) && Brand(buf) in HEIC_BRANDS
    case Doc => StartsWithBytes(buf, [0xd0, 0xcf, 0x11, 0xe0])
    case Docx => StartsWithBytes(buf, [0x50, 0x4b])
    case Unknown => false
  }

  /** The types whose signature lies in the first four bytes, before the mark of HEIC. */
  predicate IsLeading(t: FileType) {
    t == Pdf || t == Jpeg || t == Png || t == Doc || t == Docx
  }

  function FirstByte(t: FileType): bv8 {
    match t
    case Pdf => 0x25
    case Jpeg => 0xff
    case Png => 0x89
    case Webp => 0x52
    case Doc => 0xd0
    case _ => 0x50
  }

  lemma FirstByteOf(buf: seq<bv8>, t: FileType)
    requires Matches(buf, t) && t != Heic
    ensures buf[0] == FirstByte(t)
  {
    hide Brand;
    if t == Pdf {
      StartsWithChar(buf, "%PDF", 0);
      assert buf[0] as int == '%' as int == 0x25;
    } else if t == Webp {
      StartsWithChar(buf, "RIFF", 0);
      assert buf[0] as int == 'R' as int == 0x52;
    }
  }

  lemma StartsWithChar(buf: seq<bv8>, ascii: string, offset: nat)
    requires StartsAt(buf, ascii, offset) && ascii != ""
    ensures offset < |buf| && buf[offset] as int == ascii[0] as int
  {
    assert buf[offset + 0] as int == ascii[0] as int;
  }

  lemma WebpIsNotHeic(buf: seq<bv8>)
    requires Matches(buf, Webp)
    ensures !Matches(buf, Heic)
  {
    assert buf[8 + 0] as int == "WEBP"[0] as int;
    assert buf[8] == 0x57;
    assert LowerAscii(0x57) == 'w';
    assert |buf| >= 12 ==> Brand(buf)[0] == 'w';
  }

  /**
    A file carries the signatures of two types only if one is HEIC and the other one of those that lie
    before its mark.
   */
  lemma SignaturesExclude(buf: seq<bv8>, t: FileType, u: FileType)
    requires t != u && Matches(buf, t) && Matches(buf, u)
    ensures (t == Heic && IsLeading(u)) || (u == Heic && IsLeading(t))
  {
    hide Matches;
    if t != Heic && u != Heic {
      FirstByteOf(buf, t);
      FirstByteOf(buf, u);
      NoneIsUnknown(buf, t);
      NoneIsUnknown(buf, u);
    } else if t == Webp || u == Webp {
      WebpIsNotHeic(buf);
    } else {
      NoneIsUnknown(buf, t);
      NoneIsUnknown(buf, u);
    }
  }

  lemma NoneIsUnknown(buf: seq<bv8>, t: FileType)
    requires Matches(buf, t)
    ensures t != Unknown
  {
  }

  function LeadingBytes(t: FileType): seq<bv8>
    requires IsLeading(t)
  {
    match t
    case Pdf => [0x25, 0x50, 0x44, 0x46]
    case Jpeg => [0xff, 0xd8, 0xff, 0xe0]
    case Png => [0x89, 0x50, 0x4e, 0x47]
    case Doc => [0xd0, 0xcf, 0x11, 0xe0]
    case _ => [0x50, 0x4b, 0x03, 0x04]
  }

  /** And each of those pairs does occur. */
  lemma OverlapsOccur(t: FileType)
    requires IsLeading(t)
    ensures exists buf :: Matches(buf, t) && Matches(buf, Heic)
  {
    var buf := LeadingBytes(t) + [0x66, 0x74, 0x79, 0x70, 0x68, 0x65, 0x69, 0x63];
    assert Brand(buf) == "heic";
    assert StartsAt(buf, "ftyp", 4);
    if t == Pdf {
      assert StartsAt(buf, "%PDF", 0);
    }
    assert Matches(buf, t) && Matches(buf, Heic);
  }

  /** The brands of HEIC are six, and A to Z count as their small letters. */
  lemma BrandsByName(buf: seq<bv8>)
    requires |buf| >= 12 && StartsAt(buf, "ftyp", 4)
    ensures Matches(buf, Heic) <==>
              var brand := Brand(buf);
              || brand == "heic" || brand == "heif" || brand == "mif1"
              || brand == "msf1" || brand == "heix" || brand == "heim"
    ensures LowerAscii(0x48) == 'h' && LowerAscii(0x5a) == 'z' && LowerAscii(0x5b) == '[' && LowerAscii(0x31) == '1'
  {
    hide StartsAt;
  }

  /** What the order of the checks decides: PDF, JPEG and PNG win over HEIC, which wins over the rest. */
  lemma TypeByMatches(buf: seq<bv8>, t: FileType)
    ensures TypeOf(buf) == t <==>
              match t
              case Heic => Matches(buf, Heic) && !Matches(buf, Pdf) && !Matches(buf, Jpeg) && !Matches(buf, Png)
              case Doc => Matches(buf, Doc) && !Matches(buf, Heic)
              case Docx => Matches(buf, Docx) && !Matches(buf, Heic)
              case Unknown => forall u :: !Matches(buf, u)
              case _ => Matches(buf, t)
  {
    var actual := TypeOf(buf);
    TypeOfMatches(buf);
    hide TypeOf, Matches;
    if t != actual && t != Unknown && Matches(buf, t) {
      NoneIsUnknown(buf, t);
      if actual != Unknown {
        SignaturesExclude(buf, t, actual);
      }
    }
  }

  /** The type found is one of the file's own, and HEIC only when no earlier one is. */
  lemma TypeOfMatches(buf: seq<bv8>)
    ensures TypeOf(buf) == Unknown <==> forall u :: !Matches(buf, u)
    ensures TypeOf(buf) != Unknown ==> Matches(buf, TypeOf(buf))
    ensures TypeOf(buf) == Heic ==> !Matches(buf, Pdf) && !Matches(buf, Jpeg) && !Matches(buf, Png)
    ensures Matches(buf, Heic) ==> TypeOf(buf) != Doc && TypeOf(buf) != Docx
  {
    hide StartsAt, StartsWithBytes, Brand;
    if TypeOf(buf) != Unknown {
      assert Matches(buf, TypeOf(buf));
    }
  }

  // ----- The detector ------------------------------------------------------------------------

  method StartsWithAscii(buf: seq<bv8>, ascii: string, offset: nat) returns (b: bool)
    ensures b == StartsAt(buf, ascii, offset)
  {
    if |buf| < offset + |ascii| {
      return false;
    }
    for i := 0 to |ascii|
      invariant forall j | 0 <= j < i :: buf[offset + j] as int == ascii[j] as int
    {
      if buf[offset + i] as int != ascii[i] as int {
        return false;
      }
    }
    return true;
  }

  method DetectFileTypeFromBase64(base64: string) returns (t: FileType)
    ensures t == TypeOf(PeekDecodedBytes(base64, PEEK_BYTES))
  {
    hide StartsAt, Brand, PeekDecodedBytes;
    var buf := PeekDecodedBytes(base64, PEEK_BYTES);
    if |buf| < 4 {
      return Unknown;
    }
    var pdf := StartsWithAscii(buf, "%PDF", 0);
    if pdf {
      return Pdf;
    }
    if buf[0] == 0xff && buf[1] == 0xd8 && buf[2] == 0xff {
      return Jpeg;
    }
    if buf[0] == 0x89 && buf[1] == 0x50 && buf[2] == 0x4e && buf[3] == 0x47 {
      return Png;
    }
    var riff := StartsWithAscii(buf, "RIFF", 0);
    var webp := StartsWithAscii(buf, "WEBP", 8);
    if riff && |buf| >= 12 && webp {
      return Webp;
    }
    StartsAtLength(buf, "WEBP", 8);
    var ftyp := StartsWithAscii(buf, "ftyp", 4);
    if |buf| >= 12 && ftyp {
      var brand := Brand(buf);
      if || brand == "heic" || brand == "heif" || brand == "mif1"
         || brand == "msf1" || brand == "heix" || brand == "heim"
      {
        return Heic;
      }
    }
    if buf[0] == 0xd0 && buf[1] == 0xcf && buf[2] == 0x11 && buf[3] == 0xe0 {
      return Doc;
    }
    if buf[0] == 0x50 && buf[1] == 0x4b {
      return Docx;
    }
    return Unknown;
  }

  lemma StartsAtLength(buf: seq<bv8>, ascii: string, offset: nat)
    ensures StartsAt(buf, ascii, offset) ==> |buf| >= offset + |ascii|
  {
  }

  lemma StartsAtHead(buf: seq<bv8>, n: nat, ascii: string, offset: nat)
    requires offset + |ascii| <= n <= |buf|
    ensures StartsAt(buf[..n], ascii, offset) == StartsAt(buf, ascii, offset)
  {
  }

  lemma BytesHead(buf: seq<bv8>, n: nat, signature: seq<bv8>)
    requires |signature| <= n <= |buf|
    ensures StartsWithBytes(buf[..n], signature) == StartsWithBytes(buf, signature)
  {
  }

  /** The first twelve bytes decide the type. */
  lemma HeadDecides(buf: seq<bv8>, n: nat)
    requires 12 <= n
    ensures TypeOf(buf[..Min(|buf|, n)]) == TypeOf(buf)
  {
    hide StartsAt, StartsWithBytes, LowerAscii;
    if n <= |buf| {
      StartsAtHead(buf, n, "%PDF", 0);
      BytesHead(buf, n, [0xff, 0xd8, 0xff]);
      BytesHead(buf, n, [0x89, 0x50, 0x4e, 0x47]);
      StartsAtHead(buf, n, "RIFF", 0);
      StartsAtHead(buf, n, "WEBP", 8);
      StartsAtHead(buf, n, "ftyp", 4);
      BytesHead(buf, n, [0xd0, 0xcf, 0x11, 0xe0]);
      BytesHead(buf, n, [0x50, 0x4b]);
    } else {
      assert buf[..|buf|] == buf;
    }
  }

  /** Eleven bytes would not be enough. */
  lemma ElevenAreTooFew()
    ensures exists buf: seq<bv8> :: |buf| == 12 && TypeOf(buf[..11]) != TypeOf(buf)
  {
    var buf: seq<bv8> := [0x52, 0x49, 0x46, 0x46, 0, 0, 0, 0, 0x57, 0x45, 0x42, 0x50];
    assert StartsAt(buf, "RIFF", 0);
    assert StartsAt(buf, "WEBP", 8);
    assert !StartsAt(buf, "%PDF", 0) by {
      assert buf[0 + 0] as int != "%PDF"[0] as int;
    }
    assert TypeOf(buf) == Webp;
    assert !StartsAt(buf[..11], "WEBP", 8);
    assert TypeOf(buf[..11]) != Webp;
  }

  /** Detection on the peeked slice of a text agrees with the type of the whole decoded file. */
  lemma PeekDetectsWholeFile(base64: string, body: string, p: nat)
    requires StripSpace(base64) == body + Padding(p) && IsBody(body)
    ensures TypeOf(PeekDecodedBytes(base64, PEEK_BYTES)) == TypeOf(Decoded(StripSpace(base64)))
  {
    hide TypeOf, PeekDecodedBytes, Decoded, StripSpace;
    PeekOfWellFormed(base64, body, p, PEEK_BYTES);
    HeadDecides(Decoded(StripSpace(base64)), PEEK_BYTES);
  }

  /** An uploaded file, encoded as text, is given the type of its bytes. */
  lemma UploadIsDetected(file: seq<bv8>)
    ensures TypeOf(PeekDecodedBytes(Encoded(file), PEEK_BYTES)) == TypeOf(file)
  {
    hide TypeOf, PeekDecodedBytes, Decoded, StripSpace, DecodedBase64ByteLength;
    LengthOfEncoded(file);
    var body := EncodedBody(file, false);
    NoSpaceInEncoded(file);
    PeekDetectsWholeFile(Encoded(file), body, (4 - |body| % 4) % 4);
  }

  lemma NoSpaceInEncoded(file: seq<bv8>)
    ensures StripSpace(Encoded(file)) == Encoded(file)
  {
    hide EncodedBody;
    BodyHasNoSpace(Encoded(file));
  }
}
