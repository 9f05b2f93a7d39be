/**
  The `enc:v1:` envelope of src/services/crypto.service.js over an abstract authenticated cipher. The
  environment maps key names to their configured text; the initialisation vector is an argument.
 */
module Envelope {
  import opened Base64
  import opened Options

  datatype Result<+T> = Ok(value: T) | Err(error: string)

  type Bytes = seq<bv8>

  /** Sealing gives the ciphertext and the tag; opening gives the text, or nothing when it refuses. */
  datatype Cipher = Cipher(seal: (Bytes, Bytes, string) -> (Bytes, Bytes),
                           open: (Bytes, Bytes, Bytes, Bytes) -> Option<string>)

  /**
    What is needed of AES-256-GCM: opening inverts sealing, tags have 16 bytes, and a ciphertext is as
    long as its UTF-8 text, which has no more characters than bytes.
   */
  ghost predicate Faithful(c: Cipher) {
    && (forall key, iv, text :: c.open(key, iv, c.seal(key, iv, text).1, c.seal(key, iv, text).0) == Some(text))
    && (forall key, iv, text :: |c.seal(key, iv, text).1| == 16)
    && (forall key, iv, text :: |text| <= |c.seal(key, iv, text).0|)
    && (forall key, iv, tag, sealed ::
          c.open(key, iv, tag, sealed).Some? ==> |c.open(key, iv, tag, sealed).value| <= |sealed|)
  }

  const PREFIX: string := "enc:v1:"
  const IV_BYTES: nat := 12
  const CRYPTO_KEYS: set<string> := {"KEY_HEALTH", "KEY_FINANCE", "KEY_MESSAGES", "KEY_GENERAL"}

  function ResolveKeyMaterial(env: map<string, string>, keyName: string): Result<Bytes> {
    var configured := if keyName in env then StripSpace(env[keyName]) else "";
    if configured == "" then Err("missing_encryption_key")
    else
      var key := Decoded(configured);
      if |key| == 32 then Ok(key) else Err("invalid_encryption_key")
  }

  predicate IsEncrypted(value: string) {
    PREFIX <= value
  }

  function Printed(keyName: string, iv: string, tag: string, sealed: string): string {
    PREFIX + (keyName + ":" + (iv + ":" + (tag + ":" + sealed)))
  }

  function Encrypt(c: Cipher, env: map<string, string>, data: string, keyName: string, iv: Bytes): Result<string> {
    if data == "" then Ok(data)
    else if IsEncrypted(data) then Ok(data)
    else
      var key := ResolveKeyMaterial(env, keyName);
      if key.Err? then Err(key.error)
      else
        var (sealed, tag) := c.seal(key.value, iv, data);
        Ok(Printed(keyName, EncodedBody(iv, true), EncodedBody(tag, true), EncodedBody(sealed, true)))
  }

  /** `split(':')` */
  function Split(s: string): (parts: seq<string>)
    ensures |parts| >= 1
    ensures forall i | 0 <= i < |parts| :: |parts[i]| <= |s|
  {
    if s == [] then [[]]
    else
      var rest := Split(s[1..]);
      if s[0] == ':' then [[]] + rest else [[s[0]] + rest[0]] + rest[1..]
  }

  function Decrypt(c: Cipher, env: map<string, string>, data: string, keyName: string): Result<string> {
    if data == "" then Ok(data)
    else if !IsEncrypted(data) then Ok(data)
    else
      var parts := Split(data[|PREFIX|..]);
      if |parts| < 4 || parts[0] == "" || parts[1] == "" || parts[2] == "" || parts[3] == "" then
        Err("invalid_encrypted_payload")
      else
        var key := ResolveKeyMaterial(env, parts[0]);
        if key.Err? then Err(key.error)
        else
          var text := c.open(key.value, Decoded(parts[1]), Decoded(parts[2]), Decoded(parts[3]));
          if text.None? then Err("authentication_failed") else Ok(text.value)
  }

  function DecryptOptionalSafe(c: Cipher, env: map<string, string>, value: Option<string>, keyName: string,
                               fallback: Option<string>): Option<string>
  {
    if value.None? || value.value == "" then fallback
    else
      var r := Decrypt(c, env, value.value, keyName);
      if r.Ok? then Some(r.value)
      else if IsEncrypted(value.value) then fallback
      else value
  }

  // ----- Printing and splitting --------------------------------------------------------------

  lemma {:induction false} SplitAtColon(a: string, rest: string)
    requires ':' !in a
    ensures Split(a + (":" + rest)) == [a] + Split(rest)
    decreases |a|
  {
    var s := a + (":" + rest);
    if a == [] {
      assert s[1..] == rest;
    } else {
      assert s[0] == a[0] && s[1..] == a[1..] + (":" + rest);
      SplitAtColon(a[1..], rest);
      assert a[0] in a && [a[0]] + a[1..] == a;
      assert Split(s[1..])[1..] == Split(rest);
    }
  }

  lemma {:induction false} SplitLast(a: string)
    requires ':' !in a
    ensures Split(a) == [a]
    decreases |a|
  {
    if a != [] {
      SplitLast(a[1..]);
      assert a[0] in a && [a[0]] + a[1..] == a;
    }
  }

  /** Splitting the printed envelope after its prefix gives back exactly the four parts. */
  lemma PrintedSplits(keyName: string, iv: string, tag: string, sealed: string)
    requires ':' !in keyName && ':' !in iv && ':' !in tag && ':' !in sealed
    ensures IsEncrypted(Printed(keyName, iv, tag, sealed))
    ensures Split(Printed(keyName, iv, tag, sealed)[|PREFIX|..]) == [keyName, iv, tag, sealed]
  {
    hide Split;
    var s := Printed(keyName, iv, tag, sealed);
    assert s[|PREFIX|..] == keyName + (":" + (iv + (":" + (tag + (":" + sealed)))));
    SplitAtColon(keyName, iv + (":" + (tag + (":" + sealed))));
    SplitAtColon(iv, tag + (":" + sealed));
    SplitAtColon(tag, sealed);
    SplitLast(sealed);
  }

  lemma BodyHasNoColon(bytes: Bytes)
    ensures ':' !in EncodedBody(bytes, true)
  {
    hide EncodedBody;
  }

  lemma DecodesUrlBody(bytes: Bytes)
    ensures Decoded(EncodedBody(bytes, true)) == bytes
  {
    hide Decoded, EncodedBody;
    DecodesWhatWasEncoded(bytes, true, 0);
    assert EncodedBody(bytes, true) + Padding(0) == EncodedBody(bytes, true);
  }

  // ----- Keys and refusals -------------------------------------------------------------------

  /** A key is the configured text decoded, if that is exactly 32 bytes; a text of spaces counts as none. */
  lemma KeyIsFoundIff(env: map<string, string>, keyName: string)
    ensures var r := ResolveKeyMaterial(env, keyName);
            && (r.Ok? <==> keyName in env && |Decoded(env[keyName])| == 32)
            && (r.Ok? ==> r.value == Decoded(env[keyName]))
            && (r.Err? ==> r.error == if keyName !in env || (forall c | c in env[keyName] :: IsSpace(c))
                                      then "missing_encryption_key" else "invalid_encryption_key")
  {
    hide Kept, TextBits;
    if keyName in env {
      KeptIgnoresSpace(env[keyName]);
      EmptyDecodes();
      BlankIff(env[keyName]);
    }
  }

  lemma {:induction false} BlankIff(s: string)
    ensures StripSpace(s) == "" <==> forall c | c in s :: IsSpace(c)
    decreases |s|
  {
    if s != [] {
      BlankIff(s[1..]);
      assert s == [s[0]] + s[1..];
    }
  }

  /**
    Nothing is stored in plain but an empty text: a text is stored as it is when it carries the prefix,
    refused when the key is not found, and otherwise stored as prefix, key name, vector, tag and
    ciphertext, in this order.
   */
  lemma StoredFormat(c: Cipher, env: map<string, string>, text: string, keyName: string, iv: Bytes)
    requires text != ""
    ensures var r, key := Encrypt(c, env, text, keyName, iv), ResolveKeyMaterial(env, keyName);
            if PREFIX <= text then r == Ok(text)
            else if key.Err? then r == Err(key.error)
            else
              && r.Ok?
              && r.value == "enc:v1:" + keyName + ":" + EncodedBody(iv, true) + ":"
                            + EncodedBody(c.seal(key.value, iv, text).1, true) + ":"
                            + EncodedBody(c.seal(key.value, iv, text).0, true)
  {
    hide EncodedBody, ResolveKeyMaterial;
    var key := ResolveKeyMaterial(env, keyName);
    if key.Ok? && !(PREFIX <= text) {
      var (sealed, tag) := c.seal(key.value, iv, text);
      Associates(keyName, EncodedBody(iv, true), EncodedBody(tag, true), EncodedBody(sealed, true));
    }
  }

  lemma Associates(a: string, b: string, c: string, d: string)
    ensures Printed(a, b, c, d) == "enc:v1:" + a + ":" + b + ":" + c + ":" + d
  {
  }

  /** An envelope with fewer than four parts, or with an empty one among the first four, is refused as such. */
  lemma BrokenEnvelopeIff(c: Cipher, env: map<string, string>, value: string, keyName: string)
    requires IsEncrypted(value)
    ensures var parts := Split(value[|PREFIX|..]);
            Decrypt(c, env, value, keyName) == Err("invalid_encrypted_payload")
            <==> |parts| < 4 || exists i | 0 <= i < 4 :: parts[i] == ""
  {
    hide Split, Decoded;
    var parts := Split(value[|PREFIX|..]);
    if |parts| >= 4 {
      assert (exists i | 0 <= i < 4 :: parts[i] == "")
        <==> parts[0] == "" || parts[1] == "" || parts[2] == "" || parts[3] == "";
    }
  }

  /** Whatever follows a fifth colon is not read. */
  lemma FourPartsAreRead(c: Cipher, env: map<string, string>, keyName: string, iv: string, tag: string, sealed: string,
                         rest: string, other: string)
    requires ':' !in keyName && ':' !in iv && ':' !in tag && ':' !in sealed
    ensures Decrypt(c, env, Printed(keyName, iv, tag, sealed) + (":" + rest), other)
            == Decrypt(c, env, Printed(keyName, iv, tag, sealed), other)
  {
    hide Split, Decoded, ResolveKeyMaterial;
    var s, longer := Printed(keyName, iv, tag, sealed), Printed(keyName, iv, tag, sealed) + (":" + rest);
    PrintedSplits(keyName, iv, tag, sealed);
    assert longer[|PREFIX|..] == keyName + (":" + (iv + (":" + (tag + (":" + (sealed + (":" + rest)))))));
    SplitAtColon(keyName, iv + (":" + (tag + (":" + (sealed + (":" + rest))))));
    SplitAtColon(iv, tag + (":" + (sealed + (":" + rest))));
    SplitAtColon(tag, sealed + (":" + rest));
    SplitAtColon(sealed, rest);
    assert longer[..|PREFIX|] == PREFIX;
  }

  // ----- Round trips -------------------------------------------------------------------------

  /**
    Whatever key name decrypt is called with, and whatever the vector: a plaintext that encrypt
    accepted comes back exactly when it did not already look encrypted.
   */
  lemma RoundTripIff(c: Cipher, env: map<string, string>, text: string, keyName: string, iv: Bytes, other: string)
    requires Faithful(c) && |iv| == IV_BYTES && keyName != "" && ':' !in keyName && text != ""
    requires Encrypt(c, env, text, keyName, iv).Ok?
    ensures Decrypt(c, env, Encrypt(c, env, text, keyName, iv).value, other) == Ok(text) <==> !IsEncrypted(text)
  {
    hide Split, Decoded, EncodedBody, ResolveKeyMaterial, Printed;
    if IsEncrypted(text) {
      OpensToLess(c, env, text, other);
    } else {
      var key := ResolveKeyMaterial(env, keyName).value;
      var (sealed, tag) := c.seal(key, iv, text);
      BodyHasNoColon(iv);
      BodyHasNoColon(tag);
      BodyHasNoColon(sealed);
      PrintedSplits(keyName, EncodedBody(iv, true), EncodedBody(tag, true), EncodedBody(sealed, true));
      DecodesUrlBody(iv);
      DecodesUrlBody(tag);
      DecodesUrlBody(sealed);
    }
  }

  /** A note that happens to begin with the prefix is stored as it is, and cannot be read at all. */
  lemma PrefixedNoteIsLost(c: Cipher, env: map<string, string>, keyName: string, iv: Bytes, other: string)
    ensures var note := "enc:v1: is our version";
            && Encrypt(c, env, note, keyName, iv) == Ok(note)
            && Decrypt(c, env, note, other) == Err("invalid_encrypted_payload")
  {
    var note := "enc:v1: is our version";
    assert note[|PREFIX|..] == " is our version";
    SplitLast(" is our version");
  }

  /** What an envelope opens to is shorter than the envelope. */
  lemma OpensToLess(c: Cipher, env: map<string, string>, text: string, keyName: string)
    requires Faithful(c) && IsEncrypted(text)
    ensures Decrypt(c, env, text, keyName).Ok? ==> |Decrypt(c, env, text, keyName).value| < |text|
  {
    hide ResolveKeyMaterial, Split;
    var parts := Split(text[|PREFIX|..]);
    if |parts| >= 4 {
      assert |Decoded(parts[3])| <= |parts[3]|;
    }
  }

  /** Encrypting what was encrypted, under any key and vector, changes nothing. */
  lemma EncryptIsIdempotent(c: Cipher, env: map<string, string>, text: string,
                            keyName: string, iv: Bytes, keyName': string, iv': Bytes)
    requires Encrypt(c, env, text, keyName, iv).Ok?
    ensures var once := Encrypt(c, env, text, keyName, iv).value;
            Encrypt(c, env, once, keyName', iv') == Ok(once)
  {
    hide EncodedBody, ResolveKeyMaterial;
  }

  /**
    What the safe reader gives for any value: the fallback for none and for an envelope that cannot be
    opened, the text of one that can, which is never the envelope itself, and any other value as it is.
   */
  lemma SafeReaderNeverShowsEnvelopes(c: Cipher, env: map<string, string>, value: Option<string>, keyName: string,
                                      fallback: Option<string>)
    requires Faithful(c)
    ensures var r := DecryptOptionalSafe(c, env, value, keyName, fallback);
            && (value.None? || value.value == "" ==> r == fallback)
            && (value.Some? && value.value != "" && !(PREFIX <= value.value) ==> r == value)
            && (value.Some? && PREFIX <= value.value ==>
                  var text := Decrypt(c, env, value.value, keyName);
                  && (text.Err? ==> r == fallback)
                  && (text.Ok? ==> r == Some(text.value) && |text.value| < |value.value|))
  {
    hide Decrypt;
    if value.Some? && value.value != "" {
      if IsEncrypted(value.value) {
        OpensToLess(c, env, value.value, keyName);
      } else {
        PlainIsKept(c, env, value.value, keyName);
      }
    }
  }

  /** The safe reader gives back every stored plaintext. */
  lemma SafeReadsBack(c: Cipher, env: map<string, string>, text: string, keyName: string, iv: Bytes,
                      other: string, fallback: Option<string>)
    requires Faithful(c) && |iv| == IV_BYTES && keyName != "" && ':' !in keyName && text != "" && !IsEncrypted(text)
    requires Encrypt(c, env, text, keyName, iv).Ok?
    ensures DecryptOptionalSafe(c, env, Some(Encrypt(c, env, text, keyName, iv).value), other, fallback) == Some(text)
    ensures DecryptOptionalSafe(c, env, Some(text), other, fallback) == Some(text)
  {
    hide Decrypt, EncodedBody, ResolveKeyMaterial;
    RoundTripIff(c, env, text, keyName, iv, other);
    PlainIsKept(c, env, text, other);
  }

  lemma PlainIsKept(c: Cipher, env: map<string, string>, text: string, other: string)
    requires !IsEncrypted(text)
    ensures Decrypt(c, env, text, other) == Ok(text)
  {
  }

  /** The four key names of the service are fit for printing. */
  lemma KeyNamesAreFit(keyName: string)
    requires keyName in CRYPTO_KEYS
    ensures keyName != "" && ':' !in keyName
  {
  }

  /**
    Under the key names of the service, with the key configured: every text is encrypted, and comes
    back exactly when it did not already look encrypted.
   */
  lemma ServiceRoundTripIff(c: Cipher, env: map<string, string>, text: string, keyName: string, iv: Bytes,
                            other: string)
    requires Faithful(c) && |iv| == IV_BYTES && keyName in CRYPTO_KEYS
    requires ResolveKeyMaterial(env, keyName).Ok?
    ensures var stored := Encrypt(c, env, text, keyName, iv);
            && stored.Ok?
            && (Decrypt(c, env, stored.value, other) == Ok(text) <==> !IsEncrypted(text))
            && (IsEncrypted(stored.value) <==> text != "")
  {
    hide Decrypt, ResolveKeyMaterial, EncodedBody, Split;
    KeyNamesAreFit(keyName);
    if text == "" {
      PlainIsKept(c, env, text, other);
    } else {
      RoundTripIff(c, env, text, keyName, iv, other);
    }
  }

  // ----- A cipher of this kind ---------------------------------------------------------------

  function Ones(n: nat): (bytes: Bytes)
    ensures |bytes| == n
  {
    seq(n, _ => 1)
  }

  /** Each character in unary, ended by a zero. */
  function ToBytes(text: string): (bytes: Bytes)
    ensures |text| <= |bytes|
  {
    if text == [] then [] else Ones(text[0] as int) + ([0] + ToBytes(text[1..]))
  }

  function FromBytes(bytes: Bytes, n: nat): (text: Option<string>)
    ensures text.Some? ==> |text.value| <= |bytes|
  {
    if bytes == [] then if n == 0 then Some([]) else None
    else if bytes[0] != 0 then FromBytes(bytes[1..], n + 1)
    else
      var rest := FromBytes(bytes[1..], 0);
      if rest.None? || n >= 0x11_0000 || 0xd800 <= n < 0xe000 then None else Some([n as char] + rest.value)
  }

  lemma {:induction false} OnesAreCounted(k: nat, n: nat, tail: Bytes)
    ensures FromBytes(Ones(k) + tail, n) == FromBytes(tail, n + k)
    decreases k
  {
    if k == 0 {
      assert Ones(0) + tail == tail;
    } else {
      assert (Ones(k) + tail)[1..] == Ones(k - 1) + tail;
      OnesAreCounted(k - 1, n + 1, tail);
    }
  }

  lemma {:induction false} TextComesBack(text: string)
    ensures FromBytes(ToBytes(text), 0) == Some(text)
    decreases |text|
  {
    if text != [] {
      var tail := [0] + ToBytes(text[1..]);
      OnesAreCounted(text[0] as int, 0, tail);
      assert tail[1..] == ToBytes(text[1..]);
      TextComesBack(text[1..]);
      assert [text[0]] + text[1..] == text;
    }
  }

  const SIXTEEN: Bytes := [0, 0, 0, 0, 0, 0, 0, 0, 0, 0, 0, 0, 0, 0, 0, 0]

  /** The requirements on the cipher can be met. */
  lemma FaithfulCiphersExist()
    ensures exists c :: Faithful(c)
  {
    var c := Cipher((key, iv, text) => (ToBytes(text), SIXTEEN), (key, iv, tag, sealed) => FromBytes(sealed, 0));
    forall text: string
      ensures FromBytes(ToBytes(text), 0) == Some(text)
    {
      TextComesBack(text);
    }
    hide ToBytes, FromBytes;
    assert Faithful(c);
  }
}
