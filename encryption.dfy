/** The default encryption service: encrypt-then-MAC framing of a message as
    IV ‖ ciphertext ‖ MAC(IV ‖ ciphertext), with AES in its default mode as
    the cipher and HMAC-SHA256 as the MAC, both keyed from hex strings. The
    cipher, the MAC, UTF-8 and Base64 are parameters of the model. */
module Security {
  import opened Wrappers
  import CollectionExtensions

  newtype byte = x: int | 0 <= x < 256

  /** AES blocks, and so its IVs, are 128 bits. */
  const IvLength: nat := 128 / 8
  /** HMAC-SHA256 digests are 256 bits. */
  const MacLength: nat := 256 / 8

  type Iv = s: seq<byte> | |s| == IvLength witness seq(IvLength, _ => 0)
  type Digest = s: seq<byte> | |s| == MacLength witness seq(MacLength, _ => 0)

  /** The keyed primitives: `encrypt` and `decrypt` take the key, the IV and
      the data (decryption may reject the padding); `hmac` takes the key and
      the message. */
  datatype Primitives = Primitives(
    encrypt: (seq<byte>, Iv, seq<byte>) -> seq<byte>,
    decrypt: (seq<byte>, Iv, seq<byte>) -> Result<seq<byte>>,
    hmac: (seq<byte>, seq<byte>) -> Digest)

  /** The text conversions of the string members. */
  datatype TextCodec = TextCodec(
    utf8: string -> seq<byte>,
    fromUtf8: seq<byte> -> string,
    toBase64: seq<byte> -> string,
    fromBase64: string -> Result<seq<byte>>)

  /** The encryption and hash keys, as hex strings. */
  datatype EncryptionSettings = EncryptionSettings(encryptionKey: string, hashKey: string)

  /** The value of a hexadecimal digit, either case. */
  function HexValue(c: char): (r: Option<nat>)
    ensures r.Some? ==> r.value < 16
  {
    if '0' <= c <= '9' then Some(c as int - '0' as int)
    else if 'a' <= c <= 'f' then Some(c as int - 'a' as int + 10)
    else if 'A' <= c <= 'F' then Some(c as int - 'A' as int + 10)
    else None
  }

  predicate IsHex(s: string) {
    forall i | 0 <= i < |s| :: HexValue(s[i]).Some?
  }

  /** The hex key parser: every two characters from the start are read as
      one byte in base 16; a trailing single character is out of range, and
      a character that is no hex digit is a format error. */
  function ToByteArray(hex: string): Result<seq<byte>>
    decreases |hex|
  {
    if hex == [] then Success([])
    else if |hex| == 1 then Failure(ArgumentOutOfRange)
    else if HexValue(hex[0]).None? || HexValue(hex[1]).None? then Failure(Format)
    else
      var b := (16 * HexValue(hex[0]).value + HexValue(hex[1]).value) as byte;
      var rest :- ToByteArray(hex[2..]);
      Success([b] + rest)
  }

  /** A hex string of length 2n parses to n bytes, byte i read in base 16
      from characters 2i and 2i+1; the parse succeeds exactly for hex strings
      of even length, and a hex string of odd length is out of range. */
  lemma {:induction false} ToByteArrayShape(hex: string)
    ensures ToByteArray(hex).Success? <==> |hex| % 2 == 0 && IsHex(hex)
    ensures IsHex(hex) && |hex| % 2 == 1 ==> ToByteArray(hex) == Failure(ArgumentOutOfRange)
    ensures ToByteArray(hex).Success? ==>
      var r := ToByteArray(hex).value;
      && |r| == |hex| / 2
      && forall i | 0 <= i < |r| :: r[i] as int == 16 * HexValue(hex[2 * i]).value + HexValue(hex[2 * i + 1]).value
    decreases |hex|
  {
    if |hex| >= 2 {
      var tail := hex[2..];
      ToByteArrayShape(tail);
      assert IsHex(hex) <==> HexValue(hex[0]).Some? && HexValue(hex[1]).Some? && IsHex(tail) by {
        if HexValue(hex[0]).Some? && HexValue(hex[1]).Some? && IsHex(tail) {
          forall i | 0 <= i < |hex|
            ensures HexValue(hex[i]).Some?
          {
            if i >= 2 {
              assert hex[i] == tail[i - 2];
            }
          }
        }
        if IsHex(hex) {
          forall i | 0 <= i < |tail|
            ensures HexValue(tail[i]).Some?
          {
            assert tail[i] == hex[i + 2];
          }
        }
      }
      if ToByteArray(hex).Success? {
        var r := ToByteArray(hex).value;
        var rest := ToByteArray(tail).value;
        assert r == [r[0]] + rest;
        forall i | 1 <= i < |r|
          ensures r[i] as int == 16 * HexValue(hex[2 * i]).value + HexValue(hex[2 * i + 1]).value
        {
          assert r[i] == rest[i - 1];
          assert hex[2 * i] == tail[2 * (i - 1)] && hex[2 * i + 1] == tail[2 * (i - 1) + 1];
        }
      }
    }
  }

  /** The AES key: the parsed encryption key, which must be 128, 192 or 256
      bits long. */
  function AesKey(settings: EncryptionSettings): (r: Result<seq<byte>>)
    ensures r.Success? ==> ToByteArray(settings.encryptionKey) == Success(r.value) && |r.value| in {16, 24, 32}
    ensures ToByteArray(settings.encryptionKey).Success? && r.Failure? ==> r.error == CryptographicError
  {
    var key :- ToByteArray(settings.encryptionKey);
    if |key| in {16, 24, 32} then Success(key) else Failure(CryptographicError)
  }

  /** Both keys parse and the AES key has a size AES accepts. */
  predicate ValidKeys(settings: EncryptionSettings) {
    AesKey(settings).Success? && ToByteArray(settings.hashKey).Success?
  }

  /** The three parts of an encoded message. */
  datatype Parts = Parts(iv: Iv, data: seq<byte>, signature: Digest)

  /** The IV is the first block, the signature the last digest, and the
      ciphertext everything between. */
  function Frame(encoded: seq<byte>): (p: Parts)
    requires |encoded| >= IvLength + MacLength
    ensures encoded == p.iv + p.data + p.signature
  {
    Parts(encoded[..IvLength], encoded[IvLength..|encoded| - MacLength], encoded[|encoded| - MacLength..])
  }

  /** Framing the concatenation of the parts gives the parts back. */
  lemma FrameOfParts(iv: Iv, data: seq<byte>, signature: Digest)
    ensures Frame(iv + data + signature) == Parts(iv, data, signature)
  {
    var e := iv + data + signature;
    assert e[..IvLength] == iv;
    assert e[IvLength..|e| - MacLength] == data;
    assert e[|e| - MacLength..] == signature;
  }

  /** Encrypts `data` under the fresh `iv` and signs IV ‖ ciphertext. */
  function Encode(settings: EncryptionSettings, p: Primitives, iv: Iv, data: seq<byte>): (r: Result<seq<byte>>)
    ensures r.Success? <==> ValidKeys(settings)
    ensures r.Success? ==>
      var c := p.encrypt(AesKey(settings).value, iv, data);
      r.value == iv + c + p.hmac(ToByteArray(settings.hashKey).value, iv + c)
  {
    var key :- AesKey(settings);
    var c := p.encrypt(key, iv, data);
    var hashKey :- ToByteArray(settings.hashKey);
    Success(iv + c + p.hmac(hashKey, iv + c))
  }

  /** Checks the signature of an encoded message and decrypts it. A message
      shorter than an IV and a digest cannot be framed, and one whose
      signature differs from the MAC of the rest has been tampered with. */
  function Decode(settings: EncryptionSettings, p: Primitives, encoded: seq<byte>): (r: Result<seq<byte>>)
    ensures !ValidKeys(settings) ==> r.Failure?
    ensures ValidKeys(settings) && |encoded| < IvLength + MacLength ==> r == Failure(Overflow)
    ensures r.Success? ==>
      && |encoded| >= IvLength + MacLength
      && encoded[|encoded| - MacLength..] == p.hmac(ToByteArray(settings.hashKey).value, encoded[..|encoded| - MacLength])
    ensures (&& ValidKeys(settings) && |encoded| >= IvLength + MacLength
             && encoded[|encoded| - MacLength..] != p.hmac(ToByteArray(settings.hashKey).value, encoded[..|encoded| - MacLength]))
      ==> r == Failure(ArgumentError(""))
    ensures (&& ValidKeys(settings) && |encoded| >= IvLength + MacLength
             && encoded[|encoded| - MacLength..] == p.hmac(ToByteArray(settings.hashKey).value, encoded[..|encoded| - MacLength]))
      ==> r == p.decrypt(AesKey(settings).value, Frame(encoded).iv, Frame(encoded).data)
  {
    var key :- AesKey(settings);
    var hashKey :- ToByteArray(settings.hashKey);
    if |encoded| < IvLength + MacLength then Failure(Overflow)
    else
      var parts := Frame(encoded);
      assert encoded[..|encoded| - MacLength] == parts.iv + parts.data;
      if p.hmac(hashKey, parts.iv + parts.data) != parts.signature then Failure(ArgumentError(""))
      else p.decrypt(key, parts.iv, parts.data)
  }

  /** A fresh buffer holding `length` bytes of `src` from `from`. */
  method CopyOut(src: array<byte>, from: nat, length: nat) returns (dst: array<byte>)
    requires from + length <= src.Length
    ensures fresh(dst) && dst[..] == src[from..from + length]
  {
    dst := new byte[length];
    CollectionExtensions.ArrayCopy(src, from, dst, 0, length);
    assert dst[..] == [] + src[from..from + length] + [];
  }

  /** The buffers of `Decode`: the first block is copied into the IV, the
      bytes between it and the last digest into the ciphertext, and the last
      digest into the signature; a message too short for both has a negative
      ciphertext length, which overflows. */
  method CopyParts(encoded: array<byte>) returns (r: Result<(array<byte>, array<byte>, array<byte>)>)
    ensures encoded.Length < IvLength + MacLength ==> r == Failure(Overflow)
    ensures encoded.Length >= IvLength + MacLength ==>
      && r.Success?
      && fresh(r.value.0) && fresh(r.value.1) && fresh(r.value.2)
      && var parts := Frame(encoded[..]);
      && r.value.0[..] == parts.iv && r.value.1[..] == parts.data && r.value.2[..] == parts.signature
  {
    if encoded.Length < IvLength + MacLength {
      return Failure(Overflow);
    }
    var iv := CopyOut(encoded, 0, IvLength);
    var data := CopyOut(encoded, IvLength, encoded.Length - IvLength - MacLength);
    var signature := CopyOut(encoded, encoded.Length - MacLength, MacLength);
    r := Success((iv, data, signature));
  }

  /** `Decode` over the encoded buffer: it computes what `Decode` states. */
  method DecodeArray(settings: EncryptionSettings, p: Primitives, encoded: array<byte>) returns (r: Result<seq<byte>>)
    ensures r == Decode(settings, p, encoded[..])
  {
    var key := AesKey(settings);
    if key.Failure? {
      return Failure(key.error);
    }
    var hashKey := ToByteArray(settings.hashKey);
    if hashKey.Failure? {
      return Failure(hashKey.error);
    }
    var copied := CopyParts(encoded);
    if copied.Failure? {
      return Failure(copied.error);
    }
    var (iv, data, signature) := copied.value;
    var mac := p.hmac(hashKey.value, iv[..] + data[..]);
    if mac != signature[..] {
      return Failure(ArgumentError(""));
    }
    r := p.decrypt(key.value, iv[..], data[..]);
  }

  /** An untampered message passes the signature check and is decrypted
      with the IV and ciphertext it was built from; when decryption inverts
      encryption, decoding gives the data back. */
  lemma DecodeEncode(settings: EncryptionSettings, p: Primitives, iv: Iv, data: seq<byte>)
    requires ValidKeys(settings)
    ensures Decode(settings, p, Encode(settings, p, iv, data).value)
      == p.decrypt(AesKey(settings).value, iv, p.encrypt(AesKey(settings).value, iv, data))
  {
    var key := AesKey(settings).value;
    var hashKey := ToByteArray(settings.hashKey).value;
    var c := p.encrypt(key, iv, data);
    FrameOfParts(iv, c, p.hmac(hashKey, iv + c));
  }

  /** Decryption undoes encryption under the same key and IV. */
  ghost predicate Inverts(p: Primitives) {
    forall key, iv, data :: p.decrypt(key, iv, p.encrypt(key, iv, data)) == Success(data)
  }

  lemma EncodeRoundTrip(settings: EncryptionSettings, p: Primitives, iv: Iv, data: seq<byte>)
    requires ValidKeys(settings) && Inverts(p)
    ensures Decode(settings, p, Encode(settings, p, iv, data).value) == Success(data)
  {
    DecodeEncode(settings, p, iv, data);
  }

  /** The string form: null and empty strings pass through; anything else
      is UTF-8 encoded, encoded and written in Base64. */
  function EncodeText(settings: EncryptionSettings, p: Primitives, t: TextCodec, iv: Iv, data: Option<string>): (r: Result<Option<string>>)
    ensures data == None || data == Some([]) ==> r == Success(data)
    ensures data.Some? && data.value != [] ==>
      (r.Success? <==> ValidKeys(settings))
      && (r.Success? ==> r.value == Some(t.toBase64(Encode(settings, p, iv, t.utf8(data.value)).value)))
  {
    if data.None? || data.value == [] then Success(data)
    else
      var bytes :- Encode(settings, p, iv, t.utf8(data.value));
      Success(Some(t.toBase64(bytes)))
  }

  /** The string form: null and empty strings pass through; anything else
      is read from Base64, decoded and read as UTF-8. */
  function DecodeText(settings: EncryptionSettings, p: Primitives, t: TextCodec, encoded: Option<string>): (r: Result<Option<string>>)
    ensures encoded == None || encoded == Some([]) ==> r == Success(encoded)
    ensures encoded.Some? && encoded.value != [] ==>
      (r.Success? <==> t.fromBase64(encoded.value).Success? && Decode(settings, p, t.fromBase64(encoded.value).value).Success?)
      && (r.Success? ==> r.value == Some(t.fromUtf8(Decode(settings, p, t.fromBase64(encoded.value).value).value)))
  {
    if encoded.None? || encoded.value == [] then Success(encoded)
    else
      var bytes :- t.fromBase64(encoded.value);
      var plain :- Decode(settings, p, bytes);
      Success(Some(t.fromUtf8(plain)))
  }

  /** Base64 and UTF-8 read back what they wrote, and only no bytes are
      written as the empty string. */
  ghost predicate Faithful(t: TextCodec) {
    && (forall b :: t.fromBase64(t.toBase64(b)) == Success(b))
    && (forall b :: t.toBase64(b) == [] ==> b == [])
    && (forall s :: t.fromUtf8(t.utf8(s)) == s)
  }

  /** With valid keys, a faithful codec and a cipher that inverts, decoding
      the encoding of a string gives the string back; null and empty strings
      come back unchanged. */
  lemma EncodeTextRoundTrip(settings: EncryptionSettings, p: Primitives, t: TextCodec, iv: Iv, data: Option<string>)
    requires ValidKeys(settings) && Inverts(p) && Faithful(t)
    ensures EncodeText(settings, p, t, iv, data).Success?
    ensures DecodeText(settings, p, t, EncodeText(settings, p, t, iv, data).value) == Success(data)
  {
    if data.Some? && data.value != [] {
      var bytes := Encode(settings, p, iv, t.utf8(data.value)).value;
      EncodeRoundTrip(settings, p, iv, t.utf8(data.value));
      assert |bytes| >= IvLength + MacLength;
    }
  }
}
