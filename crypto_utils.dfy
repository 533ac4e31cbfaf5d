/**
 * The signature scheme that protects guestbook entries (`CryptoUtils`):
 * the exact payload that is signed, key generation, signing, verification,
 * and the check applied to every stored sign.
 */
module CryptoUtils {
  import opened Common
  import opened Ed25519
  import Utf8
  import Hex

  /** The content a signature covers: a message and the signer's user id. */
  datatype SignatureData = SignatureData(message: string, userId: string)

  datatype KeyPair = KeyPair(publicKey: seq<byte>, privateKey: seq<byte>)

  /** What `generateSignatureForSign` returns: the key pair and two hex strings. */
  datatype SignatureOutput = SignatureOutput(keyPair: KeyPair, signature: string, publicKey: string)

  /** A public key as `getPublicKeyDisplay` accepts it: raw bytes or a string. */
  datatype PublicKeyInput = RawKey(bytes: seq<byte>) | TextKey(text: string)

  /** The fields of a stored sign that `verifySign` is given. */
  datatype StoredSign = StoredSign(
    message: Option<string>,
    createdAt: string,
    userId: Option<string>,
    isAnonymous: bool,
    publicKey: Option<string>,
    signature: Option<string>)

  /** Why a stored sign has no verdict: missing key or signature, or undecodable hex. */
  datatype VerifyError = MissingSignatureData | MalformedHex(cause: Hex.HexError)

  /** `{isValid, publicKeyDisplay?, error?}` */
  datatype Verification = Verification(
    isValid: bool,
    publicKeyDisplay: Option<string>,
    error: Option<VerifyError>)

  const Delimiter: char := '|'
  const AnonymousMessage: string := "Anonymous"
  /** Characters of the public key's hex shown for troubleshooting. */
  const DisplayLength := 16

  /** JavaScript's `s || ""` on an optional string: absent and empty both read as "". */
  function OrEmpty(s: Option<string>): (r: string)
    ensures r == "" <==> s.None? || s.value == ""
    ensures r != "" ==> s == Some(r)
  {
    if s.Some? then s.value else ""
  }

  /** The message a sign's signature covers: "Anonymous" for anonymous signs. */
  function DisplayMessage(isAnonymous: bool, message: Option<string>): (r: string)
    ensures isAnonymous ==> r == AnonymousMessage
    ensures !isAnonymous && message.Some? ==> r == message.value
    ensures !isAnonymous && message.None? ==> r == ""
  {
    if isAnonymous then AnonymousMessage else OrEmpty(message)
  }

  // ---------------------------------------------------------------- payload

  /**
   * `createMessage`: the UTF-8 encoding of `message + "|" + userId`; the
   * encoded message, one 0x7C byte, then the encoded user id.
   */
  function CreateMessage(data: SignatureData): (r: seq<byte>)
    ensures r == Utf8.Encode(data.message) + [0x7C] + Utf8.Encode(data.userId)
    ensures Utf8.Decode(r) == Some(data.message + [Delimiter] + data.userId)
  {
    var combined := data.message + [Delimiter] + data.userId;
    PayloadLayout(data.message, data.userId);
    Utf8.DecodeEncode(combined);
    Utf8.Encode(combined)
  }

  lemma PayloadLayout(message: string, userId: string)
    ensures Utf8.Encode(message + [Delimiter] + userId)
            == Utf8.Encode(message) + [0x7C] + Utf8.Encode(userId)
  {
    Utf8.EncodeAppend(message, [Delimiter] + userId);
    Utf8.EncodeAppend([Delimiter], userId);
    assert Utf8.Encode([Delimiter]) == [0x7C];
    assert message + [Delimiter] + userId == message + ([Delimiter] + userId);
  }

  /**
   * The delimiter is not escaped, so two different (message, user id) pairs
   * can sign the same bytes.
   */
  lemma PayloadIsNotInjective()
    ensures SignatureData("a|b", "c") != SignatureData("a", "b|c")
    ensures CreateMessage(SignatureData("a|b", "c")) == CreateMessage(SignatureData("a", "b|c"))
  {
    assert "a|b" + [Delimiter] + "c" == "a" + [Delimiter] + "b|c";
  }

  // ---------------------------------------------------------------- keys

  /** The XOR of the low `width` bits of two numbers, one bit at a time. */
  function XorBits(a: nat, b: nat, width: nat): (r: nat)
    ensures r < Pow2(width)
  {
    if width == 0 then 0 else (a % 2 + b % 2) % 2 + 2 * XorBits(a / 2, b / 2, width - 1)
  }

  lemma ByteRange()
    ensures Pow2(8) == 256
  {
    assert Pow2(4) == 16;
  }

  /** Bit `k` of `x`, counting from the least significant bit. */
  predicate Bit(x: nat, k: nat)
  {
    if k == 0 then x % 2 == 1 else Bit(x / 2, k - 1)
  }

  /** Each of the low `width` bits of `XorBits` is set exactly when the two inputs' bits differ. */
  lemma {:induction false} XorBitsBit(a: nat, b: nat, width: nat, k: nat)
    requires k < width
    ensures Bit(XorBits(a, b, width), k) == (Bit(a, k) != Bit(b, k))
  {
    var x := XorBits(a, b, width);
    assert x == (a % 2 + b % 2) % 2 + 2 * XorBits(a / 2, b / 2, width - 1);
    if k > 0 {
      XorBitsBit(a / 2, b / 2, width - 1, k - 1);
    }
  }

  /** JavaScript's `^` on two bytes: bit k of the result is set iff bit k of exactly one input is. */
  function Xor(a: byte, b: byte): (r: byte)
    ensures forall k :: 0 <= k < 8 ==> (Bit(r, k) <==> Bit(a, k) != Bit(b, k))
  {
    ByteRange();
    forall k | 0 <= k < 8
      ensures Bit(XorBits(a, b, 8), k) == (Bit(a, k) != Bit(b, k))
    {
      XorBitsBit(a, b, 8, k);
    }
    XorBits(a, b, 8)
  }

  /** `Date.now().toString()`: the decimal digits of the clock in milliseconds. */
  function DecimalString(n: nat): (r: string)
    ensures |r| >= 1
    ensures forall i :: 0 <= i < |r| ==> '0' <= r[i] <= '9'
    ensures r[0] == '0' <==> n == 0
  {
    var digit := (n % 10 + '0' as int) as char;
    if n < 10 then [digit] else DecimalString(n / 10) + [digit]
  }

  /** The number a string of decimal digits denotes, most significant digit first. */
  function DecimalValue(s: string): (n: int)
    decreases |s|
  {
    if s == [] then 0 else 10 * DecimalValue(s[..|s| - 1]) + (s[|s| - 1] as int - '0' as int)
  }

  /** `toString` and reading the digits back agree: the clock reading is recovered. */
  lemma {:induction false} DecimalStringValue(n: nat)
    ensures DecimalValue(DecimalString(n)) == n
  {
    var r := DecimalString(n);
    if n >= 10 {
      DecimalStringValue(n / 10);
      assert r[..|r| - 1] == DecimalString(n / 10);
    }
  }

  /**
   * `new TextEncoder().encode(timestamp)`: one byte per digit, the digit's
   * ASCII code.
   */
  function TimestampBytes(nowMillis: nat): (r: seq<byte>)
    ensures |r| == |DecimalString(nowMillis)| >= 1
    ensures forall i :: 0 <= i < |r| ==> r[i] == DecimalString(nowMillis)[i] as int
  {
    Utf8.EncodeAscii(DecimalString(nowMillis));
    Utf8.Encode(DecimalString(nowMillis))
  }

  /**
   * `key` is 32 bytes, byte i being `random1[i] ^ random2[i] ^ ts[i % |ts|]`.
   */
  ghost predicate IsMixedKey(key: seq<byte>, random1: seq<byte>, random2: seq<byte>, ts: seq<byte>)
    requires |random1| == SecretKeyLength && |random2| == SecretKeyLength && |ts| > 0
  {
    && |key| == SecretKeyLength
    && forall i :: 0 <= i < SecretKeyLength ==> key[i] == Xor(Xor(random1[i], random2[i]), ts[i % |ts|])
  }

  /** The key `generateKeyPair` computes from its two random buffers and the clock bytes. */
  function MixedKey(random1: seq<byte>, random2: seq<byte>, ts: seq<byte>): (key: seq<byte>)
    requires |random1| == SecretKeyLength && |random2| == SecretKeyLength && |ts| > 0
    ensures IsMixedKey(key, random1, random2, ts)
  {
    seq(SecretKeyLength, i requires 0 <= i < SecretKeyLength => Xor(Xor(random1[i], random2[i]), ts[i % |ts|]))
  }

  /** The mixing rule fixes the key: `MixedKey` is the only key that meets it. */
  lemma MixedKeyIsUnique(key: seq<byte>, random1: seq<byte>, random2: seq<byte>, ts: seq<byte>)
    requires |random1| == SecretKeyLength && |random2| == SecretKeyLength && |ts| > 0
    requires IsMixedKey(key, random1, random2, ts)
    ensures key == MixedKey(random1, random2, ts)
  {
  }

  lemma XorCancels(a: byte, b: byte)
    ensures Xor(Xor(a, b), b) == a
  {
    ByteRange();
    XorBitsCancel(a, b, 8);
  }

  /** XOR-ing twice with the same bits gives back what fits in `width` bits. */
  lemma {:induction false} XorBitsCancel(a: nat, b: nat, width: nat)
    requires a < Pow2(width)
    ensures XorBits(XorBits(a, b, width), b, width) == a
  {
    if width > 0 {
      var bit, high := (a % 2 + b % 2) % 2, XorBits(a / 2, b / 2, width - 1);
      var x := XorBits(a, b, width);
      assert x == bit + 2 * high;
      assert x % 2 == bit && x / 2 == high;
      assert (bit + b % 2) % 2 == a % 2;
      assert Pow2(width) == 2 * Pow2(width - 1);
      XorBitsCancel(a / 2, b / 2, width - 1);
      assert XorBits(x, b, width) == a % 2 + 2 * (a / 2);
    }
  }

  /**
   * The mixing is a bijection of the first random buffer for a fixed second
   * buffer and timestamp: XOR-ing the key with them gives that buffer back.
   */
  lemma MixingIsInvertible(key: seq<byte>, random1: seq<byte>, random2: seq<byte>, ts: seq<byte>)
    requires |random1| == SecretKeyLength && |random2| == SecretKeyLength && |ts| > 0
    requires IsMixedKey(key, random1, random2, ts)
    ensures forall i :: 0 <= i < SecretKeyLength ==> random1[i] == Xor(Xor(key[i], ts[i % |ts|]), random2[i])
  {
    forall i | 0 <= i < SecretKeyLength
      ensures random1[i] == Xor(Xor(key[i], ts[i % |ts|]), random2[i])
    {
      XorCancels(Xor(random1[i], random2[i]), ts[i % |ts|]);
      XorCancels(random1[i], random2[i]);
    }
  }

  /**
   * `generateKeyPair`: fills a fresh 32-byte array from two random buffers and
   * the clock, then derives the public key. The random buffers and the clock
   * reading are parameters.
   */
  method GenerateKeyPair(scheme: Scheme, nowMillis: nat, random1: seq<byte>, random2: seq<byte>)
    returns (keyPair: KeyPair)
    requires |random1| == SecretKeyLength && |random2| == SecretKeyLength
    ensures IsMixedKey(keyPair.privateKey, random1, random2, TimestampBytes(nowMillis))
    ensures keyPair.privateKey == MixedKey(random1, random2, TimestampBytes(nowMillis))
    ensures keyPair.publicKey == scheme.getPublicKey(keyPair.privateKey)
  {
    var timestampBytes := Utf8.Encode(DecimalString(nowMillis));
    var combined := new byte[SecretKeyLength];
    for i := 0 to SecretKeyLength
      invariant forall j :: 0 <= j < i ==>
                  combined[j] == Xor(Xor(random1[j], random2[j]), timestampBytes[j % |timestampBytes|])
    {
      var timestampByte := timestampBytes[i % |timestampBytes|];
      combined[i] := Xor(Xor(random1[i], random2[i]), timestampByte);
    }
    var privateKey := combined[..];
    MixedKeyIsUnique(privateKey, random1, random2, timestampBytes);
    keyPair := KeyPair(scheme.getPublicKey(privateKey), privateKey);
  }

  // ---------------------------------------------------------------- sign and verify

  /** `sign`: Ed25519 over the payload of `data`. */
  function Sign(scheme: Scheme, data: SignatureData, privateKey: seq<byte>): (r: seq<byte>)
    ensures Correct(scheme) && |privateKey| == SecretKeyLength ==>
              |r| == SignatureLength && Verify(scheme, data, r, scheme.getPublicKey(privateKey))
  {
    scheme.sign(CreateMessage(data), privateKey)
  }

  /** `verify`: true only when the library returns true; a throw reads as false. */
  function Verify(scheme: Scheme, data: SignatureData, signature: seq<byte>, publicKey: seq<byte>): (r: bool)
    ensures r <==> scheme.verify(signature, CreateMessage(data), publicKey) == Returned(true)
  {
    match scheme.verify(signature, CreateMessage(data), publicKey)
    case Returned(valid) => valid
    case Threw => false
  }

  /** `getPublicKeyDisplay`: the first (up to) 16 characters of the key's hex. */
  function GetPublicKeyDisplay(key: PublicKeyInput): (r: string)
    ensures var hex := if key.RawKey? then Hex.Encode(key.bytes) else key.text;
            |r| == Min(DisplayLength, |hex|) && r == hex[..|r|]
  {
    var hex := match key
      case RawKey(bytes) => Hex.Encode(bytes)
      case TextKey(text) => text;
    hex[..Min(DisplayLength, |hex|)]
  }

  /**
   * `generateSignatureForSign`: signs ("Anonymous", userId) for anonymous
   * signs and (message or "", userId) otherwise, with a fresh key pair, and
   * returns the signature and the public key as hex.
   */
  method GenerateSignatureForSign(
    scheme: Scheme, message: string, userId: string, isAnonymous: bool,
    nowMillis: nat, random1: seq<byte>, random2: seq<byte>)
    returns (out: SignatureOutput)
    requires |random1| == SecretKeyLength && |random2| == SecretKeyLength
    ensures IsMixedKey(out.keyPair.privateKey, random1, random2, TimestampBytes(nowMillis))
    ensures out.keyPair.privateKey == MixedKey(random1, random2, TimestampBytes(nowMillis))
    ensures out.keyPair.publicKey == scheme.getPublicKey(out.keyPair.privateKey)
    ensures out.signature
            == Hex.Encode(Sign(scheme, SignatureData(if isAnonymous then "Anonymous" else message, userId),
                               out.keyPair.privateKey))
    ensures out.publicKey == Hex.Encode(out.keyPair.publicKey)
  {
    var displayMessage := DisplayMessage(isAnonymous, Some(message));
    var data := SignatureData(displayMessage, userId);
    var keyPair := GenerateKeyPair(scheme, nowMillis, random1, random2);
    var signatureBytes := Sign(scheme, data, keyPair.privateKey);
    out := SignatureOutput(keyPair, Hex.Encode(signatureBytes), Hex.Encode(keyPair.publicKey));
  }

  /**
   * `verifySign`: never throws. A missing or empty key or signature gives
   * `MissingSignatureData`; a hex string that does not decode gives its
   * decoding error; otherwise the verdict of `verify` with the display of
   * the decoded key.
   */
  function VerifySign(scheme: Scheme, s: StoredSign): (r: Verification)
    ensures r.isValid ==> r.error.None?
    ensures r.publicKeyDisplay.Some? <==> r.error.None?
    ensures r.error == Some(MissingSignatureData) <==> OrEmpty(s.publicKey) == "" || OrEmpty(s.signature) == ""
    ensures r.publicKeyDisplay.Some? <==>
              && OrEmpty(s.publicKey) != "" && OrEmpty(s.signature) != ""
              && Hex.Decode(s.publicKey.value).Success? && Hex.Decode(s.signature.value).Success?
    ensures r.publicKeyDisplay.Some? ==>
              var key := s.publicKey.value;
              r.publicKeyDisplay.value == Hex.Lower(key)[..Min(DisplayLength, |key|)]
    ensures r.isValid <==>
              && r.publicKeyDisplay.Some?
              && scheme.verify(Hex.Decode(s.signature.value).value,
                               CreateMessage(SignatureData(DisplayMessage(s.isAnonymous, s.message), OrEmpty(s.userId))),
                               Hex.Decode(s.publicKey.value).value)
                 == Returned(true)
  {
    if OrEmpty(s.publicKey) == "" || OrEmpty(s.signature) == "" then
      Verification(false, None, Some(MissingSignatureData))
    else
      var data := SignatureData(DisplayMessage(s.isAnonymous, s.message), OrEmpty(s.userId));
      match Hex.Decode(s.publicKey.value)
      case Failure(e) => Verification(false, None, Some(MalformedHex(e)))
      case Success(publicKey) =>
        match Hex.Decode(s.signature.value)
        case Failure(e) => Verification(false, None, Some(MalformedHex(e)))
        case Success(signature) =>
          Hex.EncodeDecode(s.publicKey.value);
          Verification(Verify(scheme, data, signature, publicKey), Some(GetPublicKeyDisplay(RawKey(publicKey))), None)
  }

  // ---------------------------------------------------------------- properties

  /** Lower-case hex is its own canonical form. */
  lemma {:induction false} LowerOfEncode(bytes: seq<byte>)
    ensures Hex.Lower(Hex.Encode(bytes)) == Hex.Encode(bytes)
  {
    var hex := Hex.Encode(bytes);
    assert forall i :: 0 <= i < |hex| ==> Hex.LowerChar(hex[i]) == hex[i];
  }

  /**
   * Round trip: a record holding the hex public key of `secretKey` and the
   * hex signature, made with `secretKey`, over the record's own display
   * message and user id verifies, and shows the first 16 characters of the
   * stored key.
   */
  lemma VerifySignRoundTrip(scheme: Scheme, secretKey: seq<byte>, s: StoredSign)
    requires Correct(scheme) && |secretKey| == SecretKeyLength
    requires s.publicKey == Some(Hex.Encode(scheme.getPublicKey(secretKey)))
    requires s.signature
             == Some(Hex.Encode(Sign(scheme, SignatureData(DisplayMessage(s.isAnonymous, s.message), OrEmpty(s.userId)),
                                     secretKey)))
    ensures VerifySign(scheme, s) == Verification(true, Some(s.publicKey.value[..DisplayLength]), None)
  {
    var data := SignatureData(DisplayMessage(s.isAnonymous, s.message), OrEmpty(s.userId));
    var publicKey := scheme.getPublicKey(secretKey);
    var signature := Sign(scheme, data, secretKey);
    Hex.DecodeEncode(publicKey);
    Hex.DecodeEncode(signature);
    LowerOfEncode(publicKey);
  }

  /** `created_at` is never read: it is not part of what is signed. */
  lemma VerifySignIgnoresCreatedAt(scheme: Scheme, s: StoredSign, createdAt: string)
    ensures VerifySign(scheme, s.(createdAt := createdAt)) == VerifySign(scheme, s)
  {
  }

  /** For an anonymous sign the stored message has no effect on the verdict. */
  lemma VerifySignAnonymousIgnoresMessage(scheme: Scheme, s: StoredSign, message: Option<string>)
    requires s.isAnonymous
    ensures VerifySign(scheme, s.(message := message)) == VerifySign(scheme, s)
  {
  }
}
