/** Encryption of a user's data with AES-256-GCM (src/utils/encryption.ts): a fresh
    256-bit key and 96-bit IV, the JSON text `{userData, aiPrompt}` encoded as UTF-8,
    and the ciphertext, tag, IV and key handed back in base64. */
module Encryption {
  import opened Wrappers
  import opened Bytes
  import opened Json
  import opened AesGcm
  import Base64
  import Utf8

  const EncryptPrefix := "Error al encriptar datos: "
  /** The name of the exception Web Crypto rejects with; its message text is foreign. */
  const OperationError := "OperationError"

  datatype EncryptionInput = EncryptionInput(userId: string, userData: Json, aiPrompt: string)
  datatype EncryptionResult = EncryptionResult(ciphertext: string, iv: string, aesKey: string, tag: string)

  /** `n` consecutive bytes of a random stream starting at position `from`. */
  function Window(stream: nat -> uint8, from: nat, n: nat): (w: seq<uint8>)
    ensures |w| == n
  {
    seq(n, i requires 0 <= i < n => stream(from + i))
  }

  /** The browser's cryptographically secure generator: every request is served
      with the next bytes of `stream`, so no two requests read the same positions
      of the stream. Nothing is assumed about the values at those positions: two
      draws may still yield equal keys or IVs. */
  class CryptoRandom {
    const stream: nat -> uint8
    var pos: nat

    constructor (stream: nat -> uint8)
      ensures this.stream == stream && pos == 0
    {
      this.stream := stream;
      pos := 0;
    }

    /** `crypto.getRandomValues(a)` */
    method Fill(a: array<uint8>)
      modifies this, a
      ensures pos == old(pos) + a.Length
      ensures a[..] == Window(stream, old(pos), a.Length)
    {
      var i := 0;
      while i < a.Length
        invariant 0 <= i <= a.Length
        invariant pos == old(pos) + i
        invariant forall j :: 0 <= j < i ==> a[j] == stream(old(pos) + j)
      {
        a[i] := stream(pos);
        pos := pos + 1;
        i := i + 1;
      }
    }
  }

  /** `generateAESKey` followed by `exportKey('raw', key)`: the next 32 bytes of the stream. */
  method GenerateAESKey(rng: CryptoRandom) returns (key: seq<uint8>)
    modifies rng
    ensures rng.pos == old(rng.pos) + KeyBytes
    ensures key == Window(rng.stream, old(rng.pos), KeyBytes)
  {
    var a := new uint8[KeyBytes];
    rng.Fill(a);
    key := a[..];
  }

  /** `generateIV`: a new 12-byte array filled with the next bytes of the stream. */
  method GenerateIV(rng: CryptoRandom) returns (iv: array<uint8>)
    modifies rng
    ensures fresh(iv)
    ensures rng.pos == old(rng.pos) + IvBytes
    ensures iv[..] == Window(rng.stream, old(rng.pos), IvBytes)
  {
    iv := new uint8[IvBytes];
    rng.Fill(iv);
  }

  /** `new Uint8Array(src.length)` followed by `set(src)`: a fresh copy. */
  method CopyBytes(src: array<uint8>) returns (dst: array<uint8>)
    ensures fresh(dst)
    ensures dst[..] == src[..]
  {
    dst := new uint8[src.Length];
    var i := 0;
    while i < src.Length
      invariant 0 <= i <= src.Length
      invariant forall j :: 0 <= j < i ==> dst[j] == src[j]
    {
      dst[i] := src[i];
      i := i + 1;
    }
  }

  /** `arrayBufferToBase64`: the bytes as a binary string, then `btoa`. */
  method ArrayBufferToBase64(buffer: seq<uint8>) returns (s: string)
    ensures s == Base64.Encode(buffer)
    ensures Base64.Decode(s) == Some(buffer)
  {
    var binary := "";
    var i := 0;
    while i < |buffer|
      invariant 0 <= i <= |buffer|
      invariant |binary| == i
      invariant forall j :: 0 <= j < i ==> binary[j] as int == buffer[j]
    {
      binary := binary + [CharOf(buffer[i])];
      i := i + 1;
    }
    assert CodesOf(binary) == buffer;
    s := Base64.Encode(CodesOf(binary));
    Base64.DecodeEncode(buffer);
  }

  /** The object `{ userData, aiPrompt }` that is encrypted; the user id is not part of it. */
  function Payload(input: EncryptionInput): (j: Json)
    ensures Member(j, "userData") == Some(input.userData)
    ensures Member(j, "aiPrompt") == Some(JStr(input.aiPrompt))
    ensures forall k :: k != "userData" && k != "aiPrompt" ==> Member(j, k) == None
  {
    var ms := [("userData", input.userData), ("aiPrompt", JStr(input.aiPrompt))];
    assert ms[..1] == [("userData", input.userData)];
    assert "userData" != "aiPrompt" by { assert "userData"[0] != "aiPrompt"[0]; }
    assert LastMember(ms, "userData") == LastMember(ms[..1], "userData");
    JObj(ms)
  }

  /** The bytes that are encrypted: the UTF-8 encoding of the JSON text. */
  function PlaintextBytes(codec: Codec, input: EncryptionInput): seq<uint8>
  {
    Utf8.Encode(codec.stringify(Payload(input)))
  }

  /** `encryptUserData` once the key and IV have been drawn. */
  function EncryptWith(gcm: Gcm, codec: Codec, key: seq<uint8>, iv: seq<uint8>, input: EncryptionInput)
    : Result<EncryptionResult>
    requires Lawful(gcm)
  {
    match gcm.seal(key, iv, PlaintextBytes(codec, input))
    case None => Err(EncryptPrefix + OperationError)
    case Some(out) =>
      var (ct, tag) := SplitTag(out);
      Ok(EncryptionResult(Base64.Encode(ct), Base64.Encode(iv), Base64.Encode(key), Base64.Encode(tag)))
  }

  /** `encryptUserData`: draws a key, then an IV, and encrypts. */
  method EncryptUserData(rng: CryptoRandom, gcm: Gcm, codec: Codec, input: EncryptionInput)
    returns (r: Result<EncryptionResult>)
    requires Lawful(gcm)
    modifies rng
    ensures rng.pos == old(rng.pos) + KeyBytes + IvBytes
    ensures r == EncryptWith(gcm, codec, Window(rng.stream, old(rng.pos), KeyBytes),
                             Window(rng.stream, old(rng.pos) + KeyBytes, IvBytes), input)
  {
    var key := GenerateAESKey(rng);
    var ivArray := GenerateIV(rng);
    var iv := CopyBytes(ivArray);
    var plaintextBuffer := Utf8.Encode(codec.stringify(Payload(input)));
    var aesKeyBase64 := ArrayBufferToBase64(key);
    var sealed := gcm.seal(key, iv[..], plaintextBuffer);
    if sealed.None? {
      return Err(EncryptPrefix + OperationError);
    }
    var (ct, tag) := SplitTag(sealed.value);
    var ivBuffer := CopyBytes(iv);
    var ciphertext64 := ArrayBufferToBase64(ct);
    var iv64 := ArrayBufferToBase64(ivBuffer[..]);
    var tag64 := ArrayBufferToBase64(tag);
    r := Ok(EncryptionResult(ciphertext64, iv64, aesKeyBase64, tag64));
  }

  /** With a 256-bit key and a 96-bit IV encryption succeeds whenever the UTF-8 text
      is within the GCM limit, and its four outputs decode to a ciphertext as long as
      the plaintext, the IV, the key and a 16-byte tag. */
  lemma EncryptOutputs(gcm: Gcm, codec: Codec, key: seq<uint8>, iv: seq<uint8>, input: EncryptionInput)
    requires Lawful(gcm) && |key| == KeyBytes && |iv| == IvBytes
    requires |PlaintextBytes(codec, input)| <= MaxPlaintextBytes
    ensures EncryptWith(gcm, codec, key, iv, input).Ok?
    ensures var e := EncryptWith(gcm, codec, key, iv, input).value;
      && Base64.Decode(e.aesKey) == Some(key)
      && Base64.Decode(e.iv) == Some(iv)
      && Base64.Decode(e.tag).Some? && |Base64.Decode(e.tag).value| == TagBytes
      && Base64.Decode(e.ciphertext).Some? && |Base64.Decode(e.ciphertext).value| == |PlaintextBytes(codec, input)|
  {
    var out := gcm.seal(key, iv, PlaintextBytes(codec, input)).value;
    var (ct, tag) := SplitTag(out);
    Base64.DecodeEncode(key);
    Base64.DecodeEncode(iv);
    Base64.DecodeEncode(ct);
    Base64.DecodeEncode(tag);
  }

  /** Encryption fails exactly when `crypto.subtle.encrypt` rejects, and the error
      carries the module's prefix. */
  lemma EncryptFailure(gcm: Gcm, codec: Codec, key: seq<uint8>, iv: seq<uint8>, input: EncryptionInput)
    requires Lawful(gcm)
    ensures EncryptWith(gcm, codec, key, iv, input).Err? <==> gcm.seal(key, iv, PlaintextBytes(codec, input)).None?
    ensures EncryptWith(gcm, codec, key, iv, input).Err? ==>
              EncryptWith(gcm, codec, key, iv, input).msg == EncryptPrefix + OperationError
  {
  }

  /** The user id never influences the result. */
  lemma UserIdNotEncrypted(gcm: Gcm, codec: Codec, key: seq<uint8>, iv: seq<uint8>, input: EncryptionInput, other: string)
    requires Lawful(gcm)
    ensures EncryptWith(gcm, codec, key, iv, input) == EncryptWith(gcm, codec, key, iv, input.(userId := other))
  {
    assert Payload(input) == Payload(input.(userId := other));
  }
}
