/** Decryption (src/utils/decryption.ts): the four base64 strings are decoded, the
    tag is appended to the ciphertext, the key is imported and AES-GCM verifies and
    decrypts; the text is parsed as JSON and its `userData` and `aiPrompt` read. */
module Decryption {
  import opened Wrappers
  import opened Bytes
  import opened Json
  import opened AesGcm
  import Base64
  import Utf8
  import Encryption

  const DecryptPrefix := "Error al desencriptar datos: "
  /** Names of the exceptions thrown by foreign code; their message texts are foreign. */
  const InvalidCharacterError := "InvalidCharacterError"
  const DataError := "DataError"
  const OperationError := "OperationError"
  const SyntaxError := "SyntaxError"
  const TypeError := "TypeError"

  datatype DecryptionInput = DecryptionInput(ciphertext: string, iv: string, tag: string, aesKey: string)
  /** The two members read from the parsed object; `None` is `undefined`. */
  datatype DecryptionResult = DecryptionResult(userData: Option<Json>, aiPrompt: Option<Json>)

  /** `atob`: a base64 string to a binary string (one character per byte). */
  function Atob(s: string): (r: Option<string>)
    ensures r.Some? <==> Base64.Decode(s).Some?
    ensures r.Some? ==> IsBinary(r.value) && CodesOf(r.value) == Base64.Decode(s).value
  {
    match Base64.Decode(s)
    case None => None
    case Some(bs) => Some(BinaryOf(bs))
  }

  /** The bytes a base64 string stands for, or the exception `atob` throws. */
  function BytesOf(s: string): Result<seq<uint8>>
  {
    match Base64.Decode(s)
    case None => Err(InvalidCharacterError)
    case Some(bs) => Ok(bs)
  }

  /** `base64ToArrayBuffer`: `atob`, then each character code into a fresh array. */
  method Base64ToArrayBuffer(base64: string) returns (r: Result<seq<uint8>>)
    ensures r == BytesOf(base64)
  {
    var binaryString := Atob(base64);
    if binaryString.None? {
      return Err(InvalidCharacterError);
    }
    var binary := binaryString.value;
    var bytes := new uint8[|binary|];
    var i := 0;
    while i < |binary|
      invariant 0 <= i <= |binary|
      invariant forall j :: 0 <= j < i ==> bytes[j] == binary[j] as int
    {
      bytes[i] := binary[i] as int;
      i := i + 1;
    }
    assert bytes[..] == CodesOf(binary);
    r := Ok(bytes[..]);
  }

  /** `arrayBufferToString` as written: every byte becomes the character with that
      code, which is Latin-1 decoding rather than the UTF-8 the text was encoded with. */
  method ArrayBufferToString(buffer: seq<uint8>) returns (s: string)
    ensures s == BinaryOf(buffer)
  {
    s := "";
    var i := 0;
    while i < |buffer|
      invariant 0 <= i <= |buffer|
      invariant |s| == i
      invariant forall j :: 0 <= j < i ==> s[j] as int == buffer[j]
    {
      s := s + [CharOf(buffer[i])];
      i := i + 1;
    }
  }

  /** The as-written conversion gives back the encrypted text exactly when that
      text is ASCII. */
  lemma {:induction false} Latin1InvertsUtf8IffAscii(s: string)
    ensures BinaryOf(Utf8.Encode(s)) == s <==> Utf8.IsAscii(s)
  {
    Utf8.EncodeLengthIffAscii(s);
    if Utf8.IsAscii(s) {
      assert forall i :: 0 <= i < |s| ==> BinaryOf(Utf8.Encode(s))[i] == s[i];
    }
  }

  /** A user name such as "é" comes back as "Ã©". */
  lemma Latin1Counterexample()
    ensures Utf8.Encode("é") == [0xC3, 0xA9]
    ensures BinaryOf(Utf8.Encode("é")) == "Ã©" != "é"
  {
    assert Utf8.Encode("é") == Utf8.EncodeChar('é') + Utf8.Encode("");
  }

  /** The corrected conversion: strict UTF-8 decoding (`new TextDecoder('utf-8',
      { fatal: true })`), the inverse of the encoder used for encryption. */
  function DecodeText(bytes: seq<uint8>): (r: Result<string>)
    ensures forall s :: bytes == Utf8.Encode(s) ==> r == Ok(s)
  {
    assert forall t :: bytes == Utf8.Encode(t) ==> Utf8.Decode(bytes) == Some(t) by {
      forall t | bytes == Utf8.Encode(t) ensures Utf8.Decode(bytes) == Some(t) {
        Utf8.DecodeEncode(t);
      }
    }
    match Utf8.Decode(bytes)
    case None => Err(TypeError)
    case Some(s) => Ok(s)
  }

  /** `importAESKey`: raw import accepts 128-, 192- and 256-bit keys. */
  function ImportAESKey(keyData: seq<uint8>): (r: Result<seq<uint8>>)
    ensures r.Ok? <==> |keyData| in {16, 24, 32}
    ensures r.Ok? ==> r.value == keyData
  {
    if |keyData| == 16 || |keyData| == 24 || |keyData| == 32 then Ok(keyData) else Err(DataError)
  }

  /** `decryptUserData` up to the plaintext bytes: the four base64 texts decoded in
      turn, the key imported, and the ciphertext with its tag opened. */
  function OpenSteps(gcm: Gcm, input: DecryptionInput): Result<seq<uint8>>
  {
    match (BytesOf(input.aesKey), BytesOf(input.iv), BytesOf(input.tag), BytesOf(input.ciphertext))
    case (Err(m), _, _, _) => Err(m)
    case (_, Err(m), _, _) => Err(m)
    case (_, _, Err(m), _) => Err(m)
    case (_, _, _, Err(m)) => Err(m)
    case (Ok(keyData), Ok(iv), Ok(tag), Ok(ct)) =>
      match ImportAESKey(keyData)
      case Err(m) => Err(m)
      case Ok(key) =>
        match gcm.open(key, iv, ct + tag)
        case None => Err(OperationError)
        case Some(plain) => Ok(plain)
  }

  /** `decryptUserData` after the text: JSON, then the two members (reading a member
      of `null` throws). */
  function ReadPlaintext(codec: Codec, text: string): Result<DecryptionResult>
  {
    match codec.parse(text)
    case None => Err(SyntaxError)
    case Some(JNull) => Err(TypeError)
    case Some(obj) => Ok(DecryptionResult(Member(obj, "userData"), Member(obj, "aiPrompt")))
  }

  /** `decryptUserData` as written, without its error prefix: the plaintext bytes
      become text through `arrayBufferToString`. */
  function DecryptSteps(gcm: Gcm, codec: Codec, input: DecryptionInput): Result<DecryptionResult>
  {
    match OpenSteps(gcm, input)
    case Err(m) => Err(m)
    case Ok(plain) => ReadPlaintext(codec, BinaryOf(plain))
  }

  /** `decryptUserData` as written. */
  function DecryptWith(gcm: Gcm, codec: Codec, input: DecryptionInput): (r: Result<DecryptionResult>)
    ensures r.Ok? <==> DecryptSteps(gcm, codec, input).Ok?
    ensures r.Ok? ==> r == DecryptSteps(gcm, codec, input)
    ensures r.Err? ==> DecryptPrefix <= r.msg
  {
    Rethrow(DecryptPrefix, DecryptSteps(gcm, codec, input))
  }

  /** The corrected pipeline, without its error prefix: the plaintext bytes are
      decoded as UTF-8. */
  function DecryptStepsCorrected(gcm: Gcm, codec: Codec, input: DecryptionInput): Result<DecryptionResult>
  {
    match OpenSteps(gcm, input)
    case Err(m) => Err(m)
    case Ok(plain) =>
      match DecodeText(plain)
      case Err(m) => Err(m)
      case Ok(text) => ReadPlaintext(codec, text)
  }

  /** The corrected `decryptUserData`. */
  function DecryptCorrected(gcm: Gcm, codec: Codec, input: DecryptionInput): (r: Result<DecryptionResult>)
    ensures r.Ok? <==> DecryptStepsCorrected(gcm, codec, input).Ok?
    ensures r.Ok? ==> r == DecryptStepsCorrected(gcm, codec, input)
    ensures r.Err? ==> DecryptPrefix <= r.msg
  {
    Rethrow(DecryptPrefix, DecryptStepsCorrected(gcm, codec, input))
  }

  /** The combined buffer: ciphertext at offset 0, the tag right after it. */
  method CombineCiphertextTag(ct: seq<uint8>, tag: seq<uint8>) returns (combined: seq<uint8>)
    ensures combined == ct + tag
  {
    var a := new uint8[|ct| + |tag|];
    var i := 0;
    while i < |ct|
      invariant 0 <= i <= |ct|
      invariant forall j :: 0 <= j < i ==> a[j] == ct[j]
    {
      a[i] := ct[i];
      i := i + 1;
    }
    i := 0;
    while i < |tag|
      invariant 0 <= i <= |tag|
      invariant forall j :: 0 <= j < |ct| ==> a[j] == ct[j]
      invariant forall j :: 0 <= j < i ==> a[|ct| + j] == tag[j]
    {
      a[|ct| + i] := tag[i];
      i := i + 1;
    }
    combined := a[..];
  }

  /** `decryptUserData` */
  method DecryptUserData(gcm: Gcm, codec: Codec, input: DecryptionInput) returns (r: Result<DecryptionResult>)
    ensures r == DecryptWith(gcm, codec, input)
  {
    var keyData := Base64ToArrayBuffer(input.aesKey);
    var ivData := Base64ToArrayBuffer(input.iv);
    var tagData := Base64ToArrayBuffer(input.tag);
    var ciphertextData := Base64ToArrayBuffer(input.ciphertext);
    if keyData.Err? { return Err(DecryptPrefix + keyData.msg); }
    if ivData.Err? { return Err(DecryptPrefix + ivData.msg); }
    if tagData.Err? { return Err(DecryptPrefix + tagData.msg); }
    if ciphertextData.Err? { return Err(DecryptPrefix + ciphertextData.msg); }
    var combined := CombineCiphertextTag(ciphertextData.value, tagData.value);
    var key := ImportAESKey(keyData.value);
    if key.Err? { return Err(DecryptPrefix + key.msg); }
    var decrypted := gcm.open(key.value, ivData.value, combined);
    if decrypted.None? { return Err(DecryptPrefix + OperationError); }
    var decryptedString := ArrayBufferToString(decrypted.value);
    r := Rethrow(DecryptPrefix, ReadPlaintext(codec, decryptedString));
  }

  /** The bytes the envelope of an encryption opens to are the UTF-8 encoding of
      its payload's JSON text. */
  lemma OpenEncrypted(gcm: Gcm, codec: Codec, key: seq<uint8>, iv: seq<uint8>, input: Encryption.EncryptionInput)
    requires AesGcm.Lawful(gcm)
    requires |key| == KeyBytes
    requires Encryption.EncryptWith(gcm, codec, key, iv, input).Ok?
    ensures var e := Encryption.EncryptWith(gcm, codec, key, iv, input).value;
      OpenSteps(gcm, DecryptionInput(e.ciphertext, e.iv, e.tag, e.aesKey))
        == Ok(Utf8.Encode(codec.stringify(Encryption.Payload(input))))
  {
    var plain := Encryption.PlaintextBytes(codec, input);
    var out := gcm.seal(key, iv, plain).value;
    var (ct, tag) := SplitTag(out);
    Base64.DecodeEncode(key);
    Base64.DecodeEncode(iv);
    Base64.DecodeEncode(ct);
    Base64.DecodeEncode(tag);
    assert ct + tag == out;
  }

  /** As written, decrypting what encryption produced gives back the user's data
      and prompt when the JSON text of the payload is ASCII. */
  lemma DecryptEncrypt(gcm: Gcm, codec: Codec, key: seq<uint8>, iv: seq<uint8>, input: Encryption.EncryptionInput)
    requires AesGcm.Lawful(gcm) && RoundTrips(codec)
    requires |key| == KeyBytes
    requires Encryption.EncryptWith(gcm, codec, key, iv, input).Ok?
    requires Utf8.IsAscii(codec.stringify(Encryption.Payload(input)))
    ensures var e := Encryption.EncryptWith(gcm, codec, key, iv, input).value;
      DecryptWith(gcm, codec, DecryptionInput(e.ciphertext, e.iv, e.tag, e.aesKey))
        == Ok(DecryptionResult(Some(input.userData), Some(JStr(input.aiPrompt))))
  {
    OpenEncrypted(gcm, codec, key, iv, input);
    Latin1InvertsUtf8IffAscii(codec.stringify(Encryption.Payload(input)));
  }

  /** As written, a payload whose JSON text is not ASCII reaches `JSON.parse` as a
      different text from the one that was encrypted. */
  lemma NonAsciiTextAltered(gcm: Gcm, codec: Codec, key: seq<uint8>, iv: seq<uint8>, input: Encryption.EncryptionInput)
    requires AesGcm.Lawful(gcm)
    requires |key| == KeyBytes
    requires Encryption.EncryptWith(gcm, codec, key, iv, input).Ok?
    requires !Utf8.IsAscii(codec.stringify(Encryption.Payload(input)))
    ensures var e := Encryption.EncryptWith(gcm, codec, key, iv, input).value;
      var plainText := OpenSteps(gcm, DecryptionInput(e.ciphertext, e.iv, e.tag, e.aesKey));
      plainText.Ok? && BinaryOf(plainText.value) != codec.stringify(Encryption.Payload(input))
  {
    OpenEncrypted(gcm, codec, key, iv, input);
    Latin1InvertsUtf8IffAscii(codec.stringify(Encryption.Payload(input)));
  }

  /** With the corrected decoder, decrypting what encryption produced gives back the
      user's data and prompt for every payload. */
  lemma DecryptEncryptCorrected(gcm: Gcm, codec: Codec, key: seq<uint8>, iv: seq<uint8>, input: Encryption.EncryptionInput)
    requires AesGcm.Lawful(gcm) && RoundTrips(codec)
    requires |key| == KeyBytes
    requires Encryption.EncryptWith(gcm, codec, key, iv, input).Ok?
    ensures var e := Encryption.EncryptWith(gcm, codec, key, iv, input).value;
      DecryptCorrected(gcm, codec, DecryptionInput(e.ciphertext, e.iv, e.tag, e.aesKey))
        == Ok(DecryptionResult(Some(input.userData), Some(JStr(input.aiPrompt))))
  {
    OpenEncrypted(gcm, codec, key, iv, input);
    var text := codec.stringify(Encryption.Payload(input));
    assert DecodeText(Utf8.Encode(text)) == Ok(text);
  }

  /** Replacing the stored tag with any other 16 bytes makes decryption fail with
      the authentication error. */
  lemma ForgedTagRejected(gcm: Gcm, codec: Codec, key: seq<uint8>, iv: seq<uint8>,
                          input: Encryption.EncryptionInput, tag': seq<uint8>)
    requires AesGcm.Lawful(gcm)
    requires |key| == KeyBytes
    requires Encryption.EncryptWith(gcm, codec, key, iv, input).Ok?
    requires |tag'| == TagBytes && Some(tag') != Base64.Decode(Encryption.EncryptWith(gcm, codec, key, iv, input).value.tag)
    ensures var e := Encryption.EncryptWith(gcm, codec, key, iv, input).value;
      DecryptWith(gcm, codec, DecryptionInput(e.ciphertext, e.iv, Base64.Encode(tag'), e.aesKey))
        == Err(DecryptPrefix + OperationError)
  {
    var plain := Encryption.PlaintextBytes(codec, input);
    var out := gcm.seal(key, iv, plain).value;
    var (ct, tag) := SplitTag(out);
    Base64.DecodeEncode(key);
    Base64.DecodeEncode(iv);
    Base64.DecodeEncode(ct);
    Base64.DecodeEncode(tag);
    Base64.DecodeEncode(tag');
    TamperedTagRejected(gcm, key, iv, plain, tag');
  }

  /** A missing value reaches `atob` as the text "undefined", which is not base64,
      so decryption fails before any key is imported. */
  lemma UndefinedIsNotBase64(gcm: Gcm, codec: Codec, input: DecryptionInput)
    requires input.aesKey == "undefined" || input.iv == "undefined" || input.tag == "undefined"
    ensures DecryptWith(gcm, codec, input) == Err(DecryptPrefix + InvalidCharacterError)
  {
    assert Base64.Decode("undefined") == None;
  }
}
