/** The content-addressed blob store (src/utils/ipfs.ts): upload of the encrypted
    document through the Pinata SDK, which is loaded lazily and kept, and retrieval
    through an HTTP gateway with one fallback to the public gateway. */
module Ipfs {
  import opened Wrappers
  import opened Bytes
  import opened Json
  import opened JsText
  import Utf8

  const UploadPrefix := "Error al subir a IPFS: "
  const FetchPrefix := "Error al obtener datos de IPFS: "
  const JwtMissing := "Pinata JWT not configured. Set VITE_PINATA_JWT in your environment variables."
  const SdkMissing := "Failed to load Pinata SDK"
  const BadFormat := "Los datos obtenidos de IPFS no tienen el formato esperado (faltan ciphertext, iv o tag)"
  const DefaultGateway := "https://gateway.pinata.cloud/ipfs/"
  const PublicGateway := "https://ipfs.io/ipfs/"
  const FileName := "encrypted-data.json"
  const JsonMime := "application/json"
  /** Names of the exceptions thrown by foreign code; their message texts are foreign. */
  const FetchFailed := "TypeError"
  const SyntaxError := "SyntaxError"
  const TypeError := "TypeError"

  /** `import.meta.env.X?.trim() || ''` */
  function EnvSetting(raw: Option<string>): string
  {
    if raw.Some? then Trim(raw.value) else ""
  }

  /** A setting is empty when the variable is unset, and never starts or ends with
      white space, so trimming it again changes nothing. */
  lemma EnvSettingTrimmed(raw: Option<string>)
    ensures raw == None ==> EnvSetting(raw) == ""
    ensures var s := EnvSetting(raw); |s| > 0 ==> !IsWhitespace(s[0]) && !IsWhitespace(s[|s| - 1])
    ensures Trim(EnvSetting(raw)) == EnvSetting(raw)
  {
    if raw.Some? {
      TrimIdempotent(raw.value);
    }
  }

  datatype IPFSUploadInput = IPFSUploadInput(ciphertext: string, iv: string, tag: string)
  datatype IPFSUploadResult = IPFSUploadResult(cid: string, size: int)
  /** What a gateway returned; each member is whatever the JSON held (`None` is `undefined`). */
  datatype IPFSEncryptedData = IPFSEncryptedData(ciphertext: Option<Json>, iv: Option<Json>, tag: Option<Json>)

  /** The outcome of `await import('pinata')`: the module with its `PinataSDK`
      export, a failed import, or a module without that export. */
  datatype SdkImport = SdkLoaded | SdkImportFailed(message: string) | SdkWithoutExport
  /** The reply of `pinata.upload.public.file`. */
  datatype PinReply = PinRejected(message: string) | Pinned(cid: Option<string>, size: Option<int>)
  datatype UploadedFile = UploadedFile(name: string, mimeType: string, content: seq<uint8>)
  /** The settled promise of `fetch(url)` with the body already read by `.json()`
      (`None` when the body is not JSON). */
  datatype HttpReply = NetworkFailure | Response(status: int, statusText: string, body: Option<Json>)

  /** The document that is uploaded: the three base64 strings, nothing else. */
  function Document(input: IPFSUploadInput): (j: Json)
    ensures StringMember(j, "ciphertext") == Some(input.ciphertext)
    ensures StringMember(j, "iv") == Some(input.iv)
    ensures StringMember(j, "tag") == Some(input.tag)
    ensures forall k :: k != "ciphertext" && k != "iv" && k != "tag" ==> Member(j, k) == None
  {
    assert "ciphertext" != "iv" && "iv" != "tag" && "ciphertext" != "tag" by {
      assert "ciphertext"[0] != "iv"[0] && "iv"[0] != "tag"[0] && "ciphertext"[0] != "tag"[0];
    }
    Triple("ciphertext", input.ciphertext, "iv", input.iv, "tag", input.tag)
  }

  /** The bytes of the blob: the JSON text of the document in UTF-8. */
  function DocumentBytes(codec: Codec, input: IPFSUploadInput): seq<uint8>
  {
    Utf8.Encode(codec.stringify(Document(input)))
  }

  function ImportError(i: SdkImport): string
  {
    match i
    case SdkImportFailed(m) => "Failed to load Pinata SDK: " + m + ". Make sure the 'pinata' package is installed."
    case _ => SdkMissing
  }

  /** `{ cid: result.cid || '', size: result.size || jsonBlob.size }` */
  function PinResult(reply: PinReply, blobSize: nat): (r: Result<IPFSUploadResult>)
    ensures reply.PinRejected? <==> r.Err?
    ensures r.Ok? ==> r.value.cid == (if reply.cid.Some? then reply.cid.value else "")
    ensures r.Ok? ==> (r.value.size == blobSize <==> reply.size in {None, Some(0), Some(blobSize)})
    ensures r.Ok? && reply.size.Some? && reply.size.value != 0 ==> r.value.size == reply.size.value
  {
    match reply
    case PinRejected(m) => Err(m)
    case Pinned(cid, size) =>
      Ok(IPFSUploadResult(
        match cid case Some(c) => c case None => "",
        match size case Some(n) => (if n != 0 then n else blobSize) case None => blobSize))
  }

  /** `uploadToIPFS` given whether the SDK is already loaded. */
  function UploadOutcome(jwt: string, loaded: bool, sdkImport: SdkImport, pin: seq<uint8> -> PinReply,
                         codec: Codec, input: IPFSUploadInput): Result<IPFSUploadResult>
  {
    var bytes := DocumentBytes(codec, input);
    Rethrow(UploadPrefix,
      if jwt == "" then Err(JwtMissing)
      else if !loaded && !sdkImport.SdkLoaded? then Err(ImportError(sdkImport))
      else PinResult(pin(bytes), |bytes|))
  }

  /** The Pinata client: its configuration, the lazily loaded SDK class and the
      files handed to it so far. */
  class Pinata {
    const jwt: string
    const gateway: string
    const sdkImport: SdkImport
    const pin: seq<uint8> -> PinReply
    var sdkLoaded: bool
    var importAttempts: nat
    var uploads: seq<UploadedFile>

    constructor (jwtEnv: Option<string>, gatewayEnv: Option<string>, sdkImport: SdkImport, pin: seq<uint8> -> PinReply)
      ensures jwt == EnvSetting(jwtEnv) && gateway == EnvSetting(gatewayEnv)
      ensures this.sdkImport == sdkImport && this.pin == pin
      ensures !sdkLoaded && importAttempts == 0 && uploads == []
    {
      jwt := EnvSetting(jwtEnv);
      gateway := EnvSetting(gatewayEnv);
      this.sdkImport := sdkImport;
      this.pin := pin;
      sdkLoaded := false;
      importAttempts := 0;
      uploads := [];
    }

    /** `uploadToIPFS` */
    method UploadToIPFS(codec: Codec, input: IPFSUploadInput) returns (r: Result<IPFSUploadResult>)
      modifies this
      ensures r == UploadOutcome(jwt, old(sdkLoaded), sdkImport, pin, codec, input)
      ensures sdkLoaded == (old(sdkLoaded) || (jwt != "" && sdkImport.SdkLoaded?))
      ensures importAttempts == old(importAttempts) + (if jwt != "" && !old(sdkLoaded) then 1 else 0)
      ensures uploads == old(uploads) +
        (if jwt != "" && sdkLoaded then [UploadedFile(FileName, JsonMime, DocumentBytes(codec, input))] else [])
    {
      if jwt == "" {
        return Err(UploadPrefix + JwtMissing);
      }
      if !sdkLoaded {
        importAttempts := importAttempts + 1;
        if sdkImport.SdkImportFailed? {
          return Err(UploadPrefix + ImportError(sdkImport));
        }
        sdkLoaded := sdkImport.SdkLoaded?;
      }
      if !sdkLoaded {
        return Err(UploadPrefix + SdkMissing);
      }
      var jsonBytes := Utf8.Encode(codec.stringify(Document(input)));
      uploads := uploads + [UploadedFile(FileName, JsonMime, jsonBytes)];
      var reply := pin(jsonBytes);
      r := Rethrow(UploadPrefix, PinResult(reply, |jsonBytes|));
    }
  }

  /** Without a JWT nothing is loaded or uploaded and the configuration error is reported. */
  lemma UploadWithoutJwt(loaded: bool, sdkImport: SdkImport, pin: seq<uint8> -> PinReply, codec: Codec, input: IPFSUploadInput)
    ensures UploadOutcome("", loaded, sdkImport, pin, codec, input) == Err(UploadPrefix + JwtMissing)
  {
  }

  /** Once the SDK is loaded, an upload's result depends only on Pinata's reply
      to the document bytes; the import outcome no longer matters. */
  lemma LoadedSdkReused(jwt: string, i1: SdkImport, i2: SdkImport, pin: seq<uint8> -> PinReply, codec: Codec, input: IPFSUploadInput)
    requires jwt != ""
    ensures UploadOutcome(jwt, true, i1, pin, codec, input) == UploadOutcome(jwt, true, i2, pin, codec, input)
    ensures UploadOutcome(jwt, true, i1, pin, codec, input).Ok? <==> pin(DocumentBytes(codec, input)).Pinned?
  {
  }

  /** The uploaded blob parses back to a document holding exactly the three input strings. */
  lemma UploadedDocumentRoundTrip(codec: Codec, input: IPFSUploadInput)
    requires RoundTrips(codec)
    ensures Utf8.Decode(DocumentBytes(codec, input)) == Some(codec.stringify(Document(input)))
    ensures codec.parse(codec.stringify(Document(input))) == Some(Document(input))
  {
    Utf8.DecodeEncode(codec.stringify(Document(input)));
  }

  /** Everything an upload reports as an error carries the module's prefix. */
  lemma UploadErrorsPrefixed(jwt: string, loaded: bool, sdkImport: SdkImport, pin: seq<uint8> -> PinReply,
                             codec: Codec, input: IPFSUploadInput)
    ensures var r := UploadOutcome(jwt, loaded, sdkImport, pin, codec, input);
      r.Err? ==> UploadPrefix <= r.msg
  {
  }

  /** `url.replace(/\/$/, '')`: at most one trailing slash goes. */
  function DropTrailingSlash(url: string): (r: string)
    ensures url == r || url == r + "/"
    ensures |url| > 0 && url[|url| - 1] == '/' ==> |r| == |url| - 1
  {
    if |url| > 0 && url[|url| - 1] == '/' then url[..|url| - 1] else url
  }

  /** The primary gateway URL of a cid. */
  function GatewayUrl(gateway: string, cid: string): (url: string)
    ensures gateway == "" ==> url == DefaultGateway + cid
    ensures gateway != "" && gateway[|gateway| - 1] == '/' ==> url == gateway + cid
    ensures gateway != "" && gateway[|gateway| - 1] != '/' ==> url == gateway + "/" + cid
  {
    if gateway != "" then
      assert gateway[|gateway| - 1] == '/' ==> gateway == DropTrailingSlash(gateway) + "/";
      DropTrailingSlash(gateway) + "/" + cid
    else DefaultGateway + cid
  }

  predicate IsOk(status: int)
  {
    200 <= status <= 299
  }

  function HttpError(status: int, statusText: string): string
  {
    FetchPrefix + "HTTP " + IntToString(status) + " - " + statusText
  }

  function Fields(data: Json): IPFSEncryptedData
  {
    IPFSEncryptedData(Member(data, "ciphertext"), Member(data, "iv"), Member(data, "tag"))
  }

  /** The body of the primary response: parsed, then checked for the three members. */
  function ReadChecked(body: Option<Json>): (r: Result<IPFSEncryptedData>)
    ensures r.Ok? ==> Truthy(r.value.ciphertext) && Truthy(r.value.iv) && Truthy(r.value.tag)
  {
    match body
    case None => Err(SyntaxError)
    case Some(JNull) => Err(TypeError)
    case Some(data) =>
      var d := Fields(data);
      if !Truthy(d.ciphertext) || !Truthy(d.iv) || !Truthy(d.tag) then Err(BadFormat) else Ok(d)
  }

  /** The public-gateway reply, read without checking the members. */
  function ReadUnchecked(reply: HttpReply): Result<IPFSEncryptedData>
  {
    match reply
    case NetworkFailure => Err(FetchFailed)
    case Response(status, text, body) =>
      if !IsOk(status) then Err(HttpError(status, text))
      else
        match body
        case None => Err(SyntaxError)
        case Some(JNull) => Err(TypeError)
        case Some(data) => Ok(Fields(data))
  }

  /** The specification of `fetchFromIPFS`: its result and the URLs it requested,
      in order. The method `FetchFromIPFS` below is proved to compute it, and the
      lemmas after it state the fallback rule on it. */
  function FetchOutcome(gateway: string, http: string -> HttpReply, cid: string): (Result<IPFSEncryptedData>, seq<string>)
  {
    var url := GatewayUrl(gateway, cid);
    match http(url)
    case NetworkFailure => (Err(FetchPrefix + FetchFailed), [url])
    case Response(status, text, body) =>
      if !IsOk(status) then
        if Includes(url, "pinata.cloud") then
          var publicUrl := PublicGateway + cid;
          (Rethrow(FetchPrefix, ReadUnchecked(http(publicUrl))), [url, publicUrl])
        else (Err(FetchPrefix + HttpError(status, text)), [url])
      else (Rethrow(FetchPrefix, ReadChecked(body)), [url])
  }

  /** `fetchFromIPFS` */
  method FetchFromIPFS(gateway: string, http: string -> HttpReply, cid: string)
    returns (r: Result<IPFSEncryptedData>, requested: seq<string>)
    ensures (r, requested) == FetchOutcome(gateway, http, cid)
  {
    var gatewayUrl := if gateway != "" then DropTrailingSlash(gateway) + "/" + cid else DefaultGateway + cid;
    requested := [gatewayUrl];
    var response := http(gatewayUrl);
    if response.NetworkFailure? {
      return Err(FetchPrefix + FetchFailed), requested;
    }
    if !IsOk(response.status) {
      if Includes(gatewayUrl, "pinata.cloud") {
        var publicGatewayUrl := PublicGateway + cid;
        requested := requested + [publicGatewayUrl];
        var publicResponse := http(publicGatewayUrl);
        r := Rethrow(FetchPrefix, ReadUnchecked(publicResponse));
        assert requested == [gatewayUrl, publicGatewayUrl];
        return;
      }
      return Err(FetchPrefix + HttpError(response.status, response.statusText)), requested;
    }
    r := Rethrow(FetchPrefix, ReadChecked(response.body));
  }

  /** The first request goes to the primary URL; a second one is made exactly when
      the primary answered with a non-OK status and its URL names pinata.cloud, and
      it goes to the public gateway. */
  lemma FallbackRule(gateway: string, http: string -> HttpReply, cid: string)
    ensures var (_, urls) := FetchOutcome(gateway, http, cid);
      && 1 <= |urls| <= 2
      && urls[0] == GatewayUrl(gateway, cid)
      && (|urls| == 2 <==> (http(urls[0]).Response? && !IsOk(http(urls[0]).status) && Includes(urls[0], "pinata.cloud")))
      && (|urls| == 2 ==> urls[1] == PublicGateway + cid)
  {
  }

  /** Without a configured gateway the primary URL is Pinata's, so a failing
      status always leads to the public-gateway retry. */
  lemma DefaultGatewayFallsBack(http: string -> HttpReply, cid: string)
    requires http(DefaultGateway + cid).Response? && !IsOk(http(DefaultGateway + cid).status)
    ensures FetchOutcome("", http, cid).1 == [DefaultGateway + cid, PublicGateway + cid]
  {
    DefaultUrlNamesPinata(cid);
  }

  lemma DefaultUrlNamesPinata(cid: string)
    ensures Includes(DefaultGateway + cid, "pinata.cloud")
  {
    assert DefaultGateway + cid == "https://gateway." + "pinata.cloud" + ("/ipfs/" + cid);
    IncludesAppend("https://gateway.", "pinata.cloud", "/ipfs/" + cid);
  }

  /** Data from the primary gateway is returned only when all three members are
      truthy; the fallback returns whatever the public gateway held. */
  lemma PrimaryValidatedFallbackNot(gateway: string, http: string -> HttpReply, cid: string)
    ensures var (r, urls) := FetchOutcome(gateway, http, cid);
      r.Ok? && |urls| == 1 ==> Truthy(r.value.ciphertext) && Truthy(r.value.iv) && Truthy(r.value.tag)
    ensures var (r, urls) := FetchOutcome(gateway, http, cid);
      |urls| == 2 && http(urls[1]) == Response(200, "OK", Some(JObj([]))) ==>
        r == Ok(IPFSEncryptedData(None, None, None))
  {
  }

  /** Every failure of `fetchFromIPFS` carries the module's prefix. */
  lemma FetchErrorsPrefixed(gateway: string, http: string -> HttpReply, cid: string)
    ensures var (r, _) := FetchOutcome(gateway, http, cid); r.Err? ==> FetchPrefix <= r.msg
  {
  }
}
