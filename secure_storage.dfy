/** The secure-storage pipeline (src/utils/secureStorage.ts): encrypt, pin the
    ciphertext on IPFS, record the key material in Supabase and in the browser, and
    recover it all again. */
module SecureStorage {
  import opened Wrappers
  import opened Bytes
  import opened Json
  import JsText
  import Utf8
  import Base64
  import AesGcm
  import Encryption
  import Decryption
  import Ipfs
  import SupabaseTables
  import SupabaseStorage
  import opened WebStorage

  const SecurePrefix := "Error al guardar datos de forma segura: "
  const RecoverPrefix := "Error al recuperar datos: "
  const MetadataKeyPrefix := "ipfs-metadata-"

  datatype SecureStorageResult =
    SecureStorageResult(cid: string, size: int, aesKey: string, iv: string, tag: string, supabaseId: Option<string>)
  datatype UserIPFSMetadata =
    UserIPFSMetadata(userId: string, ipfsCid: string, size: int, createdAt: string, updatedAt: string)
  /** `userData` and `aiPrompt` are whatever the decrypted JSON held (`None` is `undefined`). */
  datatype RecoveredData = RecoveredData(userData: Option<Json>, aiPrompt: Option<Json>, cid: string, version: int)

  /** What goes to IPFS: the encryption result without its key. */
  function UploadInputOf(e: Encryption.EncryptionResult): Ipfs.IPFSUploadInput
  {
    Ipfs.IPFSUploadInput(e.ciphertext, e.iv, e.tag)
  }

  /** Encrypt, then pin the ciphertext, IV and tag, once the key and IV are drawn and
      the Pinata client's state is known; a failure keeps the inner message. This is
      the part `saveUserDataSecurely` and `saveTaskToIPFS` share. */
  function SealAndPin(gcm: AesGcm.Gcm, codec: Codec, key: seq<uint8>, iv: seq<uint8>,
                      jwt: string, loaded: bool, sdkImport: Ipfs.SdkImport, pin: seq<uint8> -> Ipfs.PinReply,
                      input: Encryption.EncryptionInput): Result<SecureStorageResult>
    requires AesGcm.Lawful(gcm)
  {
    match Encryption.EncryptWith(gcm, codec, key, iv, input)
    case Err(m) => Err(m)
    case Ok(e) =>
      match Ipfs.UploadOutcome(jwt, loaded, sdkImport, pin, codec, UploadInputOf(e))
      case Err(m) => Err(m)
      case Ok(u) => Ok(SecureStorageResult(u.cid, u.size, e.aesKey, e.iv, e.tag, None))
  }

  /** A failed seal-and-pin reports the encryption's or the upload's message. */
  lemma SealAndPinErrors(gcm: AesGcm.Gcm, codec: Codec, key: seq<uint8>, iv: seq<uint8>,
                         jwt: string, loaded: bool, sdkImport: Ipfs.SdkImport, pin: seq<uint8> -> Ipfs.PinReply,
                         input: Encryption.EncryptionInput)
    requires AesGcm.Lawful(gcm)
    ensures var r := SealAndPin(gcm, codec, key, iv, jwt, loaded, sdkImport, pin, input);
      r.Err? ==> Encryption.EncryptPrefix <= r.msg || Ipfs.UploadPrefix <= r.msg
  {
    var e := Encryption.EncryptWith(gcm, codec, key, iv, input);
    if e.Ok? {
      Ipfs.UploadErrorsPrefixed(jwt, loaded, sdkImport, pin, codec, UploadInputOf(e.value));
    }
  }

  /** `saveUserDataSecurely` once the key and IV are drawn and the Pinata client's
      state is known. */
  function SecurelyWith(gcm: AesGcm.Gcm, codec: Codec, key: seq<uint8>, iv: seq<uint8>,
                        jwt: string, loaded: bool, sdkImport: Ipfs.SdkImport, pin: seq<uint8> -> Ipfs.PinReply,
                        input: Encryption.EncryptionInput): Result<SecureStorageResult>
    requires AesGcm.Lawful(gcm)
  {
    Rethrow(SecurePrefix, SealAndPin(gcm, codec, key, iv, jwt, loaded, sdkImport, pin, input))
  }

  /** A secure save succeeds exactly when encryption and the upload both do; its
      location comes from the upload, its key material from the encryption, and
      every failure carries the module's prefix in front of the inner message. */
  lemma SecureResultParts(gcm: AesGcm.Gcm, codec: Codec, key: seq<uint8>, iv: seq<uint8>,
                          jwt: string, loaded: bool, sdkImport: Ipfs.SdkImport, pin: seq<uint8> -> Ipfs.PinReply,
                          input: Encryption.EncryptionInput)
    requires AesGcm.Lawful(gcm)
    ensures var r := SecurelyWith(gcm, codec, key, iv, jwt, loaded, sdkImport, pin, input);
      var e := Encryption.EncryptWith(gcm, codec, key, iv, input);
      && (r.Ok? <==> e.Ok? && Ipfs.UploadOutcome(jwt, loaded, sdkImport, pin, codec, UploadInputOf(e.value)).Ok?)
      && (r.Ok? ==>
            var u := Ipfs.UploadOutcome(jwt, loaded, sdkImport, pin, codec, UploadInputOf(e.value)).value;
            && r.value.cid == u.cid && r.value.size == u.size
            && r.value.aesKey == e.value.aesKey && r.value.iv == e.value.iv && r.value.tag == e.value.tag
            && r.value.supabaseId.None?)
      && (r.Err? ==> SecurePrefix + Encryption.EncryptPrefix <= r.msg || SecurePrefix + Ipfs.UploadPrefix <= r.msg)
  {
    var e := Encryption.EncryptWith(gcm, codec, key, iv, input);
    if e.Ok? {
      Ipfs.UploadErrorsPrefixed(jwt, loaded, sdkImport, pin, codec, UploadInputOf(e.value));
    }
  }

  /** The document pinned on IPFS parses back to the ciphertext, IV and tag of the
      encryption, and holds no member carrying the AES key. */
  lemma KeyNeverUploaded(codec: Codec, e: Encryption.EncryptionResult)
    requires RoundTrips(codec)
    ensures var text := Utf8.Decode(Ipfs.DocumentBytes(codec, UploadInputOf(e)));
      && text.Some? && codec.parse(text.value).Some?
      && var doc := codec.parse(text.value).value;
      && Member(doc, "aesKey") == None
      && Member(doc, "ciphertext") == Some(JStr(e.ciphertext))
      && Member(doc, "iv") == Some(JStr(e.iv))
      && Member(doc, "tag") == Some(JStr(e.tag))
  {
    Ipfs.UploadedDocumentRoundTrip(codec, UploadInputOf(e));
  }

  /** `saveUserDataSecurely` */
  method SaveUserDataSecurely(rng: Encryption.CryptoRandom, gcm: AesGcm.Gcm, codec: Codec, pinata: Ipfs.Pinata,
                              userId: string, userData: Json, aiPrompt: string)
    returns (r: Result<SecureStorageResult>)
    requires AesGcm.Lawful(gcm)
    modifies rng, pinata
    ensures rng.pos == old(rng.pos) + AesGcm.KeyBytes + AesGcm.IvBytes
    ensures r == old(SecurelyWith(gcm, codec, Encryption.Window(rng.stream, rng.pos, AesGcm.KeyBytes),
                                  Encryption.Window(rng.stream, rng.pos + AesGcm.KeyBytes, AesGcm.IvBytes),
                                  pinata.jwt, pinata.sdkLoaded, pinata.sdkImport, pinata.pin,
                                  Encryption.EncryptionInput(userId, userData, aiPrompt)))
    ensures var e := old(Encryption.EncryptWith(gcm, codec, Encryption.Window(rng.stream, rng.pos, AesGcm.KeyBytes),
                                               Encryption.Window(rng.stream, rng.pos + AesGcm.KeyBytes, AesGcm.IvBytes),
                                               Encryption.EncryptionInput(userId, userData, aiPrompt)));
      && (e.Err? ==> pinata.uploads == old(pinata.uploads) && pinata.sdkLoaded == old(pinata.sdkLoaded)
                     && pinata.importAttempts == old(pinata.importAttempts))
      && (e.Ok? ==>
            && pinata.sdkLoaded == (old(pinata.sdkLoaded) || (pinata.jwt != "" && pinata.sdkImport.SdkLoaded?))
            && pinata.importAttempts == old(pinata.importAttempts) + (if pinata.jwt != "" && !old(pinata.sdkLoaded) then 1 else 0)
            && pinata.uploads == old(pinata.uploads) +
                 (if pinata.jwt != "" && pinata.sdkLoaded
                  then [Ipfs.UploadedFile(Ipfs.FileName, Ipfs.JsonMime, Ipfs.DocumentBytes(codec, UploadInputOf(e.value)))]
                  else []))
  {
    var encrypted := Encryption.EncryptUserData(rng, gcm, codec, Encryption.EncryptionInput(userId, userData, aiPrompt));
    if encrypted.Err? {
      return Err(SecurePrefix + encrypted.msg);
    }
    var ipfsInput := Ipfs.IPFSUploadInput(encrypted.value.ciphertext, encrypted.value.iv, encrypted.value.tag);
    var ipfsResult := pinata.UploadToIPFS(codec, ipfsInput);
    if ipfsResult.Err? {
      return Err(SecurePrefix + ipfsResult.msg);
    }
    r := Ok(SecureStorageResult(ipfsResult.value.cid, ipfsResult.value.size,
                                encrypted.value.aesKey, encrypted.value.iv, encrypted.value.tag, None));
  }

  /** The `localStorage` key of a user's metadata. */
  function MetadataKey(userId: string): string
  {
    MetadataKeyPrefix + userId
  }

  /** The object `JSON.stringify` receives for a metadata record. */
  function MetadataJson(m: UserIPFSMetadata): (j: Json)
    ensures Member(j, "userId") == Some(JStr(m.userId))
    ensures Member(j, "ipfsCid") == Some(JStr(m.ipfsCid))
    ensures Member(j, "size") == Some(JNum(m.size))
  {
    var p3 := [("userId", JStr(m.userId)), ("ipfsCid", JStr(m.ipfsCid)), ("size", JNum(m.size))];
    var ms := p3 + [("createdAt", JStr(m.createdAt)), ("updatedAt", JStr(m.updatedAt))];
    assert ms[..4][..3] == p3 && ms[..4] == ms[..|ms| - 1];
    assert p3[..2][..1] == [("userId", JStr(m.userId))] && p3[..2] == p3[..|p3| - 1];
    assert "updatedAt"[1] != "userId"[1] && "createdAt"[0] != "userId"[0] && "size"[0] != "userId"[0] && "ipfsCid"[0] != "userId"[0];
    assert "updatedAt"[0] != "ipfsCid"[0] && "createdAt"[0] != "ipfsCid"[0] && "size"[0] != "ipfsCid"[0];
    assert "updatedAt"[0] != "size"[0] && "createdAt"[0] != "size"[0];
    assert LastMember(ms, "size") == LastMember(p3, "size") == Some(JNum(m.size));
    assert LastMember(ms, "ipfsCid") == LastMember(p3, "ipfsCid") == LastMember(p3[..2], "ipfsCid") == Some(JStr(m.ipfsCid));
    assert LastMember(ms, "userId") == LastMember(p3, "userId") == LastMember(p3[..2], "userId")
        == LastMember(p3[..2][..1], "userId") == Some(JStr(m.userId));
    JObj(ms)
  }

  /** `saveIPFSMetadataLocally`; both timestamps are the one instant `now`. */
  method SaveIPFSMetadataLocally(local: LocalStorage, codec: Codec, userId: string, cid: string, size: int, now: string)
    modifies local
    ensures local.items == old(local.items)[MetadataKey(userId) := codec.stringify(MetadataJson(UserIPFSMetadata(userId, cid, size, now, now)))]
  {
    var metadata := UserIPFSMetadata(userId, cid, size, now, now);
    var storageKey := MetadataKeyPrefix + userId;
    local.SetItem(storageKey, codec.stringify(MetadataJson(metadata)));
  }

  /** `getIPFSMetadataLocally`: the parsed entry, or `None` when it is missing, empty,
      unparsable or the text `null`. */
  function GetIPFSMetadataLocally(local: LocalStorage, codec: Codec, userId: string): (r: Option<Json>)
    reads local
    ensures MetadataKey(userId) !in local.items ==> r == None
    ensures r.Some? ==> r.value != JNull && codec.parse(local.items[MetadataKey(userId)]) == r
  {
    ParseItem(local, codec, MetadataKey(userId))
  }

  /** `data ? JSON.parse(data) : null` on `localStorage.getItem(key)`, with a parse
      failure caught and turned into `null`. */
  function ParseItem(local: LocalStorage, codec: Codec, key: string): (r: Option<Json>)
    reads local
    ensures key !in local.items ==> r == None
    ensures r.Some? ==> r.value != JNull && codec.parse(local.items[key]) == r
  {
    match local.GetItem(key)
    case None => None
    case Some(data) =>
      if data == "" then None
      else
        match codec.parse(data)
        case None => None
        case Some(JNull) => None
        case Some(j) => Some(j)
  }

  /** Whatever a lawful `JSON.stringify` wrote under a key, other than `null`, is
      what is parsed back from it. */
  lemma ParseItemRoundTrip(local: LocalStorage, codec: Codec, key: string, j: Json)
    requires RoundTrips(codec) && j != JNull
    requires key in local.items && local.items[key] == codec.stringify(j)
    ensures ParseItem(local, codec, key) == Some(j)
  {
    assert codec.parse(codec.stringify(j)) == Some(j);
    assert codec.stringify(j) != "";
  }

  /** What was saved locally is what is read back, for that user only; every
      other stored item keeps its value. */
  lemma LocalMetadataRoundTrip(codec: Codec, items: map<string, string>, userId: string, other: string,
                               cid: string, size: int, now: string, local: LocalStorage)
    requires RoundTrips(codec)
    requires local.items == items[MetadataKey(userId) := codec.stringify(MetadataJson(UserIPFSMetadata(userId, cid, size, now, now)))]
    ensures GetIPFSMetadataLocally(local, codec, userId) == Some(MetadataJson(UserIPFSMetadata(userId, cid, size, now, now)))
    ensures MetadataKey(other) != MetadataKey(userId) ==>
              (MetadataKey(other) in local.items <==> MetadataKey(other) in items)
    ensures forall k :: k != MetadataKey(userId) && k in items ==> k in local.items && local.items[k] == items[k]
    ensures forall k :: k in local.items ==> k == MetadataKey(userId) || k in items
  {
    ParseItemRoundTrip(local, codec, MetadataKey(userId), MetadataJson(UserIPFSMetadata(userId, cid, size, now, now)));
  }

  /** `getIPFSMetadata`: the newest Supabase version's cid (size 0) when Supabase is
      preferred, configured and has one; otherwise the local entry. */
  function GetIPFSMetadata(db: SupabaseStorage.Supabase, local: LocalStorage, codec: Codec,
                           userId: string, preferSupabase: bool, now: string): (r: Option<Json>)
    reads db, local
  {
    var latest := if preferSupabase && db.configured then db.LatestEncryptedData(userId) else None;
    match latest
    case Some(m) => Some(MetadataJson(UserIPFSMetadata(userId, m.cid, 0, now, now)))
    case None => GetIPFSMetadataLocally(local, codec, userId)
  }

  /** Supabase wins whenever it is preferred and knows a version; in every other
      case the answer is exactly the local one. */
  lemma MetadataSource(db: SupabaseStorage.Supabase, local: LocalStorage, codec: Codec,
                       userId: string, preferSupabase: bool, now: string)
    ensures var r := GetIPFSMetadata(db, local, codec, userId, preferSupabase, now);
      var latest := db.LatestEncryptedData(userId);
      && (preferSupabase && latest.Some? ==>
            r.Some? && Member(r.value, "ipfsCid") == Some(JStr(latest.value.cid))
            && Member(r.value, "size") == Some(JNum(0)) && Member(r.value, "userId") == Some(JStr(userId)))
      && (!preferSupabase || latest.None? ==> r == GetIPFSMetadataLocally(local, codec, userId))
  {
    var latest := db.LatestEncryptedData(userId);
    if !db.configured {
      assert latest == None;
    }
  }

  /** `saveUserDataComplete` */
  method SaveUserDataComplete(rng: Encryption.CryptoRandom, gcm: AesGcm.Gcm, codec: Codec, pinata: Ipfs.Pinata,
                              db: SupabaseStorage.Supabase, local: LocalStorage,
                              userId: string, userData: Json, aiPrompt: string,
                              saveMetadata: bool, saveToSupabase: bool, now: string)
    returns (r: Result<SecureStorageResult>)
    requires AesGcm.Lawful(gcm) && db.Valid()
    modifies rng, pinata, db, local
    ensures db.Valid()
    ensures rng.pos == old(rng.pos) + AesGcm.KeyBytes + AesGcm.IvBytes
    ensures var s := old(SecurelyWith(gcm, codec, Encryption.Window(rng.stream, rng.pos, AesGcm.KeyBytes),
                                      Encryption.Window(rng.stream, rng.pos + AesGcm.KeyBytes, AesGcm.IvBytes),
                                      pinata.jwt, pinata.sdkLoaded, pinata.sdkImport, pinata.pin,
                                      Encryption.EncryptionInput(userId, userData, aiPrompt)));
      && (s.Err? ==> r == s && local.items == old(local.items))
      && (s.Ok? && saveMetadata ==>
            local.items == old(local.items)[MetadataKey(userId) :=
              codec.stringify(MetadataJson(UserIPFSMetadata(userId, s.value.cid, s.value.size, now, now)))])
      && (s.Ok? && !saveMetadata ==> local.items == old(local.items))
      && (s.Ok? && saveToSupabase && db.configured && db.online ==>
            var uid := SupabaseTables.EnrolledId(old(db.users), old(db.nextUserId), userId);
            && (db.users, db.nextUserId) == SupabaseTables.Enroll(old(db.users), old(db.nextUserId), userId)
            && db.versions == SupabaseTables.SaveRow(old(db.versions), old(db.nextRowId), uid, s.value.cid,
                                                     SupabaseTables.KeyJson(db.codec, s.value.aesKey, s.value.iv, s.value.tag))
            && db.nextRowId == old(db.nextRowId) + 1
            && r == Ok(s.value.(supabaseId := Some(JsText.NatToString(old(db.nextRowId))))))
      && (s.Err? || !(saveToSupabase && db.configured && db.online) ==>
            && db.users == old(db.users) && db.nextUserId == old(db.nextUserId)
            && db.versions == old(db.versions) && db.nextRowId == old(db.nextRowId))
      && (s.Ok? && !(saveToSupabase && db.configured && db.online) ==> r == s)
  {
    var result := SaveUserDataSecurely(rng, gcm, codec, pinata, userId, userData, aiPrompt);
    if result.Err? {
      return result;
    }
    var saved := RecordSave(db, local, codec, userId, result.value, saveMetadata, saveToSupabase, now);
    r := Ok(saved);
  }

  /** The steps of `saveUserDataComplete` after a successful upload: the local
      metadata entry, then the Supabase version row, whose id lands in the result. */
  method RecordSave(db: SupabaseStorage.Supabase, local: LocalStorage, codec: Codec, userId: string,
                    result: SecureStorageResult, saveMetadata: bool, saveToSupabase: bool, now: string)
    returns (r: SecureStorageResult)
    requires db.Valid()
    modifies db, local
    ensures db.Valid()
    ensures saveMetadata ==>
              local.items == old(local.items)[MetadataKey(userId) :=
                codec.stringify(MetadataJson(UserIPFSMetadata(userId, result.cid, result.size, now, now)))]
    ensures !saveMetadata ==> local.items == old(local.items)
    ensures saveToSupabase && db.configured && db.online ==>
              var uid := SupabaseTables.EnrolledId(old(db.users), old(db.nextUserId), userId);
              && (db.users, db.nextUserId) == SupabaseTables.Enroll(old(db.users), old(db.nextUserId), userId)
              && db.versions == SupabaseTables.SaveRow(old(db.versions), old(db.nextRowId), uid, result.cid,
                                                       SupabaseTables.KeyJson(db.codec, result.aesKey, result.iv, result.tag))
              && db.nextRowId == old(db.nextRowId) + 1
              && r == result.(supabaseId := Some(JsText.NatToString(old(db.nextRowId))))
    ensures !(saveToSupabase && db.configured && db.online) ==>
              && db.users == old(db.users) && db.nextUserId == old(db.nextUserId)
              && db.versions == old(db.versions) && db.nextRowId == old(db.nextRowId)
              && r == result
  {
    if saveMetadata {
      SaveIPFSMetadataLocally(local, codec, userId, result.cid, result.size, now);
    }
    r := result;
    if saveToSupabase && db.configured {
      var supabaseResult := db.UpdateEncryptedData(userId, result.cid, result.aesKey, result.iv, result.tag);
      if supabaseResult.Ok? {
        r := result.(supabaseId := Some(JsText.NatToString(supabaseResult.value.id)));
      }
    }
  }

  /** The input `decryptUserData` receives: the ciphertext from IPFS, the key, IV and
      tag from Supabase, each passed through `String(...)` by `atob`. */
  function DecryptionInputOf(data: Ipfs.IPFSEncryptedData, m: SupabaseTables.Metadata): Decryption.DecryptionInput
  {
    Decryption.DecryptionInput(ToDomString(data.ciphertext), ToDomString(m.iv), ToDomString(m.tag), ToDomString(m.aesKey))
  }

  /** `recoverUserData` given what `getEncryptedDataFromSupabase` returned. */
  function RecoverWith(latest: Option<SupabaseTables.Metadata>, gateway: string, http: string -> Ipfs.HttpReply,
                       gcm: AesGcm.Gcm, codec: Codec): (r: Result<Option<RecoveredData>>)
  {
    match latest
    case None => Ok(None)
    case Some(m) =>
      match Ipfs.FetchOutcome(gateway, http, m.cid).0
      case Err(msg) => Err(RecoverPrefix + msg)
      case Ok(data) =>
        match Decryption.DecryptWith(gcm, codec, DecryptionInputOf(data, m))
        case Err(msg) => Err(RecoverPrefix + msg)
        case Ok(d) => Ok(Some(RecoveredData(d.userData, d.aiPrompt, m.cid, m.version)))
  }

  /** `recoverUserData` */
  method RecoverUserData(db: SupabaseStorage.Supabase, gateway: string, http: string -> Ipfs.HttpReply,
                         gcm: AesGcm.Gcm, codec: Codec, privyUserId: string)
    returns (r: Result<Option<RecoveredData>>)
    ensures r == RecoverWith(db.LatestEncryptedData(privyUserId), gateway, http, gcm, codec)
    ensures !db.configured || db.LatestEncryptedData(privyUserId).None? ==> r == Ok(None)
    ensures r.Err? ==> RecoverPrefix + Ipfs.FetchPrefix <= r.msg || RecoverPrefix + Decryption.DecryptPrefix <= r.msg
    ensures r.Ok? && r.value.Some? ==>
              && r.value.value.cid == db.LatestEncryptedData(privyUserId).value.cid
              && r.value.value.version == db.LatestEncryptedData(privyUserId).value.version
  {
    if !db.configured {
      return Ok(None);
    }
    var metadata := db.LatestEncryptedData(privyUserId);
    if metadata.None? {
      return Ok(None);
    }
    var ipfsData, _ := Ipfs.FetchFromIPFS(gateway, http, metadata.value.cid);
    Ipfs.FetchErrorsPrefixed(gateway, http, metadata.value.cid);
    if ipfsData.Err? {
      return Err(RecoverPrefix + ipfsData.msg);
    }
    var decryptedData := Decryption.DecryptUserData(gcm, codec, DecryptionInputOf(ipfsData.value, metadata.value));
    if decryptedData.Err? {
      return Err(RecoverPrefix + decryptedData.msg);
    }
    r := Ok(Some(RecoveredData(decryptedData.value.userData, decryptedData.value.aiPrompt,
                               metadata.value.cid, metadata.value.version)));
  }

  /** The whole round trip: once a save has written its version row, and the
      gateway serves the document that was pinned under the saved cid, recovery of
      a payload whose JSON text is ASCII gives back the user's data and prompt with
      that cid and the version the save was numbered with. */
  lemma SavedDataRecovered(gcm: AesGcm.Gcm, codec: Codec, key: seq<uint8>, iv: seq<uint8>,
                           input: Encryption.EncryptionInput, e: Encryption.EncryptionResult,
                           vs: seq<SupabaseTables.VersionRow>, id: nat, uid: nat, cid: string,
                           gateway: string, http: string -> Ipfs.HttpReply, status: int, statusText: string)
    requires AesGcm.Lawful(gcm) && RoundTrips(codec)
    requires |key| == AesGcm.KeyBytes && |iv| == AesGcm.IvBytes
    requires Encryption.EncryptWith(gcm, codec, key, iv, input) == Ok(e)
    requires http(Ipfs.GatewayUrl(gateway, cid)) == Ipfs.Response(status, statusText, Some(Ipfs.Document(UploadInputOf(e))))
    requires Ipfs.IsOk(status)
    requires Utf8.IsAscii(codec.stringify(Encryption.Payload(input)))
    ensures RecoverWith(SupabaseTables.LatestMetadata(codec,
                          SupabaseTables.SaveRow(vs, id, uid, cid, SupabaseTables.KeyJson(codec, e.aesKey, e.iv, e.tag)), uid),
                        gateway, http, gcm, codec)
            == Ok(Some(RecoveredData(Some(input.userData), Some(JStr(input.aiPrompt)), cid, SupabaseTables.NextVersion(vs, uid))))
  {
    SupabaseTables.SaveThenLatest(codec, vs, id, uid, cid, e.aesKey, e.iv, e.tag);
    EncryptedTextsNonEmpty(gcm, codec, key, iv, input, e);
    PinnedDocumentFetched(e, cid, gateway, http, status, statusText);
    Decryption.DecryptEncrypt(gcm, codec, key, iv, input);
  }

  /** None of the three texts of an encryption is empty, so none is falsy. */
  lemma EncryptedTextsNonEmpty(gcm: AesGcm.Gcm, codec: Codec, key: seq<uint8>, iv: seq<uint8>,
                               input: Encryption.EncryptionInput, e: Encryption.EncryptionResult)
    requires AesGcm.Lawful(gcm) && RoundTrips(codec)
    requires |iv| == AesGcm.IvBytes
    requires Encryption.EncryptWith(gcm, codec, key, iv, input) == Ok(e)
    ensures e.ciphertext != "" && e.iv != "" && e.tag != ""
  {
    var plain := Encryption.PlaintextBytes(codec, input);
    var out := gcm.seal(key, iv, plain).value;
    var (ct, tag) := AesGcm.SplitTag(out);
    assert codec.stringify(Encryption.Payload(input)) != "";
    assert |plain| > 0;
    assert e.ciphertext == Base64.Encode(ct) && |ct| == |plain|;
  }

  /** A gateway serving the pinned document yields its three members unchanged. */
  lemma PinnedDocumentFetched(e: Encryption.EncryptionResult, cid: string, gateway: string,
                              http: string -> Ipfs.HttpReply, status: int, statusText: string)
    requires e.ciphertext != "" && e.iv != "" && e.tag != ""
    requires http(Ipfs.GatewayUrl(gateway, cid)) == Ipfs.Response(status, statusText, Some(Ipfs.Document(UploadInputOf(e))))
    requires Ipfs.IsOk(status)
    ensures Ipfs.FetchOutcome(gateway, http, cid).0
            == Ok(Ipfs.IPFSEncryptedData(Some(JStr(e.ciphertext)), Some(JStr(e.iv)), Some(JStr(e.tag))))
  {
    var data := Ipfs.Fields(Ipfs.Document(UploadInputOf(e)));
    assert data == Ipfs.IPFSEncryptedData(Some(JStr(e.ciphertext)), Some(JStr(e.iv)), Some(JStr(e.tag)));
  }

  /** A stored version whose key member is missing cannot be decrypted: the text
      "undefined" reaches `atob` and recovery fails with the decoding error. */
  lemma MissingKeyFails(m: SupabaseTables.Metadata, gateway: string, http: string -> Ipfs.HttpReply,
                        gcm: AesGcm.Gcm, codec: Codec)
    requires m.aesKey.None?
    requires Ipfs.FetchOutcome(gateway, http, m.cid).0.Ok?
    ensures RecoverWith(Some(m), gateway, http, gcm, codec)
            == Err(RecoverPrefix + Decryption.DecryptPrefix + Decryption.InvalidCharacterError)
  {
    var data := Ipfs.FetchOutcome(gateway, http, m.cid).0.value;
    Decryption.UndefinedIsNotBase64(gcm, codec, DecryptionInputOf(data, m));
  }
}
