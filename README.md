# cycle-sync core, modelled in Dafny

cycle-sync is a planning app that schedules a user's tasks around the phases of the
menstrual cycle and stores the plan in encrypted form. This project models its core
in Dafny 4.11:

- **Encrypted persistence pipeline.** `encryptUserData` draws a 256-bit AES key and a
  96-bit IV and seals the JSON of `{userData, aiPrompt}` with AES-GCM. The ciphertext
  is split from its 16-byte tag, and all four values are base64-encoded.
  - `uploadToIPFS` pins a JSON document holding only ciphertext, IV and tag on
    Pinata. `fetchFromIPFS` reads it back through a gateway, with a fallback.
  - `decryptUserData` re-appends the tag and opens the envelope.
  - The metadata goes to two places. One is a versioned row in Supabase
    (`users` and `user_secure_data_versions` tables). The other is an entry in
    `localStorage`.
  - `saveUserDataComplete`, `recoverUserData` and `saveTasksToIPFS` orchestrate
    these steps with the code's own error policy: which failures abort, which are
    swallowed, and which message prefix each failure carries.
- **Cycle-phase scheduler.** `getCyclePhase`, `organizeTasksByCyclePhase` and their
  consumers:
  - the edits to the list of tasks and `handleGenerate` of the Setup page;
  - the per-day filter, minute sum and load percentage of the Today page.
- **Three small state machines.**
  - The 30-second demo session (`DemoAuthContext`), with the clock as an explicit
    parameter.
  - The six-digit code entry of the confirmation screen.
  - The decision of the route guard.

## How foreign code is modelled

- **AES-GCM and JSON.** There is no body to give these, so they are the
  function-valued fields of `AesGcm.Gcm` and `Json.Codec`. Ghost predicates state
  the laws that are assumed of them:
  - `AesGcm.Lawful`: `open` inverts `seal` for the same key and IV, a sealed
    output is the plaintext length plus 16 bytes (NIST SP 800-38D with a 128-bit
    tag), and a changed tag is rejected;
  - `Json.RoundTrips`: `parse(stringify(j)) == Some(j)`.

  The operations that rely on these laws require them.
- **Base64 and UTF-8.** Base64 (section 4 of RFC 4648, `btoa`/`atob`) and UTF-8
  (RFC 3629, `TextEncoder`) are defined concretely, and their round trips are
  proved.
- **Randomness.** `crypto.getRandomValues` reads from `Encryption.CryptoRandom`, a
  fixed stream with a read position. No two requests read the same positions of
  the stream; the values themselves are arbitrary, so IV uniqueness is not modelled.
- **Network.**
  - Pinata's reply is a function of the uploaded bytes.
  - A gateway's reply is a function of the URL.
  - The Supabase tables live in memory in the class `SupabaseStorage.Supabase`.
    Its `configured` flag stands for `isSupabaseConfigured()`. Its `online` flag
    set to false makes every query return an error.
- **Browser storage.** `localStorage` is the class `WebStorage.LocalStorage`, which
  holds a map.
- **Inputs passed in explicitly.** `Date.now()`, `new Date().toISOString()` and the
  seven dates of the coming week are parameters.
- **`undefined`.** A JavaScript `undefined` field is `None`.

## Model

| member | source | states |
|---|---|---|
| SupabaseTables.FindUser | src/utils/supabaseStorage.ts:63-68 | the lookup finds a user exactly when some row has the privy id, and returns that row's id |
| SupabaseTables.Enroll | src/utils/supabaseStorage.ts:63-84 | after lookup-or-create the privy id is found, with the id `getOrCreateUser` returns |
| SupabaseTables.EnrollFindsUser | src/utils/supabaseStorage.ts:63-84 | keeps ids unique and below the next serial; a present user keeps its id and the table; an absent one is appended with the next id; a second call changes nothing; other users' lookups are unaffected |
| SupabaseTables.VersionsOfMembers | src/utils/supabaseStorage.ts:110-113 | the `user_id` filter keeps exactly the user's rows |
| SupabaseTables.MaxVersion | src/utils/supabaseStorage.ts:109-129 | defined exactly for a non-empty set of rows; it is an upper bound attained by some row |
| SupabaseTables.NextVersion | src/utils/supabaseStorage.ts:109-129 | a user without rows gets version 1 |
| SupabaseTables.NextVersionBounds | src/utils/supabaseStorage.ts:109-129 | the next version exceeds every version of the user, and is one more than one of them when the user has rows |
| SupabaseTables.NextVersionPositive | src/utils/supabaseStorage.ts:109-129 | in a well-formed table the next version is at least 1, and is 1 exactly when the user has no rows |
| SupabaseTables.Latest | src/utils/supabaseStorage.ts:261-267 | the newest-first, limit-1 query picks a row of the input that has the largest version, and none only for no rows |
| SupabaseTables.LatestIsMax | src/utils/supabaseStorage.ts:261-267 | the row picked carries the maximum version |
| SupabaseTables.ReadRow | src/utils/supabaseStorage.ts:281-295 | a readable row yields its own cid and version |
| SupabaseTables.ReadSavedRow | src/utils/supabaseStorage.ts:172-177 | the key JSON written by a save reads back as exactly the saved aesKey, iv and tag |
| SupabaseTables.LatestMetadata | src/utils/supabaseStorage.ts:260-295 | a result comes from a row of the user with the largest version; a user without rows gets none |
| SupabaseTables.SaveRow | src/utils/supabaseStorage.ts:180-189 | a save appends exactly one row and leaves every existing row in place |
| SupabaseTables.SavesNumberFromOne | src/utils/supabaseStorage.ts:98-129 | N sequential saves extend a user's versions counting from 1 to exactly 1..N more |
| SupabaseTables.LatestAfterSaves | src/utils/supabaseStorage.ts:261-267 | after N saves for a user that had no rows, the latest-version query returns version N |
| SupabaseTables.SaveKeepsOthers | src/utils/supabaseStorage.ts:180-189 | a save leaves every other user's rows unchanged |
| SupabaseTables.DeleteOwned | src/utils/supabaseStorage.ts:403-407 | the delete never adds rows |
| SupabaseTables.DeleteOwnedMembers | src/utils/supabaseStorage.ts:403-407 | the delete removes exactly the rows whose id and user id both match |
| SupabaseTables.DeleteKeepsOthers | src/utils/supabaseStorage.ts:403-407 | another user's rows, even one with the given id, are left untouched |
| SupabaseTables.SaveWellFormed | src/utils/supabaseStorage.ts:180-189 | a save keeps the versions table well formed: row ids distinct, positive and below the next serial id, versions positive, and each user's versions increasing in table order |
| SupabaseTables.DeleteWellFormed | src/utils/supabaseStorage.ts:403-407 | a delete keeps the versions table well formed |
| SupabaseTables.SortDesc | src/utils/supabaseStorage.ts:334-338 | the descending sort is a permutation of the rows |
| SupabaseTables.SortDescSorted | src/utils/supabaseStorage.ts:334-338 | its result is in descending version order |
| SupabaseTables.ReadAllSound | src/utils/supabaseStorage.ts:349-364 | every reading comes from a row of the input |
| SupabaseTables.ReadAllComplete | src/utils/supabaseStorage.ts:349-364 | every row whose key JSON parses is read; only unparsable rows are dropped |
| SupabaseTables.ReadAllSorted | src/utils/supabaseStorage.ts:349-364 | dropping rows keeps the descending version order |
| SupabaseTables.AllMetadata | src/utils/supabaseStorage.ts:333-364 | newest first, at most the user's rows, each from a row of the user, and every readable row of the user present |
| SupabaseTables.SaveThenLatest | src/utils/supabaseStorage.ts:166-199 | after a save, the latest-version query returns the saved cid, aesKey, iv and tag with the version the save assigned |
| SupabaseStorage.Supabase.GetOrCreateUser | src/utils/supabaseStorage.ts:51-90 | with a reachable database, the tables become `Enroll` of the old ones and the returned id is the user's; otherwise nothing changes and the prefixed error is returned |
| SupabaseStorage.Supabase.GetNextVersion | src/utils/supabaseStorage.ts:98-135 | unconfigured or failing queries give the prefixed errors; otherwise the result is the next version, at least 1, and 1 exactly for a user without rows |
| SupabaseStorage.Supabase.SaveEncryptedData | src/utils/supabaseStorage.ts:148-205 | enrolls the user and appends exactly one row with the next version, returning its id and version; on failure nothing changes |
| SupabaseStorage.Supabase.InsertVersion | src/utils/supabaseStorage.ts:180-189 | the insert appends the row under the next serial id and keeps the users table |
| SupabaseStorage.Supabase.UpdateEncryptedData | src/utils/supabaseStorage.ts:218-227 | an update is exactly a save: a new version row, never an overwrite |
| SupabaseStorage.Supabase.LatestEncryptedData | src/utils/supabaseStorage.ts:235-300 | never fails: unconfigured, offline or unknown user gives none; a result is the readable row of the user with the largest version |
| SupabaseStorage.Supabase.AllEncryptedData | src/utils/supabaseStorage.ts:308-369 | never fails: gives `[]` when unconfigured, offline or unknown; otherwise newest first, each entry from one of the user's rows |
| SupabaseStorage.Supabase.DeleteEncryptedData | src/utils/supabaseStorage.ts:377-417 | succeeds exactly for a reachable database and a known user, then removes only that user's row with the id; an unknown user is an error and changes nothing |
| AesGcm.SplitTag | src/utils/encryption.ts:113-117 | the tag is the last 16 bytes, the ciphertext the rest, and ciphertext ++ tag is the GCM output |
| AesGcm.SealedSplitLength | src/utils/encryption.ts:101-117 | the split ciphertext is exactly as long as the plaintext |
| AesGcm.TamperedTagRejected | src/utils/decryption.ts:89-97 | re-attaching any other 16-byte tag makes opening fail |
| Encryption.Window | src/utils/encryption.ts:59-60 | a draw of n random bytes has length n |
| Encryption.CryptoRandom.Fill | src/utils/encryption.ts:59-60 | `getRandomValues` fills the whole array with the next bytes of the stream and advances past them |
| Encryption.GenerateAESKey | src/utils/encryption.ts:44-53 | the raw key is the next 32 bytes of the stream and the read position moves past them |
| Encryption.GenerateIV | src/utils/encryption.ts:58-62 | the IV is a newly allocated 12-byte array holding the next 12 bytes of the stream |
| Encryption.CopyBytes | src/utils/encryption.ts:121-122 | the copy is a fresh array with the same contents |
| Encryption.ArrayBufferToBase64 | src/utils/encryption.ts:24-31 | the loop and `btoa` produce the base64 encoding of the bytes, which decodes back to them |
| Base64.Encode | src/utils/encryption.ts:30 | the encoding has 4·⌈n/3⌉ characters |
| Base64.DecodeEncode | src/utils/decryption.ts:23-30 | decoding inverts encoding for every byte sequence |
| Base64.EncodeIsAscii | src/utils/encryption.ts:24-31 | every character of an encoding is an alphabet character or '=', so all are ASCII |
| Encryption.Payload | src/utils/encryption.ts:85-91 | the encrypted object has exactly the members userData and aiPrompt |
| Encryption.EncryptUserData | src/utils/encryption.ts:70-133 | draws 32 key bytes, then 12 IV bytes, and returns the encryption with them |
| Encryption.EncryptOutputs | src/utils/encryption.ts:101-117 | with a 32-byte key and a 12-byte IV, encryption succeeds; key and IV decode back; the tag decodes to 16 bytes; the ciphertext decodes to as many bytes as the UTF-8 plaintext |
| Encryption.EncryptFailure | src/utils/encryption.ts:130-132 | encryption fails exactly when the cipher rejects, with the "Error al encriptar datos:" prefix |
| Encryption.UserIdNotEncrypted | src/utils/encryption.ts:85-91 | the user id does not influence the result |
| Utf8.EncodeChar | src/utils/encryption.ts:36-39 | a character takes 1 to 4 bytes, 1 exactly for ASCII |
| Utf8.DecodeEncode | src/utils/encryption.ts:36-39 | strict UTF-8 decoding inverts `TextEncoder` |
| Utf8.EncodeLengthIffAscii | src/utils/encryption.ts:36-39 | the encoding has one byte per character exactly for ASCII text, and then each byte is the character code |
| Decryption.Atob | src/utils/decryption.ts:24 | `atob` succeeds exactly on valid base64, giving one character per decoded byte |
| Decryption.Base64ToArrayBuffer | src/utils/decryption.ts:23-30 | the loop copies the code of each decoded character into the buffer |
| Bytes.CodesOfBinaryOf | src/utils/decryption.ts:23-30 | reading character codes inverts the byte-to-character loop of src/utils/encryption.ts:26-29 |
| Decryption.ArrayBufferToString | src/utils/decryption.ts:35-42 | the loop maps each byte to the character with that code |
| Decryption.Latin1InvertsUtf8IffAscii | src/utils/decryption.ts:35-42 | that mapping gives back the encrypted text exactly when the text is ASCII |
| Decryption.Latin1Counterexample | src/utils/decryption.ts:35-42 | "é" encodes to C3 A9 and comes back as "Ã©" |
| Decryption.DecodeText | src/utils/decryption.ts:35-42 | the corrected conversion returns the text for every UTF-8 encoding of a text |
| Decryption.ImportAESKey | src/utils/decryption.ts:47-58 | a raw key imports exactly when it is 16, 24 or 32 bytes |
| Decryption.CombineCiphertextTag | src/utils/decryption.ts:79-82 | the combined buffer is ciphertext ++ tag |
| Decryption.DecryptWith | src/utils/decryption.ts:68-111 | the function as written (plaintext bytes read back as Latin-1): it succeeds exactly when its steps do and then returns their result; every failure carries the "Error al desencriptar datos:" prefix |
| Decryption.DecryptCorrected | src/utils/decryption.ts:68-111 | the same pipeline with the plaintext decoded as UTF-8; the same success condition and error prefix |
| Decryption.DecryptUserData | src/utils/decryption.ts:68-112 | the method, with its Latin-1 `arrayBufferToString`, computes exactly the decryption function as written |
| Decryption.OpenEncrypted | src/utils/decryption.ts:68-103 | decoding, key import and AES-GCM open of an encryption's output give back the UTF-8 bytes of the encrypted JSON text |
| Decryption.DecryptEncrypt | src/utils/decryption.ts:68-106 | when the encrypted JSON text is ASCII, decrypting what encryption produced returns its userData and aiPrompt |
| Decryption.NonAsciiTextAltered | src/utils/decryption.ts:35-42 | when the encrypted JSON text is not ASCII, the text the pipeline parses differs from it |
| Decryption.DecryptEncryptCorrected | src/utils/decryption.ts:68-106 | with UTF-8 decoding, decrypting what encryption produced returns its userData and aiPrompt for every text |
| Decryption.ForgedTagRejected | src/utils/decryption.ts:89-97 | any other 16-byte tag makes decryption fail with the prefixed OperationError and no partial result |
| Decryption.UndefinedIsNotBase64 | src/utils/decryption.ts:23-24 | a missing key, IV or tag reaches `atob` as "undefined" and fails with InvalidCharacterError |
| Json.Member | src/utils/decryption.ts:100-106 | a member read on an object is `None` exactly when no member has that name, and otherwise is the value of the member with that name that no later member shares (duplicate names: the last wins); on any other value it is `None` |
| Json.Triple | src/utils/supabaseStorage.ts:172-177 | a three-member object reads back its three values and holds no other member |
| Json.ToDomString | src/utils/secureStorage.ts:290-295 | a missing value becomes the text "undefined"; a string stays itself |
| Wrappers.Rethrow | src/utils/encryption.ts:130-132 | a caught error is re-thrown with the prefix in front of its message; success is untouched |
| Ipfs.EnvSettingTrimmed | src/utils/ipfs.ts:29-30 | an unset variable gives ''; a setting never starts or ends with ECMAScript white space or a line terminator |
| Ipfs.Document | src/utils/ipfs.ts:78-86 | the pinned document holds exactly ciphertext, iv and tag, copied from the input |
| Ipfs.PinResult | src/utils/ipfs.ts:103-106 | a rejected upload is an error; the cid is the upload's or ''; a nonzero reported size is returned as is, and the size is the blob size exactly when the upload reports none, 0 or the blob size |
| Ipfs.Pinata.UploadToIPFS | src/utils/ipfs.ts:47-112 | the result is the upload outcome; the SDK is imported only when needed and kept once loaded; one file is uploaded only with a JWT and a loaded SDK |
| Ipfs.UploadWithoutJwt | src/utils/ipfs.ts:52-56 | without a JWT the upload fails with "Pinata JWT not configured" |
| Ipfs.LoadedSdkReused | src/utils/ipfs.ts:60-70 | once loaded, the SDK is reused: the outcome no longer depends on the import |
| Ipfs.UploadedDocumentRoundTrip | src/utils/ipfs.ts:78-86 | the uploaded blob decodes and parses back to the document |
| Ipfs.UploadErrorsPrefixed | src/utils/ipfs.ts:107-111 | every upload failure carries the "Error al subir a IPFS:" prefix |
| Ipfs.DropTrailingSlash | src/utils/ipfs.ts:127 | at most one trailing '/' is removed, and one is removed when present |
| Ipfs.GatewayUrl | src/utils/ipfs.ts:126-128 | the Pinata default URL + cid without a gateway; a gateway ending in '/' is followed directly by the cid, any other gateway by '/' and the cid |
| Ipfs.ReadChecked | src/utils/ipfs.ts:159-166 | data accepted from the primary gateway has truthy ciphertext, iv and tag |
| Ipfs.FetchFromIPFS | src/utils/ipfs.ts:120-178 | the method computes the fetch outcome and issues exactly its requests |
| Ipfs.FallbackRule | src/utils/ipfs.ts:131-156 | the first request goes to the primary URL; a second one, to ipfs.io, is made exactly when the primary is not OK and its URL contains "pinata.cloud" |
| Ipfs.DefaultGatewayFallsBack | src/utils/ipfs.ts:126-137 | without a configured gateway, a failing primary is retried on ipfs.io |
| Ipfs.PrimaryValidatedFallbackNot | src/utils/ipfs.ts:145-166 | primary data is validated; fallback data is returned unchecked, even with all three members missing |
| Ipfs.FetchErrorsPrefixed | src/utils/ipfs.ts:173-177 | every fetch failure carries the "Error al obtener datos de IPFS:" prefix |
| SecureStorage.SealAndPinErrors | src/utils/secureStorage.ts:76-85 | a failed encrypt-and-upload reports the encryption's or the upload's message |
| SecureStorage.KeyNeverUploaded | src/utils/secureStorage.ts:79-85 | the pinned document parses back to the ciphertext, iv and tag, and has no aesKey member |
| SecureStorage.SecureResultParts | src/utils/secureStorage.ts:76-99 | succeeds exactly when encryption and upload do; cid and size come from the upload, aesKey, iv and tag from the encryption; failures get the "Error al guardar datos de forma segura:" prefix |
| SecureStorage.SaveUserDataSecurely | src/utils/secureStorage.ts:52-100 | draws key and IV, returns the secure result; when encryption fails, nothing reaches Pinata |
| SecureStorage.MetadataJson | src/utils/secureStorage.ts:116-122 | the stored record carries userId, ipfsCid and size |
| SecureStorage.SaveIPFSMetadataLocally | src/utils/secureStorage.ts:110-130 | writes the record under "ipfs-metadata-" + userId and nothing else |
| SecureStorage.GetIPFSMetadataLocally | src/utils/secureStorage.ts:138-147 | a missing entry gives none; a result is the parse of the stored text |
| SecureStorage.ParseItemRoundTrip | src/utils/secureStorage.ts:138-147 | a stored stringified value other than null parses back to itself |
| SecureStorage.LocalMetadataRoundTrip | src/utils/secureStorage.ts:110-147 | what was saved for a user is what is read back; every other stored key keeps its value and no key is added besides the user's |
| SecureStorage.MetadataSource | src/utils/secureStorage.ts:204-228 | Supabase's latest cid (size 0) wins when preferred and present; every other case is exactly the local answer |
| SecureStorage.SaveUserDataComplete | src/utils/secureStorage.ts:159-195 | a failed encrypt or upload is returned before any metadata write; local metadata is written only when asked; the Supabase row is written only when asked and reachable, and its id lands in the result; otherwise the upload result is returned as it is |
| SecureStorage.RecordSave | src/utils/secureStorage.ts:169-194 | the metadata steps after a successful upload, with the same write-or-skip rules |
| SecureStorage.RecoverUserData | src/utils/secureStorage.ts:252-320 | none when unconfigured or without metadata; a failure carries the "Error al recuperar datos:" prefix over the fetch or decrypt prefix; a result carries the metadata's cid and version |
| SecureStorage.SavedDataRecovered | src/utils/secureStorage.ts:252-313 | after a save whose JSON text is ASCII and a gateway serving the pinned document, recovery returns the saved userData and aiPrompt with the saved cid and assigned version |
| SecureStorage.EncryptedTextsNonEmpty | src/utils/ipfs.ts:162 | the three texts of an encryption are non-empty, so they pass the truthiness check |
| SecureStorage.PinnedDocumentFetched | src/utils/ipfs.ts:158-172 | a gateway serving the pinned document yields its three members unchanged |
| SecureStorage.MissingKeyFails | src/utils/secureStorage.ts:290-295 | a stored version without aesKey cannot be decrypted: recovery fails with the prefixed decoding error |
| TaskStorage.GenerateTaskPrompt | src/utils/taskStorage.ts:33-47 | the thirteen prompt lines joined with line feeds; PromptLayout, PromptSlots and PromptSplits state its lines |
| TaskStorage.PromptLayout | src/utils/taskStorage.ts:33-47 | the prompt of a single-line task has 13 lines with the title and type; the weekly and project lines are present exactly when those flags hold |
| TaskStorage.PromptSlots | src/utils/taskStorage.ts:39-42 | date, start and end lines appear exactly for fixed tasks with that field; the deadline line exactly for flexible tasks with a deadline |
| TaskStorage.TaskResultParts | src/utils/taskStorage.ts:67-114 | a task save encrypts {cycleDay, tasks: [task], schedule: []} and succeeds exactly when encrypt and upload do; cid and size come from the upload, key material from the encryption |
| TaskStorage.SaveTaskToIPFS | src/utils/taskStorage.ts:57-120 | the result names the task; exactly the encrypted document is uploaded; a Supabase failure is swallowed and leaves supabaseId unset; encryption and upload failures are rethrown |
| TaskStorage.TrySaveTask | src/utils/taskStorage.ts:138-144 | one loop turn: it uploads and records as `saveTaskToIPFS` does; a failure yields nothing; a success yields the turn's outcome with the row id Supabase assigns, and the row counter moves exactly then |
| TaskStorage.TurnWith | src/utils/taskStorage.ts:57-120 | a task save drawn at a stream position succeeds only with a result naming the task and no row id yet |
| TaskStorage.LoadedIrrelevant | src/utils/ipfs.ts:59-75 | whether the SDK was loaded before a turn does not change its outcome, unless the import fails |
| TaskStorage.Turns | src/utils/taskStorage.ts:137-145 | one outcome per task |
| TaskStorage.TurnsStep | src/utils/taskStorage.ts:137-145 | one more task appends the outcome of its turn at the next stream position |
| TaskStorage.TurnsNameTasks | src/utils/taskStorage.ts:137-145 | each successful outcome names its own task |
| TaskStorage.Successes | src/utils/taskStorage.ts:138-144 | the successful outcomes, in order |
| TaskStorage.SuccessesAppend | src/utils/taskStorage.ts:138-144 | a failed outcome adds nothing, a successful one adds its result at the end |
| TaskStorage.SuccessesAll | src/utils/taskStorage.ts:137-147 | there are at most as many results as outcomes, exactly as many only when every save succeeded, and then they are those results |
| TaskStorage.WithIds | src/utils/taskStorage.ts:88-113 | one result per saved task |
| TaskStorage.WithIdsAt | src/utils/taskStorage.ts:88-113 | the k-th saved result carries row id first + k when Supabase is recording, none otherwise |
| TaskStorage.WithIdsAppend | src/utils/taskStorage.ts:88-113 | one more saved result takes the next row id |
| TaskStorage.TurnsExtend | src/utils/taskStorage.ts:137-145 | the outcome of the turn actually taken is the next outcome of the batch |
| TaskStorage.BatchStep | src/utils/taskStorage.ts:138-144 | pushing a turn's result keeps the results equal to the successes of the turns taken, numbered |
| TaskStorage.PickedStep | src/utils/taskStorage.ts:137-145 | pushing a turn's result keeps every result matched, in order, to a distinct task |
| TaskStorage.SaveNext | src/utils/taskStorage.ts:137-145 | one iteration of the loop keeps its invariant: results, row counter, stream position and SDK state |
| TaskStorage.SaveTasksToIPFS | src/utils/taskStorage.ts:130-148 | the results are exactly the successful saves of the tasks, each at its own stream position, in input order with failures skipped and each with the row id Supabase gave it; the row counter moves once per recorded result; each result is matched in order to a task |
| TaskStorage.PickedFromTasks | src/utils/taskStorage.ts:135-147 | so there are at most as many results as tasks, each naming one of them |
| TaskStorage.TaskMetadataKeyInjective | src/utils/taskStorage.ts:170 | keys of different (user, task) pairs differ when user ids hold no '-' |
| TaskStorage.TaskMetadataKeyCollision | src/utils/taskStorage.ts:170 | with '-' in ids, ("a-b", "c") and ("a", "b-c") share a key |
| TaskStorage.TaskKeyNotUserKey | src/utils/taskStorage.ts:170 | a task key never names a user's IPFS metadata entry |
| TaskStorage.SaveTaskMetadataLocally | src/utils/taskStorage.ts:154-175 | writes the task record under its key and nothing else |
| TaskStorage.GetTaskMetadataLocally | src/utils/taskStorage.ts:180-192 | a missing entry gives none; a result is the parse of the stored text |
| TaskStorage.TaskMetadataRoundTrip | src/utils/taskStorage.ts:170-187 | the get uses the save's key: what was saved for a task reads back, and other tasks' entries are as before |
| CycleLogic.GetCyclePhase | src/utils/cycleLogic.ts:3-8 | days 1–5 Menstrual, 6–13 Follicular, 14–17 Ovulatory, every other integer Luteal |
| CycleLogic.DescriptionsDistinct | src/utils/cycleLogic.ts:10-18 | each of the four phases has its own description |
| CycleLogic.ColorsDistinct | src/utils/cycleLogic.ts:20-28 | each of the four phases has its own colour |
| CycleLogic.GetPhaseDescription | src/utils/cycleLogic.ts:10-18 | the description of each phase; DescriptionsDistinct states that they differ |
| CycleLogic.GetPhaseColor | src/utils/cycleLogic.ts:20-28 | the CSS variable of each phase; ColorsDistinct states that they differ |
| CycleLogic.TaskCycleDay | src/utils/cycleLogic.ts:73 | `((cycleDay + dayOffset - 1) % 28) + 1` with JavaScript's `%`; TaskCycleDayRange states its range |
| CycleLogic.JsRem | src/utils/cycleLogic.ts:73 | JavaScript `%`: truncated division, with the remainder taking the sign of the dividend |
| CycleLogic.TaskCycleDayRange | src/utils/cycleLogic.ts:73 | from a cycle day ≥ 1 the task's cycle day lies in 1..28, differs from cycleDay + offset by a multiple of 28, and equals it while that is ≤ 28 |
| CycleLogic.Assign | src/utils/cycleLogic.ts:80-89 | Follicular or Ovulatory gives high/9, Luteal medium/10, Menstrual low/14 |
| CycleLogic.StartMinutes | src/utils/cycleLogic.ts:96 | a staggered start lies between 09:00 and 15:00 |
| CycleLogic.FlexibleDay | src/utils/cycleLogic.ts:69-113 | the k-th flexible entry copies the task's id, title and category, is dated `week[k mod 7]`, and has that day's phase and energy |
| CycleLogic.FlexibleTimes | src/utils/cycleLogic.ts:92-100 | when the duration reads as d minutes, the entry's start reads back as the phase's hour plus `index mod 3` half hours, and its end reads back as that start plus d |
| CycleLogic.FlexibleNaNEnd | src/utils/cycleLogic.ts:92-100 | when the duration does not read as a clock time, the entry ends at "NaN:NaN" |
| CycleLogic.EndClock | src/utils/cycleLogic.ts:97-100 | the printed end time reads back as start + duration; an unreadable duration gives "NaN:NaN" |
| CycleLogic.Fixed | src/utils/cycleLogic.ts:45 | `tasks.filter(t => t.isFixed)`; FilterMembers states what it keeps |
| CycleLogic.Flexible | src/utils/cycleLogic.ts:46 | `tasks.filter(t => !t.isFixed)`; FilterMembers states what it keeps |
| CycleLogic.ScheduleFixed | src/utils/cycleLogic.ts:51-63 | the entry pushed for a qualifying fixed task; FixedPartEntries and ScheduleIds state what it copies |
| CycleLogic.ScheduleFlexible | src/utils/cycleLogic.ts:70-113 | the entry pushed for the k-th flexible task; FlexibleDay and FlexibleTimes state its fields |
| CycleLogic.FilterMembers | src/utils/cycleLogic.ts:45-50 | the filters split tasks by isFixed; a fixed task qualifies exactly with date, startTime and endTime |
| CycleLogic.FixedPartEntries | src/utils/cycleLogic.ts:49-65 | the fixed loop pushes one copied entry per qualifying fixed task, in order |
| CycleLogic.FlexiblePartAt | src/utils/cycleLogic.ts:69-117 | the flexible loop pushes the entry for position i at position i |
| CycleLogic.FlexiblePartEntries | src/utils/cycleLogic.ts:69-117 | so every flexible task is scheduled |
| CycleLogic.SortSchedule | src/utils/cycleLogic.ts:119-123 | the sort is a permutation |
| CycleLogic.SortSorted | src/utils/cycleLogic.ts:119-123 | the result is ordered by (date, startTime) |
| CycleLogic.SortStable | src/utils/cycleLogic.ts:119-123 | entries with equal keys keep their relative order |
| CycleLogic.UnsortedOrigins | src/utils/cycleLogic.ts:45-117 | before sorting there is one entry per qualifying fixed task plus one per flexible task, and each entry comes from one of them |
| CycleLogic.ScheduleContents | src/utils/cycleLogic.ts:31-124 | the schedule has #qualifying fixed + #flexible entries, is sorted, contains every expected entry, and contains nothing else |
| CycleLogic.ScheduleIds | src/utils/cycleLogic.ts:52-103 | every entry's id is "scheduled-" + its task id |
| CycleLogic.NextOffset | src/utils/cycleLogic.ts:115-116 | the increment-and-reset of dayOffset keeps it equal to the index mod 7 |
| CycleLogic.PlaceFlexible | src/utils/cycleLogic.ts:70-113 | one turn of the flexible loop produces the entry for its index |
| CycleLogic.ScheduleFixedTasks | src/utils/cycleLogic.ts:49-65 | the fixed loop pushes the fixed part |
| CycleLogic.ScheduleFlexibleTasks | src/utils/cycleLogic.ts:68-117 | the flexible loop, with its wrapping dayOffset, pushes the flexible part |
| CycleLogic.OrganizeTasksByCyclePhase | src/utils/cycleLogic.ts:31-124 | the result is the sort of the fixed part followed by the flexible part |
| JsText.NatToString | src/utils/cycleLogic.ts:99-100 | `toString` of a number: at least one digit, one exactly below 10 |
| JsText.DigitsValueOfNatToString | src/utils/cycleLogic.ts:99-100 | `toString` gives digits whose value is the number |
| JsText.PadStart2 | src/utils/cycleLogic.ts:99-100 | `padStart(2, '0')` keeps longer strings and left-pads shorter ones with '0' to two characters |
| JsText.NumberOfPadded | src/pages/Today.tsx:42-43 | `Number` reads a padded field back as its number |
| JsText.Number | src/pages/Today.tsx:42-43 | `Number` of a field: its value for a digit string, NaN otherwise; NumberOfPadded states the read-back |
| JsText.ParseInt | src/contexts/DemoAuthContext.tsx:26 | `parseInt(s, 10)`: an optional sign and the leading digit run; ParseIntOfNatToString states the read-back |
| JsText.ClockMinutes | src/pages/Today.tsx:42-43 | `split(':').map(Number)` then `h * 60 + m`, NaN when a part is missing or not a number; ClockMinutesOfFormat states the read-back |
| JsText.FormatClock | src/utils/cycleLogic.ts:99-100 | two zero-padded fields `H:M`; ClockMinutesOfFormat states that it reads back |
| JsText.ClockMinutesOfFormat | src/pages/Today.tsx:42-43 | reading a formatted clock time back gives its minute count |
| JsText.ParseIntOfNatToString | src/contexts/DemoAuthContext.tsx:26 | `parseInt` of a stored start time gives the number that was written |
| JsText.Split | src/utils/cycleLogic.ts:92 | `split` always gives at least one part |
| JsText.TrimStart | src/components/ProtectedRoute.tsx:12 | the leading run of ECMAScript white space and line terminators (tab, VT, FF, space, NBSP, BOM, the Zs separators, LF, CR, LS, PS), and only that, is removed |
| JsText.TrimEnd | src/components/ProtectedRoute.tsx:12 | the trailing run of the same characters, and only that, is removed |
| JsText.Trim | src/components/ProtectedRoute.tsx:12 | `trim()`: TrimStart then TrimEnd, whose contracts state what is removed |
| JsText.TrimIdempotent | src/components/ProtectedRoute.tsx:12 | a trimmed string has no white space at either end, so trimming again changes nothing |
| JsText.IncludesAppend | src/utils/ipfs.ts:135 | a string includes any piece it was built around |
| WebStorage.LocalStorage.GetItem | src/contexts/DemoAuthContext.tsx:22-23 | `getItem` is the stored value, or none for a missing key |
| WebStorage.LocalStorage.SetItem | src/contexts/DemoAuthContext.tsx:81-82 | `setItem` updates that one key |
| WebStorage.LocalStorage.RemoveItem | src/contexts/DemoAuthContext.tsx:92-93 | `removeItem` removes that one key |
| Today.TasksForDate | src/pages/Today.tsx:37-39 | the filter never grows the schedule |
| Today.TasksForDateMembers | src/pages/Today.tsx:37-39 | the filter keeps exactly the entries of the selected date |
| Today.TasksForDateAppend | src/pages/Today.tsx:37-39 | the filter keeps the original order |
| Today.TotalMinutes | src/pages/Today.tsx:41-45 | the reduce over the entries, starting from 0; TotalMinutesNaN and FlexibleMinutes state its terms |
| Today.DailyLoad | src/pages/Today.tsx:37-47 | the load of the entries of a date; EmptyDayLoad and LoadPercentage state its values |
| Today.Minutes | src/pages/Today.tsx:42-44 | one term is a number exactly when both times read as H:M |
| Today.Add | src/pages/Today.tsx:44 | a sum is NaN when either side is |
| Today.TotalMinutesNaN | src/pages/Today.tsx:41-45 | the total is NaN exactly when some entry's times do not read as clock times |
| Today.FlexibleMinutes | src/pages/Today.tsx:41-45 | for an entry made by the scheduler, the term equals the task's duration |
| Today.RoundPercent | src/pages/Today.tsx:47 | the result is the integer nearest to 100·total/480 |
| Today.LoadPercentage | src/pages/Today.tsx:47 | the load is NaN exactly for a NaN total, never exceeds 100, and is not negative for a non-negative total |
| Today.LoadFull | src/pages/Today.tsx:47 | the load is 100 exactly from 478 minutes on, so whenever the total is ≥ 480 |
| Today.EmptyDayLoad | src/pages/Today.tsx:37-47 | a date without entries has no tasks and load 0 |
| Setup.AddTask | src/pages/Setup.tsx:29-40 | appends one task (empty title, Entrepreneur, flexible, 01:00, not weekly, not project) and keeps the existing tasks in order |
| Setup.SaveTask | src/pages/Setup.tsx:42-46 | replaces every task with the updated id and leaves length, order and other tasks unchanged |
| Setup.DeleteTask | src/pages/Setup.tsx:48-50 | `filter(t => t.id !== id)`; DeleteTaskMembers and DeleteTaskAppend state what it keeps |
| Setup.DeleteTaskMembers | src/pages/Setup.tsx:48-50 | deletion removes exactly the tasks with the id |
| Setup.DeleteTaskAppend | src/pages/Setup.tsx:48-50 | deletion keeps the order of the rest |
| Setup.DeleteAbsent | src/pages/Setup.tsx:48-50 | deleting an id no task has changes nothing |
| Setup.DeleteAfterAdd | src/pages/Setup.tsx:29-50 | deleting a task just added under a fresh id restores the list |
| Setup.DeleteAfterSave | src/pages/Setup.tsx:42-50 | saving and then deleting a task equals deleting it |
| Setup.HandleGenerate | src/pages/Setup.tsx:52-56 | the saved data is the cycle day, the tasks and the scheduler's sorted schedule for them |
| Setup.Mount | src/pages/Setup.tsx:17-27 | redirects exactly when Privy is ready and unauthenticated; otherwise saved data restores cycleDay and tasks |
| DemoAuth.Remaining | src/contexts/DemoAuthContext.tsx:27-28 | the remaining time is positive exactly while less than 30000 ms have elapsed, and never above 30000 |
| DemoAuth.DemoSession.StartTimer | src/contexts/DemoAuthContext.tsx:44-72 | the interval runs, with the session state unchanged |
| DemoAuth.DemoSession.Mount | src/contexts/DemoAuthContext.tsx:21-42 | restores the session only with saved 'true', a non-empty start and positive remaining time; an expired or unparsable start removes both keys; while authenticated and now ≥ start, 0 < remaining ≤ 30000 |
| DemoAuth.DemoSession.Tick | src/contexts/DemoAuthContext.tsx:51-70 | with elapsed < 30000, sets remaining to 30000 − elapsed; otherwise deauthenticates, nulls remaining, removes both keys and stops the timer; the flag stays in step with storage |
| DemoAuth.DemoSession.BypassLogin | src/contexts/DemoAuthContext.tsx:74-86 | authenticated, remaining 30000, start recorded, 'demo-auth'='true' and the start persisted |
| DemoAuth.DemoSession.Logout | src/contexts/DemoAuthContext.tsx:88-101 | unauthenticated, null remaining and start, both keys removed, no timer |
| DemoAuth.DemoSession.Unmount | src/contexts/DemoAuthContext.tsx:104-110 | the interval stops |
| Confirmation.JoinDigits | src/components/login/ConfirmationScreen.tsx:58 | joining six single digits gives a six-digit code, one digit per box |
| Confirmation.EmptyCode | src/components/login/ConfirmationScreen.tsx:15 | six empty boxes |
| Confirmation.ConfirmationScreen.HandleCodeChange | src/components/login/ConfirmationScreen.tsx:24-63 | paste writes the digits of the first six characters from the index on, skipping non-digits and never verifying; a single digit or '' is written at the index only; any other value changes nothing; verification runs exactly when all six boxes are filled, with their six-digit concatenation |
| Confirmation.ConfirmationScreen.VerifyCode | src/components/login/ConfirmationScreen.tsx:54-92 | a failed Privy login resets the code to six empty boxes and clears success; otherwise success is shown |
| Confirmation.ConfirmationScreen.HandleResend | src/components/login/ConfirmationScreen.tsx:94-101 | with Privy, a resend resets the code and clears success |
| ProtectedRoute.Decide | src/components/ProtectedRoute.tsx:12-37 | children exactly for demo ∨ (hasPrivy ∧ ready ∧ authenticated); loading exactly for ¬demo ∧ hasPrivy ∧ ¬ready; redirect to "/" in every other case |

## Left out

- Concurrency. Calls are modelled one after another. The read-max-then-insert
  versioning of `saveEncryptedDataToSupabase` can race when stores overlap, and the
  model does not capture that. Version uniqueness is proved only for sequential
  saves.
- The cryptography itself: AES-GCM, key generation and key import by
  `crypto.subtle`. These are stated only through the assumed laws of `AesGcm.Gcm`.
  Tamper detection is an assumed law, not a proved fact.
- `JSON.stringify` and `JSON.parse` are also stated only through their assumed
  round trip. Member order and the text format are not modelled.
- `atob`'s forgiving mode is not modelled. `atob` here is strict base64: it does
  not skip white space and does not accept missing padding.
- `new Date()`, `toISOString()` and `setDate` are not modelled. The seven dates of
  the week are a parameter, and timestamps are a `now` parameter.
- `Date.now()` is a parameter. The `Date.now().toString()` ids of Setup are
  `NatToString(now)`.
- `setInterval`, `clearInterval` and `setTimeout` are not modelled. The interval is
  a flag, its firing is the `Tick` event, and the verification timeout is the
  `VerifyCode` event.
- Input refs, focus and the key handler of the confirmation screen are not
  modelled. They change no state.
- Floating point:
  - `Math.round` is integer rounding half up, which agrees with the float for the
    integer minute totals used here;
  - `Number` and `parseInt` are modelled on digit strings only, with everything
    else as NaN;
  - `parseInt` does not skip leading white space here, and it stops at the first
    non-digit.
- `localeCompare` is plain lexicographic order on character codes. This matches
  for the zero-padded ASCII dates and times the scheduler compares.
- React rendering, navigation and the Privy SDK are not modelled. `ready`,
  `authenticated` and the outcome of `login` are inputs.
- Console logging and the debug-validation branch of `saveUserDataSecurely` are not
  modelled.
- `src/utils/storage.ts` (`saveUserData`/`loadUserData`) is not part of this model.
  `Setup.HandleGenerate` returns the data it would save, and `Setup.Mount` takes
  the loaded data as an input.
- `isSupabaseConfigured()` is the flag `configured`. The PostgREST "no row" error
  is the empty result.
- Today.TotalMinutes: that the sum distributes over concatenation is not stated.
  Only the NaN case and the per-entry term are proved.
- TaskStorage.SaveTasksToIPFS: its contract states the results, the Supabase row
  counter, the random stream and the SDK state. The uploads and rows each turn adds
  are stated per turn by `TaskStorage.TrySaveTask`, not collected over the batch.
- Confirmation.ConfirmationScreen.HandleCodeChange: a string is a sequence of code
  points here, while JavaScript's `length`, `slice` and indexing count UTF-16 code
  units. A pasted or typed value holding a character outside the Basic
  Multilingual Plane is therefore cut at a different place than in the browser.
- SupabaseStorage.Supabase.SaveEncryptedData: the Supabase client is either fully reachable or
  fully unreachable (`online`). The case where `getOrCreateUser` inserts the user row
  and the following version insert then fails is not modelled, so a partial commit
  is never shown.
- SecureStorage.SaveUserDataComplete: for the same reason it never leaves a user row
  without a version row.
- Encryption.CryptoRandom: the stream's values are arbitrary. That two draws give
  different keys or IVs (IV uniqueness for AES-GCM) is not modelled; only that they
  read different positions of the stream.
- Error messages: a rejected browser call is modelled by the name of the exception
  it raises (`OperationError`, `InvalidCharacterError`, `TypeError`). The
  message text that `${error.message}` puts after the prefix
  (src/utils/encryption.ts:131, src/utils/decryption.ts:109, src/utils/ipfs.ts:107-111)
  is the browser's own wording, and the model does not reproduce it.
- SupabaseStorage.Supabase.AllEncryptedData: the `created_at` column that
  `getAllEncryptedDataFromSupabase` selects and returns is not modelled.
  `SupabaseTables.VersionRow` and `SupabaseTables.Metadata` carry no timestamp,
  since the store sets it and nothing in the core reads it.
- WebStorage.LocalStorage.SetItem: it always stores. A quota failure of
  `localStorage.setItem` is not modelled. That failure is swallowed by the
  try/catch in `saveMetadataLocally` (src/utils/secureStorage.ts:126-129) and in
  the task-storage counterpart (src/utils/taskStorage.ts:171-174), and then nothing
  is stored; the model always shows the item stored.

## Findings

| source | as written | input that shows it | evidently intended | confidence | as-written member | corrected member |
|---|---|---|---|---|---|---|
| src/utils/decryption.ts:35-42 | `arrayBufferToString` maps every decrypted byte to the character with that code (Latin-1). The plaintext was encoded with `TextEncoder` (UTF-8). | a user name "é": encrypted as bytes C3 A9, it decrypts to "Ã©", and any non-ASCII text comes back altered | decode the bytes as UTF-8 (`TextDecoder`), the inverse of the encoder | not executed | Decryption.ArrayBufferToString, Decryption.Latin1Counterexample, Decryption.NonAsciiTextAltered | Decryption.DecodeText, Decryption.DecryptCorrected, Decryption.DecryptEncryptCorrected |
