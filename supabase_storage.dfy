/** The versioned metadata store (src/utils/supabaseStorage.ts) over in-memory
    `users` and `user_secure_data_versions` tables. `configured` is
    `isSupabaseConfigured()`; when `online` is false every query comes back with an
    error, as when the server cannot be reached. */
module SupabaseStorage {
  import opened Wrappers
  import opened Json
  import opened SupabaseTables

  const NotConfigured := "Supabase no está configurado. Verifica VITE_SUPABASE_ANON_KEY."
  const UserPrefix := "Error al obtener/crear usuario: "
  const CreateUserPrefix := "Error al crear usuario en Supabase: "
  const VersionPrefix := "Error al obtener versión: "
  const SavePrefix := "Error al guardar datos en Supabase: "
  const DeletePrefix := "Error al eliminar datos de Supabase: "
  const UserNotFound := "Usuario no encontrado"
  /** The message of the error object a query returns when the server cannot be reached. */
  const QueryError := "FetchError"

  datatype SavedVersion = SavedVersion(id: nat, version: int)

  class Supabase {
    const configured: bool
    const online: bool
    const codec: Codec
    var users: seq<UserRow>
    var nextUserId: nat
    var versions: seq<VersionRow>
    var nextRowId: nat

    /** Serial ids start at 1 and are never reused; a privy id has one user; each
        user's versions are positive and increase in table order. */
    ghost predicate Valid()
      reads this
    {
      && nextUserId >= 1 && UniqueUsers(users) && IdsBelow(users, nextUserId)
      && nextRowId >= 1 && WellFormedVersions(versions, nextRowId)
    }

    constructor (configured: bool, online: bool, codec: Codec)
      ensures Valid()
      ensures this.configured == configured && this.online == online && this.codec == codec
      ensures users == [] && versions == []
    {
      this.configured := configured;
      this.online := online;
      this.codec := codec;
      users := [];
      nextUserId := 1;
      versions := [];
      nextRowId := 1;
    }

    /** `getOrCreateUser` */
    method GetOrCreateUser(privy: string) returns (r: Result<nat>)
      requires Valid()
      modifies this
      ensures Valid()
      ensures versions == old(versions) && nextRowId == old(nextRowId)
      ensures configured && online ==>
                (users, nextUserId) == Enroll(old(users), old(nextUserId), privy) &&
                r == Ok(EnrolledId(old(users), old(nextUserId), privy))
      ensures !(configured && online) ==>
                users == old(users) && nextUserId == old(nextUserId) &&
                r == Err(UserPrefix + (if !configured then NotConfigured else CreateUserPrefix + QueryError))
    {
      EnrollFindsUser(users, nextUserId, privy);
      if !configured {
        return Err(UserPrefix + NotConfigured);
      }
      var existing := if online then FindUser(users, privy) else None;
      if existing.Some? {
        return Ok(existing.value);
      }
      if !online {
        return Err(UserPrefix + CreateUserPrefix + QueryError);
      }
      var id := nextUserId;
      users := users + [UserRow(id, privy)];
      nextUserId := nextUserId + 1;
      r := Ok(id);
    }

    /** `getNextVersion` */
    method GetNextVersion(uid: nat) returns (r: Result<int>)
      requires Valid()
      ensures !configured ==> r == Err(VersionPrefix + NotConfigured)
      ensures configured && !online ==> r == Err(VersionPrefix + VersionPrefix + QueryError)
      ensures configured && online ==> r == Ok(NextVersion(versions, uid))
      ensures r.Ok? ==> r.value >= 1 && (r.value == 1 <==> VersionsOf(versions, uid) == [])
    {
      NextVersionPositive(versions, nextRowId, uid);
      if !configured {
        return Err(VersionPrefix + NotConfigured);
      }
      if !online {
        return Err(VersionPrefix + VersionPrefix + QueryError);
      }
      var rows := VersionsOf(versions, uid);
      var latest := Latest(rows);
      if latest.None? {
        return Ok(1);
      }
      LatestIsMax(rows);
      r := Ok(latest.value.version + 1);
    }

    /** `saveEncryptedDataToSupabase`: one new version row for the user. */
    method SaveEncryptedData(privy: string, cid: string, aesKey: string, iv: string, tag: string)
      returns (r: Result<SavedVersion>)
      requires Valid()
      modifies this
      ensures Valid()
      ensures configured && online ==>
                var uid := EnrolledId(old(users), old(nextUserId), privy);
                && (users, nextUserId) == Enroll(old(users), old(nextUserId), privy)
                && versions == SaveRow(old(versions), old(nextRowId), uid, cid, KeyJson(codec, aesKey, iv, tag))
                && nextRowId == old(nextRowId) + 1
                && r == Ok(SavedVersion(old(nextRowId), NextVersion(old(versions), uid)))
      ensures !(configured && online) ==>
                users == old(users) && nextUserId == old(nextUserId) && versions == old(versions) && nextRowId == old(nextRowId) &&
                r == Err(SavePrefix + (if !configured then NotConfigured else UserPrefix + CreateUserPrefix + QueryError))
    {
      if !configured {
        return Err(SavePrefix + NotConfigured);
      }
      ghost var vs0, next0 := versions, nextRowId;
      var uid := GetOrCreateUser(privy);
      if uid.Err? {
        return Err(SavePrefix + uid.msg);
      }
      assert versions == vs0 && nextRowId == next0;
      var version := GetNextVersion(uid.value);
      if version.Err? {
        return Err(SavePrefix + version.msg);
      }
      var id := InsertVersion(uid.value, cid, KeyJson(codec, aesKey, iv, tag), version.value);
      r := Ok(SavedVersion(id, version.value));
    }

    /** The insert of `saveEncryptedDataToSupabase`: a row with the next row id. */
    method InsertVersion(uid: nat, cid: string, keyJson: string, version: int) returns (id: nat)
      requires Valid() && version == NextVersion(versions, uid)
      modifies this
      ensures Valid()
      ensures id == old(nextRowId) && nextRowId == old(nextRowId) + 1
      ensures versions == SaveRow(old(versions), old(nextRowId), uid, cid, keyJson)
      ensures users == old(users) && nextUserId == old(nextUserId)
    {
      id := nextRowId;
      SaveWellFormed(versions, id, uid, cid, keyJson);
      versions := versions + [VersionRow(id, uid, cid, keyJson, version)];
      nextRowId := nextRowId + 1;
    }

    /** `updateEncryptedDataInSupabase`: always a new version, exactly as a save. */
    method UpdateEncryptedData(privy: string, cid: string, aesKey: string, iv: string, tag: string)
      returns (r: Result<SavedVersion>)
      requires Valid()
      modifies this
      ensures Valid()
      ensures configured && online ==>
                var uid := EnrolledId(old(users), old(nextUserId), privy);
                && (users, nextUserId) == Enroll(old(users), old(nextUserId), privy)
                && versions == SaveRow(old(versions), old(nextRowId), uid, cid, KeyJson(codec, aesKey, iv, tag))
                && nextRowId == old(nextRowId) + 1
                && r == Ok(SavedVersion(old(nextRowId), NextVersion(old(versions), uid)))
      ensures !(configured && online) ==>
                users == old(users) && nextUserId == old(nextUserId) && versions == old(versions) && nextRowId == old(nextRowId) &&
                r == Err(SavePrefix + (if !configured then NotConfigured else UserPrefix + CreateUserPrefix + QueryError))
    {
      r := SaveEncryptedData(privy, cid, aesKey, iv, tag);
    }

    /** `getEncryptedDataFromSupabase`: the newest version, or `None` (null) in every
        other case; it never fails. */
    function LatestEncryptedData(privy: string): (r: Option<Metadata>)
      reads this
      ensures !configured || !online || FindUser(users, privy).None? ==> r == None
      ensures r.Some? ==>
                exists row :: (row in versions && row.userId == FindUser(users, privy).value &&
                  ReadRow(codec, row) == r &&
                  forall other :: other in versions && other.userId == row.userId ==> other.version <= row.version)
    {
      if !configured || !online then None
      else
        match FindUser(users, privy)
        case None => None
        case Some(uid) => LatestMetadata(codec, versions, uid)
    }

    /** `getAllEncryptedDataFromSupabase`: the user's readable versions, newest
        first, or `[]`; it never fails. */
    function AllEncryptedData(privy: string): (r: seq<Metadata>)
      reads this
      ensures !configured || !online || FindUser(users, privy).None? ==> r == []
      ensures MetadataSortedDesc(r)
      ensures r != [] ==> forall m :: m in r ==>
                exists row :: row in versions && row.userId == FindUser(users, privy).value && ReadRow(codec, row) == Some(m)
    {
      if !configured || !online then []
      else
        match FindUser(users, privy)
        case None => []
        case Some(uid) => AllMetadata(codec, versions, uid)
    }

    /** `deleteEncryptedDataFromSupabase`: removes the row only if it belongs to the user. */
    method DeleteEncryptedData(privy: string, rowId: nat) returns (r: Result<()>)
      requires Valid()
      modifies this
      ensures Valid()
      ensures users == old(users) && nextUserId == old(nextUserId) && nextRowId == old(nextRowId)
      ensures r.Ok? <==> configured && online && FindUser(users, privy).Some?
      ensures r.Ok? ==> versions == DeleteOwned(old(versions), rowId, FindUser(users, privy).value)
      ensures r.Err? ==> versions == old(versions)
      ensures r.Err? ==> r.msg == DeletePrefix + (if !configured then NotConfigured else UserNotFound)
    {
      if !configured {
        return Err(DeletePrefix + NotConfigured);
      }
      var user := if online then FindUser(users, privy) else None;
      if user.None? {
        return Err(DeletePrefix + UserNotFound);
      }
      DeleteWellFormed(versions, nextRowId, rowId, user.value);
      versions := DeleteOwned(versions, rowId, user.value);
      r := Ok(());
    }
  }
}
