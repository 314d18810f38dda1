/** The two tables behind the versioned metadata store (src/utils/supabaseStorage.ts)
    and the queries the store runs on them, as functions on the rows. Filters and
    maxima are taken from the end of a table so that appending a row is one step. */
module SupabaseTables {
  import opened Wrappers
  import opened Json

  /** A row of `users`. */
  datatype UserRow = UserRow(id: nat, privyUserId: string)
  /** A row of `user_secure_data_versions`; `encryptedAesKey` is the JSON text of
      `{aesKey, iv, tag}`. */
  datatype VersionRow = VersionRow(id: nat, userId: nat, cid: string, encryptedAesKey: string, version: int)
  /** What the readers hand back for one version (the three key members are
      whatever the stored JSON held; `None` is `undefined`). */
  datatype Metadata = Metadata(cid: string, aesKey: Option<Json>, iv: Option<Json>, tag: Option<Json>, version: int)

  /** `from('users').select('id').eq('privy_user_id', p)`: the id of the first match. */
  function FindUser(users: seq<UserRow>, privy: string): (r: Option<nat>)
    ensures r.Some? <==> exists i :: 0 <= i < |users| && users[i].privyUserId == privy
    ensures r.Some? ==> exists i :: 0 <= i < |users| && users[i].privyUserId == privy && users[i].id == r.value
  {
    if users == [] then None
    else if users[0].privyUserId == privy then Some(users[0].id)
    else
      var r := FindUser(users[1..], privy);
      assert forall i :: 1 <= i < |users| ==> users[1..][i - 1] == users[i];
      r
  }

  /** The `users` table and the next serial id after `getOrCreateUser`: unchanged when
      the privy id is present, one row appended otherwise. */
  function Enroll(users: seq<UserRow>, nextId: nat, privy: string): (r: (seq<UserRow>, nat))
    ensures FindUser(r.0, privy) == Some(EnrolledId(users, nextId, privy))
  {
    FindUserAppend(users, UserRow(nextId, privy), privy);
    match FindUser(users, privy)
    case Some(_) => (users, nextId)
    case None => (users + [UserRow(nextId, privy)], nextId + 1)
  }

  /** The id `getOrCreateUser` returns: the existing one, or the next serial id. */
  function EnrolledId(users: seq<UserRow>, nextId: nat, privy: string): nat
  {
    match FindUser(users, privy)
    case Some(id) => id
    case None => nextId
  }

  predicate UniqueUsers(users: seq<UserRow>)
  {
    forall i, j :: 0 <= i < j < |users| ==> users[i].id != users[j].id && users[i].privyUserId != users[j].privyUserId
  }

  predicate IdsBelow(users: seq<UserRow>, nextId: nat)
  {
    forall i :: 0 <= i < |users| ==> 1 <= users[i].id < nextId
  }

  /** Looking up or creating a user: afterwards the user is present exactly once, a
      present user keeps its id and table, and a second call changes nothing. */
  lemma EnrollFindsUser(users: seq<UserRow>, nextId: nat, privy: string)
    requires UniqueUsers(users) && IdsBelow(users, nextId) && nextId >= 1
    ensures var (us, n) := Enroll(users, nextId, privy);
      && UniqueUsers(us) && IdsBelow(us, n) && n >= nextId
      && FindUser(us, privy).Some?
      && (FindUser(users, privy).Some? ==> us == users && FindUser(us, privy) == FindUser(users, privy))
      && (FindUser(users, privy).None? ==> FindUser(us, privy) == Some(nextId) && us == users + [UserRow(nextId, privy)])
      && Enroll(us, n, privy) == (us, n)
      && (forall p :: p != privy ==> FindUser(us, p) == FindUser(users, p))
  {
    var (us, n) := Enroll(users, nextId, privy);
    if FindUser(users, privy).None? {
      assert us[|users|] == UserRow(nextId, privy);
      assert forall p :: p != privy ==> FindUser(us, p) == FindUser(users, p) by {
        forall p | p != privy ensures FindUser(us, p) == FindUser(users, p) {
          FindUserAppend(users, UserRow(nextId, privy), p);
        }
      }
      FindUserAppend(users, UserRow(nextId, privy), privy);
    }
  }

  lemma {:induction false} FindUserAppend(users: seq<UserRow>, row: UserRow, p: string)
    ensures FindUser(users + [row], p) ==
      (if FindUser(users, p).Some? then FindUser(users, p) else if row.privyUserId == p then Some(row.id) else None)
  {
    if users != [] {
      assert (users + [row])[1..] == users[1..] + [row];
      if users[0].privyUserId != p {
        FindUserAppend(users[1..], row, p);
      }
    }
  }

  /** `.eq('user_id', uid)` on the versions table, in table order. */
  function VersionsOf(vs: seq<VersionRow>, uid: nat): (r: seq<VersionRow>)
    ensures |r| <= |vs|
  {
    if vs == [] then []
    else VersionsOf(vs[..|vs| - 1], uid) + (if vs[|vs| - 1].userId == uid then [vs[|vs| - 1]] else [])
  }

  /** The filter keeps exactly the rows of the user. */
  lemma {:induction false} VersionsOfMembers(vs: seq<VersionRow>, uid: nat)
    ensures forall row :: row in VersionsOf(vs, uid) <==> row in vs && row.userId == uid
  {
    if vs != [] {
      var front := vs[..|vs| - 1];
      VersionsOfMembers(front, uid);
      assert vs == front + [vs[|vs| - 1]];
    }
  }

  /** The largest `version` among some rows. */
  function MaxVersion(rows: seq<VersionRow>): (m: Option<int>)
    ensures m.Some? <==> rows != []
    ensures m.Some? ==> (forall row :: row in rows ==> row.version <= m.value) && exists row :: row in rows && row.version == m.value
  {
    if rows == [] then None
    else
      var last := rows[|rows| - 1];
      assert forall row :: row in rows ==> row in rows[..|rows| - 1] || row == last;
      match MaxVersion(rows[..|rows| - 1])
      case None => Some(last.version)
      case Some(x) => Some(if x >= last.version then x else last.version)
  }

  /** `getNextVersion` against reachable tables: one more than the user's largest
      version, or 1 for a user with no rows (`(data.version || 0) + 1` gives the
      same for a largest version of 0). */
  function NextVersion(vs: seq<VersionRow>, uid: nat): (n: int)
    ensures VersionsOf(vs, uid) == [] ==> n == 1
  {
    match MaxVersion(VersionsOf(vs, uid))
    case None => 1
    case Some(m) => m + 1
  }

  /** The next version exceeds every version of the user and is one more than
      the largest of them. */
  lemma NextVersionBounds(vs: seq<VersionRow>, uid: nat)
    ensures forall row :: row in vs && row.userId == uid ==> row.version < NextVersion(vs, uid)
    ensures VersionsOf(vs, uid) != [] ==>
              exists row :: row in vs && row.userId == uid && row.version == NextVersion(vs, uid) - 1
  {
    VersionsOfMembers(vs, uid);
    if VersionsOf(vs, uid) != [] {
      var m := MaxVersion(VersionsOf(vs, uid)).value;
      var w :| w in VersionsOf(vs, uid) && w.version == m;
      assert w in vs && w.userId == uid;
    }
  }

  /** The row `.order('version', { ascending: false }).limit(1)` picks (the later of
      two rows with the same version). */
  function Latest(rows: seq<VersionRow>): (r: Option<VersionRow>)
    ensures r.Some? <==> rows != []
    ensures r.Some? ==> r.value in rows && forall row :: row in rows ==> row.version <= r.value.version
  {
    if rows == [] then None
    else
      var last := rows[|rows| - 1];
      assert forall row :: row in rows ==> row in rows[..|rows| - 1] || row == last;
      match Latest(rows[..|rows| - 1])
      case None => Some(last)
      case Some(best) => if best.version > last.version then Some(best) else Some(last)
  }

  /** The row the query picks carries the largest version. */
  lemma LatestIsMax(rows: seq<VersionRow>)
    requires rows != []
    ensures MaxVersion(rows) == Some(Latest(rows).value.version)
  {
    var m := MaxVersion(rows);
    var w :| w in rows && w.version == m.value;
    assert w.version <= Latest(rows).value.version;
  }

  /** In a well-formed table the next version is positive, and it is 1 exactly
      for a user without rows. */
  lemma NextVersionPositive(vs: seq<VersionRow>, nextRowId: nat, uid: nat)
    requires WellFormedVersions(vs, nextRowId)
    ensures NextVersion(vs, uid) >= 1 && (NextVersion(vs, uid) == 1 <==> VersionsOf(vs, uid) == [])
  {
    VersionsOfMembers(vs, uid);
    var rows := VersionsOf(vs, uid);
    if rows != [] {
      var m := MaxVersion(rows);
      var w :| w in rows && w.version == m.value;
    }
  }

  /** The stored key JSON of a save. */
  function KeyJson(codec: Codec, aesKey: string, iv: string, tag: string): string
  {
    codec.stringify(Triple("aesKey", aesKey, "iv", iv, "tag", tag))
  }

  /** `JSON.parse(row.encrypted_aes_key)` and the member reads; `None` where that throws. */
  function ReadRow(codec: Codec, row: VersionRow): (r: Option<Metadata>)
    ensures r.Some? ==> r.value.cid == row.cid && r.value.version == row.version
  {
    match codec.parse(row.encryptedAesKey)
    case None => None
    case Some(JNull) => None
    case Some(k) => Some(Metadata(row.cid, Member(k, "aesKey"), Member(k, "iv"), Member(k, "tag"), row.version))
  }

  /** A row written by a save reads back as the three strings that were saved. */
  lemma ReadSavedRow(codec: Codec, id: nat, uid: nat, cid: string, aesKey: string, iv: string, tag: string, version: int)
    requires RoundTrips(codec)
    ensures ReadRow(codec, VersionRow(id, uid, cid, KeyJson(codec, aesKey, iv, tag), version))
      == Some(Metadata(cid, Some(JStr(aesKey)), Some(JStr(iv)), Some(JStr(tag)), version))
  {
    assert "aesKey" != "iv" && "iv" != "tag" && "aesKey" != "tag" by {
      assert "aesKey"[0] != "iv"[0] && "iv"[0] != "tag"[0] && "aesKey"[0] != "tag"[0];
    }
    var j := Triple("aesKey", aesKey, "iv", iv, "tag", tag);
    assert StringMember(j, "aesKey") == Some(aesKey);
  }

  /** The latest-version reader once the user id is known. */
  function LatestMetadata(codec: Codec, vs: seq<VersionRow>, uid: nat): (r: Option<Metadata>)
    ensures r.Some? ==> exists row :: row in vs && row.userId == uid && ReadRow(codec, row) == r &&
                          forall other :: other in vs && other.userId == uid ==> other.version <= row.version
    ensures VersionsOf(vs, uid) == [] ==> r == None
  {
    VersionsOfMembers(vs, uid);
    match Latest(VersionsOf(vs, uid))
    case None => None
    case Some(row) => ReadRow(codec, row)
  }

  /** The row a save appends: the next version, with the given id, cid and key JSON. */
  function SaveRow(vs: seq<VersionRow>, id: nat, uid: nat, cid: string, keyJson: string): (r: seq<VersionRow>)
    ensures |r| == |vs| + 1 && r[..|vs|] == vs
  {
    vs + [VersionRow(id, uid, cid, keyJson, NextVersion(vs, uid))]
  }

  /** The versions table after sequential saves for one user of the given
      (cid, key JSON) pairs, with row ids `firstId`, `firstId + 1`, .... */
  ghost function SaveAll(vs: seq<VersionRow>, firstId: nat, uid: nat, saves: seq<(string, string)>): seq<VersionRow>
    decreases |saves|
  {
    if saves == [] then vs
    else SaveAll(SaveRow(vs, firstId, uid, saves[0].0, saves[0].1), firstId + 1, uid, saves[1..])
  }

  /** Versions counting 1, 2, ... from the first row. */
  predicate CountsFromOne(rows: seq<VersionRow>)
  {
    forall i :: 0 <= i < |rows| ==> rows[i].version == i + 1
  }

  lemma {:induction false} MaxOfCounting(rows: seq<VersionRow>)
    requires CountsFromOne(rows) && rows != []
    ensures MaxVersion(rows) == Some(|rows|)
  {
    if |rows| > 1 {
      MaxOfCounting(rows[..|rows| - 1]);
    }
  }

  lemma {:induction false} LatestOfCounting(rows: seq<VersionRow>)
    requires CountsFromOne(rows) && rows != []
    ensures Latest(rows).Some? && Latest(rows).value.version == |rows|
  {
    if |rows| > 1 {
      LatestOfCounting(rows[..|rows| - 1]);
    }
  }

  lemma AppendOwnRow(before: seq<VersionRow>, row: VersionRow)
    ensures VersionsOf(before + [row], row.userId) == VersionsOf(before, row.userId) + [row]
  {
    assert (before + [row])[..|before|] == before;
  }

  lemma NextOfCounting(before: seq<VersionRow>, uid: nat)
    requires CountsFromOne(VersionsOf(before, uid))
    ensures NextVersion(before, uid) == |VersionsOf(before, uid)| + 1
  {
    if VersionsOf(before, uid) != [] {
      MaxOfCounting(VersionsOf(before, uid));
    }
  }

  /** Saving keeps a user's versions counting 1, 2, ...: after N saves for a user
      that had no rows, that user's versions are exactly 1, 2, ..., N, in table order. */
  lemma {:induction false} SavesNumberFromOne(vs: seq<VersionRow>, firstId: nat, uid: nat, saves: seq<(string, string)>)
    requires CountsFromOne(VersionsOf(vs, uid))
    ensures var rows := VersionsOf(SaveAll(vs, firstId, uid, saves), uid);
      |rows| == |VersionsOf(vs, uid)| + |saves| && CountsFromOne(rows)
    decreases |saves|
  {
    if saves != [] {
      NextOfCounting(vs, uid);
      var row := VersionRow(firstId, uid, saves[0].0, saves[0].1, NextVersion(vs, uid));
      AppendOwnRow(vs, row);
      SavesNumberFromOne(vs + [row], firstId + 1, uid, saves[1..]);
    }
  }

  /** ...and the latest-version query then returns version N. */
  lemma LatestAfterSaves(vs: seq<VersionRow>, firstId: nat, uid: nat, saves: seq<(string, string)>)
    requires VersionsOf(vs, uid) == [] && saves != []
    ensures var rows := VersionsOf(SaveAll(vs, firstId, uid, saves), uid);
      Latest(rows).Some? && Latest(rows).value.version == |saves|
  {
    SavesNumberFromOne(vs, firstId, uid, saves);
    LatestOfCounting(VersionsOf(SaveAll(vs, firstId, uid, saves), uid));
  }

  /** A save leaves every other user's rows as they were. */
  lemma SaveKeepsOthers(vs: seq<VersionRow>, id: nat, uid: nat, cid: string, keyJson: string, other: nat)
    requires other != uid
    ensures VersionsOf(SaveRow(vs, id, uid, cid, keyJson), other) == VersionsOf(vs, other)
  {
    var r := SaveRow(vs, id, uid, cid, keyJson);
    assert r[..|r| - 1] == vs;
  }

  /** `.delete().eq('id', rowId).eq('user_id', uid)` */
  function DeleteOwned(vs: seq<VersionRow>, rowId: nat, uid: nat): (r: seq<VersionRow>)
    ensures |r| <= |vs|
  {
    if vs == [] then []
    else
      var last := vs[|vs| - 1];
      DeleteOwned(vs[..|vs| - 1], rowId, uid) + (if last.id == rowId && last.userId == uid then [] else [last])
  }

  /** Deleting removes exactly the rows with that id that belong to the user. */
  lemma {:induction false} DeleteOwnedMembers(vs: seq<VersionRow>, rowId: nat, uid: nat)
    ensures forall row :: row in DeleteOwned(vs, rowId, uid) <==> row in vs && !(row.id == rowId && row.userId == uid)
  {
    if vs != [] {
      var front := vs[..|vs| - 1];
      DeleteOwnedMembers(front, rowId, uid);
      assert vs == front + [vs[|vs| - 1]];
    }
  }

  /** Deleting removes nothing of another user, even a row with the given id. */
  lemma {:induction false} DeleteKeepsOthers(vs: seq<VersionRow>, rowId: nat, uid: nat, other: nat)
    requires other != uid
    ensures VersionsOf(DeleteOwned(vs, rowId, uid), other) == VersionsOf(vs, other)
  {
    if vs != [] {
      var front := vs[..|vs| - 1];
      var last := vs[|vs| - 1];
      var d := DeleteOwned(front, rowId, uid);
      DeleteKeepsOthers(front, rowId, uid, other);
      if last.id == rowId && last.userId == uid {
        assert DeleteOwned(vs, rowId, uid) == d;
        assert VersionsOf(vs, other) == VersionsOf(front, other);
      } else {
        var r := d + [last];
        assert DeleteOwned(vs, rowId, uid) == r;
        assert r[..|r| - 1] == d;
        assert VersionsOf(r, other) == VersionsOf(d, other) + (if last.userId == other then [last] else []);
      }
    }
  }

  /** Row ids are distinct, and each user's versions increase in table order. */
  predicate Chained(vs: seq<VersionRow>)
  {
    forall i, j :: 0 <= i < j < |vs| ==>
      vs[i].id != vs[j].id && (vs[i].userId == vs[j].userId ==> vs[i].version < vs[j].version)
  }

  /** Well-formed version tables: distinct row ids below the next serial id, and
      versions that are positive and increase per user in table order. */
  predicate WellFormedVersions(vs: seq<VersionRow>, nextRowId: nat)
  {
    Chained(vs) && forall row :: row in vs ==> 1 <= row.id < nextRowId && row.version >= 1
  }

  /** A save keeps the versions table well formed. */
  lemma SaveWellFormed(vs: seq<VersionRow>, nextRowId: nat, uid: nat, cid: string, keyJson: string)
    requires WellFormedVersions(vs, nextRowId) && nextRowId >= 1
    ensures WellFormedVersions(SaveRow(vs, nextRowId, uid, cid, keyJson), nextRowId + 1)
  {
    SaveChained(vs, nextRowId, uid, cid, keyJson);
    VersionsOfMembers(vs, uid);
    var r := SaveRow(vs, nextRowId, uid, cid, keyJson);
    NextVersionBounds(vs, uid);
    if VersionsOf(vs, uid) != [] {
      var w :| w in vs && w.userId == uid && w.version == NextVersion(vs, uid) - 1;
    }
    assert r[|vs|].version >= 1;
    forall row | row in r ensures 1 <= row.id < nextRowId + 1 && row.version >= 1 {
      var k :| 0 <= k < |r| && r[k] == row;
      if k < |vs| {
        assert vs[k] == row && vs[k] in vs;
      }
    }
  }

  /** A delete keeps the versions table well formed. */
  lemma DeleteWellFormed(vs: seq<VersionRow>, nextRowId: nat, rowId: nat, uid: nat)
    requires WellFormedVersions(vs, nextRowId)
    ensures WellFormedVersions(DeleteOwned(vs, rowId, uid), nextRowId)
  {
    DeleteChained(vs, rowId, uid);
    DeleteOwnedMembers(vs, rowId, uid);
  }

  lemma SaveChained(vs: seq<VersionRow>, id: nat, uid: nat, cid: string, keyJson: string)
    requires Chained(vs) && forall row :: row in vs ==> row.id != id
    ensures Chained(SaveRow(vs, id, uid, cid, keyJson))
  {
    var r := SaveRow(vs, id, uid, cid, keyJson);
    NextVersionBounds(vs, uid);
    forall i, j | 0 <= i < j < |r|
      ensures r[i].id != r[j].id && (r[i].userId == r[j].userId ==> r[i].version < r[j].version)
    {
      if j == |vs| {
        assert r[i] == vs[i] && vs[i] in vs;
      }
    }
  }

  lemma {:induction false} DeleteChained(vs: seq<VersionRow>, rowId: nat, uid: nat)
    requires Chained(vs)
    ensures Chained(DeleteOwned(vs, rowId, uid))
  {
    if vs != [] {
      var front := vs[..|vs| - 1];
      var last := vs[|vs| - 1];
      assert Chained(front);
      DeleteChained(front, rowId, uid);
      var r := DeleteOwned(vs, rowId, uid);
      var d := DeleteOwned(front, rowId, uid);
      DeleteOwnedMembers(front, rowId, uid);
      if !(last.id == rowId && last.userId == uid) {
        forall i, j | 0 <= i < j < |r|
          ensures r[i].id != r[j].id && (r[i].userId == r[j].userId ==> r[i].version < r[j].version)
        {
          if j == |d| {
            assert r[i] == d[i] && d[i] in d && d[i] in front;
            var k :| 0 <= k < |front| && front[k] == d[i];
            assert vs[k] == r[i] && r[j] == vs[|vs| - 1];
          } else {
            assert r[i] == d[i] && r[j] == d[j];
          }
        }
      }
    }
  }

  /** Rows in non-increasing version order. */
  predicate SortedDesc(rows: seq<VersionRow>)
  {
    forall i, j :: 0 <= i < j < |rows| ==> rows[i].version >= rows[j].version
  }

  function Insert(row: VersionRow, sorted: seq<VersionRow>): (r: seq<VersionRow>)
    ensures multiset(r) == multiset(sorted) + multiset{row}
  {
    if sorted == [] || row.version >= sorted[0].version then [row] + sorted
    else
      assert sorted == [sorted[0]] + sorted[1..];
      [sorted[0]] + Insert(row, sorted[1..])
  }

  lemma {:induction false} InsertSorted(row: VersionRow, sorted: seq<VersionRow>)
    requires SortedDesc(sorted)
    ensures SortedDesc(Insert(row, sorted))
  {
    if !(sorted == [] || row.version >= sorted[0].version) {
      var rest := Insert(row, sorted[1..]);
      InsertSorted(row, sorted[1..]);
      forall i | 0 <= i < |rest| ensures rest[i].version <= sorted[0].version {
        assert rest[i] in multiset(rest);
        if rest[i] != row {
          assert rest[i] in multiset(sorted[1..]);
          var k :| 0 <= k < |sorted[1..]| && sorted[1..][k] == rest[i];
          assert sorted[k + 1] == rest[i];
        }
      }
    }
  }

  /** `.order('version', { ascending: false })` */
  function SortDesc(rows: seq<VersionRow>): (r: seq<VersionRow>)
    ensures multiset(r) == multiset(rows)
  {
    if rows == [] then []
    else
      assert rows == [rows[0]] + rows[1..];
      Insert(rows[0], SortDesc(rows[1..]))
  }

  lemma {:induction false} SortDescSorted(rows: seq<VersionRow>)
    ensures SortedDesc(SortDesc(rows))
  {
    if rows != [] {
      SortDescSorted(rows[1..]);
      InsertSorted(rows[0], SortDesc(rows[1..]));
    }
  }

  predicate MetadataSortedDesc(ms: seq<Metadata>)
  {
    forall i, j :: 0 <= i < j < |ms| ==> ms[i].version >= ms[j].version
  }

  /** `versions.map(parse-or-null).filter(v => v !== null)` */
  function ReadAll(codec: Codec, rows: seq<VersionRow>): (r: seq<Metadata>)
    ensures |r| <= |rows|
  {
    if rows == [] then []
    else
      match ReadRow(codec, rows[0])
      case None => ReadAll(codec, rows[1..])
      case Some(m) => [m] + ReadAll(codec, rows[1..])
  }

  /** Every reading comes from a row of the input... */
  lemma {:induction false} ReadAllSound(codec: Codec, rows: seq<VersionRow>)
    ensures forall m :: m in ReadAll(codec, rows) ==> exists row :: row in rows && ReadRow(codec, row) == Some(m)
  {
    if rows != [] {
      ReadAllSound(codec, rows[1..]);
      assert forall row :: row in rows[1..] ==> row in rows;
    }
  }

  /** ...every readable row is read... */
  lemma {:induction false} ReadAllComplete(codec: Codec, rows: seq<VersionRow>)
    ensures forall row :: row in rows && ReadRow(codec, row).Some? ==> ReadRow(codec, row).value in ReadAll(codec, rows)
  {
    if rows != [] {
      ReadAllComplete(codec, rows[1..]);
      assert forall row :: row in rows ==> row == rows[0] || row in rows[1..];
    }
  }

  /** ...and the version order of the rows is kept. */
  lemma {:induction false} ReadAllSorted(codec: Codec, rows: seq<VersionRow>)
    requires SortedDesc(rows)
    ensures MetadataSortedDesc(ReadAll(codec, rows))
  {
    if rows != [] {
      var tail := rows[1..];
      ReadAllSorted(codec, tail);
      ReadAllSound(codec, tail);
      var rest := ReadAll(codec, tail);
      forall i | 0 <= i < |rest| ensures rest[i].version <= rows[0].version {
        assert rest[i] in rest;
        var row :| row in tail && ReadRow(codec, row) == Some(rest[i]);
        var k :| 0 <= k < |tail| && tail[k] == row;
        assert rows[k + 1] == row;
      }
    }
  }

  /** The all-versions reader once the user id is known: the user's readable rows,
      newest version first. */
  function AllMetadata(codec: Codec, vs: seq<VersionRow>, uid: nat): (r: seq<Metadata>)
    ensures MetadataSortedDesc(r) && |r| <= |VersionsOf(vs, uid)|
    ensures forall m :: m in r ==> exists row :: row in vs && row.userId == uid && ReadRow(codec, row) == Some(m)
    ensures forall row :: row in vs && row.userId == uid && ReadRow(codec, row).Some? ==> ReadRow(codec, row).value in r
  {
    var sorted := SortDesc(VersionsOf(vs, uid));
    VersionsOfMembers(vs, uid);
    SortDescSorted(VersionsOf(vs, uid));
    ReadAllSound(codec, sorted);
    ReadAllComplete(codec, sorted);
    ReadAllSorted(codec, sorted);
    assert forall row :: row in sorted <==> row in VersionsOf(vs, uid) by {
      forall row ensures row in sorted <==> row in VersionsOf(vs, uid) {
        assert row in sorted <==> row in multiset(sorted);
      }
    }
    assert |sorted| == |multiset(sorted)|;
    ReadAll(codec, sorted)
  }

  /** A save followed by the latest-version query returns the saved cid and the
      three saved strings, with the version the save assigned. */
  lemma SaveThenLatest(codec: Codec, vs: seq<VersionRow>, id: nat, uid: nat, cid: string,
                       aesKey: string, iv: string, tag: string)
    requires RoundTrips(codec)
    ensures LatestMetadata(codec, SaveRow(vs, id, uid, cid, KeyJson(codec, aesKey, iv, tag)), uid)
      == Some(Metadata(cid, Some(JStr(aesKey)), Some(JStr(iv)), Some(JStr(tag)), NextVersion(vs, uid)))
  {
    var row := VersionRow(id, uid, cid, KeyJson(codec, aesKey, iv, tag), NextVersion(vs, uid));
    AppendOwnRow(vs, row);
    var rows := VersionsOf(vs, uid) + [row];
    assert rows[..|rows| - 1] == VersionsOf(vs, uid);
    VersionsOfMembers(vs, uid);
    NextVersionBounds(vs, uid);
    assert Latest(rows) == Some(row);
    ReadSavedRow(codec, id, uid, cid, aesKey, iv, tag, NextVersion(vs, uid));
  }
}
