/**
 * The per-user service-account store of `service_account_manager`. The
 * credentials directory is a map from file path to the JSON document in
 * that file; the path of a user's file is determined by the user id alone.
 * An upload arrives already parsed (`None` when it is not valid JSON).
 */
module ServiceAccounts {
  import opened Wrappers
  import Strings

  /** Directory holding one credential file per user. */
  const SERVICE_ACCOUNTS_DIR := "credentials/user_service_accounts"

  /** Keys a service-account document must carry. */
  const REQUIRED_FIELDS: seq<string> := ["type", "project_id", "private_key_id", "private_key", "client_email"]

  /** A parsed JSON document. */
  datatype Json =
    | JNull
    | JBool(b: bool)
    | JNumber(n: real)
    | JString(s: string)
    | JArray(items: seq<Json>)
    | JObject(fields: map<string, Json>)

  /** `SERVICE_ACCOUNTS_DIR / f"{user_id}.json"`. */
  function StoragePath(userId: string): (p: string)
    ensures |p| == |SERVICE_ACCOUNTS_DIR| + 1 + |userId| + 5
    ensures p[..|SERVICE_ACCOUNTS_DIR| + 1] == SERVICE_ACCOUNTS_DIR + "/"
    ensures p[|SERVICE_ACCOUNTS_DIR| + 1 .. |p| - 5] == userId
    ensures p[|p| - 5..] == ".json"
  {
    var p := SERVICE_ACCOUNTS_DIR + "/" + userId + ".json";
    assert p[|SERVICE_ACCOUNTS_DIR| + 1 .. |p| - 5] == userId;
    p
  }

  /** Distinct users never share a credential file. */
  lemma StoragePathInjective(a: string, b: string)
    requires StoragePath(a) == StoragePath(b)
    ensures a == b
  {
    var p := StoragePath(a);
    assert a == p[|SERVICE_ACCOUNTS_DIR| + 1 .. |p| - 5];
  }

  // ----- Validation as the source writes it --------------------------------

  /**
   * Python's `field in data` on whatever `json.load` returned: key membership
   * for an object, element membership for an array, a substring test for a
   * string; `None` for the `TypeError` raised on a number, boolean or null.
   */
  function PyIn(field: string, data: Json): (r: Option<bool>)
    ensures r.None? <==> !(data.JObject? || data.JArray? || data.JString?)
    ensures data.JObject? ==> (r == Some(true) <==> field in data.fields)
    ensures data.JArray? ==> (r == Some(true) <==> JString(field) in data.items)
    ensures data.JString? ==> (r == Some(true) <==> Strings.ContainsSub(data.s, field))
  {
    match data
    case JObject(m) => Some(field in m)
    case JArray(items) => Some(JString(field) in items)
    case JString(s) => Some(Strings.ContainsSub(s, field))
    case _ => None
  }

  /**
   * The check `all(field in data for field in required_fields)` exactly as
   * written: true only when every test yields true (a raising test makes
   * `save_service_account` return false).
   */
  predicate AcceptsAsWritten(data: Json)
    ensures AcceptsAsWritten(data) ==> data.JObject? || data.JArray? || data.JString?
    ensures data.JObject? ==> (AcceptsAsWritten(data) <==> forall f :: f in REQUIRED_FIELDS ==> f in data.fields)
    ensures data.JArray? ==> (AcceptsAsWritten(data) <==> forall f :: f in REQUIRED_FIELDS ==> JString(f) in data.items)
    ensures data.JString? ==> (AcceptsAsWritten(data) <==> forall f :: f in REQUIRED_FIELDS ==> Strings.ContainsSub(data.s, f))
  {
    assert REQUIRED_FIELDS[0] in REQUIRED_FIELDS;
    forall f :: f in REQUIRED_FIELDS ==> PyIn(f, data) == Some(true)
  }

  /** The document the source's check lets through although it is no credential. */
  const FIELD_NAME_LIST: Json :=
    JArray([JString("type"), JString("project_id"), JString("private_key_id"),
            JString("private_key"), JString("client_email")])

  /** A JSON array of the five field names passes the check as written. */
  lemma AsWrittenAcceptsFieldNameList()
    ensures AcceptsAsWritten(FIELD_NAME_LIST)
    ensures !ValidCredential(FIELD_NAME_LIST)
  {
  }

  /** A JSON string in which every field name occurs also passes the check as written. */
  const FIELD_NAME_TEXT: Json :=
    JString("type" + " " + "project_id" + " " + "private_key_id" + " " + "client_email")

  /** As written, the string of field names passes; the intended check rejects it. */
  lemma AsWrittenAcceptsFieldNameText()
    ensures AcceptsAsWritten(FIELD_NAME_TEXT)
    ensures !ValidCredential(FIELD_NAME_TEXT)
  {
    TextHas(0);
    TextHas(1);
    TextHas(2);
    TextHas(3);
    TextHas(4);
  }

  lemma TextHas(k: nat)
    requires k < |REQUIRED_FIELDS|
    ensures Strings.ContainsSub(FIELD_NAME_TEXT.s, REQUIRED_FIELDS[k])
  {
    var sp := " ";
    var s := FIELD_NAME_TEXT.s;
    if k == 0 {
      FoundIn(s, [], "type", sp + "project_id" + sp + "private_key_id" + sp + "client_email");
    } else if k == 1 {
      FoundIn(s, "type" + sp, "project_id", sp + "private_key_id" + sp + "client_email");
    } else if k == 2 {
      FoundIn(s, "type" + sp + "project_id" + sp, "private_key_id", sp + "client_email");
    } else if k == 3 {
      FoundIn(s, "type" + sp + "project_id" + sp, "private_key", "_id" + sp + "client_email");
    } else {
      FoundIn(s, "type" + sp + "project_id" + sp + "private_key_id" + sp, "client_email", []);
    }
  }

  lemma FoundIn(s: string, before: string, sub: string, after: string)
    requires s == before + sub + after
    ensures Strings.ContainsSub(s, sub)
  {
    Strings.ContainsSubAt(s, sub);
    assert s[|before|..|before| + |sub|] == sub;
    assert Strings.OccursAt(s, sub, |before|);
  }

  // ----- Validation as intended ---------------------------------------------

  /**
   * A service-account document: a JSON object carrying every required key.
   * It accepts nothing the written check rejects, and on JSON objects the
   * two agree.
   */
  predicate ValidCredential(data: Json)
    ensures ValidCredential(data) ==> AcceptsAsWritten(data)
    ensures data.JObject? ==> (ValidCredential(data) <==> AcceptsAsWritten(data))
  {
    data.JObject? && forall f :: f in REQUIRED_FIELDS ==> f in data.fields
  }

  // ----- The store as a map -------------------------------------------------

  /** The credential directory: file path to the document it holds. */
  type Files = map<string, Json>

  /** The document stored for `userId`, if any. */
  function Lookup(files: Files, userId: string): (r: Option<Json>)
    ensures r.Some? <==> StoragePath(userId) in files
    ensures r.Some? ==> r.value == files[StoragePath(userId)]
  {
    var path := StoragePath(userId);
    if path in files then Some(files[path]) else None
  }

  /** The directory after `userId`'s file has been (over)written with `data`. */
  function Written(files: Files, userId: string, data: Json): (r: Files)
    ensures r.Keys == files.Keys + {StoragePath(userId)}
    ensures r[StoragePath(userId)] == data
    ensures forall p :: p in files && p != StoragePath(userId) ==> r[p] == files[p]
  {
    files[StoragePath(userId) := data]
  }

  /** The directory after `userId`'s file has been unlinked, if it was there. */
  function Deleted(files: Files, userId: string): (r: Files)
    ensures r.Keys == files.Keys - {StoragePath(userId)}
    ensures forall p :: p in r ==> r[p] == files[p]
  {
    files - {StoragePath(userId)}
  }

  /** A write is seen by the next lookup for the same user, whatever was there before. */
  lemma LookupAfterWrite(files: Files, userId: string, data: Json)
    ensures Lookup(Written(files, userId, data), userId) == Some(data)
  {
  }

  /** A write for one user leaves every other user's entry as it was. */
  lemma WriteKeepsOthers(files: Files, userId: string, other: string, data: Json)
    requires other != userId
    ensures Lookup(Written(files, userId, data), other) == Lookup(files, other)
  {
    if StoragePath(other) == StoragePath(userId) {
      StoragePathInjective(other, userId);
    }
  }

  /** Re-uploading overwrites: only the last write for a user is kept. */
  lemma WriteOverwrites(files: Files, userId: string, first: Json, second: Json)
    ensures Written(Written(files, userId, first), userId, second) == Written(files, userId, second)
  {
  }

  /** After a removal the user has no entry. */
  lemma LookupAfterDelete(files: Files, userId: string)
    ensures Lookup(Deleted(files, userId), userId) == None
  {
  }

  /** A removal for one user leaves every other user's entry as it was. */
  lemma DeleteKeepsOthers(files: Files, userId: string, other: string)
    requires other != userId
    ensures Lookup(Deleted(files, userId), other) == Lookup(files, other)
  {
    if StoragePath(other) == StoragePath(userId) {
      StoragePathInjective(other, userId);
    }
  }

  /** Removing twice is removing once. */
  lemma DeleteIdempotent(files: Files, userId: string)
    ensures Deleted(Deleted(files, userId), userId) == Deleted(files, userId)
  {
  }

  /** Removing a user who had no entry changes nothing. */
  lemma DeleteAbsentIsNoOp(files: Files, userId: string)
    requires Lookup(files, userId) == None
    ensures Deleted(files, userId) == files
  {
  }

  /**
   * `save_service_account` exactly as written, on the directory's value:
   * whatever passes the written check is stored, including the non-object
   * documents that check lets through.
   */
  function SaveAsWritten(files: Files, userId: string, upload: Option<Json>): (r: (bool, Files))
    ensures r.0 <==> upload.Some? && AcceptsAsWritten(upload.value)
    ensures r.0 ==> r.1 == Written(files, userId, upload.value)
    ensures r.0 ==> Lookup(r.1, userId) == upload
    ensures r.0 ==> forall other :: other != userId ==> Lookup(r.1, other) == Lookup(files, other)
    ensures !r.0 ==> r.1 == files
  {
    if upload.Some? && AcceptsAsWritten(upload.value) then
      var r := Written(files, userId, upload.value);
      assert forall other :: other != userId ==> Lookup(r, other) == Lookup(files, other) by {
        forall other | other != userId ensures Lookup(r, other) == Lookup(files, other) {
          WriteKeepsOthers(files, userId, other, upload.value);
        }
      }
      (true, r)
    else
      (false, files)
  }

  /** As written, the array of field names is stored and reported as saved. */
  lemma AsWrittenSavesFieldNameList(files: Files, userId: string)
    ensures SaveAsWritten(files, userId, Some(FIELD_NAME_LIST)) == (true, Written(files, userId, FIELD_NAME_LIST))
  {
    AsWrittenAcceptsFieldNameList();
  }

  /** The credentials directory shared by all sessions. */
  class CredentialStore {
    var files: Files

    /**
     * The directory at start-up: `mkdir(exist_ok=True)` keeps whatever
     * credential files earlier runs left in it.
     */
    constructor (existing: Files)
      ensures files == existing
    {
      files := existing;
    }

    /**
     * `get_user_service_account_path`: the user's file path when the file
     * exists, `None` otherwise.
     */
    function AccountPath(userId: string): (r: Option<string>)
      reads this
      ensures r.Some? <==> Lookup(files, userId).Some?
      ensures r.Some? ==> r.value == StoragePath(userId)
    {
      var path := StoragePath(userId);
      if path in files then Some(path) else None
    }

    /**
     * `save_service_account`. `upload` is the result of `json.load`. The
     * upload is written only when it parsed and is a valid credential; it
     * then replaces whatever the user had stored.
     */
    method Save(userId: string, upload: Option<Json>) returns (saved: bool)
      modifies this
      ensures saved == (upload.Some? && ValidCredential(upload.value))
      ensures saved ==> files == Written(old(files), userId, upload.value)
      ensures !saved ==> files == old(files)
    {
      if upload.None? {
        return false;
      }
      var data := upload.value;
      if !ValidCredential(data) {
        return false;
      }
      var path := StoragePath(userId);
      files := files[path := data];
      return true;
    }

    /** `remove_service_account`: succeeds whether or not an entry existed. */
    method Remove(userId: string) returns (removed: bool)
      modifies this
      ensures removed
      ensures files == Deleted(old(files), userId)
    {
      var path := StoragePath(userId);
      if path in files {
        files := files - {path};
      }
      return true;
    }

    /**
     * `get_text_to_speech_client`: no client without a stored credential;
     * otherwise whatever `connect` (building credentials from the file and
     * a client from them, `None` on any failure) yields for the stored
     * document.
     */
    function TextToSpeechClient<C>(userId: string, connect: Json -> Option<C>): (r: Option<C>)
      reads this
      ensures Lookup(files, userId).None? ==> r.None?
      ensures Lookup(files, userId).Some? ==> r == connect(Lookup(files, userId).value)
    {
      var path := AccountPath(userId);
      if path.None? then None else connect(files[path.value])
    }
  }

  // ----- The session's user id ----------------------------------------------

  /**
   * `get_user_id` on the session's current id: an existing id is returned
   * and kept; otherwise `freshId` (a new UUID in the source) is assigned.
   */
  function AssignUserId(current: Option<string>, freshId: string): (r: (string, Option<string>))
    ensures r.1 == Some(r.0)
    ensures current.Some? ==> r.0 == current.value
    ensures current.None? ==> r.0 == freshId
  {
    if current.None? then (freshId, Some(freshId)) else (current.value, current)
  }

  /** Once assigned, the id never changes, whatever fresh id a later call draws. */
  lemma UserIdStable(current: Option<string>, first: string, second: string)
    ensures AssignUserId(AssignUserId(current, first).1, second) == AssignUserId(current, first)
  {
  }

  /** The session's `user_id` slot. */
  class UserSession {
    var userId: Option<string>

    constructor ()
      ensures userId == None
    {
      userId := None;
    }

    method GetUserId(freshId: string) returns (id: string)
      modifies this
      ensures (id, userId) == AssignUserId(old(userId), freshId)
    {
      if userId.None? {
        userId := Some(freshId);
      }
      id := userId.value;
    }
  }
}
