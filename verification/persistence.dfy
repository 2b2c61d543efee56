/** How admin-panel.js stores the table: the canonical record, one mirror
    record per room for the public room pages, and a backup; and how it
    reads the canonical record back. Timestamps and ISO dates in the records
    are not modelled. */
module Persistence {
  import opened Base
  import opened JsonStore
  import opened Prices
  import Auth
  import Hex

  /** `this.storageKey`. */
  const StorageKey: string := "methodsRoomPrices"
  /** `this.backupKey`. */
  const BackupKey: string := "methodsRoomPricesBackup"
  /** `this.version`. */
  const Version: string := "2.1"

  /** `${roomType}RoomPrices`, the key a room page reads. */
  function MirrorKey(r: Room): (k: string)
    ensures k == RoomName(r) + "RoomPrices"
  {
    match r
    case Training => "trainingRoomPrices"
    case Private => "privateRoomPrices"
    case Meeting => "meetingRoomPrices"
  }

  const MirrorKeys: set<string> := {"trainingRoomPrices", "privateRoomPrices", "meetingRoomPrices"}

  /** Every key savePriceData writes. */
  const PriceKeys: set<string> := {StorageKey, BackupKey} + MirrorKeys

  /** `getAdminUsername()`: `JSON.parse(getItem('adminSession') || '{}')`,
      then its `username` when that is truthy and `"Admin"` otherwise. A
      missing or empty slot parses as `{}`. `None` is the throw: text that
      JSON.parse rejects, or `null`, whose property read is a TypeError. Any
      other value without a truthy `username` (a number, a string, an array)
      gives `"Admin"`. */
  function AdminUsername(st: Storage): (r: Option<Json>)
    ensures r.None? <==> GetItem(st, SessionKey) == Some(Unparsable) || GetItem(st, SessionKey) == Some(Doc(JNull))
    ensures r.Some? ==> Truthy(r.value)
    ensures var slot := GetItem(st, SessionKey);
            slot.Some? && slot.value.Doc? && Present(Member(slot.value.value, "username")) ==>
              r == Member(slot.value.value, "username")
    ensures var slot := GetItem(st, SessionKey);
            r.Some? && !(slot.Some? && slot.value.Doc? && Present(Member(slot.value.value, "username"))) ==>
              r == Some(JStr("Admin"))
  {
    match GetItem(st, SessionKey)
    case None => Some(JStr("Admin"))
    case Some(EmptyText) => Some(JStr("Admin"))
    case Some(Unparsable) => None
    case Some(Doc(session)) =>
      if session == JNull then None
      else if Present(Member(session, "username")) then Member(session, "username")
      else Some(JStr("Admin"))
  }

  /** Writes that leave the session slot alone leave the admin's name alone;
      in particular every price key differs from the session key. */
  lemma NameUnaffected(a: Storage, b: Storage, keys: set<string>)
    requires SameOutside(a, b, keys)
    requires SessionKey !in keys
    ensures AdminUsername(a) == AdminUsername(b)
  {
    assert GetItem(a, SessionKey) == GetItem(b, SessionKey);
  }

  /** The name the panel writes into `updatedBy` is the one the admin logged
      in with; once logged out, it is `"Admin"`. */
  lemma LoginNamesEditor(st: Storage, username: string, password: string, sha: Auth.Digest,
                         random: seq<Hex.byte>, loginClock: int, expiryClock: int)
    requires |random| == 32
    ensures var login := Auth.HandleLogin(st, username, password, sha, random, loginClock, expiryClock);
            login.outcome == Auth.LoggedIn ==> AdminUsername(login.storage) == Some(JStr(username))
    ensures AdminUsername(Auth.HandleLogout(st)) == Some(JStr("Admin"))
  {
    var login := Auth.HandleLogin(st, username, password, sha, random, loginClock, expiryClock);
    if login.outcome == Auth.LoggedIn {
      var session := Auth.SessionRecord(Auth.GenerateSessionToken(random), username, loginClock, expiryClock + Auth.DayMs);
      assert GetItem(login.storage, SessionKey) == Some(Doc(session));
      assert Member(session, "username") == Some(JStr(username));
    }
  }

  /** The canonical record `{prices, version, updatedBy}`. */
  function PriceRecord(t: Table, user: Json): Json
  {
    JObj(map["prices" := TableJson(t), "version" := JStr(Version), "updatedBy" := user])
  }

  /** A room's mirror `{...roomPrices, roomType, updatedBy}`. */
  function MirrorRecord(r: Room, p: RoomPrices, user: Json): Json
  {
    JObj(map["morning" := TiersJson(p.morning), "evening" := TiersJson(p.evening),
             "roomType" := JStr(RoomName(r)), "updatedBy" := user])
  }

  /** The backup `{prices, version}`. */
  function BackupRecord(t: Table): Json
  {
    JObj(map["prices" := TableJson(t), "version" := JStr(Version)])
  }

  /** One `setItem` of a room's mirror under a known name. */
  function WriteMirror(st: Storage, r: Room, p: RoomPrices, user: Json): Storage
  {
    SetItem(st, MirrorKey(r), MirrorRecord(r, p, user))
  }

  /** `updateRoomPages(roomType, roomPrices)`: asks for the admin's name, then
      rewrites that room's mirror. When the name throws, nothing is written
      and the error reaches the caller (`None`). */
  function UpdateRoomPage(st: Storage, r: Room, p: RoomPrices): (o: Option<Storage>)
    ensures o.None? <==> AdminUsername(st).None?
    ensures o.Some? ==> GetItem(o.value, MirrorKey(r)) == Some(Doc(MirrorRecord(r, p, AdminUsername(st).value)))
    ensures o.Some? ==> SameOutside(o.value, st, {MirrorKey(r)})
    ensures o.Some? ==> AdminUsername(o.value) == AdminUsername(st)
  {
    match AdminUsername(st)
    case None => None
    case Some(user) =>
      var s := WriteMirror(st, r, p, user);
      NameUnaffected(s, st, {MirrorKey(r)});
      Some(s)
  }

  /** The per-room loop of savePriceData, over the table's three keys, with
      the name `dataToSave` already holds. */
  function WriteMirrors(st: Storage, t: Table, user: Json): (r: Storage)
    ensures forall room :: GetItem(r, MirrorKey(room)) == Some(Doc(MirrorRecord(room, t.Get(room), user)))
    ensures SameOutside(r, st, MirrorKeys)
  {
    var s1 := WriteMirror(st, Training, t.training, user);
    var s2 := WriteMirror(s1, Private, t.private, user);
    WriteMirror(s2, Meeting, t.meeting, user)
  }

  /** The `forEach` that calls updateRoomPages for every room of the table,
      as resetToDefaults, autoSave and importData do. The name is asked for
      at each call; the first call to throw ends the loop. Each call leaves
      the session slot alone, so either every call throws, the first one
      before writing anything, or the loop writes what savePriceData's
      own room loop writes. */
  function UpdateAllRoomPages(st: Storage, t: Table): (o: Option<Storage>)
    ensures o.None? <==> AdminUsername(st).None?
    ensures o.Some? ==> o.value == WriteMirrors(st, t, AdminUsername(st).value)
  {
    match UpdateRoomPage(st, Training, t.training)
    case None => None
    case Some(s1) =>
      match UpdateRoomPage(s1, Private, t.private)
      case None => None
      case Some(s2) => UpdateRoomPage(s2, Meeting, t.meeting)
  }

  /** `createBackup()`: overwrites the backup with the current table. */
  function CreateBackup(st: Storage, t: Table): (r: Storage)
    ensures GetItem(r, BackupKey) == Some(Doc(BackupRecord(t)))
    ensures SameOutside(r, st, {BackupKey})
  {
    SetItem(st, BackupKey, BackupRecord(t))
  }

  /** `createInitialBackup()`: writes a backup only when `getItem` finds none
      (no key, or the empty string); an existing backup, even an unreadable
      one, is kept and nothing else changes. */
  function CreateInitialBackup(st: Storage, t: Table): (r: Storage)
    ensures HasItem(st, BackupKey) ==> r == st
    ensures !HasItem(st, BackupKey) ==> GetItem(r, BackupKey) == Some(Doc(BackupRecord(t)))
    ensures SameOutside(r, st, {BackupKey})
  {
    if HasItem(st, BackupKey) then st else CreateBackup(st, t)
  }

  /** The body of savePriceData's `try` once `dataToSave` holds the name:
      the canonical record, then a mirror for each room, then the backup.
      Afterwards every one of these keys holds the current table, and no
      other key has changed. */
  function WritePriceData(t: Table, st: Storage, user: Json): (r: Storage)
    ensures GetItem(r, StorageKey) == Some(Doc(PriceRecord(t, user)))
    ensures forall room :: GetItem(r, MirrorKey(room)) == Some(Doc(MirrorRecord(room, t.Get(room), user)))
    ensures GetItem(r, BackupKey) == Some(Doc(BackupRecord(t)))
    ensures SameOutside(r, st, PriceKeys)
  {
    var s1 := SetItem(st, StorageKey, PriceRecord(t, user));
    var s2 := WriteMirrors(s1, t, user);
    CreateBackup(s2, t)
  }

  /** `savePriceData()`. Building `dataToSave` asks for the admin's name;
      when that throws, the `catch` swallows the error before any `setItem`,
      so nothing is written. Otherwise every price key is written under
      that name. No other key changes either way. */
  function SavePriceData(t: Table, st: Storage): (r: Storage)
    ensures AdminUsername(st).None? ==> r == st
    ensures AdminUsername(st).Some? ==> GetItem(r, StorageKey) == Some(Doc(PriceRecord(t, AdminUsername(st).value)))
    ensures AdminUsername(st).Some? ==> GetItem(r, BackupKey) == Some(Doc(BackupRecord(t)))
    ensures AdminUsername(st).Some? ==>
              forall room :: GetItem(r, MirrorKey(room)) == Some(Doc(MirrorRecord(room, t.Get(room), AdminUsername(st).value)))
    ensures SameOutside(r, st, PriceKeys)
    ensures AdminUsername(r) == AdminUsername(st)
  {
    match AdminUsername(st)
    case None => st
    case Some(user) =>
      var r := WritePriceData(t, st, user);
      NameUnaffected(r, st, PriceKeys);
      r
  }

  /** Whether a stored canonical record passes loadPriceData's test: it parses,
      and both `version` and `prices` are truthy. */
  predicate HasVersionAndPrices(saved: Option<Stored>)
  {
    && saved.Some? && saved.value.Doc?
    && Present(Member(saved.value.value, "version"))
    && Present(Member(saved.value.value, "prices"))
  }

  /** `loadPriceData()` as written: the stored `prices`, whatever its shape,
      when the record passes the version-and-prices test; otherwise, and for a
      missing key, an empty string or unparsable text, exactly the defaults.
      It never fails. */
  function LoadPriceDataAsWritten(saved: Option<Stored>): (r: Json)
    ensures HasVersionAndPrices(saved) ==> r == Member(saved.value.value, "prices").value
    ensures !HasVersionAndPrices(saved) ==> r == TableJson(DefaultPrices())
  {
    match saved
    case None => TableJson(DefaultPrices())
    case Some(EmptyText) => TableJson(DefaultPrices())
    case Some(Unparsable) => TableJson(DefaultPrices())
    case Some(Doc(parsed)) =>
      var version, prices := Member(parsed, "version"), Member(parsed, "prices");
      if Present(version) && Present(prices) then prices.value else TableJson(DefaultPrices())
  }

  /** loadPriceData with the stored prices checked by the import validator:
      the stored table when it is complete and non-negative, the defaults
      otherwise. The result always satisfies the table invariant. */
  function LoadPriceData(saved: Option<Stored>): (t: Table)
    ensures ValidTable(t)
    ensures ValidateImportedData(LoadPriceDataAsWritten(saved)) ==>
              Some(t) == TableFromJson(LoadPriceDataAsWritten(saved))
    ensures !ValidateImportedData(LoadPriceDataAsWritten(saved)) ==> t == DefaultPrices()
  {
    var raw := LoadPriceDataAsWritten(saved);
    ValidateImportedIff(raw);
    if ValidateImportedData(raw) then TableFromJson(raw).value else DefaultPrices()
  }

  /** The record loadPriceData looks at. */
  function CanonicalRecord(st: Storage): Option<Stored>
  {
    GetItem(st, StorageKey)
  }

  /** What savePriceData stores, loadPriceData reads back; when the admin's
      name throws, nothing was stored and the load sees the old record. */
  lemma SaveThenLoad(t: Table, st: Storage)
    ensures AdminUsername(st).Some? ==> LoadPriceDataAsWritten(CanonicalRecord(SavePriceData(t, st))) == TableJson(t)
    ensures AdminUsername(st).Some? && ValidTable(t) ==> LoadPriceData(CanonicalRecord(SavePriceData(t, st))) == t
    ensures AdminUsername(st).Some? && !ValidTable(t) ==> LoadPriceData(CanonicalRecord(SavePriceData(t, st))) == DefaultPrices()
    ensures AdminUsername(st).None? ==> CanonicalRecord(SavePriceData(t, st)) == CanonicalRecord(st)
  {
    if AdminUsername(st).Some? {
      var user := AdminUsername(st).value;
      assert CanonicalRecord(SavePriceData(t, st)) == Some(Doc(PriceRecord(t, user)));
      LoadRecord(t, user);
    }
  }

  /** The canonical record of a table loads as that table's JSON. */
  lemma LoadRecord(t: Table, user: Json)
    ensures LoadPriceDataAsWritten(Some(Doc(PriceRecord(t, user)))) == TableJson(t)
    ensures ValidTable(t) ==> LoadPriceData(Some(Doc(PriceRecord(t, user)))) == t
    ensures !ValidTable(t) ==> LoadPriceData(Some(Doc(PriceRecord(t, user)))) == DefaultPrices()
  {
    var rec := PriceRecord(t, user);
    assert rec.fields["version"] == JStr(Version);
    assert rec.fields["prices"] == TableJson(t);
    assert LoadPriceDataAsWritten(Some(Doc(rec))) == TableJson(t);
    ValidateOwnTable(t);
    TableJsonRoundTrip(t);
  }

  /** Counterexample: a stored record whose `prices` is a bare number passes
      the version-and-prices test, so loadPriceData hands the panel a "table"
      that has no rooms at all. */
  lemma LoadAcceptsShapelessPrices()
    ensures var saved := Some(Doc(JObj(map["version" := JStr(Version), "prices" := JNum(5.0)])));
            && LoadPriceDataAsWritten(saved) == JNum(5.0)
            && !ValidateImportedData(LoadPriceDataAsWritten(saved))
            && LoadPriceData(saved) == DefaultPrices()
  {
    var saved := Some(Doc(JObj(map["version" := JStr(Version), "prices" := JNum(5.0)])));
    assert HasVersionAndPrices(saved);
    assert Member(JNum(5.0), "training") == None;
  }

  /** savePriceData overwrites every key it writes, so what those keys held
      before makes no difference to the result. */
  lemma SaveOverwrites(t: Table, a: Storage, b: Storage, user: Json)
    requires SameOutside(a, b, PriceKeys)
    ensures WritePriceData(t, a, user) == WritePriceData(t, b, user)
  {
    var sa, sb := WritePriceData(t, a, user), WritePriceData(t, b, user);
    forall k ensures GetItem(sa, k) == GetItem(sb, k) {
      if k in PriceKeys {
        SavedKey(t, a, b, user, k);
      }
    }
    SameEverywhere(sa, sb);
  }

  /** Page keys written before savePriceData make no difference to what it
      leaves, as long as the admin's name can be read. */
  lemma SaveAfterPages(t: Table, a: Storage, b: Storage)
    requires SameOutside(a, b, MirrorKeys)
    ensures AdminUsername(b).Some? ==> SavePriceData(t, a) == SavePriceData(t, b)
  {
    NameUnaffected(a, b, MirrorKeys);
    if AdminUsername(b).Some? {
      assert SameOutside(a, b, PriceKeys);
      SaveOverwrites(t, a, b, AdminUsername(b).value);
    }
  }

  /** Each key savePriceData writes ends with the same value whatever it held. */
  lemma SavedKey(t: Table, a: Storage, b: Storage, user: Json, k: string)
    requires k in PriceKeys
    ensures GetItem(WritePriceData(t, a, user), k) == GetItem(WritePriceData(t, b, user), k)
  {
    var ra, rb := WritePriceData(t, a, user), WritePriceData(t, b, user);
    if k == StorageKey || k == BackupKey {
    } else {
      var room := if k == "trainingRoomPrices" then Training else if k == "privateRoomPrices" then Private else Meeting;
      assert k == MirrorKey(room);
      assert GetItem(ra, MirrorKey(room)) == GetItem(rb, MirrorKey(room));
    }
  }

  /** Rewriting every room page right after savePriceData (the `forEach` of
      resetToDefaults, autoSave and importData) leaves storage as
      savePriceData left it, whether or not the name throws. */
  lemma PagesAfterSave(t: Table, st: Storage)
    ensures var saved := SavePriceData(t, st);
            UpdateAllRoomPages(saved, t).None? <==> AdminUsername(st).None?
    ensures var saved := SavePriceData(t, st);
            UpdateAllRoomPages(saved, t).Some? ==> UpdateAllRoomPages(saved, t).value == saved
  {
    var saved := SavePriceData(t, st);
    if AdminUsername(st).Some? {
      var user := AdminUsername(st).value;
      SetItemSame(saved, MirrorKey(Training), MirrorRecord(Training, t.training, user));
      SetItemSame(saved, MirrorKey(Private), MirrorRecord(Private, t.private, user));
      SetItemSame(saved, MirrorKey(Meeting), MirrorRecord(Meeting, t.meeting, user));
    }
  }
}
