/** The operations of the admin panel that read the number inputs or replace
    the table: single-room update, save-all, auto-save, reset, import and
    export. The page's inputs are a parameter. The admin's name that ends up
    in `updatedBy` is read from the session slot at every write, and a
    session slot it cannot be read from makes those writes throw. Broadcast
    events are not modelled. */
module Panel {
  import opened Base
  import opened JsonStore
  import opened Coerce
  import opened Prices
  import opened Persistence

  /** One number input, the element with id `<room>-<slot>-<tier>`. */
  datatype Field = Field(room: Room, slot: Slot, tier: Tier)

  /** The number inputs present on the page and their current text. */
  type Form = map<Field, string>

  /** All three inputs of a slot are on the page. */
  predicate HasSlotInputs(form: Form, room: Room, slot: Slot)
  {
    Field(room, slot, Hourly) in form && Field(room, slot, Daily) in form && Field(room, slot, Monthly) in form
  }

  /** All six inputs of a room are on the page. */
  predicate HasRoomInputs(form: Form, room: Room)
  {
    HasSlotInputs(form, room, Morning) && HasSlotInputs(form, room, Evening)
  }

  /** The three inputs of one slot. */
  function ReadTiers(form: Form, room: Room, slot: Slot): (r: Option<TierPrices>)
    ensures r.Some? <==> HasSlotInputs(form, room, slot)
    ensures r.Some? ==> r.value.hourly == CoerceField(form[Field(room, slot, Hourly)])
    ensures r.Some? ==> r.value.daily == CoerceField(form[Field(room, slot, Daily)])
    ensures r.Some? ==> r.value.monthly == CoerceField(form[Field(room, slot, Monthly)])
  {
    var h, d, m := Field(room, slot, Hourly), Field(room, slot, Daily), Field(room, slot, Monthly);
    if h in form && d in form && m in form then
      Some(TierPrices(CoerceField(form[h]), CoerceField(form[d]), CoerceField(form[m])))
    else None
  }

  /** The six-field collection block: each price is `parseInt(value) || 0`.
      A missing input makes the source throw, modelled as `None`. */
  function ReadRoom(form: Form, room: Room): (r: Option<RoomPrices>)
    ensures r.Some? <==> HasRoomInputs(form, room)
  {
    match (ReadTiers(form, room, Morning), ReadTiers(form, room, Evening))
    case (Some(m), Some(e)) => Some(RoomPrices(m, e))
    case _ => None
  }

  /** Every price read from a complete page is the coerced text of its own
      input, hence a whole number. */
  lemma ReadRoomValues(form: Form, room: Room, slot: Slot, tier: Tier)
    requires HasRoomInputs(form, room)
    ensures ReadRoom(form, room).Some?
    ensures ReadRoom(form, room).value.Get(slot).Get(tier) == CoerceField(form[Field(room, slot, tier)])
    ensures ReadRoom(form, room).value.Get(slot).Get(tier) == ReadRoom(form, room).value.Get(slot).Get(tier).Floor as real
  {
    match slot {
      case Morning =>
        match tier {
          case Hourly =>
          case Daily =>
          case Monthly =>
        }
      case Evening =>
        match tier {
          case Hourly =>
          case Daily =>
          case Monthly =>
        }
    }
  }

  /** Every input of every room is on the page. */
  predicate FormComplete(form: Form)
  {
    HasRoomInputs(form, Training) && HasRoomInputs(form, Private) && HasRoomInputs(form, Meeting)
  }

  /** The panel's state: the in-memory `priceData` and localStorage. */
  datatype PanelState = PanelState(prices: Table, storage: Storage)

  /** The canonical record reads back as the in-memory table. */
  predicate Persisted(p: PanelState)
  {
    LoadPriceData(CanonicalRecord(p.storage)) == p.prices
  }

  /** A value whose keys `Object.keys` cannot list (`null`), or that holds
      one directly under one of its own keys. */
  predicate NullOrHoldsNull(v: Json)
  {
    || v == JNull
    || (v.JObj? && exists s :: s in v.fields && v.fields[s] == JNull)
    || (v.JArr? && exists i :: 0 <= i < |v.items| && v.items[i] == JNull)
  }

  /** Whether `loadCurrentPrices()` throws on `priceData`: its nested
      `Object.keys` walks every room and every slot under every key the
      object has, required or not, and `Object.keys(null)` is a TypeError. */
  predicate FillThrows(prices: Json)
  {
    prices.JObj? && exists k :: k in prices.fields && NullOrHoldsNull(prices.fields[k])
  }

  /** The panel's own tables never make the fill throw. */
  lemma OwnTableFills(t: Table)
    ensures !FillThrows(TableJson(t))
  {
    var j := TableJson(t);
    forall k | k in j.fields ensures !NullOrHoldsNull(j.fields[k]) {
      var room := if k == "training" then t.training else if k == "private" then t.private else t.meeting;
      assert j.fields[k] == RoomJson(room);
      assert forall s :: s in RoomJson(room).fields ==> RoomJson(room).fields[s].JObj?;
    }
  }

  /** Whether `init()` throws at `loadCurrentPrices()`: the stored prices
      were accepted by the load and hold a `null` where the fill walks. The
      defaults never do (`OwnTableFills`). */
  predicate LoadedFillThrows(st: Storage)
  {
    var raw := LoadPriceDataAsWritten(CanonicalRecord(st));
    ValidateImportedData(raw) && FillThrows(raw)
  }

  /** Whether `${v}` throws for a value `JSON.parse` produced. An own
      `toString` key of an object hides the inherited method behind a value
      that cannot be called, and the inherited `valueOf` yields the object
      itself, so no primitive is found. An array's text joins its items'
      text, so it throws when one of them does. */
  predicate TextThrows(v: Json)
  {
    match v
    case JObj(fields) => "toString" in fields
    case JArr(items) => exists i :: 0 <= i < |items| && TextThrows(items[i])
    case _ => false
  }

  /** Whether `displayWelcomeMessage()` throws: `JSON.parse` of the session
      slot fails; or the page has the welcome element and then either the
      slot holds `null`, so that reading `sessionData.username` fails, or
      the username is truthy and its text throws. */
  predicate WelcomeThrows(st: Storage, hasWelcome: bool)
  {
    match GetItem(st, SessionKey)
    case Some(Unparsable) => true
    case Some(Doc(session)) =>
      && hasWelcome
      && (|| session == JNull
          || (Present(Member(session, "username")) && TextThrows(Member(session, "username").value)))
    case _ => false
  }

  /** Whether `init()` throws before `createInitialBackup()`: at the fill
      (line 12) or at the welcome message (line 13). `displayDataStats`
      catches its own errors. */
  predicate InitStops(st: Storage, hasWelcome: bool)
  {
    LoadedFillThrows(st) || WelcomeThrows(st, hasWelcome)
  }

  /** Constructor and `init()`: the table comes from storage, falling back to
      the defaults, and a first backup is written if there is none. When
      filling the inputs or the welcome message throws, `init` stops before
      that backup; the event handlers are bound by then, so the panel still
      works. */
  function OpenPanel(st: Storage, hasWelcome: bool): (p: PanelState)
    ensures ValidTable(p.prices)
    ensures SameOutside(p.storage, st, {BackupKey})
    ensures HasItem(st, BackupKey) || InitStops(st, hasWelcome) ==> p.storage == st
    ensures !HasItem(st, BackupKey) && !InitStops(st, hasWelcome) ==>
              GetItem(p.storage, BackupKey) == Some(Doc(BackupRecord(p.prices)))
  {
    var t := LoadPriceData(CanonicalRecord(st));
    if InitStops(st, hasWelcome) then PanelState(t, st)
    else PanelState(t, CreateInitialBackup(st, t))
  }

  /** The canonical record `{"version": "2.1", "prices": ...}` holding that
      table with an extra `null` slot. */
  function NullSlotRecord(t: Table): (rec: Json)
    ensures Member(rec, "version") == Some(JStr(Version))
    ensures Member(rec, "prices") == Some(WithNullSlot(t))
  {
    JObj(map["version" := JStr(Version), "prices" := WithNullSlot(t)])
  }

  /** A record with a truthy version and truthy prices, stored under the
      canonical key, is what the load reads. */
  lemma StoredRecordLoads(st: Storage, rec: Json)
    requires Present(Member(rec, "version")) && Present(Member(rec, "prices"))
    ensures LoadPriceDataAsWritten(CanonicalRecord(SetItem(st, StorageKey, rec))) == Member(rec, "prices").value
  {
    assert CanonicalRecord(SetItem(st, StorageKey, rec)) == Some(Doc(rec));
  }

  /** A stored record whose prices the load accepts but the fill throws on:
      the panel shows the stored table and storage is left as it was. */
  lemma AcceptedFillStopsInit(st: Storage, rec: Json, t: Table, hasWelcome: bool)
    requires Present(Member(rec, "version")) && Present(Member(rec, "prices"))
    requires ValidateImportedData(Member(rec, "prices").value) && FillThrows(Member(rec, "prices").value)
    requires TableFromJson(Member(rec, "prices").value) == Some(t)
    ensures var start := SetItem(st, StorageKey, rec);
            OpenPanel(start, hasWelcome) == PanelState(t, start)
  {
    StoredRecordLoads(st, rec);
  }

  /** A stored table with an extra `null` slot is loaded, then makes the fill
      throw: the panel shows that table and no first backup is written. */
  lemma NullSlotRecordStopsInit(st: Storage, t: Table, hasWelcome: bool)
    requires ValidTable(t)
    ensures var start := SetItem(st, StorageKey, NullSlotRecord(t));
            OpenPanel(start, hasWelcome) == PanelState(t, start)
  {
    NullSlotPassesCheck(t);
    AcceptedFillStopsInit(st, NullSlotRecord(t), t, hasWelcome);
  }

  /** The session `{"username": {"toString": 1}}`. */
  function ObjectNameSession(): (session: Json)
    ensures Member(session, "username") == Some(JObj(map["toString" := JNum(1.0)]))
  {
    JObj(map["username" := JObj(map["toString" := JNum(1.0)])])
  }

  /** A username object with its own `toString` key is readable as the
      admin's name, yet writing the welcome text throws: with the welcome
      element on the page no first backup is written. */
  lemma ObjectNameStopsInit(st: Storage)
    ensures var start := SetItem(st, SessionKey, ObjectNameSession());
            AdminUsername(start).Some? && OpenPanel(start, true).storage == start
  {
    var start := SetItem(st, SessionKey, ObjectNameSession());
    assert GetItem(start, SessionKey) == Some(Doc(ObjectNameSession()));
    assert TextThrows(Member(ObjectNameSession(), "username").value);
    assert WelcomeThrows(start, true);
  }

  /** A panel start on what savePriceData stored shows that table again,
      provided the admin's name could be read when it was saved. */
  lemma OpenAfterSave(t: Table, st: Storage, hasWelcome: bool)
    requires ValidTable(t)
    ensures AdminUsername(st).Some? ==> OpenPanel(SavePriceData(t, st), hasWelcome).prices == t
    ensures AdminUsername(st).None? ==> OpenPanel(SavePriceData(t, st), hasWelcome) == OpenPanel(st, hasWelcome)
  {
    SaveThenLoad(t, st);
  }

  // ---- updateRoomPrices ----

  /** Why `updateRoomPrices` showed its error: an input missing from the
      page, a negative price, or updateRoomPages throwing for want of the
      admin's name. */
  datatype UpdateError = MissingInput | InvalidPrices | NameUnreadable
  datatype UpdateOutcome = Updated | Rejected(error: UpdateError)

  /** A new panel state and what the operation reported. */
  datatype Step<O> = Step(panel: PanelState, outcome: O)

  /** `updateRoomPrices(roomType)`. With all six inputs present and
      non-negative, that room's entry is replaced, the table is saved and the
      room's page key rewritten, so that storage reads back as the new
      table. A missing or negative input changes nothing. When the admin's
      name cannot be read, the entry is replaced but savePriceData writes
      nothing and updateRoomPages throws: storage is unchanged. */
  function UpdateRoomPrices(p: PanelState, form: Form, room: Room): (r: Step<UpdateOutcome>)
    ensures r.outcome == Updated <==>
              ReadRoom(form, room).Some? && NonNegative(ReadRoom(form, room).value) && AdminUsername(p.storage).Some?
    ensures r.outcome == Rejected(NameUnreadable) <==>
              ReadRoom(form, room).Some? && NonNegative(ReadRoom(form, room).value) && AdminUsername(p.storage).None?
    ensures r.outcome == Rejected(MissingInput) || r.outcome == Rejected(InvalidPrices) ==> r.panel == p
    ensures r.outcome == Rejected(NameUnreadable) ==> r.panel.storage == p.storage
    ensures ReadRoom(form, room).Some? && NonNegative(ReadRoom(form, room).value) ==>
              r.panel.prices.Get(room) == ReadRoom(form, room).value
    ensures forall o :: o != room ==> r.panel.prices.Get(o) == p.prices.Get(o)
    ensures r.outcome == Updated ==> r.panel.storage == SavePriceData(r.panel.prices, p.storage)
    ensures ValidTable(p.prices) ==> ValidTable(r.panel.prices)
    ensures ValidTable(p.prices) && r.outcome == Updated ==> Persisted(r.panel)
  {
    match ReadRoom(form, room)
    case None => Step(p, Rejected(MissingInput))
    case Some(rp) =>
      if ValidatePrices(rp) then
        var t := p.prices.Set(room, rp);
        var saved := SavePriceData(t, p.storage);
        match UpdateRoomPage(saved, room, rp)
        case None => Step(PanelState(t, saved), Rejected(NameUnreadable))
        case Some(written) =>
          SetItemSame(saved, MirrorKey(room), MirrorRecord(room, rp, AdminUsername(p.storage).value));
          SaveThenLoad(t, p.storage);
          Step(PanelState(t, written), Updated)
      else Step(p, Rejected(InvalidPrices))
  }

  // ---- saveAllChanges and autoSave ----

  /** What the page yields for each room: its prices, or `None` when one of
      its inputs is missing. */
  datatype Readings = Readings(training: Option<RoomPrices>, private: Option<RoomPrices>, meeting: Option<RoomPrices>)
  {
    function Get(r: Room): Option<RoomPrices>
    {
      match r
      case Training => training
      case Private => private
      case Meeting => meeting
    }
  }

  /** The six-field collection block run for every room of the table. */
  function ReadPage(form: Form): Readings
  {
    Readings(ReadRoom(form, Training), ReadRoom(form, Private), ReadRoom(form, Meeting))
  }

  /** What the bulk loops leave in a room: the page's prices when they can be
      read and validate, the current entry otherwise. */
  function Candidate(current: RoomPrices, input: Option<RoomPrices>): RoomPrices
  {
    match input
    case Some(rp) => if ValidatePrices(rp) then rp else current
    case None => current
  }

  /** The table both bulk operations aim at, room by room. */
  function Merge(t: Table, rd: Readings): Table
  {
    Table(Candidate(t.training, rd.training), Candidate(t.private, rd.private), Candidate(t.meeting, rd.meeting))
  }

  function MergeForm(t: Table, form: Form): Table
  {
    Merge(t, ReadPage(form))
  }

  /** The state threaded through the `forEach` over the rooms: the table,
      storage, whether some room was replaced (the source's `hasChanges`
      once the pass completes), and whether the pass got through every
      room. It stops when a missing input makes `getElementById(..).value`
      throw, or when updateRoomPages throws for want of the admin's name;
      the room being replaced then already holds its new entry. */
  datatype Sweep = Sweep(prices: Table, storage: Storage, changed: bool, completed: bool)

  /** The room loop shared by saveAllChanges (`writePages`: a changed room's
      page key is rewritten at once) and autoSave (only the table copy
      changes). A room is replaced when its inputs validate and differ from
      the current entry. */
  function SweepRooms(t: Table, st: Storage, rd: Readings, rooms: seq<Room>, writePages: bool): (r: Sweep)
    ensures r.completed ==> forall i :: 0 <= i < |rooms| ==> rd.Get(rooms[i]).Some?
    ensures (forall i :: 0 <= i < |rooms| ==> rd.Get(rooms[i]).Some?) && (!writePages || AdminUsername(st).Some?) ==>
              r.completed
    ensures forall room :: room !in rooms ==> r.prices.Get(room) == t.Get(room)
    ensures !r.changed ==> r.prices == t && r.storage == st
    ensures !writePages || AdminUsername(st).None? ==> r.storage == st
    ensures SameOutside(r.storage, st, MirrorKeys)
    decreases |rooms|
  {
    if rooms == [] then Sweep(t, st, false, true)
    else
      var room := rooms[0];
      match rd.Get(room)
      case None => Sweep(t, st, false, false)
      case Some(rp) =>
        if ValidatePrices(rp) && rp != t.Get(room) then
          var t' := t.Set(room, rp);
          if !writePages then SweepRooms(t', st, rd, rooms[1..], false).(changed := true)
          else
            match UpdateRoomPage(st, room, rp)
            case None => Sweep(t', st, true, false)
            case Some(st') => SweepRooms(t', st', rd, rooms[1..], true).(changed := true)
        else SweepRooms(t, st, rd, rooms[1..], writePages)
  }

  /** The storage a pass carries on with after replacing `room`. */
  function AfterReplace(st: Storage, room: Room, rp: RoomPrices, writePages: bool): Storage
  {
    if writePages && UpdateRoomPage(st, room, rp).Some? then UpdateRoomPage(st, room, rp).value else st
  }

  /** A completed pass leaves every visited room at its candidate, also when
      a room is visited twice. */
  lemma {:induction false} SweepMerges(t: Table, st: Storage, rd: Readings, rooms: seq<Room>, writePages: bool)
    requires SweepRooms(t, st, rd, rooms, writePages).completed
    ensures forall room :: room in rooms ==>
              SweepRooms(t, st, rd, rooms, writePages).prices.Get(room) == Candidate(t.Get(room), rd.Get(room))
    decreases |rooms|
  {
    if rooms != [] {
      var room := rooms[0];
      var rp := rd.Get(room).value;
      var rest := rooms[1..];
      assert forall o :: o in rooms <==> o == room || o in rest;
      if ValidatePrices(rp) && rp != t.Get(room) {
        SweepMerges(t.Set(room, rp), AfterReplace(st, room, rp, writePages), rd, rest, writePages);
      } else {
        SweepMerges(t, st, rd, rest, writePages);
      }
    }
  }

  /** A completed pass reports a change exactly when some visited room's
      candidate differs from its entry. */
  lemma {:induction false} SweepReportsChange(t: Table, st: Storage, rd: Readings, rooms: seq<Room>, writePages: bool)
    requires SweepRooms(t, st, rd, rooms, writePages).completed
    ensures SweepRooms(t, st, rd, rooms, writePages).changed <==>
              exists room :: room in rooms && Candidate(t.Get(room), rd.Get(room)) != t.Get(room)
    decreases |rooms|
  {
    if rooms != [] {
      var room := rooms[0];
      var rp := rd.Get(room).value;
      var rest := rooms[1..];
      assert forall o :: o in rooms <==> o == room || o in rest;
      if ValidatePrices(rp) && rp != t.Get(room) {
        assert Candidate(t.Get(room), rd.Get(room)) != t.Get(room);
      } else {
        SweepReportsChange(t, st, rd, rest, writePages);
      }
    }
  }

  /** Complete or not, a pass leaves every room either at its entry or at
      its candidate. */
  lemma {:induction false} SweepBetween(t: Table, st: Storage, rd: Readings, rooms: seq<Room>, writePages: bool)
    ensures forall room :: Between(SweepRooms(t, st, rd, rooms, writePages).prices.Get(room), t.Get(room), rd.Get(room))
    decreases |rooms|
  {
    if rooms != [] && rd.Get(rooms[0]).Some? {
      var room := rooms[0];
      var rp := rd.Get(room).value;
      if ValidatePrices(rp) && rp != t.Get(room) {
        var t' := t.Set(room, rp);
        if writePages && UpdateRoomPage(st, room, rp).None? {
        } else {
          SweepBetween(t', AfterReplace(st, room, rp, writePages), rd, rooms[1..], writePages);
          assert Candidate(t'.Get(room), rd.Get(room)) == rp;
        }
      } else {
        SweepBetween(t, st, rd, rooms[1..], writePages);
      }
    }
  }

  /** A room holds its entry or its candidate. */
  predicate Between(x: RoomPrices, current: RoomPrices, input: Option<RoomPrices>)
  {
    x == current || x == Candidate(current, input)
  }

  /** Without the admin's name a writing pass completes exactly when every
      visited room can be read and none would change; a pass stopped with
      every room readable has replaced one room. */
  lemma {:induction false} SweepNeedsName(t: Table, st: Storage, rd: Readings, rooms: seq<Room>)
    requires AdminUsername(st).None?
    ensures SweepRooms(t, st, rd, rooms, true).completed <==>
              (forall i :: 0 <= i < |rooms| ==> rd.Get(rooms[i]).Some?)
              && forall room :: room in rooms ==> Candidate(t.Get(room), rd.Get(room)) == t.Get(room)
    ensures (forall i :: 0 <= i < |rooms| ==> rd.Get(rooms[i]).Some?) && !SweepRooms(t, st, rd, rooms, true).completed ==>
              SweepRooms(t, st, rd, rooms, true).prices != t
    decreases |rooms|
  {
    if rooms != [] {
      var room := rooms[0];
      var rest := rooms[1..];
      assert forall o :: o in rooms <==> o == room || o in rest;
      assert forall i :: 0 <= i < |rest| ==> rest[i] == rooms[i + 1];
      if rd.Get(room).Some? {
        var rp := rd.Get(room).value;
        if ValidatePrices(rp) && rp != t.Get(room) {
          assert SweepRooms(t, st, rd, rooms, true).prices.Get(room) == rp;
        } else {
          SweepNeedsName(t, st, rd, rest);
        }
      }
    }
  }

  /** No pass, complete or not, makes a valid table invalid. */
  lemma {:induction false} SweepKeepsValid(t: Table, st: Storage, rd: Readings, rooms: seq<Room>, writePages: bool)
    ensures ValidTable(t) ==> ValidTable(SweepRooms(t, st, rd, rooms, writePages).prices)
    decreases |rooms|
  {
    if rooms != [] && rd.Get(rooms[0]).Some? {
      var room := rooms[0];
      var rp := rd.Get(room).value;
      if ValidatePrices(rp) && rp != t.Get(room) {
        SweepKeepsValid(t.Set(room, rp), AfterReplace(st, room, rp, writePages), rd, rooms[1..], writePages);
      } else {
        SweepKeepsValid(t, st, rd, rooms[1..], writePages);
      }
    }
  }

  datatype SaveOutcome = Saved | NoChanges | SaveFailed

  /** Every room of the table can be read exactly when the page is complete. */
  lemma RoomsReadable(form: Form)
    ensures (forall i :: 0 <= i < |Rooms| ==> ReadPage(form).Get(Rooms[i]).Some?) <==> FormComplete(form)
  {
    assert Rooms[0] == Training && Rooms[1] == Private && Rooms[2] == Meeting;
  }

  /** The merge keeps the table exactly when no room's candidate differs
      from its entry. */
  lemma MergeUnchanged(t: Table, rd: Readings)
    ensures (forall room :: room in Rooms ==> Candidate(t.Get(room), rd.Get(room)) == t.Get(room)) <==> Merge(t, rd) == t
  {
    assert Rooms[0] == Training && Rooms[1] == Private && Rooms[2] == Meeting;
    if Merge(t, rd) == t {
      forall room | room in Rooms ensures Candidate(t.Get(room), rd.Get(room)) == t.Get(room) {
        match room {
          case Training =>
          case Private =>
          case Meeting =>
        }
      }
    } else {
      assert Training in Rooms && Private in Rooms && Meeting in Rooms;
    }
  }

  /** Over the table's own rooms the pass completes exactly on a complete
      page, unless it must write a page key and the admin's name cannot be
      read while some room changes; a pass stopped that way on a complete
      page has replaced a room. */
  lemma SweepCompletes(t: Table, st: Storage, form: Form, writePages: bool)
    ensures SweepRooms(t, st, ReadPage(form), Rooms, writePages).completed <==>
              FormComplete(form) && (writePages && AdminUsername(st).None? ==> MergeForm(t, form) == t)
    ensures FormComplete(form) && !SweepRooms(t, st, ReadPage(form), Rooms, writePages).completed ==>
              SweepRooms(t, st, ReadPage(form), Rooms, writePages).prices != t
  {
    RoomsReadable(form);
    if writePages && AdminUsername(st).None? {
      SweepNeedsName(t, st, ReadPage(form), Rooms);
      MergeUnchanged(t, ReadPage(form));
    }
  }

  /** Over the table's own rooms a pass that completes (a complete page, and
      no change where page keys need a name that cannot be read) is the
      merge: it yields the merged table and reports a change exactly when the
      merge differs from the table. */
  lemma SweepIsMerge(t: Table, st: Storage, form: Form, writePages: bool)
    requires FormComplete(form)
    requires writePages && AdminUsername(st).None? ==> MergeForm(t, form) == t
    ensures SweepRooms(t, st, ReadPage(form), Rooms, writePages).prices == MergeForm(t, form)
    ensures SweepRooms(t, st, ReadPage(form), Rooms, writePages).changed <==> MergeForm(t, form) != t
  {
    SweepCompletes(t, st, form, writePages);
    var rd := ReadPage(form);
    assert Training in Rooms && Private in Rooms && Meeting in Rooms;
    SweepCoversMerge(t, st, rd, Rooms, writePages);
    SweepChangeIsMerge(t, st, rd, writePages);
  }

  /** A completed pass that visits every room yields the merged table. */
  lemma SweepCoversMerge(t: Table, st: Storage, rd: Readings, rooms: seq<Room>, writePages: bool)
    requires SweepRooms(t, st, rd, rooms, writePages).completed
    requires Training in rooms && Private in rooms && Meeting in rooms
    ensures SweepRooms(t, st, rd, rooms, writePages).prices == Merge(t, rd)
  {
    SweepMerges(t, st, rd, rooms, writePages);
    var q := SweepRooms(t, st, rd, rooms, writePages).prices;
    assert q.Get(Training) == Candidate(t.Get(Training), rd.Get(Training));
    assert q.Get(Private) == Candidate(t.Get(Private), rd.Get(Private));
    assert q.Get(Meeting) == Candidate(t.Get(Meeting), rd.Get(Meeting));
  }

  /** A completed pass over the table's rooms reports a change exactly when
      the merge differs from the table. */
  lemma SweepChangeIsMerge(t: Table, st: Storage, rd: Readings, writePages: bool)
    requires SweepRooms(t, st, rd, Rooms, writePages).completed
    ensures SweepRooms(t, st, rd, Rooms, writePages).changed <==> Merge(t, rd) != t
  {
    SweepReportsChange(t, st, rd, Rooms, writePages);
    MergeUnchanged(t, rd);
  }

  /** A table whose every room holds its entry or its candidate has the same
      merge: the target of the bulk operations does not move. */
  lemma MergeFromBetween(t: Table, q: Table, rd: Readings)
    requires Between(q.training, t.training, rd.training)
    requires Between(q.private, t.private, rd.private)
    requires Between(q.meeting, t.meeting, rd.meeting)
    ensures Merge(q, rd) == Merge(t, rd)
  {
  }

  /** `saveAllChanges()`. With every input on the page and the admin's name
      readable: each room becomes its candidate, and the table is saved
      exactly when some room changed; when none did, nothing at all is
      written. The pass throws at a missing input, or at the first changed
      room when the name cannot be read: the rooms already visited keep
      their new entries and page keys, and the canonical record and the
      backup are not touched. */
  function SaveAllChanges(p: PanelState, form: Form): (r: Step<SaveOutcome>)
    ensures r.outcome == SaveFailed <==>
              !FormComplete(form) || (AdminUsername(p.storage).None? && MergeForm(p.prices, form) != p.prices)
    ensures r.outcome == Saved <==>
              FormComplete(form) && AdminUsername(p.storage).Some? && MergeForm(p.prices, form) != p.prices
    ensures r.outcome != SaveFailed ==> r.panel.prices == MergeForm(p.prices, form)
    ensures r.outcome == NoChanges ==> r.panel == p
    ensures r.outcome == Saved ==> r.panel.storage == SavePriceData(r.panel.prices, p.storage)
    ensures AdminUsername(p.storage).None? ==> r.panel.storage == p.storage
    ensures ValidTable(p.prices) ==> ValidTable(r.panel.prices)
    ensures ValidTable(p.prices) && r.outcome == Saved ==> Persisted(r.panel)
  {
    var rd := ReadPage(form);
    var s := SweepRooms(p.prices, p.storage, rd, Rooms, true);
    SweepCompletes(p.prices, p.storage, form, true);
    SweepKeepsValid(p.prices, p.storage, rd, Rooms, true);
    if !s.completed then Step(PanelState(s.prices, s.storage), SaveFailed)
    else
      SweepIsMerge(p.prices, p.storage, form, true);
      if s.changed then
        SaveAfterPages(s.prices, s.storage, p.storage);
        SaveThenLoad(s.prices, p.storage);
        Step(PanelState(s.prices, SavePriceData(s.prices, s.storage)), Saved)
      else Step(p, NoChanges)
  }

  /** A failed save-all has touched no key but the page keys, and has left
      every room at its entry or its candidate; on a complete page it has
      replaced a room before the name's throw stopped it. */
  lemma SaveAllFailure(p: PanelState, form: Form)
    ensures var r := SaveAllChanges(p, form);
            r.outcome == SaveFailed ==> SameOutside(r.panel.storage, p.storage, MirrorKeys)
    ensures var r := SaveAllChanges(p, form);
            r.outcome == SaveFailed ==>
              forall room :: Between(r.panel.prices.Get(room), p.prices.Get(room), ReadPage(form).Get(room))
    ensures var r := SaveAllChanges(p, form);
            FormComplete(form) && r.outcome == SaveFailed ==> r.panel.prices != p.prices
  {
    SweepBetween(p.prices, p.storage, ReadPage(form), Rooms, true);
    SweepCompletes(p.prices, p.storage, form, true);
  }

  /** `autoSave()`: the same pass on a copy of the table, adopted and saved
      (then every page key rewritten) only when some room changed; a missing
      input throws before the copy is adopted, so nothing changes. When the
      admin's name cannot be read, the copy is adopted but savePriceData
      writes nothing and the page rewrites throw into the `catch`. The
      result says whether `hasChanges` was set. */
  function AutoSave(p: PanelState, form: Form): (r: Step<bool>)
    ensures r.outcome <==> FormComplete(form) && MergeForm(p.prices, form) != p.prices
    ensures !r.outcome ==> r.panel == p
    ensures r.outcome ==> r.panel.prices == MergeForm(p.prices, form)
    ensures r.outcome ==> r.panel.storage == SavePriceData(r.panel.prices, p.storage)
    ensures AdminUsername(p.storage).None? ==> r.panel.storage == p.storage
    ensures ValidTable(p.prices) ==> ValidTable(r.panel.prices)
    ensures ValidTable(p.prices) && r.outcome && AdminUsername(p.storage).Some? ==> Persisted(r.panel)
  {
    var s := SweepRooms(p.prices, p.storage, ReadPage(form), Rooms, false);
    SweepCompletes(p.prices, p.storage, form, false);
    SweepKeepsValid(p.prices, p.storage, ReadPage(form), Rooms, false);
    if !s.completed then Step(p, false)
    else
      SweepIsMerge(p.prices, p.storage, form, false);
      if s.changed then
        var saved := SavePriceData(s.prices, p.storage);
        PagesAfterSave(s.prices, p.storage);
        SaveThenLoad(s.prices, p.storage);
        match UpdateAllRoomPages(saved, s.prices)
        case None => Step(PanelState(s.prices, saved), true)
        case Some(written) => Step(PanelState(s.prices, written), true)
      else Step(p, false)
  }

  /** Merging the same page twice changes nothing the second time. */
  lemma MergeSettles(t: Table, form: Form)
    ensures MergeForm(MergeForm(t, form), form) == MergeForm(t, form)
  {
  }

  /** Auto-saving again with the same inputs is a no-op. */
  lemma AutoSaveSettles(p: PanelState, form: Form)
    ensures var q := AutoSave(p, form).panel;
            AutoSave(q, form) == Step(q, false)
  {
    if FormComplete(form) {
      MergeSettles(p.prices, form);
    }
  }

  /** Saving all again with the same inputs finds no changes when the
      admin's name can be read. When it cannot, each run replaces one more
      room while storage stays as it was, and the merge the runs head for
      stays the same. */
  lemma SaveAllSettles(p: PanelState, form: Form)
    requires FormComplete(form)
    ensures var q := SaveAllChanges(p, form).panel;
            AdminUsername(p.storage).Some? ==> SaveAllChanges(q, form) == Step(q, NoChanges)
    ensures var q := SaveAllChanges(p, form).panel;
            AdminUsername(p.storage).None? ==>
              q.storage == p.storage && MergeForm(q.prices, form) == MergeForm(p.prices, form)
              && (q.prices == p.prices <==> MergeForm(p.prices, form) == p.prices)
  {
    MergeSettles(p.prices, form);
    var r := SaveAllChanges(p, form);
    if r.outcome == SaveFailed {
      SaveAllFailure(p, form);
      assert r.panel.prices.Get(Training) == r.panel.prices.training;
      assert r.panel.prices.Get(Private) == r.panel.prices.private;
      assert r.panel.prices.Get(Meeting) == r.panel.prices.meeting;
      MergeFromBetween(p.prices, r.panel.prices, ReadPage(form));
    }
  }

  /** On a complete page the two bulk operations agree on whether anything
      changed, and when the admin's name can be read they end in the same
      state. When it cannot, neither writes storage, while save-all stops
      after one room and auto-save adopts the whole merge. */
  lemma SaveAllMatchesAutoSave(p: PanelState, form: Form)
    requires FormComplete(form)
    ensures AdminUsername(p.storage).Some? ==> SaveAllChanges(p, form).panel == AutoSave(p, form).panel
    ensures SaveAllChanges(p, form).outcome == Saved <==> AutoSave(p, form).outcome && AdminUsername(p.storage).Some?
    ensures SaveAllChanges(p, form).outcome == NoChanges <==> !AutoSave(p, form).outcome
    ensures AdminUsername(p.storage).None? ==>
              SaveAllChanges(p, form).panel.storage == p.storage && AutoSave(p, form).panel.storage == p.storage
  {
  }

  // ---- resetToDefaults, importData, exportData ----

  /** Replacing the whole table: `priceData` takes the new table,
      savePriceData runs, then updateRoomPages for every room. The outcome
      says whether that loop got through: it throws exactly when the admin's
      name cannot be read, and then nothing was written. */
  function ReplaceTable(p: PanelState, t: Table): (r: Step<bool>)
    ensures r.panel.prices == t
    ensures r.panel.storage == SavePriceData(t, p.storage)
    ensures r.outcome <==> AdminUsername(p.storage).Some?
  {
    var saved := SavePriceData(t, p.storage);
    PagesAfterSave(t, p.storage);
    match UpdateAllRoomPages(saved, t)
    case None => Step(PanelState(t, saved), false)
    case Some(written) => Step(PanelState(t, written), true)
  }

  /** `Reset` ran to the end, `NotConfirmed` was declined, `ResetThrew` stopped
      with an uncaught error in the page-key loop. */
  datatype ResetOutcome = Reset | NotConfirmed | ResetThrew

  /** `resetToDefaults()`: after confirmation the table is the default one
      and is persisted; a declined confirmation changes nothing. When the
      admin's name cannot be read, the table is already the default one
      when the page-key loop throws, and storage is unchanged. */
  function ResetToDefaults(p: PanelState, confirmed: bool): (r: Step<ResetOutcome>)
    ensures r.outcome == NotConfirmed <==> !confirmed
    ensures !confirmed ==> r.panel == p
    ensures confirmed ==> r.panel.prices == DefaultPrices()
    ensures r.outcome == Reset <==> confirmed && AdminUsername(p.storage).Some?
    ensures r.outcome == Reset ==>
              Persisted(r.panel) && GetItem(r.panel.storage, BackupKey) == Some(Doc(BackupRecord(DefaultPrices())))
    ensures r.outcome == ResetThrew ==> r.panel.storage == p.storage
    ensures SameOutside(r.panel.storage, p.storage, PriceKeys)
  {
    if confirmed then
      SaveThenLoad(DefaultPrices(), p.storage);
      var q := ReplaceTable(p, DefaultPrices());
      Step(q.panel, if q.outcome then Reset else ResetThrew)
    else Step(p, NotConfirmed)
  }

  /** `ImportFailed`: the table was replaced but then something threw before
      it was saved (filling the inputs, or the page-key loop for want of the
      admin's name); the page shows the same error as for a bad file. */
  datatype ImportOutcome = Imported | Declined | BadFormat | ImportFailed

  /** The import's guard: `importedData.prices` is truthy and passes the
      shape check. */
  predicate ImportAcceptable(data: Json)
  {
    Present(Member(data, "prices")) && ValidateImportedData(Member(data, "prices").value)
  }

  /** The `onload` handler of `importData`, given the file's text parsed
      (`None` when `JSON.parse` throws). A file that does not parse or whose
      `prices` fail the shape check is refused; otherwise the table is
      replaced only when the operator confirms. It is persisted when filling
      the inputs gets through and the admin's name can be read; otherwise
      the throw reaches the `catch` and nothing is saved. */
  function ImportData(p: PanelState, parsed: Option<Json>, confirmed: bool): (r: Step<ImportOutcome>)
    ensures r.outcome == BadFormat <==> parsed.None? || !ImportAcceptable(parsed.value)
    ensures r.outcome == Declined <==> parsed.Some? && ImportAcceptable(parsed.value) && !confirmed
    ensures r.outcome == Imported <==>
              parsed.Some? && ImportAcceptable(parsed.value) && confirmed
              && !FillThrows(Member(parsed.value, "prices").value) && AdminUsername(p.storage).Some?
    ensures parsed.Some? && ImportAcceptable(parsed.value) && confirmed && FillThrows(Member(parsed.value, "prices").value) ==>
              r.outcome == ImportFailed && r.panel.storage == p.storage
    ensures r.outcome == BadFormat || r.outcome == Declined ==> r.panel == p
    ensures r.outcome == Imported || r.outcome == ImportFailed ==>
              TableFromJson(Member(parsed.value, "prices").value) == Some(r.panel.prices) && ValidTable(r.panel.prices)
    ensures r.outcome == Imported ==> Persisted(r.panel)
    ensures r.outcome == ImportFailed ==> r.panel.storage == p.storage
    ensures SameOutside(r.panel.storage, p.storage, PriceKeys)
  {
    match parsed
    case None => Step(p, BadFormat)
    case Some(data) =>
      if ImportAcceptable(data) then
        if confirmed then
          var prices := Member(data, "prices").value;
          ValidateImportedIff(prices);
          var t := TableFromJson(prices).value;
          if FillThrows(prices) then Step(PanelState(t, p.storage), ImportFailed)
          else
            SaveThenLoad(t, p.storage);
            var q := ReplaceTable(p, t);
            Step(q.panel, if q.outcome then Imported else ImportFailed)
        else Step(p, Declined)
      else Step(p, BadFormat)
  }

  /** The object `exportData()` serialises (its date is left out); `None`
      when asking for the admin's name throws and the export fails. */
  function ExportData(p: PanelState): (j: Option<Json>)
    ensures j.None? <==> AdminUsername(p.storage).None?
    ensures j.Some? ==> Member(j.value, "prices") == Some(TableJson(p.prices))
    ensures j.Some? ==> Member(j.value, "version") == Some(JStr(Version))
    ensures j.Some? ==> Member(j.value, "exportedBy") == AdminUsername(p.storage)
  {
    match AdminUsername(p.storage)
    case None => None
    case Some(user) =>
      Some(JObj(map["prices" := TableJson(p.prices), "version" := JStr(Version), "exportedBy" := user]))
  }

  /** The panel's table with an extra `null` slot in one room. */
  function WithNullSlot(t: Table): Json
  {
    JObj(TableJson(t).fields["training" := JObj(RoomJson(t.training).fields["night" := JNull])])
  }

  /** The extra slot is invisible to the shape check and to the table read,
      which only look at the required keys, but not to the fill. */
  lemma NullSlotPassesCheck(t: Table)
    ensures TableFromJson(WithNullSlot(t)) == Some(t)
    ensures ValidTable(t) ==> ValidateImportedData(WithNullSlot(t))
    ensures FillThrows(WithNullSlot(t))
  {
    var room := JObj(RoomJson(t.training).fields["night" := JNull]);
    var prices := WithNullSlot(t);
    assert Member(room, "morning") == Member(RoomJson(t.training), "morning");
    assert Member(room, "evening") == Member(RoomJson(t.training), "evening");
    assert Member(prices, "training") == Some(room);
    assert Member(prices, "private") == Member(TableJson(t), "private");
    assert Member(prices, "meeting") == Member(TableJson(t), "meeting");
    TableJsonRoundTrip(t);
    ValidateImportedIff(prices);
    assert "night" in room.fields && NullOrHoldsNull(prices.fields["training"]);
  }

  /** A confirmed import whose `prices` pass the shape check but make the
      fill throw ends with the imported table in memory and storage as it
      was. */
  lemma ImportFillThrows(p: PanelState, data: Json)
    requires ImportAcceptable(data)
    requires FillThrows(Member(data, "prices").value)
    ensures ImportData(p, Some(data), true) ==
            Step(PanelState(TableFromJson(Member(data, "prices").value).value, p.storage), ImportFailed)
  {
    var r := ImportData(p, Some(data), true);
    assert r.outcome == ImportFailed && r.panel.storage == p.storage;
  }

  /** The file `{"prices": ...}` holding that table. */
  function NullSlotFile(t: Table): (data: Json)
    ensures Member(data, "prices") == Some(WithNullSlot(t))
  {
    JObj(map["prices" := WithNullSlot(t)])
  }

  /** An extra slot holding `null` passes the shape check but makes filling
      the inputs throw: the confirmed import fails and leaves storage as it
      was, while the in-memory table is already the imported one. */
  lemma ImportWithNullSlotFails(p: PanelState, t: Table)
    requires ValidTable(t)
    ensures ImportAcceptable(NullSlotFile(t))
    ensures ImportData(p, Some(NullSlotFile(t)), true) == Step(PanelState(t, p.storage), ImportFailed)
  {
    NullSlotPassesCheck(t);
    ImportFillThrows(p, NullSlotFile(t));
  }

  /** An exported file imports, with confirmation, exactly when the exported
      table is valid and the importing panel can read its admin's name; a
      valid table is restored in any panel. */
  lemma ExportImportRoundTrip(p: PanelState, q: PanelState)
    ensures ExportData(p).Some? ==>
              (ImportData(q, ExportData(p), true).outcome == Imported <==>
                 ValidTable(p.prices) && AdminUsername(q.storage).Some?)
    ensures ExportData(p).Some? && ValidTable(p.prices) ==> ImportData(q, ExportData(p), true).panel.prices == p.prices
  {
    if ExportData(p).Some? {
      var file := ExportData(p).value;
      assert Member(file, "prices") == Some(TableJson(p.prices));
      ValidateOwnTable(p.prices);
      OwnTableFills(p.prices);
      assert ImportAcceptable(file) <==> ValidTable(p.prices);
      TableJsonRoundTrip(p.prices);
    }
  }

  // ---- loadCurrentPrices ----

  /** 10^21: from here on JavaScript writes numbers in exponent form. */
  const ExponentFrom: real := 1000000000000000000000.0

  /** A price whose JavaScript text is a plain (possibly negative) decimal
      integer. */
  predicate Displayable(x: real)
  {
    x == x.Floor as real && -ExponentFrom < x < ExponentFrom
  }

  /** The text an input shows after `input.value = price`. */
  function NumberText(x: real): string
    requires Displayable(x)
  {
    if x < 0.0 then "-" + Decimal(-x.Floor) else Decimal(x.Floor)
  }

  /** A displayed price reads back as itself through `parseInt(..) || 0`. */
  lemma NumberTextReadsBack(x: real)
    requires Displayable(x)
    ensures CoerceField(NumberText(x)) == x
  {
    if x < 0.0 {
      NegativeField(-x.Floor);
    } else {
      DecimalFieldRoundTrip(x.Floor);
    }
  }

  /** The price an input shows. */
  function Leaf(t: Table, f: Field): real
  {
    t.Get(f.room).Get(f.slot).Get(f.tier)
  }

  ghost predicate TableDisplayable(t: Table)
  {
    forall f: Field :: Displayable(Leaf(t, f))
  }

  /** `loadCurrentPrices()`: every input on the page shows its price; inputs
      are neither added nor removed. */
  function LoadCurrentPrices(t: Table, form: Form): (r: Form)
    requires TableDisplayable(t)
    ensures r.Keys == form.Keys
    ensures forall f :: f in r ==> CoerceField(r[f]) == Leaf(t, f)
  {
    forall x | Displayable(x) ensures CoerceField(NumberText(x)) == x {
      NumberTextReadsBack(x);
    }
    map f | f in form :: NumberText(Leaf(t, f))
  }

  /** Reading back a room's inputs right after they were filled yields the
      room's entry. */
  lemma DisplayReadsBack(t: Table, form: Form, room: Room)
    requires TableDisplayable(t)
    requires HasRoomInputs(form, room)
    ensures ReadRoom(LoadCurrentPrices(t, form), room) == Some(t.Get(room))
  {
    var shown := LoadCurrentPrices(t, form);
    assert Leaf(t, Field(room, Morning, Hourly)) == t.Get(room).morning.hourly;
    assert Leaf(t, Field(room, Morning, Daily)) == t.Get(room).morning.daily;
    assert Leaf(t, Field(room, Morning, Monthly)) == t.Get(room).morning.monthly;
    assert Leaf(t, Field(room, Evening, Hourly)) == t.Get(room).evening.hourly;
    assert Leaf(t, Field(room, Evening, Daily)) == t.Get(room).evening.daily;
    assert Leaf(t, Field(room, Evening, Monthly)) == t.Get(room).evening.monthly;
  }

  /** Saving the page as it was just filled finds nothing to save, both in
      bulk and automatically. */
  lemma DisplayedPageIsClean(p: PanelState, form: Form)
    requires TableDisplayable(p.prices)
    requires FormComplete(form)
    ensures SaveAllChanges(p, LoadCurrentPrices(p.prices, form)) == Step(p, NoChanges)
    ensures AutoSave(p, LoadCurrentPrices(p.prices, form)) == Step(p, false)
  {
    DisplayedMergeIsIdentity(p.prices, form);
  }

  /** Freshly filled inputs form a complete page whose merge is the table. */
  lemma DisplayedMergeIsIdentity(t: Table, form: Form)
    requires TableDisplayable(t)
    requires FormComplete(form)
    ensures FormComplete(LoadCurrentPrices(t, form))
    ensures MergeForm(t, LoadCurrentPrices(t, form)) == t
  {
    DisplayReadsBack(t, form, Training);
    DisplayReadsBack(t, form, Private);
    DisplayReadsBack(t, form, Meeting);
  }

  /** The default table can be shown on the page. */
  lemma DefaultsDisplayable()
    ensures TableDisplayable(DefaultPrices())
  {
    forall f: Field ensures Displayable(Leaf(DefaultPrices(), f)) {
      match f.room {
        case Training =>
        case Private =>
        case Meeting =>
      }
    }
  }

  /** After a confirmed reset the inputs show the defaults
      (`loadCurrentPrices` runs inside resetToDefaults), and saving that page
      finds nothing to save. */
  lemma ResetLeavesCleanPage(p: PanelState, form: Form)
    requires FormComplete(form)
    ensures var q := ResetToDefaults(p, true).panel;
            SaveAllChanges(q, LoadCurrentPrices(DefaultPrices(), form)) == Step(q, NoChanges)
  {
    DefaultsDisplayable();
    DisplayedPageIsClean(ResetToDefaults(p, true).panel, form);
  }
}
