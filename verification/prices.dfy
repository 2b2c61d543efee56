/** The price table of admin-panel.js: three rooms, two time slots, three
    billing tiers, and the two validators the panel applies to it. */
module Prices {
  import opened Base
  import opened JsonStore

  datatype Room = Training | Private | Meeting
  datatype Slot = Morning | Evening
  datatype Tier = Hourly | Daily | Monthly

  /** `requiredRooms`, also the key order of the default table. */
  const Rooms: seq<Room> := [Training, Private, Meeting]
  /** `requiredTimeSlots`. */
  const Slots: seq<Slot> := [Morning, Evening]
  /** `requiredDurations`. */
  const Tiers: seq<Tier> := [Hourly, Daily, Monthly]

  /** The key a room has in the table, in storage keys and in form ids. */
  function RoomName(r: Room): string
  {
    match r
    case Training => "training"
    case Private => "private"
    case Meeting => "meeting"
  }

  function SlotName(s: Slot): string
  {
    match s
    case Morning => "morning"
    case Evening => "evening"
  }

  function TierName(t: Tier): string
  {
    match t
    case Hourly => "hourly"
    case Daily => "daily"
    case Monthly => "monthly"
  }

  /** The room a table key names, if any: exactly the three room keys name
      a room, and each names the room whose key it is. */
  function RoomOfName(name: string): (r: Option<Room>)
    ensures r.Some? <==> name == "training" || name == "private" || name == "meeting"
    ensures r.Some? ==> RoomName(r.value) == name
  {
    if name == "training" then Some(Training)
    else if name == "private" then Some(Private)
    else if name == "meeting" then Some(Meeting)
    else None
  }

  /** Prices of one slot. Numbers are reals: an imported table may carry
      fractions, while the form only ever yields integers. */
  datatype TierPrices = TierPrices(hourly: real, daily: real, monthly: real)
  {
    function Get(t: Tier): real
    {
      match t
      case Hourly => hourly
      case Daily => daily
      case Monthly => monthly
    }
  }

  /** `{morning: {...}, evening: {...}}` for one room. */
  datatype RoomPrices = RoomPrices(morning: TierPrices, evening: TierPrices)
  {
    function Get(s: Slot): TierPrices
    {
      match s
      case Morning => morning
      case Evening => evening
    }
  }

  /** The whole table, one entry per room: the model's table is total over
      the rooms by construction. */
  datatype Table = Table(training: RoomPrices, private: RoomPrices, meeting: RoomPrices)
  {
    function Get(r: Room): RoomPrices
    {
      match r
      case Training => training
      case Private => private
      case Meeting => meeting
    }

    /** `priceData[room] = prices`: that room now holds `prices`, every other
        room keeps its entry. */
    function Set(r: Room, prices: RoomPrices): (t: Table)
      ensures t.Get(r) == prices
      ensures forall o :: o != r ==> t.Get(o) == Get(o)
    {
      match r
      case Training => this.(training := prices)
      case Private => this.(private := prices)
      case Meeting => this.(meeting := prices)
    }
  }

  /** Every one of a room's six prices is non-negative. */
  predicate NonNegative(p: RoomPrices)
  {
    && p.morning.hourly >= 0.0 && p.morning.daily >= 0.0 && p.morning.monthly >= 0.0
    && p.evening.hourly >= 0.0 && p.evening.daily >= 0.0 && p.evening.monthly >= 0.0
  }

  /** The table invariant: every room's every leaf is non-negative. */
  predicate ValidTable(t: Table)
  {
    NonNegative(t.training) && NonNegative(t.private) && NonNegative(t.meeting)
  }

  /** `getDefaultPrices()`: the fixed grid, which satisfies the table
      invariant. */
  function DefaultPrices(): (t: Table)
    ensures ValidTable(t)
    ensures t.Get(Training).morning.Get(Hourly) == 100.0
    ensures t.Get(Meeting).evening.Get(Monthly) == 30000.0
  {
    Table(
      RoomPrices(TierPrices(100.0, 800.0, 18000.0), TierPrices(120.0, 900.0, 20000.0)),
      RoomPrices(TierPrices(80.0, 600.0, 15000.0), TierPrices(100.0, 750.0, 18000.0)),
      RoomPrices(TierPrices(150.0, 1200.0, 25000.0), TierPrices(180.0, 1400.0, 30000.0)))
  }

  /** The six leaves in the order validatePrices visits them. */
  function Leaves(p: RoomPrices): seq<real>
  {
    [p.morning.hourly, p.morning.daily, p.morning.monthly,
     p.evening.hourly, p.evening.daily, p.evening.monthly]
  }

  /** The early-exit scan: false at the first negative value. */
  function AllNonNegative(xs: seq<real>): (r: bool)
    ensures r <==> forall i :: 0 <= i < |xs| ==> xs[i] >= 0.0
  {
    if xs == [] then true
    else if xs[0] < 0.0 then false
    else AllNonNegative(xs[1..])
  }

  /** `validatePrices(roomPrices)` on a form-built record: true exactly when
      all six prices are non-negative. The `isNaN` test of the source never
      fires here, because the coercion that builds the record already turned
      NaN into 0. */
  function ValidatePrices(p: RoomPrices): (r: bool)
    ensures r <==> NonNegative(p)
  {
    var xs := Leaves(p);
    assert xs[0] == p.morning.hourly && xs[1] == p.morning.daily && xs[2] == p.morning.monthly;
    assert xs[3] == p.evening.hourly && xs[4] == p.evening.daily && xs[5] == p.evening.monthly;
    AllNonNegative(xs)
  }

  /** The properties every object literal inherits from `Object.prototype`;
      all of them are truthy (functions, or the prototype itself for
      `__proto__`). */
  const PrototypeMembers: set<string> :=
    {"constructor", "hasOwnProperty", "isPrototypeOf", "propertyIsEnumerable",
     "toLocaleString", "toString", "valueOf", "__proto__",
     "__defineGetter__", "__defineSetter__", "__lookupGetter__", "__lookupSetter__"}

  /** What `getRoomDisplayName` returns: text, or the inherited member of
      `Object.prototype` with that name. */
  datatype Label = Text(text: string) | Inherited(member: string)

  function DisplayName(r: Room): string
  {
    match r
    case Training => "AMOUN ROOM"
    case Private => "HORUS ROOM"
    case Meeting => "ISIS ROOM"
  }

  /** `getRoomDisplayName(roomType)`: `names[roomType] || roomType` on an
      object literal. A room key gets the room's marketing name; a name the
      literal inherits finds that (truthy) inherited member; anything else is
      shown as given. */
  function GetRoomDisplayName(roomType: string): (r: Label)
    ensures RoomOfName(roomType).Some? ==> r == Text(DisplayName(RoomOfName(roomType).value))
    ensures roomType in PrototypeMembers ==> r == Inherited(roomType)
    ensures RoomOfName(roomType).None? && roomType !in PrototypeMembers ==> r == Text(roomType)
  {
    match RoomOfName(roomType)
    case Some(room) => Text(DisplayName(room))
    case None => if roomType in PrototypeMembers then Inherited(roomType) else Text(roomType)
  }

  /** Which keys are shown under a room's marketing name: the room's own key,
      and that very name passed through unchanged. So the three rooms are told
      apart on the page. */
  lemma DisplayedAs(roomType: string, r: Room)
    ensures GetRoomDisplayName(roomType) == Text(DisplayName(r)) <==> roomType == RoomName(r) || roomType == DisplayName(r)
  {
    if RoomOfName(roomType).Some? {
      var room := RoomOfName(roomType).value;
      assert room == r <==> roomType == RoomName(r);
      assert roomType != DisplayName(r);
    } else if roomType == DisplayName(r) {
      assert roomType !in PrototypeMembers;
    }
  }

  // ---- The table as JSON ----

  function TiersJson(p: TierPrices): Json
  {
    JObj(map["hourly" := JNum(p.hourly), "daily" := JNum(p.daily), "monthly" := JNum(p.monthly)])
  }

  function RoomJson(p: RoomPrices): Json
  {
    JObj(map["morning" := TiersJson(p.morning), "evening" := TiersJson(p.evening)])
  }

  /** The object the panel keeps in `priceData` and writes under `prices`. */
  function TableJson(t: Table): Json
  {
    JObj(map["training" := RoomJson(t.training), "private" := RoomJson(t.private),
             "meeting" := RoomJson(t.meeting)])
  }

  /** A number stored under `key`, if there is one. */
  function NumberAt(j: Json, key: string): Option<real>
  {
    match Member(j, key)
    case Some(JNum(n)) => Some(n)
    case _ => None
  }

  function TiersFromJson(j: Json): Option<TierPrices>
  {
    match (NumberAt(j, "hourly"), NumberAt(j, "daily"), NumberAt(j, "monthly"))
    case (Some(h), Some(d), Some(m)) => Some(TierPrices(h, d, m))
    case _ => None
  }

  function RoomFromJson(j: Json): Option<RoomPrices>
  {
    match (Member(j, "morning"), Member(j, "evening"))
    case (Some(mj), Some(ej)) =>
      (match (TiersFromJson(mj), TiersFromJson(ej))
       case (Some(m), Some(e)) => Some(RoomPrices(m, e))
       case _ => None)
    case _ => None
  }

  /** Reads the three rooms' six numbers out of a parsed object; extra keys
      are ignored. `None` when a room, slot or tier is missing or a leaf is
      not a number. */
  function TableFromJson(j: Json): Option<Table>
  {
    match (Member(j, "training"), Member(j, "private"), Member(j, "meeting"))
    case (Some(tj), Some(pj), Some(mj)) =>
      (match (RoomFromJson(tj), RoomFromJson(pj), RoomFromJson(mj))
       case (Some(t), Some(p), Some(m)) => Some(Table(t, p, m))
       case _ => None)
    case _ => None
  }

  lemma TiersJsonRoundTrip(p: TierPrices)
    ensures TiersFromJson(TiersJson(p)) == Some(p)
  {
    var m := TiersJson(p).fields;
    assert m["hourly"] == JNum(p.hourly);
    assert m["daily"] == JNum(p.daily);
    assert m["monthly"] == JNum(p.monthly);
  }

  lemma RoomJsonRoundTrip(p: RoomPrices)
    ensures RoomFromJson(RoomJson(p)) == Some(p)
  {
    var m := RoomJson(p).fields;
    assert m["morning"] == TiersJson(p.morning);
    assert m["evening"] == TiersJson(p.evening);
    TiersJsonRoundTrip(p.morning);
    TiersJsonRoundTrip(p.evening);
  }

  /** A table written as JSON reads back as the same table. */
  lemma TableJsonRoundTrip(t: Table)
    ensures TableFromJson(TableJson(t)) == Some(t)
  {
    var m := TableJson(t).fields;
    assert m["training"] == RoomJson(t.training);
    assert m["private"] == RoomJson(t.private);
    assert m["meeting"] == RoomJson(t.meeting);
    RoomJsonRoundTrip(t.training);
    RoomJsonRoundTrip(t.private);
    RoomJsonRoundTrip(t.meeting);
  }

  // ---- validateImportedData, loop by loop ----

  /** `validateImportedData(data)`: every required room and slot is truthy
      and every required tier holds a number that is not below zero; the
      scan stops at the first failure. */
  function ValidateImportedData(data: Json): bool
  {
    RoomsValid(data, Rooms)
  }

  /** The check of one tier: `typeof leaf === 'number' && leaf >= 0`. */
  predicate LeafOk(slot: Json, t: Tier)
  {
    match Member(slot, TierName(t))
    case Some(JNum(n)) => n >= 0.0
    case _ => false
  }

  predicate SlotOk(room: Json, s: Slot)
  {
    var slot := Member(room, SlotName(s));
    Present(slot) && TiersValid(slot.value, Tiers)
  }

  predicate RoomOk(data: Json, r: Room)
  {
    var room := Member(data, RoomName(r));
    Present(room) && SlotsValid(room.value, Slots)
  }

  /** The innermost loop, over the required tiers. */
  function TiersValid(slot: Json, tiers: seq<Tier>): (ok: bool)
    ensures ok <==> forall i :: 0 <= i < |tiers| ==> LeafOk(slot, tiers[i])
  {
    if tiers == [] then true else LeafOk(slot, tiers[0]) && TiersValid(slot, tiers[1..])
  }

  /** The middle loop, over the required slots. */
  function SlotsValid(room: Json, slots: seq<Slot>): (ok: bool)
    ensures ok <==> forall i :: 0 <= i < |slots| ==> SlotOk(room, slots[i])
  {
    if slots == [] then true else SlotOk(room, slots[0]) && SlotsValid(room, slots[1..])
  }

  /** The outer loop, over the required rooms. */
  function RoomsValid(data: Json, rooms: seq<Room>): (ok: bool)
    ensures ok <==> forall i :: 0 <= i < |rooms| ==> RoomOk(data, rooms[i])
  {
    if rooms == [] then true else RoomOk(data, rooms[0]) && RoomsValid(data, rooms[1..])
  }

  lemma TiersValidIff(slot: Json)
    ensures TiersValid(slot, Tiers) <==>
            TiersFromJson(slot).Some? && TiersFromJson(slot).value.hourly >= 0.0
            && TiersFromJson(slot).value.daily >= 0.0 && TiersFromJson(slot).value.monthly >= 0.0
  {
    assert Tiers[0] == Hourly && Tiers[1] == Daily && Tiers[2] == Monthly;
  }

  lemma SlotsValidIff(room: Json)
    ensures SlotsValid(room, Slots) <==> RoomFromJson(room).Some? && NonNegative(RoomFromJson(room).value)
  {
    assert Slots[0] == Morning && Slots[1] == Evening;
    if Member(room, "morning").Some? {
      TiersValidIff(Member(room, "morning").value);
    }
    if Member(room, "evening").Some? {
      TiersValidIff(Member(room, "evening").value);
    }
  }

  /** The loop validator accepts exactly the objects that read as a table whose
      every leaf is non-negative. */
  lemma ValidateImportedIff(data: Json)
    ensures ValidateImportedData(data) <==>
            TableFromJson(data).Some? && ValidTable(TableFromJson(data).value)
  {
    assert Rooms[0] == Training && Rooms[1] == Private && Rooms[2] == Meeting;
    RoomOkIff(data, Training);
    RoomOkIff(data, Private);
    RoomOkIff(data, Meeting);
  }

  /** One room passes the import check exactly when it reads as a room whose
      every leaf is non-negative. */
  lemma RoomOkIff(data: Json, r: Room)
    ensures RoomOk(data, r) <==>
            Member(data, RoomName(r)).Some? && RoomFromJson(Member(data, RoomName(r)).value).Some?
            && NonNegative(RoomFromJson(Member(data, RoomName(r)).value).value)
  {
    if Member(data, RoomName(r)).Some? {
      SlotsValidIff(Member(data, RoomName(r)).value);
    }
  }

  /** A table written as JSON passes the import check exactly when it is valid. */
  lemma ValidateOwnTable(t: Table)
    ensures ValidateImportedData(TableJson(t)) <==> ValidTable(t)
  {
    TableJsonRoundTrip(t);
    ValidateImportedIff(TableJson(t));
  }
}
