/** Parsed JSON values and the browser's key/value storage, as both scripts see them. */
module JsonStore {
  import opened Base

  /** A value produced by JSON.parse. Numbers are exact reals (JSON text cannot
      denote NaN); the order of object keys is not kept. */
  datatype Json =
    | JNull
    | JBool(b: bool)
    | JNum(n: real)
    | JStr(s: string)
    | JArr(items: seq<Json>)
    | JObj(fields: map<string, Json>)

  /** JavaScript truthiness of a parsed value. */
  predicate Truthy(j: Json)
  {
    match j
    case JNull => false
    case JBool(b) => b
    case JNum(n) => n != 0.0
    case JStr(s) => |s| > 0
    case JArr(_) => true
    case JObj(_) => true
  }

  /** The property read `j[k]` for the plain data keys the scripts use: only
      objects carry such keys, and `None` is `undefined`. */
  function Member(j: Json, k: string): (r: Option<Json>)
    ensures r.Some? <==> j.JObj? && k in j.fields
    ensures r.Some? ==> r.value == j.fields[k]
  {
    if j.JObj? && k in j.fields then Some(j.fields[k]) else None
  }

  /** Truthiness of a property read, `undefined` being falsy. */
  predicate Present(o: Option<Json>)
  {
    o.Some? && Truthy(o.value)
  }

  /** The falsy values a JSON document can hold are exactly `null`, `false`,
      `0` and the empty string; a property read is present when it yields
      none of them. */
  lemma FalsyValues(j: Json)
    ensures !Truthy(j) <==> j == JNull || j == JBool(false) || j == JNum(0.0) || j == JStr("")
    ensures Present(Some(j)) <==> Truthy(j)
    ensures !Present(None)
  {
    if j.JStr? && |j.s| == 0 {
      assert j.s == "";
    }
  }

  /** A stored string as JSON.parse sees it: the empty string, text that
      JSON.parse rejects, or a JSON document. */
  datatype Stored = EmptyText | Unparsable | Doc(value: Json)

  /** localStorage: absent keys are those `getItem` answers `null` for. */
  type Storage = map<string, Stored>

  /** The slot admin-auth.js keeps the session in; admin-panel.js reads the
      admin's name from it. */
  const SessionKey: string := "adminSession"

  /** `localStorage.getItem(k)`. */
  function GetItem(st: Storage, k: string): Option<Stored>
  {
    if k in st then Some(st[k]) else None
  }

  /** `localStorage.getItem(k)` is truthy: present and not the empty string. */
  predicate HasItem(st: Storage, k: string)
  {
    k in st && !st[k].EmptyText?
  }

  /** `localStorage.setItem(k, JSON.stringify(j))`; the stored text parses back to `j`. */
  function SetItem(st: Storage, k: string, j: Json): Storage
  {
    st[k := Doc(j)]
  }

  /** `localStorage.removeItem(k)`: the key is gone and nothing else moves. */
  function RemoveItem(st: Storage, k: string): (r: Storage)
    ensures GetItem(r, k).None?
    ensures forall o :: o != k ==> GetItem(r, o) == GetItem(st, o)
  {
    st - {k}
  }

  /** Two storages agree on every key outside `keys`. */
  ghost predicate SameOutside(a: Storage, b: Storage, keys: set<string>)
  {
    forall k :: k !in keys ==> GetItem(a, k) == GetItem(b, k)
  }

  /** Writing the value a key already holds changes nothing. */
  lemma SetItemSame(st: Storage, k: string, j: Json)
    requires GetItem(st, k) == Some(Doc(j))
    ensures SetItem(st, k, j) == st
  {
  }

  /** Storages that agree on every key are equal. */
  lemma SameEverywhere(a: Storage, b: Storage)
    requires SameOutside(a, b, {})
    ensures a == b
  {
    forall k | k in a ensures k in b && a[k] == b[k] {
      assert GetItem(a, k) == GetItem(b, k);
    }
    forall k | k in b ensures k in a {
      assert GetItem(a, k) == GetItem(b, k);
    }
  }
}
