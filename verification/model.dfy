/** The records the pages share, and the browser cache they are kept in.
    The cache holds JSON text; the model keeps the value `JSON.parse` would
    return for it, so encoding and decoding are not modelled. */
module Model {
  import opened Wrappers
  import KeyValue

  /** One guest: the name as typed and the table label it was listed under. */
  datatype Guest = Guest(name: string, table: string)

  /** The table label used for guests with no table. */
  const UNASSIGNED: string := "Unassigned"

  /** An invitation file attached to a table on the upload page. */
  datatype Upload = Upload(name: string, size: nat, mimeType: string, uploadedAt: string, dataUrl: string)

  /** A cached value as `JSON.parse` returns it. `Unparseable` stands both for
      the empty string, which every reader skips as falsy, and for text that
      `JSON.parse` rejects, which every reader catches and logs: neither
      changes what the reader adopts. */
  datatype Json =
    | Unparseable
    | JsonNull
    | JsonScalar
    | JsonArray(guests: seq<Guest>)
    | JsonObject(uploads: map<string, Upload>)

  type Cache = KeyValue.Store<Json>

  /** The cache key of the guest list. */
  const GUEST_LIST_KEY: string := "finder-flex:guest-list"

  /** The cache key of the table-to-invitation map. */
  const UPLOADS_KEY: string := GUEST_LIST_KEY + ":uploads"

  /** `localStorage.getItem`, which may throw (`readFails`); a throw is caught
      by every caller and reads as nothing stored. */
  function ReadCache(cache: Cache, key: string, readFails: bool): (v: Option<Json>)
    ensures readFails ==> v == None
    ensures !readFails ==> v == KeyValue.GetItem(cache, key)
  {
    if readFails then None else KeyValue.GetItem(cache, key)
  }

  /** `localStorage.setItem`, which may throw (`writeFails`); a throw is caught,
      logged, and leaves the cache as it was. */
  function WriteCache(cache: Cache, key: string, value: Json, writeFails: bool): (r: Cache)
    requires KeyValue.Valid(cache)
    ensures KeyValue.Valid(r)
    ensures writeFails ==> r == cache
    ensures !writeFails ==> KeyValue.GetItem(r, key) == Some(value)
    ensures forall k | k != key :: KeyValue.GetItem(r, k) == KeyValue.GetItem(cache, k)
  {
    if writeFails then cache else KeyValue.SetItem(cache, key, value)
  }

  /** The guest list a page adopts from the cache: only a value that decodes
      to an array is taken (`Array.isArray`). */
  function StoredGuestList(cache: Cache, readFails: bool): (r: Option<seq<Guest>>)
    ensures r.Some? <==> ReadCache(cache, GUEST_LIST_KEY, readFails).Some?
                         && ReadCache(cache, GUEST_LIST_KEY, readFails).value.JsonArray?
    ensures r.Some? ==> cache.entries[GUEST_LIST_KEY] == JsonArray(r.value)
  {
    match ReadCache(cache, GUEST_LIST_KEY, readFails)
    case Some(JsonArray(guests)) => Some(guests)
    case _ => None
  }

  /** The uploads a page adopts from the cache: any non-null object
      (`parsed && typeof parsed === 'object'`). An array is an object too and
      is adopted; it is modelled as the empty map, which it is for every table
      label that is not an array index. */
  function StoredUploads(cache: Cache, readFails: bool): (r: Option<map<string, Upload>>)
    ensures r.Some? <==> ReadCache(cache, UPLOADS_KEY, readFails).Some?
                         && (ReadCache(cache, UPLOADS_KEY, readFails).value.JsonObject?
                             || ReadCache(cache, UPLOADS_KEY, readFails).value.JsonArray?)
    ensures r.Some? && cache.entries[UPLOADS_KEY].JsonObject? ==>
              r.value == cache.entries[UPLOADS_KEY].uploads
  {
    match ReadCache(cache, UPLOADS_KEY, readFails)
    case Some(JsonObject(uploads)) => Some(uploads)
    case Some(JsonArray(_)) => Some(map[])
    case _ => None
  }
}
