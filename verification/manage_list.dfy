/** The guest-list management page of src/ManageListPage.js: on mount it
    loads the guest list from the bundled spreadsheets, falling back to the
    cached copy, and the admin can replace the list by choosing a
    spreadsheet, which is parsed and written to the cache. */
module ManageList {
  import opened Wrappers
  import KeyValue
  import opened Model
  import opened ExcelParser

  /** The bundled spreadsheets, in the order they are tried. */
  const BUNDLED_FILES: seq<string> := ["Mr Tunde Martins AKande @60 Guest List.xlsx", "guest-list.xlsx"]

  /** The messages shown under the upload button. */
  const NO_GUESTS_FOUND: string :=
    "We could not find any guests. Make sure column A lists guest names and table labels like \"Table 1\"."
  const PROCESS_FAILED: string := "We could not process that file. Please try another."
  const READ_FAILED: string := "We could not read that file. Please try again."

  /** The list found in the bundled files and the files fetched, in order. */
  datatype Bundled = Bundled(guests: seq<Guest>, tried: seq<string>)

  /** The `for ... of possibleFilenames` loop. `fetch` answers what each file's
      request returns. Files are fetched in order until one yields a guest;
      the later ones are never requested. */
  function TryBundled(files: seq<string>, fetch: string -> Fetch): (b: Bundled)
    ensures |b.tried| <= |files| && b.tried == files[..|b.tried|]
    ensures files != [] ==> b.tried != []
    ensures forall i | 0 <= i < |b.tried| - 1 :: LoadGuestListFromFile(fetch(b.tried[i])) == []
    ensures b.tried != [] ==> b.guests == LoadGuestListFromFile(fetch(b.tried[|b.tried| - 1]))
    ensures b.guests == [] ==> b.tried == files
  {
    if files == [] then Bundled([], [])
    else
      var guests := LoadGuestListFromFile(fetch(files[0]));
      if guests != [] then Bundled(guests, [files[0]])
      else
        var rest := TryBundled(files[1..], fetch);
        var tried := [files[0]] + rest.tried;
        assert tried[1..] == rest.tried;
        Bundled(rest.guests, tried)
  }

  /** What the page shows after mount, and the cache it leaves behind. */
  datatype Mounted = Mounted(guests: seq<Guest>, cache: Cache)

  /** `loadGuestList`: a guest list from the bundled files wins and is backed
      up in the cache; otherwise the cached array, if any, is shown and the
      cache is left alone; otherwise the list stays empty. */
  function LoadGuestList(fetch: string -> Fetch, cache: Cache, readFails: bool, writeFails: bool): (r: Mounted)
    requires KeyValue.Valid(cache)
    ensures KeyValue.Valid(r.cache)
    ensures TryBundled(BUNDLED_FILES, fetch).guests != [] ==> r.guests == TryBundled(BUNDLED_FILES, fetch).guests
    ensures TryBundled(BUNDLED_FILES, fetch).guests != [] && !writeFails ==>
              StoredGuestList(r.cache, false) == Some(r.guests)
    ensures writeFails ==> r.cache == cache
    ensures TryBundled(BUNDLED_FILES, fetch).guests == [] ==>
              && r.cache == cache
              && (StoredGuestList(cache, readFails).Some? ==> r.guests == StoredGuestList(cache, readFails).value)
              && (StoredGuestList(cache, readFails).None? ==> r.guests == [])
    ensures forall k | k != GUEST_LIST_KEY :: KeyValue.GetItem(r.cache, k) == KeyValue.GetItem(cache, k)
  {
    var bundled := TryBundled(BUNDLED_FILES, fetch).guests;
    if bundled != [] then
      Mounted(bundled, WriteCache(cache, GUEST_LIST_KEY, JsonArray(bundled), writeFails))
    else
      Mounted(StoredGuestList(cache, readFails).GetOr([]), cache)
  }

  /** The page state the upload handler changes. `holdsFile` is whether the
      file input still holds a chosen file. */
  datatype ManageState = ManageState(guests: seq<Guest>, error: string, cache: Cache, holdsFile: bool)

  /** What the browser reports for a file choice: no file chosen, a read
      error (`onerror`), or the read bytes, decoded as a workbook or not. */
  datatype FileEvent = NoFile | ReadError | ReadDone(decoded: Option<seq<Row>>)

  /** Whether a file choice produced a non-empty guest list. */
  predicate Accepted(ev: FileEvent) {
    ev.ReadDone? && ev.decoded.Some? && ParseRows(ev.decoded.value) != []
  }

  /** `handleFileChange`: an accepted list replaces the shown one, clears the
      message and is written to the cache; every failure empties the list and
      shows its message, leaving the cache alone; the input is cleared after
      any read. With no file nothing happens. */
  function HandleFileChange(st: ManageState, ev: FileEvent, writeFails: bool): (r: ManageState)
    requires KeyValue.Valid(st.cache)
    ensures KeyValue.Valid(r.cache)
    ensures ev.NoFile? ==> r == st
    ensures !ev.NoFile? ==> !r.holdsFile
    ensures Accepted(ev) ==> r.guests == ParseRows(ev.decoded.value) && r.error == ""
    ensures Accepted(ev) && !writeFails ==> StoredGuestList(r.cache, false) == Some(r.guests)
    ensures writeFails ==> r.cache == st.cache
    ensures !ev.NoFile? && !Accepted(ev) ==> r.guests == [] && r.cache == st.cache
    ensures ev.ReadError? ==> r.error == READ_FAILED
    ensures ev.ReadDone? && ev.decoded.None? ==> r.error == PROCESS_FAILED
    ensures ev.ReadDone? && ev.decoded.Some? && !Accepted(ev) ==> r.error == NO_GUESTS_FOUND
    ensures forall k | k != GUEST_LIST_KEY :: KeyValue.GetItem(r.cache, k) == KeyValue.GetItem(st.cache, k)
  {
    match ev
    case NoFile => st
    case ReadError => ManageState([], READ_FAILED, st.cache, false)
    case ReadDone(decoded) =>
      match ParseWorkbook(decoded)
      case Failure(_) => ManageState([], PROCESS_FAILED, st.cache, false)
      case Success(guests) =>
        if guests == [] then ManageState([], NO_GUESTS_FOUND, st.cache, false)
        else ManageState(guests, "", WriteCache(st.cache, GUEST_LIST_KEY, JsonArray(guests), writeFails), false)
  }

  /** An uploaded list survives a reload: when the bundled files yield nothing,
      the next mount shows exactly the list the admin uploaded. */
  lemma UploadSurvivesReload(st: ManageState, rows: seq<Row>, fetch: string -> Fetch, writeFails: bool)
    requires KeyValue.Valid(st.cache)
    requires ParseRows(rows) != []
    requires TryBundled(BUNDLED_FILES, fetch).guests == []
    ensures LoadGuestList(fetch, HandleFileChange(st, ReadDone(Some(rows)), false).cache, false, writeFails).guests
            == ParseRows(rows)
  {
  }

  /** A failed upload never touches the cache, so the next mount shows what
      it would have shown before. */
  lemma FailedUploadKeepsReload(st: ManageState, ev: FileEvent, fetch: string -> Fetch, readFails: bool, writeFails: bool)
    requires KeyValue.Valid(st.cache)
    requires !Accepted(ev)
    ensures LoadGuestList(fetch, HandleFileChange(st, ev, writeFails).cache, readFails, writeFails)
            == LoadGuestList(fetch, st.cache, readFails, writeFails)
  {
  }
}
