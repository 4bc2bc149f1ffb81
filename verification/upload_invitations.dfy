/** The invitation upload page of src/UploadInvitationsPage.js: it groups the
    cached guest list into tables with their head counts, and keeps one
    uploaded invitation per table in a map that is written to the cache after
    every change. */
module UploadInvitations {
  import opened Wrappers
  import KeyValue
  import opened Model
  import ExcelParser
  import NameFinder

  /** The table a guest is counted under: `guest.table || 'Unassigned'`. */
  function TableKey(g: Guest): (k: string)
    ensures k != ""
    ensures g.table != "" ==> k == g.table
  {
    if g.table == "" then UNASSIGNED else g.table
  }

  /** The table key of every guest, in list order. */
  function Keys(guests: seq<Guest>): (keys: seq<string>)
    ensures |keys| == |guests|
    ensures forall i | 0 <= i < |guests| :: keys[i] == TableKey(guests[i])
  {
    seq(|guests|, i requires 0 <= i < |guests| => TableKey(guests[i]))
  }

  /** One table card: its name and how many guests sit there. */
  datatype TableCount = TableCount(name: string, count: nat)

  function Names(ts: seq<TableCount>): (names: seq<string>)
    ensures |names| == |ts|
    ensures forall i | 0 <= i < |ts| :: names[i] == ts[i].name
  {
    seq(|ts|, i requires 0 <= i < |ts| => ts[i].name)
  }

  function Total(ts: seq<TableCount>): nat {
    if ts == [] then 0 else ts[0].count + Total(ts[1..])
  }

  /** Equal head counts give equal totals. */
  lemma {:induction false} TotalSame(a: seq<TableCount>, b: seq<TableCount>)
    requires |a| == |b|
    requires forall i | 0 <= i < |a| :: a[i].count == b[i].count
    ensures Total(a) == Total(b)
  {
    if a != [] {
      TotalSame(a[1..], b[1..]);
    }
  }

  /** One more guest at one table adds one to the total. */
  lemma {:induction false} TotalBump(a: seq<TableCount>, b: seq<TableCount>, p: nat)
    requires |a| == |b| && p < |a|
    requires b[p].count == a[p].count + 1
    requires forall i | 0 <= i < |a| && i != p :: a[i].count == b[i].count
    ensures Total(b) == Total(a) + 1
  {
    if p == 0 {
      TotalSame(a[1..], b[1..]);
    } else {
      TotalBump(a[1..], b[1..], p - 1);
    }
  }

  /** A table appended at the end adds its head count to the total. */
  lemma {:induction false} TotalAppend(a: seq<TableCount>, t: TableCount)
    ensures Total(a + [t]) == Total(a) + t.count
  {
    if a != [] {
      assert (a + [t])[1..] == a[1..] + [t];
      TotalAppend(a[1..], t);
    }
  }

  /** One `forEach` step on the `Map` of tables: a known table gains a guest
      in place; a new table is appended with one guest. */
  function AddGuest(ts: seq<TableCount>, name: string): (r: seq<TableCount>)
    ensures name in Names(ts) ==> Names(r) == Names(ts)
    ensures name !in Names(ts) ==> Names(r) == Names(ts) + [name]
    ensures forall i | 0 <= i < |ts| :: r[i].count == ts[i].count + (if ts[i].name == name then 1 else 0)
    ensures name !in Names(ts) ==> r[|ts|].count == 1
  {
    if name in Names(ts) then
      var r := seq(|ts|, i requires 0 <= i < |ts| =>
                   if ts[i].name == name then TableCount(name, ts[i].count + 1) else ts[i]);
      assert forall i | 0 <= i < |ts| :: Names(r)[i] == Names(ts)[i];
      r
    else
      var r := ts + [TableCount(name, 1)];
      assert forall i | 0 <= i < |ts| :: Names(r)[i] == Names(ts)[i];
      r
  }

  /** Each step adds exactly one guest to the head counts. */
  lemma AddGuestTotal(ts: seq<TableCount>, name: string)
    requires KeyValue.Distinct(Names(ts))
    ensures Total(AddGuest(ts, name)) == Total(ts) + 1
  {
    var r := AddGuest(ts, name);
    if name in Names(ts) {
      var p :| 0 <= p < |ts| && Names(ts)[p] == name;
      assert forall i | 0 <= i < |ts| && i != p :: Names(ts)[i] != Names(ts)[p];
      TotalBump(ts, r, p);
    } else {
      assert r == ts + [TableCount(name, 1)];
      TotalAppend(ts, TableCount(name, 1));
    }
  }

  /** The `tables` memo before its sort: one entry per distinct table key, in
      order of first appearance. */
  function Tables(guests: seq<Guest>): (ts: seq<TableCount>)
    ensures KeyValue.Distinct(Names(ts))
    ensures forall n :: n in Names(ts) <==> n in Keys(guests)
  {
    if guests == [] then []
    else
      var n := |guests| - 1;
      var prior := Tables(guests[..n]);
      var key := TableKey(guests[n]);
      assert Keys(guests) == Keys(guests[..n]) + [key];
      AddGuest(prior, key)
  }

  /** One step keeps every card's count equal to its name's multiplicity. */
  lemma AddGuestCounts(ts: seq<TableCount>, key: string, keys: multiset<string>)
    requires forall n :: n in Names(ts) <==> n in keys
    requires forall i | 0 <= i < |ts| :: ts[i].count == keys[ts[i].name]
    ensures forall i | 0 <= i < |AddGuest(ts, key)| ::
              AddGuest(ts, key)[i].count == (keys + multiset{key})[AddGuest(ts, key)[i].name]
  {
    var r := AddGuest(ts, key);
    forall i | 0 <= i < |r| ensures r[i].count == (keys + multiset{key})[r[i].name] {
      if i < |ts| {
        assert r[i].name == Names(r)[i] == Names(ts)[i] == ts[i].name;
      } else {
        assert key !in Names(ts);
        assert r[i].name == Names(r)[i] == key;
      }
    }
  }

  /** Each table card counts the guests whose table key is its name. */
  lemma {:induction false} TablesCount(guests: seq<Guest>)
    ensures forall i | 0 <= i < |Tables(guests)| :: Tables(guests)[i].count == multiset(Keys(guests))[Tables(guests)[i].name]
  {
    if guests != [] {
      var n := |guests| - 1;
      var prior := Tables(guests[..n]);
      var key := TableKey(guests[n]);
      var keys := multiset(Keys(guests[..n]));
      TablesCount(guests[..n]);
      assert Keys(guests) == Keys(guests[..n]) + [key];
      assert multiset(Keys(guests)) == keys + multiset{key};
      assert forall x :: x in Names(prior) <==> x in keys;
      AddGuestCounts(prior, key, keys);
    }
  }

  /** The head counts add up to the number of guests. */
  lemma {:induction false} TablesTotal(guests: seq<Guest>)
    ensures Total(Tables(guests)) == |guests|
  {
    if guests != [] {
      var n := |guests| - 1;
      TablesTotal(guests[..n]);
      AddGuestTotal(Tables(guests[..n]), TableKey(guests[n]));
    }
  }

  /** Every table card has at least one guest. */
  lemma TablesArePopulated(guests: seq<Guest>)
    ensures forall i | 0 <= i < |Tables(guests)| :: Tables(guests)[i].count >= 1
  {
    var ts := Tables(guests);
    TablesCount(guests);
    forall i | 0 <= i < |ts| ensures ts[i].count >= 1 {
      assert ts[i].name in Names(ts);
      assert ts[i].name in multiset(Keys(guests));
    }
  }

  /** What the page holds: the uploads map and the cache it writes to. */
  datatype UploadState = UploadState(uploads: map<string, Upload>, cache: Cache)

  /** The chosen file as the browser describes it. */
  datatype FileInfo = FileInfo(name: string, size: nat, mimeType: string)

  /** What `readAsDataURL` delivers: nothing, something that is not a string,
      or the data URL text. */
  datatype ReadResult = NoResult | NonText | DataUrl(url: string)

  /** Whether a read delivered a usable data URL: a non-empty string. */
  predicate Usable(result: ReadResult) {
    result.DataUrl? && result.url != ""
  }

  /** The page as it comes up: the cached uploads when the cache holds an
      object, else none. */
  function Mount(cache: Cache, readFails: bool): (st: UploadState)
    ensures st.cache == cache
    ensures StoredUploads(cache, readFails).Some? ==> st.uploads == StoredUploads(cache, readFails).value
    ensures StoredUploads(cache, readFails).None? ==> st.uploads == map[]
  {
    UploadState(StoredUploads(cache, readFails).GetOr(map[]), cache)
  }

  /** `handleFileChange` for one table: a usable read records the file,
      stamped `now`, under the table, replacing any earlier upload there, and
      writes the whole map to the cache. Without a file or without a usable
      result nothing changes. */
  function SetUpload(st: UploadState, table: string, file: Option<FileInfo>, result: ReadResult, now: string, writeFails: bool): (r: UploadState)
    requires KeyValue.Valid(st.cache)
    ensures KeyValue.Valid(r.cache)
    ensures file.None? || !Usable(result) ==> r == st
    ensures file.Some? && Usable(result) ==>
              && table in r.uploads
              && r.uploads[table] == Upload(file.value.name, file.value.size, file.value.mimeType, now, result.url)
    ensures forall t | t != table :: (t in r.uploads <==> t in st.uploads)
                                   && (t in st.uploads ==> r.uploads[t] == st.uploads[t])
    ensures file.Some? && Usable(result) && !writeFails ==> StoredUploads(r.cache, false) == Some(r.uploads)
    ensures writeFails ==> r.cache == st.cache
    ensures forall k | k != UPLOADS_KEY :: KeyValue.GetItem(r.cache, k) == KeyValue.GetItem(st.cache, k)
  {
    if file.None? || !Usable(result) then st
    else
      var f := file.value;
      var next := st.uploads[table := Upload(f.name, f.size, f.mimeType, now, result.url)];
      UploadState(next, WriteCache(st.cache, UPLOADS_KEY, JsonObject(next), writeFails))
  }

  /** `handleClearUpload`: removes the table's upload, if any, and writes the
      map to the cache either way. */
  function ClearUpload(st: UploadState, table: string, writeFails: bool): (r: UploadState)
    requires KeyValue.Valid(st.cache)
    ensures KeyValue.Valid(r.cache)
    ensures table !in r.uploads
    ensures forall t | t != table :: (t in r.uploads <==> t in st.uploads)
                                   && (t in st.uploads ==> r.uploads[t] == st.uploads[t])
    ensures !writeFails ==> StoredUploads(r.cache, false) == Some(r.uploads)
    ensures writeFails ==> r.cache == st.cache
    ensures forall k | k != UPLOADS_KEY :: KeyValue.GetItem(r.cache, k) == KeyValue.GetItem(st.cache, k)
  {
    var next := st.uploads - {table};
    UploadState(next, WriteCache(st.cache, UPLOADS_KEY, JsonObject(next), writeFails))
  }

  /** Clearing right after an upload leaves the table with no invitation and
      every other table as it was. */
  lemma ClearUndoesUpload(st: UploadState, table: string, f: FileInfo, result: ReadResult, now: string)
    requires KeyValue.Valid(st.cache)
    requires Usable(result)
    ensures ClearUpload(SetUpload(st, table, Some(f), result, now, false), table, false).uploads
            == st.uploads - {table}
  {
    var r := ClearUpload(SetUpload(st, table, Some(f), result, now, false), table, false).uploads;
    assert forall t :: t in r <==> t in st.uploads - {table};
  }

  /** An invitation uploaded on this page for the table of a guest read from a
      spreadsheet is what the guest's result card shows after a reload: parsed
      guests always carry a table label, so the page's `guest.table ||
      'Unassigned'` key and the finder's `uploads[guest.table]` lookup agree. */
  lemma UploadReachesParsedGuest(st: UploadState, rows: seq<ExcelParser.Row>, g: Guest, f: FileInfo, result: ReadResult, now: string)
    requires KeyValue.Valid(st.cache)
    requires g in ExcelParser.ParseRows(rows)
    requires Usable(result)
    ensures NameFinder.CardFor(StoredUploads(SetUpload(st, TableKey(g), Some(f), result, now, false).cache, false).value, g)
            == NameFinder.Invitation(NameFinder.KindOf(f.mimeType), Upload(f.name, f.size, f.mimeType, now, result.url))
  {
    assert g.table != "";
  }
}
