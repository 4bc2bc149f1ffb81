/** The optional hosted database of src/utils/supabaseGuests.js, with its
    `guests` and `invitations` tables modelled as row sequences. Every
    request's reply is an oracle: it completes, reports an error, or throws.
    Reads answer `None` when the store is unavailable and a (possibly empty)
    list or map otherwise; writes answer whether they succeeded. */
module RemoteStore {
  import opened Wrappers
  import opened Seqs
  import opened Model

  /** `isSupabaseConfigured`: both the project address and the key are set. */
  predicate IsConfigured(url: string, anonKey: string) {
    url != "" && anonKey != ""
  }

  /** A row of the `guests` table; the row id is not modelled. */
  datatype GuestRow = GuestRow(name: string, tableName: string)

  /** A row of the `invitations` table; `null` columns are `None`. */
  datatype InvitationRow = InvitationRow(
    tableName: string, fileUrl: Option<string>, fileType: string, fileName: string, dataUrl: Option<string>)

  /** How a write request ends. */
  datatype Outcome = Done | Errored | Threw

  /** How a read request ends: it throws, reports an error, or delivers
      data, which may be `null`. */
  datatype Reply<T> = ReplyThrew | ReplyError | ReplyData(data: Option<seq<T>>)

  /** A write's answer and the table it leaves behind. */
  datatype Written<T> = Written(ok: bool, rows: seq<T>)

  function ToGuest(row: GuestRow): Guest {
    Guest(row.name, row.tableName)
  }

  function ToRow(g: Guest): GuestRow {
    GuestRow(g.name, g.table)
  }

  /** The `map` of `loadGuestsFromSupabase`: one guest per row, in order. */
  function ToGuests(rows: seq<GuestRow>): (guests: seq<Guest>)
    ensures |guests| == |rows|
    ensures forall i | 0 <= i < |rows| :: guests[i] == Guest(rows[i].name, rows[i].tableName)
  {
    seq(|rows|, i requires 0 <= i < |rows| => ToGuest(rows[i]))
  }

  /** The `map` of `saveGuestsToSupabase`: one row per guest, in order. */
  function ToRows(guests: seq<Guest>): (rows: seq<GuestRow>)
    ensures |rows| == |guests|
    ensures forall i | 0 <= i < |guests| :: rows[i] == GuestRow(guests[i].name, guests[i].table)
  {
    seq(|guests|, i requires 0 <= i < |guests| => ToRow(guests[i]))
  }

  /** The two mappings are inverse to each other. */
  lemma RowMappingRoundTrip(guests: seq<Guest>, rows: seq<GuestRow>)
    ensures ToGuests(ToRows(guests)) == guests
    ensures ToRows(ToGuests(rows)) == rows
  {
  }

  /** `loadGuestsFromSupabase`: `None` when unconfigured, on an error reply
      or on a throw; `[]` for `null` data; otherwise the mapped rows. The
      database sorts the rows; the reply is taken in the order delivered. */
  function LoadGuests(configured: bool, reply: Reply<GuestRow>): (r: Option<seq<Guest>>)
    ensures r.None? <==> !configured || reply.ReplyThrew? || reply.ReplyError?
    ensures r.Some? && reply.data.None? ==> r.value == []
    ensures r.Some? && reply.data.Some? ==> r.value == ToGuests(reply.data.value)
  {
    if !configured then None
    else
      match reply
      case ReplyThrew => None
      case ReplyError => None
      case ReplyData(data) => Some(ToGuests(data.GetOr([])))
  }

  /** `saveGuestsToSupabase`: delete every row, then insert the new list when
      it is non-empty. A delete error is only logged, so the insert then adds
      to the old rows; a thrown delete or a failed insert answers `false`. */
  function SaveGuests(configured: bool, rows: seq<GuestRow>, guests: seq<Guest>, deleted: Outcome, inserted: Outcome): (w: Written<GuestRow>)
    ensures !configured ==> w == Written(false, rows)
    ensures configured && deleted.Threw? ==> w == Written(false, rows)
    ensures w.ok <==> configured && !deleted.Threw? && (guests == [] || inserted.Done?)
    ensures configured && deleted.Done? ==> w.rows == (if w.ok then ToRows(guests) else [])
    ensures configured && deleted.Errored? ==> w.rows == (if w.ok then rows + ToRows(guests) else rows)
  {
    if !configured then Written(false, rows)
    else
      match deleted
      case Threw => Written(false, rows)
      case _ =>
        var kept := if deleted.Done? then [] else rows;
        if guests == [] then Written(true, kept)
        else if inserted.Done? then Written(true, kept + ToRows(guests))
        else Written(false, kept)
  }

  /** A successful save is what the next load returns. */
  lemma SaveThenLoadGuests(rows: seq<GuestRow>, guests: seq<Guest>, inserted: Outcome)
    requires guests == [] || inserted.Done?
    ensures SaveGuests(true, rows, guests, Done, inserted).ok
    ensures LoadGuests(true, ReplyData(Some(SaveGuests(true, rows, guests, Done, inserted).rows))) == Some(guests)
  {
    RowMappingRoundTrip(guests, []);
  }

  /** The row mapping distributes over concatenation. */
  lemma ToGuestsAppend(p: seq<GuestRow>, q: seq<GuestRow>)
    ensures ToGuests(p + q) == ToGuests(p) + ToGuests(q)
  {
  }

  /** Rows that are a permutation of each other map to guests that are a
      permutation of each other. */
  lemma {:induction false} ToGuestsPermutation(p: seq<GuestRow>, q: seq<GuestRow>)
    requires multiset(p) == multiset(q)
    ensures multiset(ToGuests(p)) == multiset(ToGuests(q))
    decreases |p|
  {
    if p == [] {
      assert q == [] by { assert |q| == |multiset(q)|; }
    } else {
      assert p[0] in multiset(q);
      var i :| 0 <= i < |q| && q[i] == p[0];
      var q' := q[..i] + q[i + 1..];
      RemoveAt(p, q, i);
      ToGuestsPermutation(p[1..], q');
      ToGuestsRemoveAt(q, i);
      ToGuestsCons(p);
    }
  }

  /** Removing matching elements from two permutations of each other leaves
      permutations of each other. */
  lemma RemoveAt(p: seq<GuestRow>, q: seq<GuestRow>, i: nat)
    requires multiset(p) == multiset(q) && p != [] && i < |q| && q[i] == p[0]
    ensures multiset(p[1..]) == multiset(q[..i] + q[i + 1..])
  {
    assert q == q[..i] + [q[i]] + q[i + 1..];
    assert p == [p[0]] + p[1..];
    assert multiset(q) == multiset(q[..i]) + multiset{q[i]} + multiset(q[i + 1..]);
    assert multiset(q[..i] + q[i + 1..]) == multiset(q[..i]) + multiset(q[i + 1..]);
    assert multiset(p) == multiset{p[0]} + multiset(p[1..]);
    assert multiset(q[..i] + q[i + 1..]) == multiset(q) - multiset{q[i]};
    assert multiset(p[1..]) == multiset(p) - multiset{p[0]};
  }

  /** Mapping the rows adds the first row's guest to the rest's. */
  lemma ToGuestsCons(p: seq<GuestRow>)
    requires p != []
    ensures multiset(ToGuests(p)) == multiset(ToGuests(p[1..])) + multiset{ToGuest(p[0])}
  {
    var g := ToGuests(p);
    assert g == [g[0]] + g[1..];
    assert g[1..] == ToGuests(p[1..]);
  }

  /** Mapping the rows with one row removed drops exactly that row's guest. */
  lemma ToGuestsRemoveAt(q: seq<GuestRow>, i: nat)
    requires i < |q|
    ensures multiset(ToGuests(q)) == multiset(ToGuests(q[..i] + q[i + 1..])) + multiset{ToGuest(q[i])}
  {
    assert q == q[..i] + [q[i]] + q[i + 1..];
    ToGuestsAppend(q[..i] + [q[i]], q[i + 1..]);
    ToGuestsAppend(q[..i], [q[i]]);
    ToGuestsAppend(q[..i], q[i + 1..]);
  }

  /** Whatever order the database delivers the saved rows in (it sorts them
      by table and name), a successful save loads back exactly the saved
      guests, each as often as it was saved. */
  lemma SaveThenLoadGuestsAnyOrder(rows: seq<GuestRow>, guests: seq<Guest>, inserted: Outcome, reply: seq<GuestRow>)
    requires guests == [] || inserted.Done?
    requires multiset(reply) == multiset(SaveGuests(true, rows, guests, Done, inserted).rows)
    ensures LoadGuests(true, ReplyData(Some(reply))).Some?
    ensures multiset(LoadGuests(true, ReplyData(Some(reply))).value) == multiset(guests)
  {
    var w := SaveGuests(true, rows, guests, Done, inserted);
    assert w.ok && w.rows == ToRows(guests);
    LoadPermutedRows(guests, reply);
  }

  /** Rows that are a permutation of the saved rows map back to a
      permutation of the saved guests. */
  lemma LoadPermutedRows(guests: seq<Guest>, reply: seq<GuestRow>)
    requires multiset(reply) == multiset(ToRows(guests))
    ensures multiset(ToGuests(reply)) == multiset(guests)
  {
    RowMappingRoundTrip(guests, []);
    ToGuestsPermutation(reply, ToRows(guests));
  }

  /** An invitation as `loadInvitationsFromSupabase` presents it. */
  datatype RemoteInvitation = RemoteInvitation(url: Option<string>, mimeType: string, name: string, dataUrl: Option<string>)

  /** One row's entry: the file address when it is set and non-empty,
      otherwise the inline data. */
  function Entry(row: InvitationRow): (e: RemoteInvitation)
    ensures row.fileUrl.Some? && row.fileUrl.value != "" ==> e.url == row.fileUrl
    ensures !(row.fileUrl.Some? && row.fileUrl.value != "") ==> e.url == row.dataUrl
    ensures e.mimeType == row.fileType && e.name == row.fileName && e.dataUrl == row.dataUrl
  {
    var url := if row.fileUrl.Some? && row.fileUrl.value != "" then row.fileUrl else row.dataUrl;
    RemoteInvitation(url, row.fileType, row.fileName, row.dataUrl)
  }

  /** The table of every row, in order. */
  function TableNames(rows: seq<InvitationRow>): (names: seq<string>)
    ensures |names| == |rows|
    ensures forall i | 0 <= i < |rows| :: names[i] == rows[i].tableName
  {
    seq(|rows|, i requires 0 <= i < |rows| => rows[i].tableName)
  }

  /** The `forEach` that keys rows by table: every table with a row is a
      key (`KeyLastRow` says which row supplies its entry). */
  function KeyInvitations(rows: seq<InvitationRow>): (m: map<string, RemoteInvitation>)
    ensures forall t :: t in m <==> t in TableNames(rows)
  {
    if rows == [] then map[]
    else
      var n := |rows| - 1;
      assert TableNames(rows) == TableNames(rows[..n]) + [rows[n].tableName];
      KeyInvitations(rows[..n])[rows[n].tableName := Entry(rows[n])]
  }

  /** Last write wins: a table's entry comes from its last row. */
  lemma {:induction false} KeyLastRow(rows: seq<InvitationRow>, i: nat)
    requires i < |rows|
    requires forall j | i < j < |rows| :: rows[j].tableName != rows[i].tableName
    ensures rows[i].tableName in KeyInvitations(rows)
    ensures KeyInvitations(rows)[rows[i].tableName] == Entry(rows[i])
  {
    var n := |rows| - 1;
    var prefix := rows[..n];
    assert KeyInvitations(rows) == KeyInvitations(prefix)[rows[n].tableName := Entry(rows[n])];
    if i < n {
      assert prefix[i] == rows[i];
      forall j | i < j < n ensures prefix[j].tableName != prefix[i].tableName {
        assert prefix[j] == rows[j];
      }
      KeyLastRow(prefix, i);
    }
  }

  /** When every row of table `t` is the same row, that row is `t`'s entry. */
  lemma {:induction false} KeyUniform(rows: seq<InvitationRow>, t: string, row: InvitationRow)
    requires forall i | 0 <= i < |rows| && rows[i].tableName == t :: rows[i] == row
    requires t in TableNames(rows)
    ensures t in KeyInvitations(rows) && KeyInvitations(rows)[t] == Entry(row)
  {
    var n := |rows| - 1;
    if rows[n].tableName != t {
      assert TableNames(rows) == TableNames(rows[..n]) + [rows[n].tableName];
      assert forall i | 0 <= i < n :: rows[..n][i] == rows[i];
      KeyUniform(rows[..n], t, row);
    }
  }

  /** `loadInvitationsFromSupabase`: `None` when unconfigured, on an error
      reply or on a throw; otherwise the rows keyed by table (`{}` for
      `null` data). */
  function LoadInvitations(configured: bool, reply: Reply<InvitationRow>): (r: Option<map<string, RemoteInvitation>>)
    ensures r.None? <==> !configured || reply.ReplyThrew? || reply.ReplyError?
    ensures r.Some? && reply.data.None? ==> r.value == map[]
    ensures r.Some? && reply.data.Some? ==> r.value == KeyInvitations(reply.data.value)
  {
    if !configured then None
    else
      match reply
      case ReplyThrew => None
      case ReplyError => None
      case ReplyData(data) => Some(KeyInvitations(data.GetOr([])))
  }

  /** How many rows a table has. */
  function CountFor(rows: seq<InvitationRow>, table: string): nat {
    if rows == [] then 0 else (if rows[0].tableName == table then 1 else 0) + CountFor(rows[1..], table)
  }

  /** `.update(...).eq('table_name', table)`: every matching row is replaced. */
  function UpdateRows(rows: seq<InvitationRow>, table: string, row: InvitationRow): (r: seq<InvitationRow>)
    ensures |r| == |rows|
    ensures forall i | 0 <= i < |rows| :: r[i] == (if rows[i].tableName == table then row else rows[i])
  {
    seq(|rows|, i requires 0 <= i < |rows| => if rows[i].tableName == table then row else rows[i])
  }

  /** `saveInvitationToSupabase`: the `.single()` lookup finds an existing row
      only when exactly one row has the table and the lookup neither errs
      nor throws (`lookupFails`); then the row is updated, otherwise a new
      row is appended. A thrown lookup or a failed write answers `false` and
      changes nothing. The `updated_at` stamp is not modelled. */
  function SaveInvitation(
    configured: bool, rows: seq<InvitationRow>, table: string, fileUrl: Option<string>, fileType: string,
    fileName: string, dataUrl: Option<string>, lookup: Outcome, written: Outcome): (w: Written<InvitationRow>)
    ensures w.ok <==> configured && !lookup.Threw? && written.Done?
    ensures !w.ok ==> w.rows == rows
    ensures w.ok && lookup.Done? && CountFor(rows, table) == 1 ==>
              w.rows == UpdateRows(rows, table, InvitationRow(table, fileUrl, fileType, fileName, dataUrl))
    ensures w.ok && !(lookup.Done? && CountFor(rows, table) == 1) ==>
              w.rows == rows + [InvitationRow(table, fileUrl, fileType, fileName, dataUrl)]
  {
    var row := InvitationRow(table, fileUrl, fileType, fileName, dataUrl);
    if !configured || lookup.Threw? || !written.Done? then Written(false, rows)
    else if lookup.Done? && CountFor(rows, table) == 1 then Written(true, UpdateRows(rows, table, row))
    else Written(true, rows + [row])
  }

  /** After a successful save, the next load shows the saved file for the
      table, whether the save updated or inserted. */
  lemma SaveThenLoadInvitation(
    rows: seq<InvitationRow>, table: string, fileUrl: Option<string>, fileType: string,
    fileName: string, dataUrl: Option<string>, lookup: Outcome)
    requires !lookup.Threw?
    ensures var w := SaveInvitation(true, rows, table, fileUrl, fileType, fileName, dataUrl, lookup, Done);
            var m := KeyInvitations(w.rows);
            && table in m
            && m[table] == Entry(InvitationRow(table, fileUrl, fileType, fileName, dataUrl))
  {
    var row := InvitationRow(table, fileUrl, fileType, fileName, dataUrl);
    var w := SaveInvitation(true, rows, table, fileUrl, fileType, fileName, dataUrl, lookup, Done);
    if lookup.Done? && CountFor(rows, table) == 1 {
      CountedRowExists(rows, table);
      var k :| 0 <= k < |rows| && rows[k].tableName == table;
      assert TableNames(w.rows)[k] == table;
      KeyUniform(w.rows, table, row);
    } else {
      KeyLastRow(w.rows, |rows|);
    }
  }

  /** A table counted at least once has a row. */
  lemma {:induction false} CountedRowExists(rows: seq<InvitationRow>, table: string)
    requires CountFor(rows, table) > 0
    ensures exists i | 0 <= i < |rows| :: rows[i].tableName == table
  {
    if rows[0].tableName != table {
      CountedRowExists(rows[1..], table);
      var i :| 0 <= i < |rows[1..]| && rows[1..][i].tableName == table;
      assert rows[i + 1].tableName == table;
    }
  }

  /** The rows of other tables, in their original order. */
  function RowsWithout(rows: seq<InvitationRow>, table: string): (r: seq<InvitationRow>)
    ensures IsSubsequence(r, rows)
    ensures forall row :: row in r <==> row in rows && row.tableName != table
    ensures |r| == |rows| - CountFor(rows, table)
    ensures forall row: InvitationRow | row.tableName != table :: multiset(r)[row] == multiset(rows)[row]
  {
    if rows == [] then
      EmptyIsSubsequence(rows);
      []
    else
      var rest := RowsWithout(rows[1..], table);
      assert rows == [rows[0]] + rows[1..];
      assert multiset(rows) == multiset{rows[0]} + multiset(rows[1..]);
      if rows[0].tableName != table then
        ConsSubsequence(rest, rows);
        assert multiset([rows[0]] + rest) == multiset{rows[0]} + multiset(rest);
        [rows[0]] + rest
      else
        SkipFirst(rest, rows);
        rest
  }

  /** `deleteInvitationFromSupabase`: removes every row of the table; an
      error or a throw answers `false` and changes nothing. */
  function DeleteInvitation(configured: bool, rows: seq<InvitationRow>, table: string, deleted: Outcome): (w: Written<InvitationRow>)
    ensures w.ok <==> configured && deleted.Done?
    ensures !w.ok ==> w.rows == rows
    ensures w.ok ==> IsSubsequence(w.rows, rows)
    ensures w.ok ==> forall row :: row in w.rows <==> row in rows && row.tableName != table
    ensures w.ok ==> |w.rows| == |rows| - CountFor(rows, table)
    ensures w.ok ==> forall row: InvitationRow | row.tableName != table :: multiset(w.rows)[row] == multiset(rows)[row]
  {
    if configured && deleted.Done? then Written(true, RowsWithout(rows, table)) else Written(false, rows)
  }

  /** After a successful delete the table has no invitation, and every other
      table that had one still has one. */
  lemma DeleteThenLoadInvitation(rows: seq<InvitationRow>, table: string)
    ensures var m := KeyInvitations(DeleteInvitation(true, rows, table, Done).rows);
            && table !in m
            && forall t | t != table :: t in KeyInvitations(rows) ==> t in m
  {
    var r := DeleteInvitation(true, rows, table, Done).rows;
    forall k | 0 <= k < |r| ensures TableNames(r)[k] != table {
      assert r[k] in r;
    }
    forall t | t != table && t in KeyInvitations(rows) ensures t in TableNames(r) {
      var k :| 0 <= k < |rows| && TableNames(rows)[k] == t;
      assert rows[k] in r;
      var k' :| 0 <= k' < |r| && r[k'] == rows[k];
      assert TableNames(r)[k'] == t;
    }
  }

  /** `clearAllGuestsFromSupabase` and `clearAllInvitationsFromSupabase`:
      every row goes; an error or a throw answers `false` and changes nothing. */
  function ClearAll<T>(configured: bool, rows: seq<T>, deleted: Outcome): (w: Written<T>)
    ensures w.ok <==> configured && deleted.Done?
    ensures w.ok ==> w.rows == []
    ensures !w.ok ==> w.rows == rows
  {
    if configured && deleted.Done? then Written(true, []) else Written(false, rows)
  }

  /** After a successful clear the next load finds nothing: no guests and
      no invitations. */
  lemma ClearAllThenLoad(guestRows: seq<GuestRow>, invitationRows: seq<InvitationRow>)
    ensures ClearAll(true, guestRows, Done).ok && ClearAll(true, invitationRows, Done).ok
    ensures LoadGuests(true, ReplyData(Some(ClearAll(true, guestRows, Done).rows))) == Some([])
    ensures LoadInvitations(true, ReplyData(Some(ClearAll(true, invitationRows, Done).rows))) == Some(map[])
  {
    assert KeyInvitations([]) == map[];
  }
}
