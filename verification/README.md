# finder_flex guest directory, modelled in Dafny

finder_flex is a small React application for an event. An administrator loads
a guest list from a spreadsheet, attaches one invitation file per table, and
guests look themselves up by name to see their table and invitation. This
project models the logic behind those pages as pure Dafny functions over
immutable data, and proves what each one guarantees:

- `ExcelParser` models the row fold that turns a decoded spreadsheet into
  `{name, table}` records. It is proved equal to a position-based reference
  description: nothing before the first "guest" header row, one record per row
  with trailing data, and each record under its nearest preceding "table"
  marker row.
- `NameFinder` models the guest search. It covers `normalizeValue`, the
  greedy `fuzzyIncludes` walk and the `results` filter. The walk is proved to
  decide "ordered subsequence", and the filter is proved stable and exact. It
  also models the rule that picks how an invitation is shown.
- `ManageList` models the guest-list page. It covers the bundled-file
  fallback chain with its cache backup, and the three outcomes of an upload.
- `UploadInvitations` models the per-table grouping with head counts, and the
  set and clear operations on the table-to-invitation map.
- `InvitationLoader` models table-name normalisation and the first-hit probe
  over file extensions. `TableGuests` models the table page heading.
- `RemoteStore` models the optional hosted database as row sequences:
  - null-versus-empty result tagging;
  - the row mapping;
  - last-write-wins keying of invitations;
  - update-or-insert of an invitation.
- `KeyValue` models the `Map`-backed `localStorage` stand-in. `Model` holds
  the shared records and the cache readers every page uses.

I/O is turned into inputs. A fetch, a `HEAD` probe, a database reply and the
spreadsheet decoder's output are oracle parameters. A cache read or write that
throws is a boolean flag, and the current time is a string parameter.
Strings are ASCII.

## Search, loading and parsing rules

- A guest matches exactly when the normalised query is an ordered
  subsequence of the normalised name. No word boundary, query length or
  similarity score enters the decision.
- Showing or downloading an invitation changes no state; nothing records
  which guests have fetched theirs.
- The guest-list page tries the bundled files in order and then the browser
  cache; it never asks the hosted database.
- A row whose only non-blank cell is the first one is dropped. So a
  one-column sheet of alternating "Table n" and name rows yields no guests
  (`ExcelParser.SingleColumnYieldsNothing`).

## Model

| member | source | states |
|---|---|---|
| KeyValue.Empty | scripts/start.js:4 | A fresh store is consistent and holds no key. |
| KeyValue.GetItem | scripts/start.js:12-14 | The stored value for a present key; `None` (null) exactly for a missing key. |
| KeyValue.SetItem | scripts/start.js:21-23 | A later `getItem` of the key returns the value; every other key reads as before; a new key goes to the end of the iteration order, an existing one keeps its place. |
| KeyValue.RemoveItem | scripts/start.js:18-20 | The key is gone and every other key reads as before and keeps its relative place in the iteration order. The size drops by one exactly when the key was present, and removing a missing key leaves the store identical. |
| KeyValue.Without | scripts/start.js:18-20 | The iteration order with the key dropped: exactly the other keys, in their original relative order, still distinct; unchanged when the key was absent. |
| KeyValue.Clear | scripts/start.js:9-11 | Afterwards every key reads as missing and `length` is 0. |
| KeyValue.Key | scripts/start.js:15-17 | `None` exactly when the index is outside `0..length-1`; otherwise the key at that position of the insertion order, so after `removeItem` the remaining keys keep their relative order. |
| KeyValue.KeyEnumerates | scripts/start.js:15-17 | `key(0)` to `key(length-1)` list every stored key and only stored keys, each at exactly one index. |
| KeyValue.KeyAfterSet | scripts/start.js:15-23 | After `setItem` of a new key, `key(length)` is that key; the earlier indices keep their keys; setting an existing key changes no index. |
| KeyValue.OrderMatchesSize | scripts/start.js:6-8 | In a consistent store, `length` equals the number of keys in iteration order. |
| Text.Trim | src/utils/invitationLoader.js:9 | `trim()`: a non-empty result starts and ends with a non-whitespace character. |
| Text.TrimSlice | src/utils/invitationLoader.js:9 | `trim()` returns a contiguous slice of the input, and only whitespace lies before and after that slice. |
| Text.TrimSqueeze | src/utils/invitationLoader.js:9 | Trimming loses no non-whitespace character. |
| Text.TrimBlank | src/TableGuestsPage.js:10-13 | Trimming gives "" exactly for an all-whitespace input, and never lengthens. |
| Text.CollapseSpaces | src/utils/invitationLoader.js:9 | `replace(/\s+/g, ' ')`: in the result every whitespace character is a plain space and none follows another. The result is empty only for empty input, and starts or ends with whitespace exactly when the input does. |
| Text.CollapseSplice | src/utils/invitationLoader.js:9 | A whitespace run between two parts becomes exactly one space, and each part is collapsed on its own, so no character outside the run is lost or moved. |
| Text.CollapseJoinsWords | src/utils/invitationLoader.js:9 | `trim().replace(/\s+/g, ' ')` on two collapsed words joined by any whitespace run keeps the whole string through the trim and gives the two words joined by one space. |
| Text.CollapseSqueeze | src/utils/invitationLoader.js:9 | Collapsing loses no non-whitespace character. |
| Text.CollapseCollapsed | src/utils/invitationLoader.js:9 | A string already in collapsed form is left unchanged. |
| Text.CollapseKeepsPrefix | src/TableGuestsPage.js:15-16 | Collapsing leaves a leading run of non-whitespace characters in place. |
| Text.StartsWithLowerPrefix | src/TableGuestsPage.js:15 | The anchored case-insensitive test holds exactly when the word is a prefix of the lower-cased string. |
| Model.ReadCache | src/NameFinderPage.js:48-58 | A throwing read reads as nothing stored; otherwise it is the store's `getItem`. |
| Model.WriteCache | src/ManageListPage.js:38-42 | A throwing write leaves the cache as it was; otherwise the key then reads as the value; other keys are never touched. |
| Model.StoredGuestList | src/NameFinderPage.js:47-59 | A cached guest list is adopted exactly when the read succeeds and the value is an array, and it is that array. |
| Model.StoredUploads | src/UploadInvitationsPage.js:15-27 | Cached uploads are adopted exactly when the read succeeds and the value is a non-null object (an array included); an object is adopted as stored. |
| ExcelParser.CellTexts | src/utils/excelParser.js:37-39 | One text per cell: "" for a missing cell, the trimmed text otherwise. |
| ExcelParser.ViewOf | src/utils/excelParser.js:37-41 | A row's first cell, when non-empty, has no surrounding whitespace. |
| ExcelParser.StepRow | src/utils/excelParser.js:41-68 | A blank first cell changes nothing. The header flag turns on at the first "guest" row and never off. A guest is emitted exactly for a row with trailing data after the header, with the current label or "Unassigned". The label changes exactly at a trailing-data-free "table" row after the header. |
| ExcelParser.Run | src/utils/excelParser.js:36-69 | At most one guest per row; each name is some row's non-empty first cell; each table is non-empty and is "Unassigned", the starting label, or a cell mentioning "table". |
| ExcelParser.ParseRows | src/utils/excelParser.js:28-71 | Empty input yields `[]`; no more guests than rows; names are non-empty and trimmed; each table is "Unassigned" or mentions "table". |
| ExcelParser.ParseWorkbook | src/utils/excelParser.js:17-76 | An undecodable buffer is exactly the "Failed to parse Excel file" error; decoded rows give the parsed guests. |
| ExcelParser.LoadGuestListFromFile | src/utils/excelParser.js:83-95 | Any fetch or parse failure reads as `[]`; a non-empty result is the parse of fetched, decodable rows. |
| ExcelParser.FirstHeaderFrom | src/utils/excelParser.js:47-50 | Reference: the first "guest" row at or after a position, or none, with no header row before it. |
| ExcelParser.MarkerBefore | src/utils/excelParser.js:56-59 | Reference: the nearest marker row after the header and before a row, or "" when there is none; never a later row. |
| ExcelParser.RunBeforeHeader | src/utils/excelParser.js:47-54 | Rows before the first header, and the header itself, emit nothing and leave the label empty. |
| ExcelParser.RunWithoutHeader | src/utils/excelParser.js:52-54 | Without a header row from some position on, nothing is emitted. |
| ExcelParser.RunAfterHeader | src/utils/excelParser.js:56-68 | After the header, the fold emits exactly one guest per row with trailing data, labelled with the nearest preceding marker. |
| ExcelParser.ParseRowsMatchesReference | src/utils/excelParser.js:28-71 | The parser equals the reference: guests of the rows after the first header, in row order, each under its nearest preceding marker or "Unassigned". |
| ExcelParser.NoHeaderNoGuests | src/utils/excelParser.js:47-54 | If no first cell mentions "guest", the result is empty. |
| ExcelParser.RunWithoutMetadata | src/utils/excelParser.js:61-63 | Rows with no non-blank cell after the first never emit, whatever the state. |
| ExcelParser.SingleColumnYieldsNothing | src/utils/excelParser.js:3-10 | A sheet whose rows have at most one cell yields no guests. |
| NameFinder.NormalizeValue | src/NameFinderPage.js:14-17 | The result holds only `a-z0-9` and is an ordered subsequence of the lower-cased input, no longer than it. |
| NameFinder.NormalizeValueKeepsSearchChars | src/NameFinderPage.js:14-17 | A string of `a-z0-9` characters is its own normal form. |
| NameFinder.NormalizeValueCounts | src/NameFinderPage.js:14-17 | Every letter or digit of the lower-cased input occurs in the normal form exactly as often as in the input, so only other characters are dropped. |
| NameFinder.NormalizeValueIdempotent | src/NameFinderPage.js:14-17 | Normalising twice equals normalising once. |
| NameFinder.Walk | src/NameFinderPage.js:24-34 | From any indices within bounds, the loop answers whether the rest of the query is an ordered subsequence of the rest of the target; it terminates. |
| NameFinder.WalkStep | src/NameFinderPage.js:27-32 | One greedy step (advance the query only on a match) preserves that question. |
| NameFinder.WalkEnd | src/NameFinderPage.js:27-34 | When the loop stops, "whole query consumed" is exactly the answer. |
| NameFinder.FuzzyIncludes | src/NameFinderPage.js:19-35 | True exactly when the query is an ordered subsequence of the target, so always for the empty query. |
| NameFinder.ContainsImpliesFuzzy | src/NameFinderPage.js:86-89 | A block occurrence is also found by the fuzzy walk, so the `includes` test adds no matches. |
| NameFinder.QualifiesIffSubsequence | src/NameFinderPage.js:82-89 | The filter keeps a guest exactly when it has a name whose normal form has the query as an ordered subsequence. |
| NameFinder.FilterGuests | src/NameFinderPage.js:81-90 | The result is an ordered subsequence of the list, and a guest appears in it exactly when it is listed, named and matched. |
| NameFinder.Results | src/NameFinderPage.js:75-91 | A blank query gives `[]`. Otherwise the result keeps list order and holds exactly the named guests matching the normalised trimmed query. |
| NameFinder.PunctuationQueryMatchesEveryName | src/NameFinderPage.js:80-89 | A non-blank query with no letter or digit matches every guest that has a name. |
| NameFinder.KindOf | src/NameFinderPage.js:185-186 | Image exactly for "image/..." types, PDF exactly for "application/pdf", a plain file otherwise. |
| NameFinder.CardFor | src/NameFinderPage.js:184-248 | The "no invitation" notice exactly when the guest's table has no upload; otherwise that table's upload, shown by its kind. |
| ManageList.TryBundled | src/ManageListPage.js:21-33 | Files are fetched in order; all but the last fetched yielded nothing; the result is the last fetched file's list; an empty result means every file was tried. |
| ManageList.LoadGuestList | src/ManageListPage.js:19-57 | A bundled list wins and, unless the write throws, becomes the cached list; a throwing write leaves the cache as it was. Otherwise the cache is untouched and its array, if any, is shown, else `[]`. Other cache keys are never touched. |
| ManageList.HandleFileChange | src/ManageListPage.js:72-124 | No file: nothing changes. A non-empty parse replaces the list, clears the message and, unless the write throws, is cached; a throwing write leaves the cache as it was. Otherwise the list empties, the cache is untouched, and the message is "could not read", "could not process" or "could not find any guests". The input is cleared after any read. |
| ManageList.UploadSurvivesReload | src/ManageListPage.js:43-56 | When the bundled files yield nothing, the next mount shows exactly the list last uploaded. |
| ManageList.FailedUploadKeepsReload | src/ManageListPage.js:106-119 | A failed upload leaves what the next mount shows unchanged. |
| UploadInvitations.TableKey | src/UploadInvitationsPage.js:47 | A guest's group is its table, or "Unassigned" when that is empty; never "". |
| UploadInvitations.AddGuest | src/UploadInvitationsPage.js:48-51 | A known table gains one guest in place and the other counts are unchanged; a new table is appended with count 1. |
| UploadInvitations.AddGuestCounts | src/UploadInvitationsPage.js:46-52 | If every card counts its name's occurrences among the keys seen so far, it still does after one more key. |
| UploadInvitations.AddGuestTotal | src/UploadInvitationsPage.js:51 | Each step adds exactly one to the total head count. |
| UploadInvitations.Tables | src/UploadInvitationsPage.js:43-58 | Each table key appears once, and the keys are exactly the guests' keys. |
| UploadInvitations.TablesCount | src/UploadInvitationsPage.js:43-58 | Each card's count is the number of guests whose key is its name. |
| UploadInvitations.TablesTotal | src/UploadInvitationsPage.js:54-58 | The counts add up to the number of guests. |
| UploadInvitations.TablesArePopulated | src/UploadInvitationsPage.js:44-58 | Every table card has at least one guest. |
| UploadInvitations.Mount | src/UploadInvitationsPage.js:15-27 | The page starts with the cached uploads when they are adopted, else with none. |
| UploadInvitations.SetUpload | src/UploadInvitationsPage.js:68-110 | Without a file or a non-empty string result nothing changes. Otherwise the table maps to the new upload and every other table is unchanged. Unless the write throws, the cache then holds exactly the new map. |
| UploadInvitations.ClearUpload | src/UploadInvitationsPage.js:112-123 | The table has no upload, every other table is unchanged, and unless the write throws the cache holds exactly the new map. |
| UploadInvitations.ClearUndoesUpload | src/UploadInvitationsPage.js:112-115 | Clearing right after an upload leaves the map as before without that table. |
| UploadInvitations.UploadReachesParsedGuest | src/NameFinderPage.js:184-191 | An upload for a parsed guest's table is the invitation the guest's result card shows after a reload. |
| InvitationLoader.NormalizeTableName | src/utils/invitationLoader.js:6-10 | "" stays "". The result is empty exactly for blank input, has no surrounding whitespace, is collapsed (whitespace only as single plain spaces), and loses no visible character. A non-empty input gives exactly its trimmed text with each whitespace run collapsed, which `Text.TrimSlice` and `Text.CollapseSplice` pin down. |
| InvitationLoader.NormalizeJoinsWords | src/utils/invitationLoader.js:6-10 | Two normalised words joined by any whitespace run normalise to the two words joined by one space. |
| InvitationLoader.NormalizedIffFixed | src/utils/invitationLoader.js:9 | A name is its own normal form exactly when it is collapsed and has no surrounding whitespace. |
| InvitationLoader.NormalizeTableNameIdempotent | src/utils/invitationLoader.js:6-10 | Normalising twice equals normalising once. |
| InvitationLoader.Candidates | src/utils/invitationLoader.js:24-28 | The probed names are the table name with ".pdf", ".png", ".jpg", ".jpeg", in that order. |
| InvitationLoader.ProbeFiles | src/utils/invitationLoader.js:26-45 | The files probed are a prefix of the candidates, in order, and every probe but the last failed. Finding nothing means every candidate was probed and failed; otherwise the result is the last probed file with its content type. |
| InvitationLoader.ProbeFilesFirstHit | src/utils/invitationLoader.js:26-39 | If file j answers and every earlier one fails, the lookup finds file j with its content type. |
| InvitationLoader.GetInvitationForTable | src/utils/invitationLoader.js:17-46 | The empty name probes nothing and finds nothing. Any other name, blank included, probes its normal form with ".pdf" first. |
| InvitationLoader.FirstHitWins | src/utils/invitationLoader.js:26-39 | If extension j answers and all earlier ones fail, the result is file j with its content type. |
| InvitationLoader.CollectInvitations | src/utils/invitationLoader.js:59-67 | A name is a key exactly when it is listed and its lookup finds a file; its value is that file. |
| InvitationLoader.LoadAllInvitations | src/utils/invitationLoader.js:52-69 | A missing or empty list gives `{}`; otherwise as `CollectInvitations`. |
| TableGuests.FormatTableLabel | src/TableGuestsPage.js:5-20 | Empty exactly for blank input. A non-empty result starts with "table" in any case and has no surrounding whitespace. A "table..." input gives exactly its trimmed text with each whitespace run collapsed, no visible character lost; any other input becomes "Table " plus the trimmed input. |
| TableGuests.CollapsedLabel | src/TableGuestsPage.js:15-16 | Collapsing a trimmed "table..." label keeps it non-empty, trimmed, starting with "table", with no visible character lost. |
| TableGuests.PrefixedLabel | src/TableGuestsPage.js:19 | "Table " before a trimmed label gives a trimmed label starting with "table". |
| TableGuests.FormatTrimmedTableLabel | src/TableGuestsPage.js:10-16 | Formatting a trimmed "table..." label only collapses its whitespace. |
| TableGuests.CollapsedKeepsTablePrefix | src/TableGuestsPage.js:15-16 | Collapsing whitespace keeps a leading "table". |
| TableGuests.Heading | src/TableGuestsPage.js:36 | The heading is "Unknown Table" for blank input, else the label. |
| TableGuests.FormatTwiceCollapses | src/TableGuestsPage.js:15-19 | Formatting a label again only collapses its whitespace. |
| TableGuests.FormatJoinsWords | src/TableGuestsPage.js:15-16 | A "table..." label of two collapsed words joined by any whitespace run formats to the two words joined by one space. |
| TableGuests.FormatIdempotentOnTableInput | src/TableGuestsPage.js:15-16 | On "table..." input, formatting is idempotent. |
| RemoteStore.ToGuests | src/utils/supabaseGuests.js:25-28 | One guest per row, in order, with `name` and `table_name` carried over. |
| RemoteStore.ToRows | src/utils/supabaseGuests.js:58-61 | One row per guest, in order, with `table` stored as `table_name`. |
| RemoteStore.RowMappingRoundTrip | src/utils/supabaseGuests.js:58-61 | The save mapping and the load mapping are inverse to each other. |
| RemoteStore.LoadGuests | src/utils/supabaseGuests.js:7-33 | `None` exactly when unconfigured, on an error reply or on a throw; `[]` for null data; otherwise the mapped rows. |
| RemoteStore.SaveGuests | src/utils/supabaseGuests.js:40-78 | Unconfigured or a thrown delete: `false` with nothing changed. A delete error is only logged, so the insert adds to the old rows. An empty list succeeds without inserting; a failed insert answers `false`. |
| RemoteStore.SaveThenLoadGuests | src/utils/supabaseGuests.js:46-73 | After a successful save, a reply carrying the stored rows in storage order loads back exactly the saved guests. |
| RemoteStore.SaveThenLoadGuestsAnyOrder | src/utils/supabaseGuests.js:7-33 | After a successful save, a reply carrying the stored rows in any order, including the sorted order the load requests, loads back exactly the saved guests, each as often as saved. |
| RemoteStore.ToGuestsPermutation | src/utils/supabaseGuests.js:25-28 | Rows that are a permutation of each other map to guests that are a permutation of each other. |
| RemoteStore.LoadPermutedRows | src/utils/supabaseGuests.js:25-28 | A permutation of the saved rows maps back to a permutation of the saved guests. |
| RemoteStore.Entry | src/utils/supabaseGuests.js:102-107 | The address is `file_url` when set and non-empty, else `data_url`; type, name and data are copied. |
| RemoteStore.KeyInvitations | src/utils/supabaseGuests.js:100-108 | The keys are exactly the tables that have a row. |
| RemoteStore.KeyLastRow | src/utils/supabaseGuests.js:101-108 | Last write wins: a table's entry comes from its last row. |
| RemoteStore.KeyUniform | src/utils/supabaseGuests.js:101-108 | When all rows of a table are the same row, that row is its entry. |
| RemoteStore.LoadInvitations | src/utils/supabaseGuests.js:84-115 | `None` exactly when unconfigured, on an error reply or on a throw; `{}` for null data; otherwise the rows keyed by table. |
| RemoteStore.UpdateRows | src/utils/supabaseGuests.js:150-153 | Every row of the table is replaced and every other row is kept, in place. |
| RemoteStore.SaveInvitation | src/utils/supabaseGuests.js:126-176 | It answers `true` exactly when configured, the lookup did not throw, and the write completed; a `false` changes nothing. It updates in place when the lookup found exactly one row, otherwise it appends. |
| RemoteStore.SaveThenLoadInvitation | src/utils/supabaseGuests.js:133-169 | After a successful save, by update or insert, loading shows the saved file for the table. |
| RemoteStore.RowsWithout | src/utils/supabaseGuests.js:189-192 | The rows of other tables, in their original order. Each such row is kept as often as it occurred, and exactly the table's rows, counted with repeats, are gone. |
| RemoteStore.DeleteInvitation | src/utils/supabaseGuests.js:183-204 | It answers `true` exactly when configured and the delete completed. On `true`, exactly the table's rows are gone, counted with repeats; every other row is kept as often as it occurred and in order. On `false` nothing changed. |
| RemoteStore.DeleteThenLoadInvitation | src/utils/supabaseGuests.js:189-192 | After a successful delete the table has no invitation, and every other table that had one still has one. |
| RemoteStore.ClearAll | src/utils/supabaseGuests.js:210-258 | It answers `true` exactly when configured and the delete completed, and then every row is gone; on `false` nothing changed. |
| RemoteStore.ClearAllThenLoad | src/utils/supabaseGuests.js:210-258 | After a successful clear, the next guest load gives `[]` and the next invitation load gives an empty map. |

## Left out

- Spreadsheet decoding (`XLSX.read`, `sheet_to_json`). The decoder's output is an input, either rows of cells or "undecodable". A non-string cell is given as its `toString()` text.
- HTTP. This covers `fetch` of bundled files, the `HEAD` probes, and building and URL-encoding request addresses. Each request's outcome is an oracle input, and probes are keyed by file name.
- JSON encoding and decoding of cached values. The cache holds decoded values. Empty and unparseable text share one value, because every reader ignores both.
- Array elements read from the cache are not checked against the guest shape, in the code or in the model.
- The hosted database client. The sort the guest load asks for (`.order('table_name').order('name')`) is not computed: a reply is taken in the order delivered, and `SaveThenLoadGuestsAnyOrder` holds for every order, the sorted one included.
- Row ids are not modelled. Deleting "all rows" via `.neq('id', 0)` is taken to delete every row.
- Timestamps: `uploadedAt` is a parameter and `updated_at` is omitted. The random star field is omitted too.
- React rendering, routing (`src/App.js`), `src/AdminPage.js`, `src/utils/downloadHelper.js` and `src/utils/invitationsLoader.js`: these are UI or fetch glue.
- The file-picker click handler, and the reset of the upload page's file input, are left out as UI.
- `localeCompare` numeric sorting of the table cards depends on the locale. `Tables` returns first-appearance order before that sort.
- `Promise.all` in `loadAllInvitations` is modelled as a sequential fold. Each name's entry depends only on its own lookup, so order does not matter.
- Unicode case mapping and whitespace classes: strings are ASCII, and whitespace is space, tab, line feed, carriage return, vertical tab and form feed.
- `String(key)` and `String(value)` coercion in the store stand-in is left out, because keys and values are already strings.
- Tables: the contract does not state the first-appearance order of the cards, since the page re-sorts them. The counts are stated by `TablesCount`.
- Results: the contract fixes which guests appear and their relative order, but not how many copies of a repeated guest are kept.
- FilterGuests: same as `Results`.
- KeyInvitations: the contract gives the keys only. `KeyLastRow` states which row supplies each value.
