/** The bundled-invitation lookup of src/utils/invitationLoader.js: a table
    name is normalised, then the files `<name>.pdf`, `<name>.png`,
    `<name>.jpg` and `<name>.jpeg` are probed in that order and the first one
    that answers wins. A probe is an oracle from the file name to its outcome;
    building and URL-encoding the request address is not modelled. */
module InvitationLoader {
  import opened Wrappers
  import opened Text

  /** `normalizeTableName`: "" stays ""; otherwise trim and turn every
      whitespace run into one space. No visible character is lost. */
  function NormalizeTableName(s: string): (r: string)
    ensures s == "" ==> r == ""
    ensures r == [] <==> IsBlank(s)
    ensures r != [] ==> !IsSpace(r[0]) && !IsSpace(r[|r| - 1])
    ensures IsCollapsed(r)
    ensures Squeeze(r) == Squeeze(s)
    ensures s != "" ==> r == CollapseSpaces(Trim(s))
  {
    if s == "" then ""
    else
      TrimBlank(s);
      TrimSqueeze(s);
      CollapseSqueeze(Trim(s));
      CollapseSpaces(Trim(s))
  }

  /** The normal forms are exactly the collapsed strings without surrounding
      whitespace. */
  lemma NormalizedIffFixed(s: string)
    ensures NormalizeTableName(s) == s <==>
            IsCollapsed(s) && (s == [] || (!IsSpace(s[0]) && !IsSpace(s[|s| - 1])))
  {
    if IsCollapsed(s) && (s == [] || (!IsSpace(s[0]) && !IsSpace(s[|s| - 1]))) {
      TrimUntrimmed(s);
      CollapseCollapsed(s);
    }
  }

  /** Normalising twice is normalising once. */
  lemma NormalizeTableNameIdempotent(s: string)
    ensures NormalizeTableName(NormalizeTableName(s)) == NormalizeTableName(s)
  {
    NormalizedIffFixed(NormalizeTableName(s));
  }

  /** Normalising keeps every word: two normalised words joined by any run
      of whitespace come out joined by one space. */
  lemma NormalizeJoinsWords(a: string, w: string, b: string)
    requires a != [] && NormalizeTableName(a) == a
    requires b != [] && NormalizeTableName(b) == b
    requires w != [] && IsBlank(w)
    ensures NormalizeTableName(a + w + b) == a + " " + b
  {
    NormalizedIffFixed(a);
    NormalizedIffFixed(b);
    CollapseJoinsWords(a, w, b);
  }

  /** The extensions probed, in order. */
  const EXTENSIONS: seq<string> := [".pdf", ".png", ".jpg", ".jpeg"]

  /** The file names probed for a normalised table name, in order. */
  function Candidates(base: string): (files: seq<string>)
    ensures |files| == |EXTENSIONS|
    ensures forall j | 0 <= j < |EXTENSIONS| :: files[j] == base + EXTENSIONS[j]
  {
    seq(|EXTENSIONS|, j requires 0 <= j < |EXTENSIONS| => base + EXTENSIONS[j])
  }

  /** A `HEAD` request's outcome: a failure (a non-ok status or a thrown
      `fetch`) or success with its content type, "" when the header is missing. */
  datatype Probe = ProbeFailed | ProbeOk(contentType: string)

  /** The invitation found: the file name and its content type. */
  datatype Invitation = Invitation(name: string, mimeType: string)

  /** What a lookup found and which files it requested, in order. */
  datatype Lookup = Lookup(found: Option<Invitation>, probed: seq<string>)

  /** The `for ... of extensions` loop over the files still to try: they
      are probed in order until one answers; a failure moves on to the next.
      What was probed is a prefix of the files, every probe but the last
      failed, and a lookup that finds nothing has probed them all. */
  function ProbeFiles(files: seq<string>, probe: string -> Probe): (l: Lookup)
    ensures |l.probed| <= |files| && l.probed == files[..|l.probed|]
    ensures forall j | 0 <= j < |l.probed| - 1 :: probe(l.probed[j]).ProbeFailed?
    ensures l.found.None? ==> l.probed == files
    ensures l.found.None? ==> forall j | 0 <= j < |files| :: probe(files[j]).ProbeFailed?
    ensures l.found.Some? ==>
              && l.probed != []
              && probe(l.probed[|l.probed| - 1]).ProbeOk?
              && l.found.value == Invitation(l.probed[|l.probed| - 1], probe(l.probed[|l.probed| - 1]).contentType)
  {
    if files == [] then Lookup(None, [])
    else
      match probe(files[0])
      case ProbeOk(contentType) => Lookup(Some(Invitation(files[0], contentType)), [files[0]])
      case ProbeFailed =>
        var rest := ProbeFiles(files[1..], probe);
        var probed := [files[0]] + rest.probed;
        assert probed[1..] == rest.probed;
        Lookup(rest.found, probed)
  }

  /** A lookup finds nothing exactly when every file fails, and otherwise
      finds the first file that answers. */
  lemma ProbeFilesFirstHit(files: seq<string>, probe: string -> Probe, j: nat)
    requires j < |files|
    requires probe(files[j]).ProbeOk?
    requires forall i | 0 <= i < j :: probe(files[i]).ProbeFailed?
    ensures ProbeFiles(files, probe).found == Some(Invitation(files[j], probe(files[j]).contentType))
  {
    var l := ProbeFiles(files, probe);
    var n := |l.probed|;
    assert l.found.Some?;
    assert l.probed[n - 1] == files[n - 1];
    assert n - 1 == j;
  }

  /** `getInvitationForTable`: nothing is probed for the empty name; any other
      name, even an all-whitespace one, is normalised and probed. */
  function GetInvitationForTable(table: string, probe: string -> Probe): (l: Lookup)
    ensures table == "" ==> l == Lookup(None, [])
    ensures table != "" ==> l == ProbeFiles(Candidates(NormalizeTableName(table)), probe)
    ensures table != "" ==> l.probed != [] && l.probed[0] == NormalizeTableName(table) + ".pdf"
  {
    if table == "" then Lookup(None, [])
    else ProbeFiles(Candidates(NormalizeTableName(table)), probe)
  }

  /** The first answering extension wins, whatever the later ones would say. */
  lemma FirstHitWins(table: string, probe: string -> Probe, j: nat)
    requires table != "" && j < |EXTENSIONS|
    requires probe(NormalizeTableName(table) + EXTENSIONS[j]).ProbeOk?
    requires forall i | 0 <= i < j :: probe(NormalizeTableName(table) + EXTENSIONS[i]).ProbeFailed?
    ensures GetInvitationForTable(table, probe).found
            == Some(Invitation(NormalizeTableName(table) + EXTENSIONS[j],
                               probe(NormalizeTableName(table) + EXTENSIONS[j]).contentType))
  {
    var files := Candidates(NormalizeTableName(table));
    assert forall i | 0 <= i < j :: probe(files[i]).ProbeFailed?;
    ProbeFilesFirstHit(files, probe, j);
  }

  /** `loadAllInvitations` as a sequential fold: each name whose lookup finds
      a file is keyed to it; other names are absent. */
  function CollectInvitations(names: seq<string>, probe: string -> Probe): (m: map<string, Invitation>)
    ensures forall t :: t in m <==> t in names && GetInvitationForTable(t, probe).found.Some?
    ensures forall t | t in m :: m[t] == GetInvitationForTable(t, probe).found.value
  {
    if names == [] then map[]
    else
      var n := |names| - 1;
      var prior := CollectInvitations(names[..n], probe);
      assert names == names[..n] + [names[n]];
      match GetInvitationForTable(names[n], probe).found
      case Some(inv) => prior[names[n] := inv]
      case None => prior
  }

  /** `loadAllInvitations`: `{}` for a missing (non-array) or empty list. */
  function LoadAllInvitations(names: Option<seq<string>>, probe: string -> Probe): (m: map<string, Invitation>)
    ensures names.None? || names.value == [] ==> m == map[]
    ensures forall t :: t in m <==> names.Some? && t in names.value && GetInvitationForTable(t, probe).found.Some?
    ensures forall t | t in m :: m[t] == GetInvitationForTable(t, probe).found.value
  {
    match names
    case None => map[]
    case Some(list) => CollectInvitations(list, probe)
  }
}
