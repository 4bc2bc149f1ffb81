/** The guest self-lookup of src/NameFinderPage.js: names and the query are
    normalised to lower-case letters and digits, and a guest matches when the
    normalised query occurs in the normalised name either as a block or as an
    ordered subsequence. The page then shows each match's invitation as an
    image, a PDF, or a plain file. */
module NameFinder {
  import opened Text
  import opened Seqs
  import opened Model

  /** The characters `normalizeValue` keeps: `[a-z0-9]`. */
  predicate IsSearchChar(c: char) {
    'a' <= c <= 'z' || '0' <= c <= '9'
  }

  /** `normalizeValue`: lower-case, then drop every character outside
      `[a-z0-9]`. What remains is read off the lower-cased input in order. */
  function NormalizeValue(s: string): (r: string)
    ensures forall i | 0 <= i < |r| :: IsSearchChar(r[i])
    ensures IsSubsequence(r, Lower(s))
    ensures |r| <= |s|
  {
    if s == [] then
      EmptyIsSubsequence(Lower(s));
      []
    else
      var c := LowerChar(s[0]);
      var rest := NormalizeValue(s[1..]);
      assert Lower(s)[0] == c && Lower(s)[1..] == Lower(s[1..]);
      if IsSearchChar(c) then
        ConsSubsequence(rest, Lower(s));
        [c] + rest
      else
        SkipFirst(rest, Lower(s));
        rest
  }

  /** A string made only of `[a-z0-9]` is already normal. */
  lemma {:induction false} NormalizeValueKeepsSearchChars(s: string)
    requires forall i | 0 <= i < |s| :: IsSearchChar(s[i])
    ensures NormalizeValue(s) == s
  {
    if s != [] {
      assert LowerChar(s[0]) == s[0];
      NormalizeValueKeepsSearchChars(s[1..]);
    }
  }

  /** Normalising twice is normalising once. */
  lemma NormalizeValueIdempotent(s: string)
    ensures NormalizeValue(NormalizeValue(s)) == NormalizeValue(s)
  {
    NormalizeValueKeepsSearchChars(NormalizeValue(s));
  }

  /** Nothing of `[a-z0-9]` is lost: every letter or digit of the
      lower-cased input occurs in the normal form exactly as often. */
  lemma {:induction false} NormalizeValueCounts(s: string)
    ensures forall c | IsSearchChar(c) :: multiset(NormalizeValue(s))[c] == multiset(Lower(s))[c]
  {
    if s != [] {
      var c := LowerChar(s[0]);
      NormalizeValueCounts(s[1..]);
      assert Lower(s) == [c] + Lower(s[1..]);
      assert multiset(Lower(s)) == multiset([c]) + multiset(Lower(s[1..]));
      if IsSearchChar(c) {
        assert NormalizeValue(s) == [c] + NormalizeValue(s[1..]);
        assert multiset(NormalizeValue(s)) == multiset([c]) + multiset(NormalizeValue(s[1..]));
      } else {
        assert NormalizeValue(s) == NormalizeValue(s[1..]);
      }
    }
  }

  /** The `while` loop of `fuzzyIncludes` from indices `ti` and `qi`: the
      target index always advances, the query index advances on a match,
      and the walk succeeds when the whole query was consumed. */
  function Walk(target: string, query: string, ti: nat, qi: nat): (found: bool)
    requires ti <= |target| && qi <= |query|
    ensures found <==> IsSubsequence(query[qi..], target[ti..])
    decreases |target| - ti
  {
    if ti < |target| && qi < |query| then
      WalkStep(target, query, ti, qi);
      Walk(target, query, ti + 1, if target[ti] == query[qi] then qi + 1 else qi)
    else
      WalkEnd(target, query, ti, qi);
      qi == |query|
  }

  /** One greedy step preserves the question being answered. */
  lemma WalkStep(target: string, query: string, ti: nat, qi: nat)
    requires ti < |target| && qi < |query|
    ensures IsSubsequence(query[qi..], target[ti..]) <==>
            IsSubsequence(query[(if target[ti] == query[qi] then qi + 1 else qi)..], target[ti + 1..])
  {
    var s, u := query[qi..], target[ti..];
    assert s[0] == query[qi] && s[1..] == query[qi + 1..];
    assert u[0] == target[ti] && u[1..] == target[ti + 1..];
    if target[ti] == query[qi] {
      HeadsMatch(s, u);
    } else {
      HeadsDiffer(s, u);
    }
  }

  /** When the loop stops, the query index tells the answer. */
  lemma WalkEnd(target: string, query: string, ti: nat, qi: nat)
    requires ti <= |target| && qi <= |query|
    requires ti == |target| || qi == |query|
    ensures IsSubsequence(query[qi..], target[ti..]) <==> qi == |query|
  {
    if qi == |query| {
      assert query[qi..] == [];
      EmptyIsSubsequence(target[ti..]);
    } else {
      assert target[ti..] == [];
      NothingInEmpty(query[qi..]);
    }
  }

  /** `fuzzyIncludes`: true exactly when `query` is an ordered subsequence of
      `target`; in particular always for the empty query. */
  function FuzzyIncludes(target: string, query: string): (found: bool)
    ensures found <==> IsSubsequence(query, target)
  {
    assert query[0..] == query && target[0..] == target;
    if query == [] then
      EmptyIsSubsequence(target);
      true
    else
      Walk(target, query, 0, 0)
  }

  /** A block occurrence is also found by the fuzzy walk, so the
      `includes` test of the filter never decides a match on its own. */
  lemma ContainsImpliesFuzzy(target: string, query: string)
    requires Contains(target, query)
    ensures FuzzyIncludes(target, query)
  {
    var i :| 0 <= i <= |target| && query <= target[i..];
    BlockIsSubsequence(query, target, i);
  }

  /** The `filter` callback of `results` for a normalised query `nq`. */
  predicate Qualifies(g: Guest, nq: string) {
    var name := NormalizeValue(g.name);
    g.name != "" && (Contains(name, nq) || FuzzyIncludes(name, nq))
  }

  /** A guest qualifies exactly when it has a name whose normalised form
      contains the normalised query as an ordered subsequence. */
  lemma QualifiesIffSubsequence(g: Guest, nq: string)
    ensures Qualifies(g, nq) <==> g.name != "" && IsSubsequence(nq, NormalizeValue(g.name))
  {
    if Contains(NormalizeValue(g.name), nq) {
      ContainsImpliesFuzzy(NormalizeValue(g.name), nq);
    }
  }

  /** `guestList.filter(...)` for a normalised query: a stable filter that
      keeps exactly the named guests the query matches. */
  function FilterGuests(guests: seq<Guest>, nq: string): (r: seq<Guest>)
    ensures IsSubsequence(r, guests)
    ensures forall g :: g in r <==> g in guests && g.name != "" && IsSubsequence(nq, NormalizeValue(g.name))
  {
    if guests == [] then
      EmptyIsSubsequence(guests);
      []
    else
      var rest := FilterGuests(guests[1..], nq);
      QualifiesIffSubsequence(guests[0], nq);
      if Qualifies(guests[0], nq) then
        ConsSubsequence(rest, guests);
        [guests[0]] + rest
      else
        SkipFirst(rest, guests);
        rest
  }

  /** The `results` memo: nothing for a blank query; otherwise the guests,
      in list order, whose normalised name contains the normalised trimmed
      query as an ordered subsequence. There is no length threshold and no
      whole-word rule. */
  function Results(guests: seq<Guest>, query: string): (r: seq<Guest>)
    ensures IsBlank(query) ==> r == []
    ensures IsSubsequence(r, guests)
    ensures forall g :: g in r <==>
              && g in guests && !IsBlank(query) && g.name != ""
              && IsSubsequence(NormalizeValue(Trim(query)), NormalizeValue(g.name))
  {
    TrimBlank(query);
    if Trim(query) == [] then
      EmptyIsSubsequence(guests);
      []
    else
      FilterGuests(guests, NormalizeValue(Trim(query)))
  }

  /** A non-blank query with no letter or digit, such as "?!", matches every
      guest that has a name. */
  lemma PunctuationQueryMatchesEveryName(guests: seq<Guest>, query: string)
    requires !IsBlank(query) && NormalizeValue(Trim(query)) == []
    ensures forall g :: g in Results(guests, query) <==> g in guests && g.name != ""
  {
    forall g | g in guests {
      EmptyIsSubsequence(NormalizeValue(g.name));
    }
  }

  /** How an invitation is shown. */
  datatype InvitationKind = ImageInvitation | PdfInvitation | FileInvitation

  /** The kind is chosen from the MIME type: "image/..." first, then exactly
      "application/pdf", else a plain file. A missing type is "". The two
      tests never both hold, so the image-first order decides nothing. */
  function KindOf(mimeType: string): (k: InvitationKind)
    ensures k == ImageInvitation <==> "image/" <= mimeType
    ensures k == PdfInvitation <==> mimeType == "application/pdf"
    ensures k == FileInvitation <==> !("image/" <= mimeType) && mimeType != "application/pdf"
  {
    if "image/" <= mimeType then
      assert mimeType[0] == 'i';
      ImageInvitation
    else if mimeType == "application/pdf" then PdfInvitation
    else FileInvitation
  }

  /** What a result card shows for a matched guest. */
  datatype Card = NoInvitation(table: string) | Invitation(kind: InvitationKind, upload: Upload)

  /** The invitation of the guest's table, shown by its kind, or the
      "no invitation available for your table" notice. */
  function CardFor(uploads: map<string, Upload>, g: Guest): (c: Card)
    ensures c.NoInvitation? <==> g.table !in uploads
    ensures c.NoInvitation? ==> c.table == g.table
    ensures c.Invitation? ==> c.upload == uploads[g.table] && c.kind == KindOf(c.upload.mimeType)
  {
    if g.table in uploads then Invitation(KindOf(uploads[g.table].mimeType), uploads[g.table])
    else NoInvitation(g.table)
  }
}
