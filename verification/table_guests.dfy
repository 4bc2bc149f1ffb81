/** The table page heading of src/TableGuestsPage.js: the table part of the
    page address becomes a label that always reads "Table ...". */
module TableGuests {
  import opened Text

  /** `formatTableLabel`: "" for an empty or all-whitespace input; an input
      that already starts with "table" (any case) is trimmed and its
      whitespace runs collapsed; anything else is trimmed and prefixed with
      "Table ", inner whitespace kept as typed. */
  function FormatTableLabel(raw: string): (r: string)
    ensures r == [] <==> IsBlank(raw)
    ensures r != [] ==> StartsWithIgnoreCase(r, "table")
    ensures r != [] ==> !IsSpace(r[0]) && !IsSpace(r[|r| - 1])
    ensures StartsWithIgnoreCase(Trim(raw), "table") ==> IsCollapsed(r) && Squeeze(r) == Squeeze(raw)
    ensures StartsWithIgnoreCase(Trim(raw), "table") ==> r == CollapseSpaces(Trim(raw))
    ensures !IsBlank(raw) && !StartsWithIgnoreCase(Trim(raw), "table") ==> r == "Table " + Trim(raw)
  {
    TrimBlank(raw);
    if raw == "" then ""
    else
      var t := Trim(raw);
      if t == "" then ""
      else if StartsWithIgnoreCase(t, "table") then
        TrimSqueeze(raw);
        CollapsedLabel(t);
        CollapseSpaces(t)
      else
        PrefixedLabel(t);
        "Table " + t
  }

  /** The "table..." branch: collapsing a trimmed label keeps it a trimmed,
      non-empty "table..." label. */
  lemma CollapsedLabel(t: string)
    requires t != [] && !IsSpace(t[0]) && !IsSpace(t[|t| - 1])
    requires StartsWithIgnoreCase(t, "table")
    ensures var c := CollapseSpaces(t);
            && c != [] && !IsSpace(c[0]) && !IsSpace(c[|c| - 1])
            && StartsWithIgnoreCase(c, "table")
            && Squeeze(c) == Squeeze(t)
  {
    CollapsedKeepsTablePrefix(t);
    CollapseSqueeze(t);
  }

  /** The other branch: prefixing "Table " to a trimmed label gives a
      trimmed "table..." label. */
  lemma PrefixedLabel(t: string)
    requires t != [] && !IsSpace(t[|t| - 1])
    ensures var r := "Table " + t;
            && StartsWithIgnoreCase(r, "table") && !IsSpace(r[0]) && !IsSpace(r[|r| - 1])
  {
    var r := "Table " + t;
    assert LowerChar('T') == 't';
    assert forall i | 0 <= i < 6 :: r[i] == "Table "[i];
    assert r[|r| - 1] == t[|t| - 1];
  }

  /** A string starting with "table" keeps that start when its whitespace is
      collapsed. */
  lemma CollapsedKeepsTablePrefix(t: string)
    requires StartsWithIgnoreCase(t, "table")
    ensures StartsWithIgnoreCase(CollapseSpaces(t), "table")
  {
    forall i | 0 <= i < 5 ensures !IsSpace(t[i]) {
      assert LowerChar(t[i]) == "table"[i];
    }
    CollapseKeepsPrefix(t, 5);
    StartsWithSamePrefix(t, CollapseSpaces(t), "table");
  }

  /** The heading shown: the label, or "Unknown Table" when it is empty. */
  function Heading(raw: string): (h: string)
    ensures IsBlank(raw) ==> h == "Unknown Table"
    ensures !IsBlank(raw) ==> h == FormatTableLabel(raw) && StartsWithIgnoreCase(h, "table")
  {
    var text := FormatTableLabel(raw);
    if text == "" then "Unknown Table" else text
  }

  /** A label that is already trimmed and starts with "table" is only
      collapsed by formatting. */
  lemma FormatTrimmedTableLabel(t: string)
    requires t != [] && !IsSpace(t[0]) && !IsSpace(t[|t| - 1])
    requires StartsWithIgnoreCase(t, "table")
    ensures FormatTableLabel(t) == CollapseSpaces(t)
  {
    TrimUntrimmed(t);
    assert Trim(t) == t;
  }

  /** Formatting a label again only collapses its whitespace: so a label from
      the "table..." branch is a fixed point, and a "Table " label is one
      exactly when the typed part had no whitespace runs to collapse. */
  lemma FormatTwiceCollapses(raw: string)
    ensures FormatTableLabel(FormatTableLabel(raw)) == CollapseSpaces(FormatTableLabel(raw))
  {
    var r := FormatTableLabel(raw);
    if r == [] {
      assert FormatTableLabel(r) == [];
    } else {
      FormatTrimmedTableLabel(r);
    }
  }

  /** In particular, formatting is idempotent on the "table..." branch. */
  lemma FormatIdempotentOnTableInput(raw: string)
    requires StartsWithIgnoreCase(Trim(raw), "table")
    ensures FormatTableLabel(FormatTableLabel(raw)) == FormatTableLabel(raw)
  {
    FormatTwiceCollapses(raw);
    CollapseCollapsed(FormatTableLabel(raw));
  }

  /** A "table..." label keeps every word: two collapsed words without
      surrounding whitespace, joined by any run of whitespace, come out
      joined by one space. */
  lemma FormatJoinsWords(a: string, w: string, b: string)
    requires a != [] && !IsSpace(a[0]) && !IsSpace(a[|a| - 1]) && IsCollapsed(a)
    requires b != [] && !IsSpace(b[0]) && !IsSpace(b[|b| - 1]) && IsCollapsed(b)
    requires w != [] && IsBlank(w)
    requires StartsWithIgnoreCase(a, "table")
    ensures FormatTableLabel(a + w + b) == a + " " + b
  {
    var s := a + w + b;
    CollapseJoinsWords(a, w, b);
    StartsWithAppend(a, w, "table");
    StartsWithAppend(a + w, b, "table");
    JoinedEnds(a, w, b);
    FormatTrimmedTableLabel(s);
  }
}
