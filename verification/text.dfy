/** ASCII string helpers standing in for the JavaScript string built-ins the
    application uses: `trim`, `toLowerCase`, case-insensitive regular-expression
    tests and `replace(/\s+/g, ' ')`. Strings are restricted to ASCII. */
module Text {

  /** The ASCII characters matched by `\s` and removed by `String.prototype.trim`. */
  predicate IsSpace(c: char) {
    c == ' ' || c == '\t' || c == '\n' || c == '\r' || c == '\U{000B}' || c == '\U{000C}'
  }

  /** Every character of `s` is whitespace (vacuously true of ""). */
  predicate IsBlank(s: string) {
    forall i | 0 <= i < |s| :: IsSpace(s[i])
  }

  /** The non-whitespace content of `s`, in order. */
  function Squeeze(s: string): string {
    if s == [] then [] else (if IsSpace(s[0]) then [] else [s[0]]) + Squeeze(s[1..])
  }

  lemma {:induction false} SqueezeAppend(a: string, b: string)
    ensures Squeeze(a + b) == Squeeze(a) + Squeeze(b)
  {
    if a != [] {
      assert (a + b)[0] == a[0];
      assert (a + b)[1..] == a[1..] + b;
      SqueezeAppend(a[1..], b);
      var h := if IsSpace(a[0]) then [] else [a[0]];
      calc {
        Squeeze(a + b);
        h + Squeeze(a[1..] + b);
        h + (Squeeze(a[1..]) + Squeeze(b));
        (h + Squeeze(a[1..])) + Squeeze(b);
        { assert Squeeze(a) == h + Squeeze(a[1..]); }
        Squeeze(a) + Squeeze(b);
      }
    } else {
      assert a + b == b;
    }
  }

  lemma {:induction false} SqueezeBlank(s: string)
    requires IsBlank(s)
    ensures Squeeze(s) == []
  {
    if s != [] {
      SqueezeBlank(s[1..]);
    }
  }

  function LowerChar(c: char): char {
    if 'A' <= c <= 'Z' then (c as int - 'A' as int + 'a' as int) as char else c
  }

  /** `String.prototype.toLowerCase` on ASCII. */
  function Lower(s: string): (r: string)
    ensures |r| == |s|
    ensures forall i | 0 <= i < |s| :: r[i] == LowerChar(s[i])
  {
    seq(|s|, i requires 0 <= i < |s| => LowerChar(s[i]))
  }

  /** `w` occurs in `s` as a contiguous block (`String.prototype.includes`). */
  predicate Contains(s: string, w: string) {
    exists i | 0 <= i <= |s| :: w <= s[i..]
  }

  /** The unanchored case-insensitive test `/w/i.test(s)` for a lower-case literal `w`. */
  predicate ContainsIgnoreCase(s: string, w: string) {
    Contains(Lower(s), w)
  }

  /** The anchored case-insensitive test `/^w/i.test(s)` for a lower-case literal `w`. */
  predicate StartsWithIgnoreCase(s: string, w: string) {
    |w| <= |s| && forall i | 0 <= i < |w| :: LowerChar(s[i]) == w[i]
  }

  /** The anchored test agrees with comparing `w` to a prefix of `toLowerCase()`. */
  lemma StartsWithLowerPrefix(s: string, w: string)
    ensures StartsWithIgnoreCase(s, w) <==> w <= Lower(s)
  {
    if w <= Lower(s) {
      forall i | 0 <= i < |w| ensures LowerChar(s[i]) == w[i] {
        assert Lower(s)[i] == w[i];
      }
    }
  }

  /** A case-insensitive prefix test depends only on the first `|w|` characters. */
  lemma StartsWithSamePrefix(s: string, t: string, w: string)
    requires |w| <= |t|
    requires forall i | 0 <= i < |w| && i < |s| :: s[i] == t[i]
    requires StartsWithIgnoreCase(s, w)
    ensures StartsWithIgnoreCase(t, w)
  {
  }

  /** `s` with its leading whitespace removed. */
  function TrimStart(s: string): (r: string)
    ensures |r| <= |s| && r == s[|s| - |r|..]
    ensures IsBlank(s[..|s| - |r|])
    ensures r == [] || !IsSpace(r[0])
  {
    if s != [] && IsSpace(s[0]) then TrimStart(s[1..]) else s
  }

  /** `s` with its trailing whitespace removed. */
  function TrimEnd(s: string): (r: string)
    ensures |r| <= |s| && r == s[..|r|]
    ensures IsBlank(s[|r|..])
    ensures r == [] || !IsSpace(r[|r| - 1])
  {
    if s != [] && IsSpace(s[|s| - 1]) then TrimEnd(s[..|s| - 1]) else s
  }

  lemma TrimStartSqueeze(s: string)
    ensures Squeeze(TrimStart(s)) == Squeeze(s)
  {
    var r := TrimStart(s);
    assert s == s[..|s| - |r|] + r;
    SqueezeAppend(s[..|s| - |r|], r);
    SqueezeBlank(s[..|s| - |r|]);
  }

  lemma TrimEndSqueeze(s: string)
    ensures Squeeze(TrimEnd(s)) == Squeeze(s)
  {
    var r := TrimEnd(s);
    assert s == r + s[|r|..];
    SqueezeAppend(r, s[|r|..]);
    SqueezeBlank(s[|r|..]);
  }

  /** `String.prototype.trim`: the result starts and ends with a non-space
      (`TrimSqueeze`: and no non-space character is lost). */
  function Trim(s: string): (r: string)
    ensures r != [] ==> !IsSpace(r[0]) && !IsSpace(r[|r| - 1])
  {
    TrimEnd(TrimStart(s))
  }

  /** Trimming loses no non-whitespace character. */
  lemma TrimSqueeze(s: string)
    ensures Squeeze(Trim(s)) == Squeeze(s)
  {
    TrimStartSqueeze(s);
    TrimEndSqueeze(TrimStart(s));
  }

  /** Trimming yields "" exactly for blank input, and never lengthens. */
  lemma TrimBlank(s: string)
    ensures Trim(s) == [] <==> IsBlank(s)
    ensures |Trim(s)| <= |s|
  {
    var t := TrimStart(s);
    var r := TrimEnd(t);
    var d := |s| - |t|;
    if r == [] {
      assert t[0..] == t;
      assert s == s[..d] + t;
      BlankAppend(s[..d], t);
    } else {
      assert t[0] == r[0];
      assert s[d] == t[0];
    }
  }

  lemma BlankAppend(a: string, b: string)
    requires IsBlank(a) && IsBlank(b)
    ensures IsBlank(a + b)
  {
    forall i | 0 <= i < |a + b| ensures IsSpace((a + b)[i]) {
      if i >= |a| {
        assert (a + b)[i] == b[i - |a|];
      }
    }
  }

  /** Trimming removes only the ends: the result is a slice of the input
      with nothing but whitespace before and after it. */
  lemma TrimSlice(s: string)
    ensures exists a, b | 0 <= a <= b <= |s| ::
              Trim(s) == s[a..b] && IsBlank(s[..a]) && IsBlank(s[b..])
  {
    var a := |s| - |TrimStart(s)|;
    var b := a + |Trim(s)|;
    assert 0 <= a <= b <= |s| && Trim(s) == s[a..b] && IsBlank(s[..a]) && IsBlank(s[b..]) by {
      var t := TrimStart(s);
      var r := TrimEnd(t);
      assert t == s[a..];
      assert r == t[..|r|] == s[a..b];
      assert t[|r|..] == s[b..];
    }
  }

  /** Trimming a string that has no surrounding whitespace changes nothing. */
  lemma TrimUntrimmed(s: string)
    requires s == [] || (!IsSpace(s[0]) && !IsSpace(s[|s| - 1]))
    ensures Trim(s) == s
  {
  }

  /** The shape `replace(/\s+/g, ' ')` produces: the only whitespace is the
      plain space, and no whitespace character follows another. */
  predicate IsCollapsed(s: string) {
    s == [] ||
    (&& (IsSpace(s[0]) ==> s[0] == ' ' && (|s| == 1 || !IsSpace(s[1])))
     && IsCollapsed(s[1..]))
  }

  /** `s.replace(/\s+/g, ' ')`: every maximal run of whitespace becomes one
      space, so the result is collapsed, is empty only for empty input, and
      starts and ends with whitespace exactly when the input does. */
  function CollapseSpaces(s: string): (r: string)
    ensures IsCollapsed(r)
    ensures r == [] <==> s == []
    ensures r != [] ==> (IsSpace(r[0]) <==> IsSpace(s[0]))
    ensures r != [] ==> (IsSpace(r[|r| - 1]) <==> IsSpace(s[|s| - 1]))
    decreases |s|
  {
    if s == [] then []
    else if IsSpace(s[0]) then
      var t := TrimStart(s);
      var rest := CollapseSpaces(t);
      assert t == [] ==> IsSpace(s[|s| - 1]) by {
        if t == [] {
          assert s[..|s|][|s| - 1] == s[|s| - 1];
        }
      }
      assert t != [] ==> t[|t| - 1] == s[|s| - 1];
      assert ([' '] + rest)[1..] == rest;
      [' '] + rest
    else
      var rest := CollapseSpaces(s[1..]);
      assert ([s[0]] + rest)[1..] == rest;
      [s[0]] + rest
  }

  /** Collapsing loses no non-whitespace character. */
  lemma {:induction false} CollapseSqueeze(s: string)
    ensures Squeeze(CollapseSpaces(s)) == Squeeze(s)
    decreases |s|
  {
    if s != [] {
      var r := CollapseSpaces(s);
      if IsSpace(s[0]) {
        var t := TrimStart(s);
        CollapseSqueeze(t);
        TrimStartSqueeze(s);
        assert r[1..] == CollapseSpaces(t);
      } else {
        CollapseSqueeze(s[1..]);
        assert r[1..] == CollapseSpaces(s[1..]);
      }
    }
  }

  /** Collapsing is idempotent: an already collapsed string is a fixed point. */
  lemma {:induction false} CollapseCollapsed(s: string)
    requires IsCollapsed(s)
    ensures CollapseSpaces(s) == s
    decreases |s|
  {
    if s != [] {
      var t := s[1..];
      CollapseCollapsed(t);
      assert s == [s[0]] + t;
      if IsSpace(s[0]) {
        assert t == [] || !IsSpace(t[0]);
        assert TrimStart(t) == t;
        assert TrimStart(s) == t;
        assert CollapseSpaces(s) == [' '] + CollapseSpaces(t);
      } else {
        assert CollapseSpaces(s) == [s[0]] + CollapseSpaces(t);
      }
    }
  }

  /** Collapsing leaves a leading run of non-space characters untouched. */
  lemma {:induction false} CollapseKeepsPrefix(s: string, k: nat)
    requires k <= |s|
    requires forall i | 0 <= i < k :: !IsSpace(s[i])
    ensures k <= |CollapseSpaces(s)|
    ensures forall i | 0 <= i < k :: CollapseSpaces(s)[i] == s[i]
  {
    if k > 0 {
      var t := s[1..];
      var rest := CollapseSpaces(t);
      var r := CollapseSpaces(s);
      assert !IsSpace(s[0]);
      assert r == [s[0]] + rest;
      forall i | 0 <= i < k - 1 ensures !IsSpace(t[i]) {
        assert t[i] == s[i + 1];
      }
      CollapseKeepsPrefix(t, k - 1);
      forall i | 1 <= i < k ensures r[i] == s[i] {
        assert r[i] == rest[i - 1] == t[i - 1];
      }
    }
  }

  /** Leading whitespace in front of a word is dropped entirely. */
  lemma {:induction false} TrimStartBlankPrefix(w: string, b: string)
    requires IsBlank(w)
    requires b == [] || !IsSpace(b[0])
    ensures TrimStart(w + b) == b
    decreases |w|
  {
    if w == [] {
      assert w + b == b;
    } else {
      assert (w + b)[0] == w[0];
      assert (w + b)[1..] == w[1..] + b;
      TrimStartBlankPrefix(w[1..], b);
    }
  }

  /** Once a non-space is reached, what follows is kept as it is. */
  lemma {:induction false} TrimStartAppend(x: string, y: string)
    requires TrimStart(x) != []
    ensures TrimStart(x + y) == TrimStart(x) + y
    decreases |x|
  {
    assert (x + y)[0] == x[0];
    if IsSpace(x[0]) {
      assert (x + y)[1..] == x[1..] + y;
      TrimStartAppend(x[1..], y);
    }
  }

  /** A string ending in a non-space keeps that character when its leading
      whitespace goes. */
  lemma {:induction false} TrimStartKeepsLast(s: string)
    requires s != [] && !IsSpace(s[|s| - 1])
    ensures TrimStart(s) != [] && TrimStart(s)[|TrimStart(s)| - 1] == s[|s| - 1]
    decreases |s|
  {
    if IsSpace(s[0]) {
      TrimStartKeepsLast(s[1..]);
    }
  }

  /** Every whitespace run between two words becomes exactly one space, and
      the words on either side are collapsed independently. */
  lemma {:induction false} CollapseSplice(a: string, w: string, b: string)
    requires a == [] || !IsSpace(a[|a| - 1])
    requires w != [] && IsBlank(w)
    requires b == [] || !IsSpace(b[0])
    ensures CollapseSpaces(a + w + b) == CollapseSpaces(a) + " " + CollapseSpaces(b)
    decreases |a|
  {
    if a == [] {
      SpliceAfterNothing(w, b);
    } else if !IsSpace(a[0]) {
      CollapseSplice(a[1..], w, b);
      SpliceAfterWordChar(a, w, b);
    } else {
      TrimStartKeepsLast(a);
      CollapseSplice(TrimStart(a), w, b);
      SpliceAfterSpaces(a, w, b);
    }
  }

  /** The splice with nothing before the run: the run becomes the leading space. */
  lemma SpliceAfterNothing(w: string, b: string)
    requires w != [] && IsBlank(w)
    requires b == [] || !IsSpace(b[0])
    ensures CollapseSpaces([] + w + b) == CollapseSpaces([]) + " " + CollapseSpaces(b)
  {
    var s := w + b;
    AppendEmpty(w);
    AppendEmpty(" ");
    AppendTail(w, b);
    assert IsSpace(s[0]);
    TrimStartBlankPrefix(w, b);
    CollapseSpaceHead(s);
  }

  /** The splice step past a non-space first character, which is kept. */
  lemma SpliceAfterWordChar(a: string, w: string, b: string)
    requires a != [] && !IsSpace(a[0])
    requires CollapseSpaces(a[1..] + w + b) == CollapseSpaces(a[1..]) + " " + CollapseSpaces(b)
    ensures CollapseSpaces(a + w + b) == CollapseSpaces(a) + " " + CollapseSpaces(b)
  {
    var s := a + w + b;
    AppendTail(a, w + b);
    AppendAssoc(a, w, b);
    AppendAssoc(a[1..], w, b);
    CollapseWordHead(s);
    CollapseWordHead(a);
    ConsJoin(a[0], CollapseSpaces(a[1..]), CollapseSpaces(b));
  }

  /** The splice step past a leading run of whitespace in `a`, which becomes
      one space. */
  lemma SpliceAfterSpaces(a: string, w: string, b: string)
    requires a != [] && IsSpace(a[0]) && !IsSpace(a[|a| - 1])
    requires CollapseSpaces(TrimStart(a) + w + b) == CollapseSpaces(TrimStart(a)) + " " + CollapseSpaces(b)
    ensures CollapseSpaces(a + w + b) == CollapseSpaces(a) + " " + CollapseSpaces(b)
  {
    var s := a + w + b;
    var t := TrimStart(a);
    TrimStartKeepsLast(a);
    TrimStartAppend(a, w + b);
    AppendAssoc(a, w, b);
    AppendAssoc(t, w, b);
    CollapseSpaceHead(s);
    CollapseSpaceHead(a);
    ConsJoin(' ', CollapseSpaces(t), CollapseSpaces(b));
  }

  lemma AppendAssoc(x: string, y: string, z: string)
    ensures x + (y + z) == x + y + z
  {
  }

  lemma AppendEmpty(x: string)
    ensures [] + x == x
  {
  }

  lemma AppendTail(x: string, y: string)
    requires x != []
    ensures (x + y)[0] == x[0] && (x + y)[1..] == x[1..] + y
  {
  }

  /** A non-space first character is kept by collapsing. */
  lemma CollapseWordHead(s: string)
    requires s != [] && !IsSpace(s[0])
    ensures CollapseSpaces(s) == [s[0]] + CollapseSpaces(s[1..])
  {
  }

  /** A leading whitespace run becomes one space. */
  lemma CollapseSpaceHead(s: string)
    requires s != [] && IsSpace(s[0])
    ensures CollapseSpaces(s) == " " + CollapseSpaces(TrimStart(s))
  {
  }

  /** Prepending a character commutes with joining two strings by a space. */
  lemma ConsJoin(c: char, x: string, y: string)
    ensures [c] + (x + " " + y) == ([c] + x) + " " + y
  {
  }

  /** Two collapsed words without surrounding whitespace, joined by any
      non-empty run of whitespace: trimming keeps the whole string and
      collapsing turns the run into exactly one space, keeping both words. */
  lemma CollapseJoinsWords(a: string, w: string, b: string)
    requires a != [] && !IsSpace(a[0]) && !IsSpace(a[|a| - 1]) && IsCollapsed(a)
    requires b != [] && !IsSpace(b[0]) && !IsSpace(b[|b| - 1]) && IsCollapsed(b)
    requires w != [] && IsBlank(w)
    ensures Trim(a + w + b) == a + w + b
    ensures CollapseSpaces(a + w + b) == a + " " + b
  {
    var s := a + w + b;
    JoinedEnds(a, w, b);
    TrimUntrimmed(s);
    CollapseSplice(a, w, b);
    CollapseCollapsed(a);
    CollapseCollapsed(b);
  }

  /** A string joined from non-empty outer parts starts like the first and
      ends like the last. */
  lemma JoinedEnds(a: string, w: string, b: string)
    requires a != [] && b != []
    ensures (a + w + b)[0] == a[0] && (a + w + b)[|a + w + b| - 1] == b[|b| - 1]
  {
  }

  /** Appending keeps a case-insensitive prefix. */
  lemma StartsWithAppend(s: string, t: string, w: string)
    requires StartsWithIgnoreCase(s, w)
    ensures StartsWithIgnoreCase(s + t, w)
  {
    assert forall i | 0 <= i < |w| :: (s + t)[i] == s[i];
  }
}
