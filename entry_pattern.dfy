/** The manifest line pattern `^(\S+)\s+\*?(.+)$` of src/hk.rs, as a
    hand-written parser, and a declarative account of what the regex engine
    returns for it: among all ways of splitting the line that fit the
    pattern, the first one that greedy backtracking tries. */
module EntryPattern {
  import opened Common

  /** `\s`: the Unicode White_Space property, which the regex crate uses. */
  predicate IsWhitespace(c: char)
  {
    ('\t' <= c <= '\r') || c == ' ' || c == '\U{0085}' || c == '\U{00A0}' || c == '\U{1680}'
    || ('\U{2000}' <= c <= '\U{200A}') || c == '\U{2028}' || c == '\U{2029}'
    || c == '\U{202F}' || c == '\U{205F}' || c == '\U{3000}'
  }

  /** A parsed line: the hash capture and the name capture. */
  datatype Entry = Entry(hash: string, name: string)

  // ---------------------------------------------------------------------
  // Declarative account

  /** One way of matching the pattern: `\S+` takes `hashLen` characters,
      `\s+` takes `gapLen`, `\*?` takes the star or not, and `.+` takes the
      rest of the line. */
  datatype Split = Split(hashLen: nat, gapLen: nat, star: bool)

  function NameStart(c: Split): nat
  {
    c.hashLen + c.gapLen + (if c.star then 1 else 0)
  }

  /** The split fits the pattern: every quantifier matches what it takes,
      `.+` is non-empty and (as `.` excludes a line feed) free of `\n`,
      and `$` is the end of the line. */
  predicate Fits(s: string, c: Split)
  {
    && 1 <= c.hashLen
    && 1 <= c.gapLen
    && NameStart(c) < |s|
    && (forall i :: 0 <= i < c.hashLen ==> !IsWhitespace(s[i]))
    && (forall i :: c.hashLen <= i < c.hashLen + c.gapLen ==> IsWhitespace(s[i]))
    && (c.star ==> s[c.hashLen + c.gapLen] == '*')
    && (forall i :: NameStart(c) <= i < |s| ==> s[i] != '\n')
  }

  /** Greedy backtracking order: a longer `\S+` is tried first, then a
      longer `\s+`, then taking the star before skipping it. */
  predicate TriedBefore(c: Split, d: Split)
  {
    c.hashLen > d.hashLen
    || (c.hashLen == d.hashLen && c.gapLen > d.gapLen)
    || (c.hashLen == d.hashLen && c.gapLen == d.gapLen && c.star && !d.star)
  }

  /** The split the leftmost-first engine reports: it fits, and no fitting
      split is tried before it. */
  ghost predicate Chosen(s: string, c: Split)
  {
    Fits(s, c) && forall d :: Fits(s, d) ==> !TriedBefore(d, c)
  }

  /** The two captures of a split. */
  function Captures(s: string, c: Split): Entry
    requires Fits(s, c)
  {
    Entry(s[..c.hashLen], s[NameStart(c)..])
  }

  // ---------------------------------------------------------------------
  // The parser

  /** Length of the run of non-whitespace characters starting at `i`. */
  function NonSpaceRun(s: string, i: nat): (n: nat)
    requires i <= |s|
    ensures i + n <= |s|
    ensures forall j :: i <= j < i + n ==> !IsWhitespace(s[j])
    ensures i + n == |s| || IsWhitespace(s[i + n])
    decreases |s| - i
  {
    if i == |s| || IsWhitespace(s[i]) then 0 else 1 + NonSpaceRun(s, i + 1)
  }

  /** Length of the run of whitespace characters starting at `i`. */
  function SpaceRun(s: string, i: nat): (n: nat)
    requires i <= |s|
    ensures i + n <= |s|
    ensures forall j :: i <= j < i + n ==> IsWhitespace(s[j])
    ensures i + n == |s| || !IsWhitespace(s[i + n])
    decreases |s| - i
  {
    if i == |s| || !IsWhitespace(s[i]) then 0 else 1 + SpaceRun(s, i + 1)
  }

  predicate NoLineFeed(s: string, from: nat)
  {
    forall i :: from <= i < |s| ==> s[i] != '\n'
  }

  /** The split the parser settles on, if any. */
  function ParseSplit(s: string): Option<Split>
  {
    var k := NonSpaceRun(s, 0);
    var m := SpaceRun(s, k);
    var p := k + m;
    if k == 0 || m == 0 then None
    else if p + 1 < |s| && s[p] == '*' && NoLineFeed(s, p + 1) then Some(Split(k, m, true))
    else if p < |s| && NoLineFeed(s, p) then Some(Split(k, m, false))
    else if p == |s| && m >= 2 && s[p - 1] != '\n' then Some(Split(k, m - 1, false))
    else None
  }

  /** `EntryParser::parse`: the two captures, or `HashFile` when the line
      does not match. */
  function Parse(s: string): (r: Result<Entry, Error>)
    ensures r.Err? ==> r.error == HashFile
    ensures r.Ok? ==> 1 <= |r.value.hash| && 1 <= |r.value.name|
  {
    match ParseSplit(s)
    case None => Err(HashFile)
    case Some(c) =>
      ParseSplitFits(s);
      Ok(Captures(s, c))
  }

  lemma ParseSplitFits(s: string)
    ensures ParseSplit(s).Some? ==> Fits(s, ParseSplit(s).value)
  {
  }

  /** Every fitting split has the maximal non-whitespace prefix as its hash
      and no longer gap than the maximal whitespace run after it. */
  lemma FitsShape(s: string, d: Split)
    requires Fits(s, d)
    ensures d.hashLen == NonSpaceRun(s, 0)
    ensures d.gapLen <= SpaceRun(s, d.hashLen)
  {
    var k := NonSpaceRun(s, 0);
    assert IsWhitespace(s[d.hashLen]);
    assert k == |s| || IsWhitespace(s[k]);
    assert k == d.hashLen;
    var m := SpaceRun(s, k);
    assert k + m == |s| || !IsWhitespace(s[k + m]);
  }

  /** The parser is exact: it finds a split whenever one fits, and the one
      it finds is the one the regex engine reports. */
  lemma ParseSplitIsChosen(s: string)
    ensures ParseSplit(s).None? <==> forall d :: !Fits(s, d)
    ensures ParseSplit(s).Some? ==> Chosen(s, ParseSplit(s).value)
  {
    ParseSplitFits(s);
    forall d | Fits(s, d)
      ensures ParseSplit(s).Some?
      ensures !TriedBefore(d, ParseSplit(s).value)
    {
      NotTriedBefore(s, d);
    }
  }

  /** No fitting split is tried before the parser's own. */
  lemma NotTriedBefore(s: string, d: Split)
    requires Fits(s, d)
    ensures ParseSplit(s).Some?
    ensures !TriedBefore(d, ParseSplit(s).value)
  {
    var k := NonSpaceRun(s, 0);
    var m := SpaceRun(s, k);
    var p := k + m;
    FitsShape(s, d);
    var q := NameStart(d);
    if d.gapLen == m && d.star {
      assert s[p] == '*' && p + 1 == q;
      assert ParseSplit(s) == Some(Split(k, m, true));
    } else {
      assert q <= p;
      if p < |s| {
        assert NoLineFeed(s, p);
        assert ParseSplit(s).value.gapLen == m;
        assert d.star ==> d.gapLen < m;
      } else {
        assert d.gapLen <= m - 1;
        assert s[p - 1] != '\n';
        assert ParseSplit(s) == Some(Split(k, m - 1, false));
      }
    }
  }

  /** `parse` succeeds exactly when the line matches, and then returns the
      captures of the split leftmost-first matching selects. */
  lemma ParseIsLeftmostFirst(s: string)
    ensures Parse(s).Err? <==> forall d :: !Fits(s, d)
    ensures Parse(s).Err? ==> Parse(s).error == HashFile
    ensures Parse(s).Ok? ==> exists c :: Chosen(s, c) && Captures(s, c) == Parse(s).value
  {
    ParseSplitIsChosen(s);
    if ParseSplit(s).Some? {
      var c := ParseSplit(s).value;
      assert Chosen(s, c) && Captures(s, c) == Parse(s).value;
    }
  }

  /** A non-empty run of whitespace. */
  predicate IsGap(gap: string)
  {
    1 <= |gap| && forall i :: 0 <= i < |gap| ==> IsWhitespace(gap[i])
  }

  /** The shape of a parsed line: the hash is the maximal non-empty run of
      non-whitespace at the start, a non-empty run of whitespace and an
      optional star follow, and the name is the non-empty rest. */
  lemma ParsedShape(s: string)
    requires Parse(s).Ok?
    ensures 1 <= |Parse(s).value.hash| < |s|
    ensures s[..|Parse(s).value.hash|] == Parse(s).value.hash
    ensures forall i :: 0 <= i < |Parse(s).value.hash| ==> !IsWhitespace(s[i])
    ensures IsWhitespace(s[|Parse(s).value.hash|])
    ensures |Parse(s).value.name| >= 1
    ensures exists gap :: (IsGap(gap)
      && (s == Parse(s).value.hash + gap + Parse(s).value.name
          || s == Parse(s).value.hash + gap + "*" + Parse(s).value.name))
  {
    ParseSplitFits(s);
    var c := ParseSplit(s).value;
    assert Parse(s).value == Captures(s, c);
    SplitShape(s, c);
  }

  /** The captures of any fitting split have the shape above. */
  lemma SplitShape(s: string, c: Split)
    requires Fits(s, c)
    ensures 1 <= |Captures(s, c).hash| < |s|
    ensures s[..|Captures(s, c).hash|] == Captures(s, c).hash
    ensures forall i :: 0 <= i < |Captures(s, c).hash| ==> !IsWhitespace(s[i])
    ensures IsWhitespace(s[|Captures(s, c).hash|])
    ensures |Captures(s, c).name| >= 1
    ensures exists gap :: (IsGap(gap)
      && (s == Captures(s, c).hash + gap + Captures(s, c).name
          || s == Captures(s, c).hash + gap + "*" + Captures(s, c).name))
  {
    var e := Captures(s, c);
    var a, b := c.hashLen, c.hashLen + c.gapLen;
    var gap := s[a..b];
    assert IsGap(gap);
    if c.star {
      CutThrice(s, a, b, b + 1);
      assert s[b..b + 1] == "*";
    } else {
      CutTwice(s, a, b);
    }
  }

  /** A sequence is its pieces between two cut points. */
  lemma CutTwice<T>(s: seq<T>, a: nat, b: nat)
    requires a <= b <= |s|
    ensures s == s[..a] + s[a..b] + s[b..]
  {
    assert s == s[..a] + s[a..];
    assert s[a..] == s[a..b] + s[b..];
  }

  /** A sequence is its pieces between three cut points. */
  lemma CutThrice<T>(s: seq<T>, a: nat, b: nat, c: nat)
    requires a <= b <= c <= |s|
    ensures s == s[..a] + s[a..b] + s[b..c] + s[c..]
  {
    CutTwice(s, a, b);
    assert s[b..] == s[b..c] + s[c..];
  }

  /** A line that is empty, or starts with whitespace, never matches. */
  lemma EmptyOrIndentedFails(s: string)
    requires s == [] || IsWhitespace(s[0])
    ensures Parse(s) == Err(HashFile)
  {
  }

  /** A line without any whitespace never matches. */
  lemma NoSeparatorFails(s: string)
    requires forall i :: 0 <= i < |s| ==> !IsWhitespace(s[i])
    ensures Parse(s) == Err(HashFile)
  {
    assert NonSpaceRun(s, 0) == |s|;
  }

  /** Backtracking: `h *` yields the name `*`, and a hash followed by two
      spaces and nothing else yields the name ` `. */
  lemma BacktrackingExamples()
    ensures Parse("h *") == Ok(Entry("h", "*"))
    ensures Parse("h  ") == Ok(Entry("h", " "))
  {
    var s1 := "h *";
    assert NonSpaceRun(s1, 2) == 1;
    assert NonSpaceRun(s1, 1) == 0;
    assert NonSpaceRun(s1, 0) == 1;
    assert SpaceRun(s1, 2) == 0;
    assert SpaceRun(s1, 1) == 1;
    assert ParseSplit(s1) == Some(Split(1, 1, false));
    assert s1[..1] == "h" && s1[2..] == "*";
    var s2 := "h  ";
    assert NonSpaceRun(s2, 1) == 0;
    assert NonSpaceRun(s2, 0) == 1;
    assert SpaceRun(s2, 3) == 0;
    assert SpaceRun(s2, 2) == 1;
    assert SpaceRun(s2, 1) == 2;
    assert ParseSplit(s2) == Some(Split(1, 1, false));
    assert s2[..1] == "h" && s2[2..] == " ";
  }

  /** A star marks the binary mode and is not part of the name; spaces
      inside the name are kept. */
  lemma StarAndSpacesExample()
    ensures Parse("ab *x y") == Ok(Entry("ab", "x y"))
  {
    var s1 := "ab *x y";
    assert NonSpaceRun(s1, 2) == 0;
    assert NonSpaceRun(s1, 1) == 1;
    assert NonSpaceRun(s1, 0) == 2;
    assert SpaceRun(s1, 3) == 0;
    assert SpaceRun(s1, 2) == 1;
    assert ParseSplit(s1) == Some(Split(2, 1, true));
    assert s1[..2] == "ab" && s1[4..] == "x y";
  }

  /** Tabs separate as spaces do, and a whole run of them is skipped. */
  lemma TabGapExample()
    ensures Parse("ab\t\tx") == Ok(Entry("ab", "x"))
  {
    var s2 := "ab\t\tx";
    assert NonSpaceRun(s2, 2) == 0;
    assert NonSpaceRun(s2, 1) == 1;
    assert NonSpaceRun(s2, 0) == 2;
    assert SpaceRun(s2, 4) == 0;
    assert SpaceRun(s2, 3) == 1;
    assert SpaceRun(s2, 2) == 2;
    assert ParseSplit(s2) == Some(Split(2, 2, false));
    assert s2[..2] == "ab" && s2[4..] == "x";
  }

  lemma {:induction false} NonSpaceRunExact(s: string, i: nat, n: nat)
    requires i + n <= |s|
    requires forall j :: i <= j < i + n ==> !IsWhitespace(s[j])
    requires i + n == |s| || IsWhitespace(s[i + n])
    ensures NonSpaceRun(s, i) == n
    decreases n
  {
    if n > 0 {
      NonSpaceRunExact(s, i + 1, n - 1);
    }
  }

  lemma {:induction false} SpaceRunExact(s: string, i: nat, n: nat)
    requires i + n <= |s|
    requires forall j :: i <= j < i + n ==> IsWhitespace(s[j])
    requires i + n == |s| || !IsWhitespace(s[i + n])
    ensures SpaceRun(s, i) == n
    decreases n
  {
    if n > 0 {
      SpaceRunExact(s, i + 1, n - 1);
    }
  }

  /** A token that can stand as a hash: non-empty, without whitespace. */
  predicate IsToken(h: string)
  {
    1 <= |h| && forall i :: 0 <= i < |h| ==> !IsWhitespace(h[i])
  }

  /** The binary-mode line `<hash> *<name>` gives back its hash and name. */
  lemma BinaryModeLine(h: string, name: string)
    requires IsToken(h)
    requires 1 <= |name| && NoLineFeed(name, 0)
    ensures Parse(h + " *" + name) == Ok(Entry(h, name))
  {
    var s := h + " *" + name;
    var k := |h|;
    assert s[k] == ' ' && s[k + 1] == '*';
    NonSpaceRunExact(s, 0, k);
    SpaceRunExact(s, k, 1);
    assert s[k + 2..] == name;
    assert ParseSplit(s) == Some(Split(k, 1, true));
    assert s[..k] == h;
  }

  /** The text-mode line `<hash>  <name>` (two spaces, the layout the tool
      itself prints) gives back its hash and name, unless the name starts
      with whitespace or a star, which the pattern would absorb. */
  lemma TextModeLine(h: string, name: string)
    requires IsToken(h)
    requires 1 <= |name| && NoLineFeed(name, 0)
    requires !IsWhitespace(name[0]) && name[0] != '*'
    ensures Parse(h + "  " + name) == Ok(Entry(h, name))
  {
    var s := h + "  " + name;
    var k := |h|;
    assert s[k] == ' ' && s[k + 1] == ' ' && s[k + 2] == name[0];
    NonSpaceRunExact(s, 0, k);
    SpaceRunExact(s, k, 2);
    assert s[k + 2..] == name;
    assert ParseSplit(s) == Some(Split(k, 2, false));
    assert s[..k] == h;
  }
}
