/** The section handling of helpPreprocessor (usage/printer.go): finding where a
    `## NAME` section ends, moving the OPTIONS section after the first of
    POSITIONAL ARGUMENTS, Description, USAGE and NAME that exists, and the
    optional lower-casing of header titles after their first letter. */
module Sections {
  import opened Runes
  import opened Markdown


  /** pat occurs in s at index i. */
  predicate MatchAt(s: seq<Byte>, pat: seq<Byte>, i: nat) {
    i + |pat| <= |s| && s[i..i + |pat|] == pat
  }

  predicate Contains(s: seq<Byte>, pat: seq<Byte>) {
    exists i: nat | i <= |s| :: MatchAt(s, pat, i)
  }

  /** The first occurrence of pat in s at or after k, or -1. */
  function IndexFrom(s: seq<Byte>, pat: seq<Byte>, k: nat): (i: int)
    decreases |s| - k
    ensures i == -1 || (k <= i && MatchAt(s, pat, i))
    ensures i == -1 ==> forall j: nat | k <= j :: !MatchAt(s, pat, j)
    ensures i != -1 ==> forall j: nat | k <= j < i :: !MatchAt(s, pat, j)
  {
    if k + |pat| > |s| then -1
    else if s[k..k + |pat|] == pat then k
    else IndexFrom(s, pat, k + 1)
  }

  /** strings.Index: the first occurrence of pat in s, or -1 when there is none. */
  function IndexOf(s: seq<Byte>, pat: seq<Byte>): (i: int)
    ensures i == -1 <==> !Contains(s, pat)
    ensures i != -1 ==> 0 <= i && MatchAt(s, pat, i) && forall j: nat | j < i :: !MatchAt(s, pat, j)
  {
    IndexFrom(s, pat, 0)
  }

  /** A line starting with ## begins at j: what (?m:^##) matches. */
  predicate HeaderLineAt(t: seq<Byte>, j: nat) {
    j + 2 <= |t| && (j == 0 || t[j - 1] == NewLine) && t[j] == Hash && t[j + 1] == Hash
  }

  /** The first j >= k where a ## line begins, or -1. */
  function HeaderFrom(t: seq<Byte>, k: nat): (j: int)
    decreases |t| - k
    ensures j == -1 || (k <= j && HeaderLineAt(t, j))
    ensures j == -1 ==> forall i: nat | k <= i :: !HeaderLineAt(t, i)
    ensures j != -1 ==> forall i: nat | k <= i < j :: !HeaderLineAt(t, i)
  {
    if k + 2 > |t| then -1
    else if HeaderLineAt(t, k) then k
    else HeaderFrom(t, k + 1)
  }

  /** sectionRe.FindStringIndex(t)[0]: where the first ## line of t begins, or -1. */
  function FirstHeaderLine(t: seq<Byte>): (j: int)
    ensures j == -1 ==> forall i: nat :: !HeaderLineAt(t, i)
    ensures j != -1 ==> 0 <= j && HeaderLineAt(t, j) && forall i: nat | i < j :: !HeaderLineAt(t, i)
  {
    HeaderFrom(t, 0)
  }

  /** The header text "## " + h that opens the section titled h. */
  function Heading(h: seq<Byte>): (r: seq<Byte>)
    ensures |r| == |h| + 3 && r[0] == Hash && r[1] == Hash && r[2] == Space && r[3..] == h
  {
    Ascii("## ") + h
  }

  /** A header line in the suffix t = s[b..], away from its first byte, is a
      header line of s. */
  lemma HeaderLineShift(s: seq<Byte>, b: nat, j: nat)
    requires b <= |s| && 0 < j
    ensures HeaderLineAt(s[b..], j) <==> HeaderLineAt(s, b + j)
  {
  }

  /** findSectionEnd(h, s): -1 when "## h" does not occur in s; otherwise the
      index where the next ## line after its first occurrence begins, or the
      length of s when no ## line follows. */
  function FindSectionEnd(h: seq<Byte>, s: seq<Byte>): (p: int)
    ensures p == -1 <==> !Contains(s, Heading(h))
    ensures p != -1 ==>
      var start := IndexOf(s, Heading(h));
      && start + 2 < p <= |s|
      && (p == |s| || HeaderLineAt(s, p))
      && forall k: nat | start + 2 < k < p :: !HeaderLineAt(s, k)
  {
    var start := IndexOf(s, Heading(h));
    if start == -1 then start
    else
      var t := s[start + 2..];
      var next := FirstHeaderLine(t);
      assert t[0] == Space;
      forall k: nat | start + 2 < k <= |s|
        ensures HeaderLineAt(t, k - start - 2) <==> HeaderLineAt(s, k)
      {
        HeaderLineShift(s, start + 2, k - start - 2);
      }
      if next == -1 then |s|
      else start + 2 + next
  }

  /** A heading without new-lines lies wholly inside its own section. */
  lemma SectionCoversHeading(h: seq<Byte>, s: seq<Byte>)
    requires forall i | 0 <= i < |h| :: h[i] != NewLine
    requires Contains(s, Heading(h))
    ensures IndexOf(s, Heading(h)) + |Heading(h)| <= FindSectionEnd(h, s)
  {
    var H := Heading(h);
    var start := IndexOf(s, H);
    forall i | start + 2 <= i < start + |H|
      ensures s[i] != NewLine
    {
      assert s[i] == s[start..start + |H|][i - start] == H[i - start];
      if i - start >= 3 {
        assert H[i - start] == h[i - start - 3];
      }
    }
  }

  /** The pieces of a + b + c. */
  lemma Splice(rest: seq<Byte>, k: nat, block: seq<Byte>, pat: seq<Byte>)
    requires k <= |rest| && MatchAt(block, pat, 0)
    ensures var r := rest[..k] + block + rest[k..];
            && r[..k] == rest[..k] && r[k..k + |block|] == block && r[k + |block|..] == rest[k..]
            && MatchAt(r, pat, k)
  {
    var r := rest[..k] + block + rest[k..];
    assert r[k..k + |pat|] == block[..|pat|];
  }

  lemma ConcatMultiset(a: seq<Byte>, b: seq<Byte>, c: seq<Byte>)
    ensures multiset(a + b + c) == multiset(a) + multiset(b) + multiset(c)
  {
    assert a + b + c == a + (b + c);
  }

  /** Cutting s[a..b] out of s leaves the rest of its bytes. */
  lemma CutMultiset(s: seq<Byte>, a: nat, b: nat)
    requires a <= b <= |s|
    ensures multiset(s[..a] + s[b..]) + multiset(s[a..b]) == multiset(s)
  {
    assert s == s[..a] + s[a..b] + s[b..];
    ConcatMultiset(s[..a], s[a..b], s[b..]);
  }

  const Options: seq<Byte> := Ascii("OPTIONS")

  /** The sections after which OPTIONS belongs, in order of preference. */
  const Anchors: seq<seq<Byte>> := [Ascii("POSITIONAL ARGUMENTS"), Ascii("Description"), Ascii("USAGE"), Ascii("NAME")]

  /** The index of the first title in titles[k..] whose section exists in s,
      or |titles| when none does. */
  function AnchorFrom(s: seq<Byte>, titles: seq<seq<Byte>>, k: nat): (i: nat)
    requires k <= |titles|
    decreases |titles| - k
    ensures k <= i <= |titles|
    ensures i < |titles| ==> FindSectionEnd(titles[i], s) != -1
    ensures forall j | k <= j < i :: FindSectionEnd(titles[j], s) == -1
  {
    if k == |titles| then k
    else if FindSectionEnd(titles[k], s) != -1 then k
    else AnchorFrom(s, titles, k + 1)
  }

  /** Where the OPTIONS section is put back: the end of the first anchor
      section that exists, else the end of the text. It is always a section
      boundary. */
  function InsertionPoint(s: seq<Byte>): (k: nat)
    ensures k <= |s|
    ensures k == |s| || HeaderLineAt(s, k)
    ensures AnchorFrom(s, Anchors, 0) == |Anchors| ==> k == |s|
    ensures AnchorFrom(s, Anchors, 0) < |Anchors| ==> k == FindSectionEnd(Anchors[AnchorFrom(s, Anchors, 0)], s)
  {
    var a := AnchorFrom(s, Anchors, 0);
    if a < |Anchors| then FindSectionEnd(Anchors[a], s) else |s|
  }

  /** The OPTIONS section: from the first "## OPTIONS" to where it ends. */
  function OptionsSection(s: seq<Byte>): (o: seq<Byte>)
    requires Contains(s, Heading(Options))
    ensures MatchAt(o, Heading(Options), 0)
  {
    NoNewLineInOptions();
    SectionStartsWithHeading(Options, s);
    s[IndexOf(s, Heading(Options))..FindSectionEnd(Options, s)]
  }

  lemma NoNewLineInOptions()
    ensures forall i | 0 <= i < |Options| :: Options[i] != NewLine
  {
  }

  /** A section, from its heading to its end, starts with its heading. */
  lemma SectionStartsWithHeading(h: seq<Byte>, s: seq<Byte>)
    requires forall i | 0 <= i < |h| :: h[i] != NewLine
    requires Contains(s, Heading(h))
    ensures var start, end := IndexOf(s, Heading(h)), FindSectionEnd(h, s);
            start + |Heading(h)| <= end && MatchAt(s[start..end], Heading(h), 0)
  {
    SectionCoversHeading(h, s);
    var start, end, H := IndexOf(s, Heading(h)), FindSectionEnd(h, s), Heading(h);
    assert s[start..end][0..|H|] == s[start..start + |H|];
  }

  /** The text with the OPTIONS section cut out. */
  function WithoutOptions(s: seq<Byte>): (rest: seq<Byte>)
    requires Contains(s, Heading(Options))
    ensures |rest| + |OptionsSection(s)| == |s|
    ensures multiset(rest) + multiset(OptionsSection(s)) == multiset(s)
  {
    var optLoc, optEnd := IndexOf(s, Heading(Options)), FindSectionEnd(Options, s);
    CutMultiset(s, optLoc, optEnd);
    s[..optLoc] + s[optEnd..]
  }

  /** helpPreprocessor's relocation step: the OPTIONS section is cut out and put
      back at the insertion point computed on the text without it. The result
      is a rearrangement of s, and s itself when there is no OPTIONS section. */
  function RelocateOptions(s: seq<Byte>): (r: seq<Byte>)
    ensures |r| == |s| && multiset(r) == multiset(s)
    ensures !Contains(s, Heading(Options)) ==> r == s
  {
    var optLoc := IndexOf(s, Heading(Options));
    if optLoc == -1 then s
    else if FindSectionEnd(Options, s) == -1 then s
    else
      var options, rest := OptionsSection(s), WithoutOptions(s);
      var newLoc := InsertionPoint(rest);
      assert rest == rest[..newLoc] + rest[newLoc..];
      ConcatMultiset(rest[..newLoc], options, rest[newLoc..]);
      rest[..newLoc] + options + rest[newLoc..]
  }

  /** The contract of FindSectionEnd determines its result. */
  lemma SectionEndUnique(h: seq<Byte>, s: seq<Byte>, p: nat)
    requires Contains(s, Heading(h))
    requires IndexOf(s, Heading(h)) + 2 < p <= |s|
    requires p == |s| || HeaderLineAt(s, p)
    requires forall k: nat | IndexOf(s, Heading(h)) + 2 < k < p :: !HeaderLineAt(s, k)
    ensures FindSectionEnd(h, s) == p
  {
  }

  lemma PrefixAgree(t: seq<Byte>, u: seq<Byte>, k: nat)
    requires k <= |t| && k <= |u| && t[..k] == u[..k]
    ensures forall i | 0 <= i < k :: t[i] == u[i]
  {
    forall i | 0 <= i < k
      ensures t[i] == u[i]
    {
      assert t[i] == t[..k][i];
    }
  }

  /** The first occurrence of pat is the same in t and u when it lies within
      a prefix they share. */
  lemma IndexKept(t: seq<Byte>, u: seq<Byte>, k: nat, pat: seq<Byte>)
    requires k <= |t| && k <= |u| && t[..k] == u[..k]
    requires IndexOf(t, pat) != -1 && IndexOf(t, pat) + |pat| <= k
    ensures IndexOf(u, pat) == IndexOf(t, pat)
  {
    var start := IndexOf(t, pat);
    forall j: nat | j <= start
      ensures MatchAt(u, pat, j) == MatchAt(t, pat, j)
    {
      assert u[j..j + |pat|] == u[..k][j..j + |pat|] == t[..k][j..j + |pat|] == t[j..j + |pat|];
    }
  }

  /** If the section "## h" ends at k in t, it still ends at k in any u that
      agrees with t before k and has a ## line starting at k. */
  lemma SectionEndKept(h: seq<Byte>, t: seq<Byte>, u: seq<Byte>, k: nat)
    requires forall i | 0 <= i < |h| :: h[i] != NewLine
    requires FindSectionEnd(h, t) == k
    requires k <= |t| && k <= |u| && t[..k] == u[..k]
    requires HeaderLineAt(u, k)
    ensures FindSectionEnd(h, u) == k
  {
    var H := Heading(h);
    var start := IndexOf(t, H);
    SectionCoversHeading(h, t);
    IndexKept(t, u, k, H);
    PrefixAgree(t, u, k);
    forall m: nat | start + 2 < m < k
      ensures !HeaderLineAt(u, m)
    {
      assert !HeaderLineAt(t, m);
    }
    SectionEndUnique(h, u, k);
  }

  lemma NoNewLineInAnchors()
    ensures forall a | 0 <= a < |Anchors| :: forall i | 0 <= i < |Anchors[a]| :: Anchors[a][i] != NewLine
  {
  }

  /** After relocation the OPTIONS section sits whole at the insertion point,
      with the rest of the text around it in its old order. */
  lemma RelocatedLayout(s: seq<Byte>)
    requires Contains(s, Heading(Options))
    ensures var options, rest := OptionsSection(s), WithoutOptions(s);
            var k, r := InsertionPoint(rest), RelocateOptions(s);
            && r[..k] == rest[..k]
            && r[k..k + |options|] == options
            && r[k + |options|..] == rest[k..]
            && MatchAt(r, Heading(Options), k)
  {
    var options, rest := OptionsSection(s), WithoutOptions(s);
    var k, r := InsertionPoint(rest), RelocateOptions(s);
    assert r == rest[..k] + options + rest[k..];
    Splice(rest, k, options, Heading(Options));
  }

  /** The anchor section OPTIONS was placed after now ends exactly where
      OPTIONS begins, unless the anchor was the last section and the text
      did not end in a new-line (then OPTIONS is glued onto its last line). */
  lemma OptionsFollowAnchor(s: seq<Byte>)
    requires Contains(s, Heading(Options))
    ensures var rest := WithoutOptions(s);
            var a, k := AnchorFrom(rest, Anchors, 0), InsertionPoint(rest);
            a < |Anchors| && (k < |rest| || rest[|rest| - 1] == NewLine) ==>
              FindSectionEnd(Anchors[a], RelocateOptions(s)) == k
  {
    var rest := WithoutOptions(s);
    var a, k, r := AnchorFrom(rest, Anchors, 0), InsertionPoint(rest), RelocateOptions(s);
    if a < |Anchors| && (k < |rest| || rest[|rest| - 1] == NewLine) {
      assert FindSectionEnd(Anchors[a], rest) == k;
      assert 0 < k && rest[k - 1] == NewLine;
      RelocatedLayout(s);
      OptionsOnItsOwnLine(rest, r, k);
      NoNewLineInAnchors();
      SectionEndKept(Anchors[a], rest, r, k);
    }
  }

  /** OPTIONS put in at the start of a line begins a ## line there. */
  lemma OptionsOnItsOwnLine(rest: seq<Byte>, r: seq<Byte>, k: nat)
    requires 0 < k <= |rest| && rest[k - 1] == NewLine
    requires k <= |r| && r[..k] == rest[..k]
    requires MatchAt(r, Heading(Options), k)
    ensures HeaderLineAt(r, k)
  {
    assert r[k - 1] == r[..k][k - 1] == rest[k - 1];
    var H := Heading(Options);
    assert r[k] == r[k..k + |H|][0] == H[0];
    assert r[k + 1] == r[k..k + |H|][1] == H[1];
  }

  /** pat occurs in s, and at one index only. */
  predicate OccursOnce(s: seq<Byte>, pat: seq<Byte>) {
    Contains(s, pat) && forall i: nat, j: nat | i <= |s| && j <= |s| && MatchAt(s, pat, i) && MatchAt(s, pat, j) :: i == j
  }

  lemma OptionsHeadingBytes()
    ensures Heading(Options) == [35, 35, 32, 79, 80, 84, 73, 79, 78, 83]
  {
    assert Options == [79, 80, 84, 73, 79, 78, 83];
  }

  /** "## " and then no hash: no ## starts inside such a heading after its
      first byte, so it overlaps neither a ## line nor another copy of
      itself. */
  predicate HeadingShape(pat: seq<Byte>) {
    && 3 <= |pat| && pat[0] == Hash && pat[1] == Hash && pat[2] == Space
    && forall i | 3 <= i < |pat| :: pat[i] != Hash
  }

  /** The OPTIONS heading has that shape, holds no lower-case letter, and its
      title starts with two upper-case letters. */
  lemma OptionsHeadingShape()
    ensures HeadingShape(Heading(Options))
    ensures |Heading(Options)| > 4 && Heading(Options)[3] != NewLine
    ensures 'A' as int <= Heading(Options)[4] <= 'Z' as int
    ensures forall i | 0 <= i < |Heading(Options)| :: !('a' as int <= Heading(Options)[i] <= 'z' as int)
  {
    OptionsHeadingBytes();
  }

  /** A hash inside a match of such a heading, after its first byte, is its
      second byte, and a space follows it. */
  lemma HeadingHashes(t: seq<Byte>, pat: seq<Byte>, j: nat, c: nat)
    requires HeadingShape(pat) && MatchAt(t, pat, j) && j < c < j + |pat|
    ensures t[c] == Hash ==> c == j + 1 && t[c + 1] == Space
  {
    assert t[c] == t[j..j + |pat|][c - j] == pat[c - j];
    if c == j + 1 {
      assert t[c + 1] == t[j..j + |pat|][2] == pat[2];
    }
  }

  /** Cutting out the section of the only OPTIONS heading leaves none. */
  lemma CutHasNoOptions(s: seq<Byte>)
    requires OccursOnce(s, Heading(Options))
    ensures !Contains(WithoutOptions(s), Heading(Options))
  {
    var H := Heading(Options);
    var optLoc := IndexOf(s, H);
    OptionsHeadingShape();
    assert forall i: nat | i <= |s| && MatchAt(s, H, i) :: i == optLoc;
    CutHasNoMatch(s, optLoc, FindSectionEnd(Options, s), WithoutOptions(s), H);
  }

  /** Cutting s[a..b] out of s, where pat matches at a only and b is the end
      of s or a ## line, leaves no match of pat. */
  lemma CutHasNoMatch(s: seq<Byte>, a: nat, b: nat, rest: seq<Byte>, pat: seq<Byte>)
    requires HeadingShape(pat)
    requires a + 2 < b <= |s| && (b == |s| || HeaderLineAt(s, b))
    requires forall i: nat | i <= |s| && MatchAt(s, pat, i) :: i == a
    requires rest == s[..a] + s[b..]
    ensures !Contains(rest, pat)
  {
    assert rest[..a] == s[..a];
    assert rest[a..] == s[b..];
    forall j: nat | j <= |rest|
      ensures !MatchAt(rest, pat, j)
    {
      if MatchAt(rest, pat, j) {
        if j + |pat| <= a {
          MatchInPrefix(rest, s, a, pat, j);
        } else if a <= j {
          MatchInSuffix(rest, a, s, b, pat, j);
        } else {
          HeaderLineCopied(rest, a, s, b);
          HeadingHashes(rest, pat, j, a);
        }
      }
    }
  }

  /** A match inside a prefix that r shares with s is a match in s. */
  lemma MatchInPrefix(r: seq<Byte>, s: seq<Byte>, a: nat, pat: seq<Byte>, j: nat)
    requires a <= |r| && a <= |s| && r[..a] == s[..a]
    requires j + |pat| <= a && MatchAt(r, pat, j)
    ensures MatchAt(s, pat, j)
  {
    MatchInside(r, 0, r[..a], pat, j);
    MatchInside(s, 0, s[..a], pat, j);
  }

  /** A heading put in at k, after a prefix with no copy of it, is the first
      one. */
  lemma FoundAtInsertion(rest: seq<Byte>, r: seq<Byte>, k: nat, pat: seq<Byte>)
    requires HeadingShape(pat) && !Contains(rest, pat)
    requires k <= |rest| && k <= |r| && r[..k] == rest[..k]
    requires MatchAt(r, pat, k)
    ensures IndexOf(r, pat) == k
  {
    assert r[k] == r[k..k + |pat|][0] == pat[0];
    assert r[k + 1] == r[k..k + |pat|][1] == pat[1];
    forall j: nat | j < k
      ensures !MatchAt(r, pat, j)
    {
      if MatchAt(r, pat, j) {
        if j + |pat| <= k {
          MatchInPrefix(r, rest, k, pat, j);
        } else {
          HeadingHashes(r, pat, j, k);
        }
      }
    }
  }

  /** Whether a ## line begins at i depends only on the bytes around i. */
  lemma HeaderLineWindow(a: seq<Byte>, i: nat, b: seq<Byte>, j: nat)
    requires 0 < i && i + 1 < |a| && 0 < j && j + 1 < |b|
    requires a[i - 1] == b[j - 1] && a[i] == b[j] && a[i + 1] == b[j + 1]
    ensures HeaderLineAt(a, i) <==> HeaderLineAt(b, j)
  {
  }

  /** No ## line begins inside the OPTIONS section after its heading. */
  lemma OptionsBodyHasNoHeader(s: seq<Byte>)
    requires Contains(s, Heading(Options))
    ensures forall m: nat | 2 < m < |OptionsSection(s)| :: !HeaderLineAt(OptionsSection(s), m)
  {
    var o, optLoc := OptionsSection(s), IndexOf(s, Heading(Options));
    forall m: nat | 2 < m < |o|
      ensures !HeaderLineAt(o, m)
    {
      if m + 1 < |o| {
        HeaderLineWindow(o, m, s, optLoc + m);
        assert !HeaderLineAt(s, optLoc + m);
      }
    }
  }

  /** After relocation, the OPTIONS section, if it ends with a new-line, is
      found again whole at the insertion point. */
  lemma OptionsFoundAgain(s: seq<Byte>)
    requires OccursOnce(s, Heading(Options))
    requires OptionsSection(s)[|OptionsSection(s)| - 1] == NewLine
    ensures var options, rest := OptionsSection(s), WithoutOptions(s);
            var k, r := InsertionPoint(rest), RelocateOptions(s);
            IndexOf(r, Heading(Options)) == k && FindSectionEnd(Options, r) == k + |options|
  {
    var options, rest := OptionsSection(s), WithoutOptions(s);
    var k, r := InsertionPoint(rest), RelocateOptions(s);
    RelocatedLayout(s);
    CutHasNoOptions(s);
    OptionsHeadingShape();
    FoundAtInsertion(rest, r, k, Heading(Options));
    OptionsBodyHasNoHeader(s);
    SectionEndAfterBlock(Options, r, k, options, rest);
  }

  /** In rest[..k] + block + rest[k..], with the heading of h first found at
      k, no ## line inside block after its heading, block ending with a
      new-line and k a section boundary of rest, the section of h is exactly
      block. */
  lemma SectionEndAfterBlock(h: seq<Byte>, r: seq<Byte>, k: nat, block: seq<Byte>, rest: seq<Byte>)
    requires k <= |rest| && |r| == |rest| + |block| && 3 <= |block|
    requires r[..k] == rest[..k] && r[k..k + |block|] == block && r[k + |block|..] == rest[k..]
    requires MatchAt(r, Heading(h), k) && IndexOf(r, Heading(h)) == k
    requires block[|block| - 1] == NewLine
    requires forall m: nat | 2 < m < |block| :: !HeaderLineAt(block, m)
    requires k == |rest| || HeaderLineAt(rest, k)
    ensures FindSectionEnd(h, r) == k + |block|
  {
    var p := k + |block|;
    if k < |rest| {
      assert r[p - 1] == r[k..p][|block| - 1];
      HeaderLineCopied(r, p, rest, k);
    }
    forall m: nat | k + 2 < m < p
      ensures !HeaderLineAt(r, m)
    {
      assert r[m] == r[k..p][m - k];
      if m + 1 < p {
        assert r[m - 1] == r[k..p][m - k - 1] && r[m + 1] == r[k..p][m - k + 1];
        HeaderLineWindow(r, m, block, m - k);
      }
    }
    SectionEndUnique(h, r, p);
  }

  /** A text holding an OPTIONS section, found at k and ending where the
      block `options` ends, splits back into that block and the rest. */
  lemma PiecesAt(r: seq<Byte>, k: nat, options: seq<Byte>, rest: seq<Byte>)
    requires k <= |rest| && k + |options| <= |r|
    requires r[..k] == rest[..k] && r[k..k + |options|] == options && r[k + |options|..] == rest[k..]
    requires IndexOf(r, Heading(Options)) == k && FindSectionEnd(Options, r) == k + |options|
    ensures Contains(r, Heading(Options))
    ensures OptionsSection(r) == options && WithoutOptions(r) == rest
  {
    assert rest == rest[..k] + rest[k..];
  }

  /** The relocated text splits into the same OPTIONS section and the same
      remaining text as s. */
  lemma SamePiecesAgain(s: seq<Byte>)
    requires OccursOnce(s, Heading(Options))
    requires OptionsSection(s)[|OptionsSection(s)| - 1] == NewLine
    ensures var r := RelocateOptions(s);
            && Contains(r, Heading(Options))
            && OptionsSection(r) == OptionsSection(s)
            && WithoutOptions(r) == WithoutOptions(s)
  {
    var options, rest := OptionsSection(s), WithoutOptions(s);
    var k := InsertionPoint(rest);
    OptionsFoundAgain(s);
    RelocatedLayout(s);
    PiecesAt(RelocateOptions(s), k, options, rest);
  }

  /** Relocating twice is relocating once, when OPTIONS occurs once and its
      section ends with a new-line. */
  lemma RelocateOptionsIdempotent(s: seq<Byte>)
    requires OccursOnce(s, Heading(Options))
    requires OptionsSection(s)[|OptionsSection(s)| - 1] == NewLine
    ensures RelocateOptions(RelocateOptions(s)) == RelocateOptions(s)
  {
    SamePiecesAgain(s);
  }

  /** A text ending with a new-line gives an OPTIONS section ending with one:
      the section stops at the end or right before a ## line. */
  lemma OptionsEndsLine(s: seq<Byte>)
    requires Contains(s, Heading(Options)) && s[|s| - 1] == NewLine
    ensures OptionsSection(s)[|OptionsSection(s)| - 1] == NewLine
  {
  }

  /** After relocation the OPTIONS heading occurs at the insertion point only. */
  lemma OnlyAtInsertion(s: seq<Byte>)
    requires OccursOnce(s, Heading(Options))
    requires OptionsSection(s)[|OptionsSection(s)| - 1] == NewLine
    ensures forall j: nat | MatchAt(RelocateOptions(s), Heading(Options), j) ::
              j == InsertionPoint(WithoutOptions(s))
  {
    var H, options, rest := Heading(Options), OptionsSection(s), WithoutOptions(s);
    var k, r := InsertionPoint(rest), RelocateOptions(s);
    OptionsFoundAgain(s);
    RelocatedLayout(s);
    CutHasNoOptions(s);
    OptionsOnlyAtStart(s);
    OptionsHeadingShape();
    forall j: nat | MatchAt(r, H, j)
      ensures j == k
    {
      OnlyMatchInLayout(r, k, options, rest, H, j);
    }
  }

  /** The OPTIONS section of a text holding the heading once holds it only
      at its start. */
  lemma OptionsOnlyAtStart(s: seq<Byte>)
    requires OccursOnce(s, Heading(Options))
    ensures forall i: nat | MatchAt(OptionsSection(s), Heading(Options), i) :: i == 0
  {
    var H, o := Heading(Options), OptionsSection(s);
    var optLoc := IndexOf(s, H);
    forall i: nat | MatchAt(o, H, i)
      ensures i == 0
    {
      MatchInside(s, optLoc, o, H, i);
    }
  }

  /** In rest[..k] + block + rest[k..], where rest has no match of a heading
      pat, block has one only at its start, pat is first found at k and k is
      a section boundary of rest, pat occurs only at k. */
  lemma OnlyMatchInLayout(r: seq<Byte>, k: nat, block: seq<Byte>, rest: seq<Byte>, pat: seq<Byte>, j: nat)
    requires HeadingShape(pat)
    requires k <= |rest| && |r| == |rest| + |block|
    requires r[..k] == rest[..k] && r[k..k + |block|] == block && r[k + |block|..] == rest[k..]
    requires IndexOf(r, pat) == k
    requires forall i: nat | MatchAt(block, pat, i) :: i == 0
    requires !Contains(rest, pat)
    requires k == |rest| || HeaderLineAt(rest, k)
    requires MatchAt(r, pat, j)
    ensures j == k
  {
    var p := k + |block|;
    if k < j && j + |pat| <= p {
      MatchInside(r, k, block, pat, j - k);
    } else if k < j < p < j + |pat| {
      HeaderLineCopied(r, p, rest, k);
      HeadingHashes(r, pat, j, p);
    } else if p <= j {
      MatchInSuffix(r, p, rest, k, pat, j);
    }
  }

  /** A ## line at k of rest, copied to p of r with what follows it, puts
      ## at p. */
  lemma HeaderLineCopied(r: seq<Byte>, p: nat, rest: seq<Byte>, k: nat)
    requires k <= |rest| && p <= |r| && r[p..] == rest[k..]
    requires HeaderLineAt(rest, k)
    ensures p + 1 < |r| && r[p] == Hash && r[p + 1] == Hash
  {
    assert r[p] == r[p..][0] == rest[k..][0];
    assert r[p + 1] == r[p..][1] == rest[k..][1];
  }

  /** A match inside a suffix copied from rest is a match in rest. */
  lemma MatchInSuffix(r: seq<Byte>, p: nat, rest: seq<Byte>, k: nat, pat: seq<Byte>, j: nat)
    requires k <= |rest| && p <= j && p <= |r| && r[p..] == rest[k..]
    requires MatchAt(r, pat, j)
    ensures MatchAt(rest, pat, k + j - p)
  {
    assert r[p..p + (|rest| - k)] == rest[k..];
    MatchInside(r, p, rest[k..], pat, j - p);
    MatchInside(rest, k, rest[k..], pat, j - p);
  }

  /** Inside a block copied into r at a, pat matches exactly where it matches
      in the block. */
  lemma MatchInside(r: seq<Byte>, a: nat, block: seq<Byte>, pat: seq<Byte>, i: nat)
    requires a + |block| <= |r| && r[a..a + |block|] == block && i + |pat| <= |block|
    ensures MatchAt(r, pat, a + i) <==> MatchAt(block, pat, i)
  {
    var w, v := r[a + i..a + i + |pat|], block[i..i + |pat|];
    forall x | 0 <= x < |pat|
      ensures w[x] == v[x]
    {
      assert v[x] == block[i + x] == r[a..a + |block|][i + x];
    }
    assert w == v;
  }

  /** In a text ending with a new-line, with the OPTIONS heading at the start
      of a line, OPTIONS is put back at the start of a line. */
  lemma InsertionBeginsLine(s: seq<Byte>)
    requires Contains(s, Heading(Options)) && s[|s| - 1] == NewLine
    requires IndexOf(s, Heading(Options)) == 0 || s[IndexOf(s, Heading(Options)) - 1] == NewLine
    ensures var k := InsertionPoint(WithoutOptions(s));
            k == 0 || RelocateOptions(s)[k - 1] == NewLine
  {
    var rest := WithoutOptions(s);
    RestEndsLine(s);
    RelocatedLayout(s);
    InsertedAtLineStart(RelocateOptions(s), rest, InsertionPoint(rest));
  }

  /** The same text with the OPTIONS section cut out ends with a new-line or
      is empty. */
  lemma RestEndsLine(s: seq<Byte>)
    requires Contains(s, Heading(Options)) && s[|s| - 1] == NewLine
    requires IndexOf(s, Heading(Options)) == 0 || s[IndexOf(s, Heading(Options)) - 1] == NewLine
    ensures |WithoutOptions(s)| == 0 || WithoutOptions(s)[|WithoutOptions(s)| - 1] == NewLine
  {
    CutEndsLine(s, IndexOf(s, Heading(Options)), FindSectionEnd(Options, s));
  }

  /** Cutting s[a..b] out of a text ending with a new-line, where a begins a
      line, leaves a text that is empty or ends with a new-line. */
  lemma CutEndsLine(s: seq<Byte>, a: nat, b: nat)
    requires a <= b <= |s| && 0 < |s| && s[|s| - 1] == NewLine
    requires a == 0 || s[a - 1] == NewLine
    ensures var rest := s[..a] + s[b..];
            |rest| == 0 || rest[|rest| - 1] == NewLine
  {
    var rest := s[..a] + s[b..];
    if b < |s| {
      assert rest[|rest| - 1] == s[b..][|s| - b - 1];
    } else if 0 < a {
      assert rest[|rest| - 1] == s[..a][a - 1];
    }
  }

  /** A block put in at a section boundary k of a text that is empty or ends
      with a new-line begins a line. */
  lemma InsertedAtLineStart(r: seq<Byte>, rest: seq<Byte>, k: nat)
    requires k <= |rest| && k <= |r| && r[..k] == rest[..k]
    requires k == |rest| || HeaderLineAt(rest, k)
    requires |rest| == 0 || rest[|rest| - 1] == NewLine
    ensures k == 0 || r[k - 1] == NewLine
  {
    if 0 < k {
      assert r[k - 1] == r[..k][k - 1];
    }
  }

  /** A match in the lower-cased text of a pattern without lower-case letters
      was one in the text. */
  lemma UnloweredMatch(t: seq<Byte>, pat: seq<Byte>, j: nat)
    requires forall i | 0 <= i < |pat| :: !('a' as int <= pat[i] <= 'z' as int)
    requires MatchAt(LowerHeaders(t), pat, j)
    ensures MatchAt(t, pat, j)
  {
    var u := LowerHeaders(t);
    forall i | j <= i < j + |pat|
      ensures t[i] == u[i]
    {
      assert u[i] == u[j..j + |pat|][i - j] == pat[i - j];
      NotLowercaseKept(t, i);
    }
    assert t[j..j + |pat|] == u[j..j + |pat|];
  }

  /** A byte of the lower-cased text that is no lower-case letter was there
      before. */
  lemma NotLowercaseKept(t: seq<Byte>, i: nat)
    requires i < |t| && !('a' as int <= LowerHeaders(t)[i] <= 'z' as int)
    ensures t[i] == LowerHeaders(t)[i]
  {
    LowerHeadersPointwise(t);
  }

  /** A heading whose title starts with two upper-case letters, matched at
      the start of a line, is lowered after its first letter. */
  lemma LoweredAtLineStart(t: seq<Byte>, pat: seq<Byte>, j: nat)
    requires HeadingShape(pat) && |pat| > 4 && pat[3] != NewLine && 'A' as int <= pat[4] <= 'Z' as int
    requires MatchAt(t, pat, j) && (j == 0 || t[j - 1] == NewLine)
    ensures LowerHeaders(t)[j + 4] != pat[4]
  {
    assert t[j..j + |pat|] == pat;
    assert t[j] == pat[0] && t[j + 1] == pat[1] && t[j + 2] == pat[2] && t[j + 3] == pat[3] && t[j + 4] == pat[4];
    LineStartUnique(t, j + 4, j);
    assert InSectionTitle(t, j + 4);
    LowerHeadersPointwise(t);
  }

  /** Lower-casing the section names turns every such heading that begins a
      line into one with a lower-case letter and makes no new one: "## OPTIONS"
      becomes "## Options". */
  lemma LoweringHidesHeading(t: seq<Byte>, pat: seq<Byte>)
    requires HeadingShape(pat) && |pat| > 4 && pat[3] != NewLine && 'A' as int <= pat[4] <= 'Z' as int
    requires forall i | 0 <= i < |pat| :: !('a' as int <= pat[i] <= 'z' as int)
    requires forall j: nat | MatchAt(t, pat, j) :: j == 0 || t[j - 1] == NewLine
    ensures !Contains(LowerHeaders(t), pat)
  {
    var u := LowerHeaders(t);
    forall j: nat | j <= |u|
      ensures !MatchAt(u, pat, j)
    {
      if MatchAt(u, pat, j) {
        UnloweredMatch(t, pat, j);
        LoweredAtLineStart(t, pat, j);
      }
    }
  }

  /** A rearrangement of text without the bytes markdownify treats specially
      has none either. */
  lemma NoSpecialRearranged(s: seq<Byte>, t: seq<Byte>)
    requires multiset(t) == multiset(s)
    requires forall i | 0 <= i < |s| :: !Special(s[i])
    ensures forall i | 0 <= i < |t| :: !Special(t[i])
  {
    forall i | 0 <= i < |t|
      ensures !Special(t[i])
    {
      assert t[i] in multiset(t);
      assert t[i] in s;
    }
  }

  /** Lower-casing section names brings in no special byte. */
  lemma NoSpecialLowered(t: seq<Byte>)
    requires forall i | 0 <= i < |t| :: !Special(t[i])
    ensures forall i | 0 <= i < |LowerHeaders(t)| :: !Special(LowerHeaders(t)[i])
  {
    LowerHeadersPointwise(t);
  }

  /** Normalising help text twice is normalising it once, for rendered text
      without the bytes markdownify treats specially, ending with a new-line
      and holding at most one OPTIONS heading; when section names are
      lower-cased, that heading must begin a line. */
  lemma HelpTextIdempotent(rendered: seq<Byte>, capOnlyFirst: bool)
    requires forall i | 0 <= i < |rendered| :: !Special(rendered[i])
    requires Contains(rendered, Heading(Options)) ==>
               && OccursOnce(rendered, Heading(Options))
               && rendered[|rendered| - 1] == NewLine
               && (capOnlyFirst ==> IndexOf(rendered, Heading(Options)) == 0
                                    || rendered[IndexOf(rendered, Heading(Options)) - 1] == NewLine)
    ensures HelpText(HelpText(rendered, capOnlyFirst), capOnlyFirst) == HelpText(rendered, capOnlyFirst)
  {
    MarkdownifyPlain(rendered);
    var t := RelocateOptions(rendered);
    NoSpecialRearranged(rendered, t);
    MarkdownifyPlain(t);
    if capOnlyFirst {
      LoweredTwice(rendered);
    } else {
      RelocatedTwice(rendered);
    }
  }

  /** Relocating OPTIONS in a text that holds its heading at most once, and
      ends with a new-line if it holds it, is idempotent. */
  lemma RelocatedTwice(s: seq<Byte>)
    requires Contains(s, Heading(Options)) ==>
               OccursOnce(s, Heading(Options)) && s[|s| - 1] == NewLine
    ensures RelocateOptions(RelocateOptions(s)) == RelocateOptions(s)
  {
    if Contains(s, Heading(Options)) {
      OptionsEndsLine(s);
      RelocateOptionsIdempotent(s);
    }
  }

  /** Relocating OPTIONS and then lower-casing section names gives a text
      that relocation and markdownify leave alone and that lower-casing does
      not change again. */
  lemma LoweredTwice(s: seq<Byte>)
    requires forall i | 0 <= i < |s| :: !Special(s[i])
    requires Contains(s, Heading(Options)) ==>
               && OccursOnce(s, Heading(Options))
               && s[|s| - 1] == NewLine
               && (IndexOf(s, Heading(Options)) == 0 || s[IndexOf(s, Heading(Options)) - 1] == NewLine)
    ensures var u := LowerHeaders(RelocateOptions(s));
            LowerHeaders(RelocateOptions(MarkdownifyText(u))) == u
  {
    var t := RelocateOptions(s);
    var u := LowerHeaders(t);
    NoSpecialRearranged(s, t);
    LowerHeadingsUnmoved(s);
    NoSpecialLowered(t);
    MarkdownifyPlain(u);
    LowerHeadersIdempotent(t);
  }

  /** After relocation every OPTIONS heading begins a line, so lower-casing
      leaves none for a second relocation to move. */
  lemma LowerHeadingsUnmoved(s: seq<Byte>)
    requires Contains(s, Heading(Options)) ==>
               && OccursOnce(s, Heading(Options))
               && s[|s| - 1] == NewLine
               && (IndexOf(s, Heading(Options)) == 0 || s[IndexOf(s, Heading(Options)) - 1] == NewLine)
    ensures !Contains(LowerHeaders(RelocateOptions(s)), Heading(Options))
  {
    var t := RelocateOptions(s);
    if Contains(s, Heading(Options)) {
      OptionsEndsLine(s);
      OnlyAtInsertion(s);
      InsertionBeginsLine(s);
    }
    OptionsHeadingShape();
    LoweringHidesHeading(t, Heading(Options));
  }

  /** The index of the first new-line in s, or |s|. */
  function LineEnd(s: seq<Byte>): (n: nat)
    ensures n <= |s| && (n < |s| ==> s[n] == NewLine)
    ensures forall i | 0 <= i < n :: s[i] != NewLine
  {
    if |s| == 0 || s[0] == NewLine then 0 else 1 + LineEnd(s[1..])
  }

  /** A line (without its new-line) that sectionNameRe matches whole: "## "
      followed by at least one byte. */
  predicate IsSectionName(line: seq<Byte>) {
    |line| >= 4 && line[0] == Hash && line[1] == Hash && line[2] == Space
  }

  /** strings.ToLower, on ASCII letters. */
  function LowerAll(s: seq<Byte>): (r: seq<Byte>)
    ensures |r| == |s| && forall i | 0 <= i < |s| :: r[i] == LowerByte(s[i])
  {
    seq(|s|, i requires 0 <= i < |s| => LowerByte(s[i]))
  }

  /** The replacement applied to one match: the first four bytes kept, the rest lowered. */
  function LowerTitle(line: seq<Byte>): (r: seq<Byte>)
    ensures |r| == |line|
  {
    if IsSectionName(line) then line[..4] + LowerAll(line[4..]) else line
  }

  /** sectionNameRe.ReplaceAllStringFunc(s, ...): every line of s that is a
      section name keeps "## " and its first letter, and the rest of it is
      lower-cased. */
  function LowerHeaders(s: seq<Byte>): (r: seq<Byte>)
    decreases |s|
    ensures |r| == |s|
  {
    var n := LineEnd(s);
    if n == |s| then LowerTitle(s)
    else LowerTitle(s[..n]) + [NewLine] + LowerHeaders(s[n + 1..])
  }

  /** Where the line holding index j begins. */
  function LineStart(s: seq<Byte>, j: nat): (b: nat)
    requires j <= |s|
    ensures b <= j && (b == 0 || s[b - 1] == NewLine)
    ensures forall i | b <= i < j :: s[i] != NewLine
  {
    if j == 0 || s[j - 1] == NewLine then j else LineStart(s, j - 1)
  }

  /** The contract of LineStart determines its result. */
  lemma LineStartUnique(s: seq<Byte>, j: nat, b: nat)
    requires b <= j <= |s| && (b == 0 || s[b - 1] == NewLine)
    requires forall i | b <= i < j :: s[i] != NewLine
    ensures LineStart(s, j) == b
  {
  }

  /** Byte j of s lies in a section name after its first four bytes: the part
      the replacement lower-cases. */
  predicate InSectionTitle(s: seq<Byte>, j: nat)
    requires j < |s|
  {
    var b := LineStart(s, j);
    s[j] != NewLine && b + 4 <= j && s[b] == Hash && s[b + 1] == Hash && s[b + 2] == Space
  }

  /** Inside the first line, InSectionTitle is IsSectionName of that line. */
  lemma FirstLineTitle(s: seq<Byte>, n: nat, j: nat)
    requires n == LineEnd(s) && j < n
    ensures InSectionTitle(s, j) <==> IsSectionName(s[..n]) && 4 <= j
  {
    LineStartUnique(s, j, 0);
  }

  /** Past the first new-line at n, InSectionTitle is that of the rest. */
  lemma LaterLineTitle(s: seq<Byte>, n: nat, j: nat)
    requires n < |s| && s[n] == NewLine && n < j < |s|
    ensures InSectionTitle(s, j) <==> InSectionTitle(s[n + 1..], j - n - 1)
  {
    var t := s[n + 1..];
    var c := LineStart(t, j - n - 1);
    LineStartUnique(s, j, n + 1 + c);
  }

  /** Each byte of LowerHeaders(s) is the byte of s, lowered exactly when it
      lies in a section name after "## " and the first letter. */
  lemma {:induction false} LowerHeadersPointwise(s: seq<Byte>)
    decreases |s|
    ensures forall j | 0 <= j < |s| ::
      LowerHeaders(s)[j] == if InSectionTitle(s, j) then LowerByte(s[j]) else s[j]
  {
    var n := LineEnd(s);
    var r := LowerHeaders(s);
    if n < |s| {
      LowerHeadersPointwise(s[n + 1..]);
    }
    forall j | 0 <= j < |s|
      ensures r[j] == if InSectionTitle(s, j) then LowerByte(s[j]) else s[j]
    {
      if j < n {
        FirstLineTitle(s, n, j);
        assert r[j] == LowerTitle(s[..n])[j];
      } else if j == n {
        assert r[j] == NewLine;
      } else {
        LaterLineTitle(s, n, j);
        assert r[j] == LowerHeaders(s[n + 1..])[j - n - 1];
      }
    }
  }

  /** s and r have new-lines, hashes and spaces at the same places. */
  predicate SameLayout(s: seq<Byte>, r: seq<Byte>) {
    |s| == |r| &&
    forall i | 0 <= i < |s| ::
      (s[i] == NewLine <==> r[i] == NewLine) && (s[i] == Hash <==> r[i] == Hash) && (s[i] == Space <==> r[i] == Space)
  }

  lemma SameLayoutTitle(s: seq<Byte>, r: seq<Byte>, j: nat)
    requires SameLayout(s, r) && j < |s|
    ensures InSectionTitle(s, j) <==> InSectionTitle(r, j)
  {
    LineStartUnique(r, j, LineStart(s, j));
  }

  /** Lower-casing the section names twice is the same as once. */
  lemma LowerHeadersIdempotent(s: seq<Byte>)
    ensures LowerHeaders(LowerHeaders(s)) == LowerHeaders(s)
  {
    var r := LowerHeaders(s);
    LowerHeadersPointwise(s);
    LowerHeadersPointwise(r);
    assert SameLayout(s, r);
    forall j | 0 <= j < |s|
      ensures LowerHeaders(r)[j] == r[j]
    {
      SameLayoutTitle(s, r, j);
    }
  }

  /** helpPreprocessor once the help template is rendered: markdownify, move
      OPTIONS, and lower-case section names when capOnlyFirst is set. */
  function HelpText(rendered: seq<Byte>, capOnlyFirst: bool): (r: seq<Byte>)
    ensures |r| == |MarkdownifyText(rendered)|
    ensures !capOnlyFirst ==> multiset(r) == multiset(MarkdownifyText(rendered))
  {
    var s := RelocateOptions(MarkdownifyText(rendered));
    if capOnlyFirst then LowerHeaders(s) else s
  }

  /** "## OPTIONS" becomes "## Options". */
  lemma OptionsHeaderLowered(s: seq<Byte>)
    requires s == Ascii("## OPTIONS")
    ensures LowerHeaders(s) == Ascii("## Options")
  {
    OptionsBytes();
    assert LineEnd(s) == |s|;
    assert IsSectionName(s);
    assert LowerAll(s[4..]) == [80 + 32, 84 + 32, 73 + 32, 79 + 32, 78 + 32, 83 + 32];
  }

  /** The bytes of the OPTIONS heading before and after lowering. */
  lemma OptionsBytes()
    ensures Ascii("## OPTIONS") == [35, 35, 32, 79, 80, 84, 73, 79, 78, 83]
    ensures Ascii("## Options") == [35, 35, 32, 79, 112, 116, 105, 111, 110, 115]
  {
  }
}
