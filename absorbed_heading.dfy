/** A known heading that `split_sections` does not return as a key: a line
    of capitals above it runs over it, because the `CAPS_LINE` class takes
    the line break as whitespace. */
module AbsorbedHeading {
  import opened Optionals
  import opened Chars
  import opened TextOps
  import opened OrderedDict
  import opened Normalizer
  import opened Segmenter

  /** `DISCUSSION` stands alone on the second line, under `ABC`. */
  const Text: string := "ABC\nDISCUSSION\nbody"

  /** The name of the line of capitals that swallows the heading. */
  const Merged: string := "ABC\nDISCUSSION"

  lemma TextPieces()
    ensures |Text| == 19 && Text[0..14] == Merged && Text[4..14] == "DISCUSSION"
    ensures Text[14..19] == "\nbody"
  {
  }

  lemma TextSingleBreaks()
    ensures NoTripleNewline(Text)
  {
    forall i | 0 <= i < |Text| - 2
      ensures !(Text[i] == '\n' && Text[i + 1] == '\n' && Text[i + 2] == '\n')
    {
      assert Text[i] != '\n' || Text[i + 1] != '\n';
    }
  }

  lemma TextTrimmed()
    ensures Trimmed(Text)
  {
    assert Text[0] == 'A' && Text[|Text| - 1] == 'y';
  }

  /** The text is already normalised. */
  lemma TextNormalized(isWord: char -> bool)
    ensures NormalizeText(Text, isWord) == Text
  {
    assert '\r' !in Text && '-' !in Text;
    TextSingleBreaks();
    TextTrimmed();
    NormalizedOf(Text, isWord);
  }

  /** A text without carriage returns, hyphens or blank-line runs, and with
      nothing to trim, is its own normal form. */
  lemma NormalizedOf(s: string, isWord: char -> bool)
    requires '\r' !in s && '-' !in s && NoTripleNewline(s) && Trimmed(s)
    ensures NormalizeText(s, isWord) == s
  {
    CarriageReturnFree(s);
    HealNeedsHyphen(s, isWord);
    CollapseKeepsShortRuns(s);
    StripTrimmed(s);
  }

  /** The three lines start at 0, 4 and 15. */
  lemma TextLineStarts()
    ensures forall p :: 0 <= p <= |Text| && LineStart(Text, p) ==> p == 0 || p == 4 || p == 15
  {
    forall p | 0 <= p <= |Text| && LineStart(Text, p)
      ensures p == 0 || p == 4 || p == 15
    {
    }
  }

  /** A heading that starts none of the three lines is not found. */
  lemma AbsentFromText(h: string)
    requires !StartsWith(Text[0..], h) && !StartsWith(Text[4..], h) && !StartsWith(Text[15..], h)
    ensures FirstHeading(Text, h, 0).None?
  {
    TextLineStarts();
    forall q | 0 <= q <= |Text|
      ensures HeadingMatch(Text, q, h).None?
    {
      if q != 0 && q != 4 && q != 15 {
        assert !LineStart(Text, q);
      }
    }
  }

  /** A heading whose first letter starts none of the lines. */
  lemma AbsentLetter(h: string)
    requires h != [] && h[0] != 'A' && h[0] != 'D' && h[0] != 'b'
    ensures FirstHeading(Text, h, 0).None?
  {
    Mismatch(Text, 0, h, 0);
    Mismatch(Text, 4, h, 0);
    Mismatch(Text, 15, h, 0);
    AbsentFromText(h);
  }

  /** A heading starting with `D` that differs from `DISCUSSION` at `k`. */
  lemma AbsentD(h: string, k: nat)
    requires 0 < k < |h| && k < 10 && h[0] == 'D' && h[k] != "DISCUSSION"[k]
    ensures FirstHeading(Text, h, 0).None?
  {
    Mismatch(Text, 0, h, 0);
    Mismatch(Text, 4, h, k);
    Mismatch(Text, 15, h, 0);
    AbsentFromText(h);
  }

  lemma DiscussionAt4()
    ensures HeadingMatch(Text, 4, "DISCUSSION") == Some(14)
    ensures FirstHeading(Text, "DISCUSSION", 0) == Some(4)
  {
    TextPieces();
    assert Text[14] == '\n' && Text[15] == 'b';
    StandsAloneAt(Text, 4, "DISCUSSION");
    TextLineStarts();
    Mismatch(Text, 0, "DISCUSSION", 0);
    FirstHeadingIs(Text, "DISCUSSION", 4);
  }

  /** Of the eight known headings only `DISCUSSION` is found, at 4. */
  lemma KnownInText()
    ensures FirstHeading(Text, KnownOrder[0], 0).None? && FirstHeading(Text, KnownOrder[1], 0).None?
    ensures FirstHeading(Text, KnownOrder[2], 0) == Some(4) && FirstHeading(Text, KnownOrder[3], 0).None?
    ensures FirstHeading(Text, KnownOrder[4], 0).None? && FirstHeading(Text, KnownOrder[5], 0).None?
    ensures FirstHeading(Text, KnownOrder[6], 0).None? && FirstHeading(Text, KnownOrder[7], 0).None?
  {
    KnownOrderNames();
    AbsentD("DIGEST", 2);
    AbsentLetter("BACKGROUND");
    DiscussionAt4();
    AbsentD("DECISION", 1);
    AbsentLetter("CONCLUSION");
    AbsentLetter("RECOMMENDATION");
    AbsentLetter("CONCLUSIONS");
    AbsentLetter("RECOMMENDATIONS");
  }

  /** The first loop finds `DISCUSSION` alone. */
  lemma TextKnown()
    ensures KnownCandidates(Text, KnownOrder) == [("DISCUSSION", 4)]
  {
    KnownInText();
    OnlyThird(Text, KnownOrder, 4);
    KnownOrderNames();
    assert Put([], "DISCUSSION", 4) == [("DISCUSSION", 4)];
  }

  /** Of eight headings only the third is found, at `p`. */
  predicate OnlyThirdFound(s: string, hs: seq<string>, p: nat)
  {
    && |hs| == 8
    && FirstHeading(s, hs[0], 0).None? && FirstHeading(s, hs[1], 0).None?
    && FirstHeading(s, hs[2], 0) == Some(p) && FirstHeading(s, hs[3], 0).None?
    && FirstHeading(s, hs[4], 0).None? && FirstHeading(s, hs[5], 0).None?
    && FirstHeading(s, hs[6], 0).None? && FirstHeading(s, hs[7], 0).None?
  }

  lemma OnlyThird(s: string, hs: seq<string>, p: nat)
    requires OnlyThirdFound(s, hs, p)
    ensures KnownCandidates(s, hs) == Put([], hs[2], p)
  {
    FirstThree(s, hs, p);
    LastFive(s, hs, Put([], hs[2], p));
  }

  lemma FirstThree(s: string, hs: seq<string>, p: nat)
    requires OnlyThirdFound(s, hs, p)
    ensures KnownCandidates(s, hs[..3]) == Put([], hs[2], p)
  {
    assert hs[..0] == [];
    KnownMissed(s, hs, 0, []);
    KnownMissed(s, hs, 1, []);
    KnownFound(s, hs, 2, [], p);
  }

  lemma LastFive(s: string, hs: seq<string>, d: Dict<nat>)
    requires |hs| == 8 && KnownCandidates(s, hs[..3]) == d
    requires FirstHeading(s, hs[3], 0).None? && FirstHeading(s, hs[4], 0).None?
    requires FirstHeading(s, hs[5], 0).None? && FirstHeading(s, hs[6], 0).None?
    requires FirstHeading(s, hs[7], 0).None?
    ensures KnownCandidates(s, hs) == d
  {
    KnownMissed(s, hs, 3, d);
    KnownMissed(s, hs, 4, d);
    KnownMissed(s, hs, 5, d);
    KnownMissed(s, hs, 6, d);
    KnownMissed(s, hs, 7, d);
    assert hs[..8] == hs;
  }

  /** After the `A`, the class run takes `BC`, the line break, `DISCUSSION`
      and the next line break, and stops at the lower-case `b`. */
  lemma CapsRunAfterA()
    ensures CapsRun(Text, 1) == 14
  {
    assert forall i :: 1 <= i < 15 ==> IsCapsChar(Text[i]);
    assert Text[15] == 'b';
    CapsRunIs(Text, 1, 14);
  }

  /** `CAPS_LINE` at 0 reaches the second line break and backs off to it. */
  lemma CapsAtTop()
    ensures CapsMatch(Text, 0) == Some(14)
  {
    CapsRunAfterA();
    assert IsCapsLead(Text[0]);
    assert LineEnd(Text, 14) && !LineEnd(Text, 15);
  }

  /** After the first match, no line starts with a capital. */
  lemma NoCapsAfter()
    ensures NoCapsBetween(Text, 14, |Text|)
  {
    TextLineStarts();
    assert Text[15] == 'b';
  }

  lemma TextCapsMatches()
    ensures CapsMatches(Text, 0) == [(0, 14)]
  {
    CapsAtTop();
    NoCapsAfter();
    CapsTakeOne(Text, 0, 14);
    CapsSkipOne(Text, 14);
    CapsSkipOne(Text, 15);
    CapsSkipOne(Text, 16);
    CapsSkipOne(Text, 17);
    CapsSkipOne(Text, 18);
  }

  lemma MergedStripped()
    ensures Strip(Text[0..14]) == Merged
  {
    TextPieces();
    assert Merged[0] == 'A' && Merged[|Merged| - 1] == 'N';
    StripTrimmed(Merged);
  }

  lemma TextCapsLines()
    ensures CapsLines(Text) == [(Merged, 0)]
  {
    TextCapsMatches();
    MergedStripped();
  }

  /** The merged line is no banner and no known candidate yet, so
      `setdefault` adds it at the end with position 0. */
  lemma TextCandidates()
    ensures Candidates(Text) == [("DISCUSSION", 4), (Merged, 0)]
  {
    TextKnown();
    TextCapsLines();
    assert Merged[0] != SpacedBanner[0] && Merged[0] != "DISCUSSION"[0];
    OneNewCapsLine(Text, ("DISCUSSION", 4), (Merged, 0));
  }

  /** One known candidate and one new line of capitals, not the banner,
      give both, the line of capitals last. */
  lemma OneNewCapsLine(s: string, x: (string, nat), c: (string, nat))
    requires KnownCandidates(s, KnownOrder) == [x] && CapsLines(s) == [c]
    requires c.0 != SpacedBanner && c.0 != x.0
    ensures Candidates(s) == [x, c]
  {
    AddOneCapsLine(x, c);
  }

  lemma AddOneCapsLine(x: (string, nat), c: (string, nat))
    requires c.0 != SpacedBanner && c.0 != x.0
    ensures CapsCandidates([x], [c], 1) == [x, c]
  {
    assert CapsCandidates([x], [c], 0) == [x];
    SetDefaultNew(x, c);
  }

  lemma SetDefaultNew(x: (string, nat), c: (string, nat))
    requires c.0 != x.0
    ensures SetDefault([x], c.0, c.1) == [x, c]
  {
    assert Keys([x]) == [x.0];
    assert IndexOf([x], c.0).None?;
  }

  /** The stable sort puts the merged line, at 0, before `DISCUSSION`. */
  lemma TextHeadingNames()
    ensures HeadingNames(Text) == [Merged, "DISCUSSION"]
  {
    TextCandidates();
    HeadingNamesSwapped(Text, ("DISCUSSION", 4), (Merged, 0));
  }

  /** Two candidates out of position order are swapped by the sort. */
  lemma HeadingNamesSwapped(s: string, x: (string, nat), y: (string, nat))
    requires Candidates(s) == [x, y] && y.1 < x.1
    ensures HeadingNames(s) == [y.0, x.0]
  {
    SwappedPair(x, y);
    assert Names([y, x]) == [y.0, x.0];
    assert HeadingNames(s) == Names(SortByPosition(Candidates(s)));
  }

  lemma SwappedPair(x: (string, nat), y: (string, nat))
    requires y.1 < x.1
    ensures SortByPosition([x, y]) == [y, x]
  {
    assert [x, y][..1] == [x];
    assert [x][..0] == [];
    assert InsertByPosition(y, [x]) == [y, x];
  }

  /** The first alternative matches at 0 and ends at the second line break. */
  lemma MergedAtTop()
    ensures HeadingMatch(Text, 0, Merged) == Some(14)
  {
    TextPieces();
    assert Text[0..][..14] == Merged;
    assert Text[14..][0] == '\n' && Text[14..][1] == 'b';
    LeadingSpacesIs(Text[14..], 1);
    assert LastLineEnd(Text, 14, 15) == LastLineEnd(Text, 14, 14);
  }

  lemma AlternationAtTop()
    ensures AlternationMatch(Text, 0, [Merged, "DISCUSSION"]) == Some((Merged, 14))
  {
    MergedAtTop();
  }

  /** Past the first mark, only the line `body` starts, and neither
      alternative does. */
  lemma NoMarkAfter()
    ensures NoMarkBetween(Text, [Merged, "DISCUSSION"], 14, |Text|)
  {
    TextLineStarts();
    Mismatch(Text, 15, Merged, 0);
    Mismatch(Text, 15, "DISCUSSION", 0);
    forall q | 14 <= q < |Text|
      ensures AlternationMatch(Text, q, [Merged, "DISCUSSION"]).None?
    {
      if q != 15 {
        assert !LineStart(Text, q);
      }
      NeitherMatches(Text, q, [Merged, "DISCUSSION"]);
    }
  }

  /** `rx.finditer` finds one mark, the merged line; the `DISCUSSION` line
      lies inside it. */
  lemma TextMarks()
    ensures HeadingMarks(Text) == [Mark(Merged, 0, 14)]
  {
    TextHeadingNames();
    var hs := [Merged, "DISCUSSION"];
    assert NonEmptyNames(hs);
    AlternationAtTop();
    MergedStripped();
    MarksTakeOne(Text, hs, 0, Merged, 14);
    NoMarkAfter();
    MarksSkipOne(Text, hs, 14);
    MarksSkipOne(Text, hs, 15);
    MarksSkipOne(Text, hs, 16);
    MarksSkipOne(Text, hs, 17);
    MarksSkipOne(Text, hs, 18);
  }

  lemma BodyStripped()
    ensures Strip(Text[14..19]) == "body"
  {
    TextPieces();
    LeadingSpacesIs("\nbody", 1);
    assert "\nbody"[1..] == "body";
  }

  /** The one mark's pair: the merged line with the stripped rest. */
  lemma PairOf(s: string, ms: seq<Mark>)
    requires |s| == 19 && ms == [Mark(Merged, 0, 14)] && Strip(s[14..19]) == "body"
    ensures MarksInOrder(s, ms)
    ensures SectionPairs(s, ms) == [(Merged, "body")]
  {
    assert BodyEnd(s, ms, 0) == 19;
  }

  /** A normalised text with candidates and the single mark `Merged` at
      0..14 is one section, named `Merged`, holding the rest. */
  lemma OneSection(s: string, isWord: char -> bool)
    requires NormalizeText(s, isWord) == s && |s| == 19 && Candidates(s) != []
    requires HeadingMarks(s) == [Mark(Merged, 0, 14)] && Strip(s[14..19]) == "body"
    ensures Sections(s, isWord) == [(Merged, "body")]
  {
    PairOf(s, HeadingMarks(s));
    SectionsFromPairs(s, isWord);
    FromOnePair((Merged, "body"));
  }

  /** `split_sections("ABC\nDISCUSSION\nbody")` is
      `{"ABC\nDISCUSSION": "body"}`: `DISCUSSION` stands alone on its line
      and is a known heading, yet it is not a key. */
  lemma HeadingAbsorbed(isWord: char -> bool)
    ensures "DISCUSSION" in KnownOrder && HeadingMatch(Text, 4, "DISCUSSION").Some?
    ensures Sections(Text, isWord) == [(Merged, "body")]
    ensures "DISCUSSION" !in Keys(Sections(Text, isWord))
  {
    KnownOrderNames();
    DiscussionAt4();
    TextSections(isWord);
    MergedOnly();
  }

  lemma MergedOnly()
    ensures "DISCUSSION" !in Keys([(Merged, "body")])
  {
    assert Keys([(Merged, "body")]) == [Merged];
    assert Merged[0] != "DISCUSSION"[0];
  }

  lemma TextSections(isWord: char -> bool)
    ensures Sections(Text, isWord) == [(Merged, "body")]
  {
    TextNormalized(isWord);
    TextCandidates();
    TextMarks();
    BodyStripped();
    OneSection(Text, isWord);
  }
}
