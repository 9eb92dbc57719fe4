/** The worked example of `split_sections`: a text with two known headings,
    each alone on its line, is cut into two sections in document order. */
module SectionsExample {
  import opened Optionals
  import opened Chars
  import opened TextOps
  import opened OrderedDict
  import opened Normalizer
  import opened Segmenter

  const Doc: string := "DIGEST\nfoo\nDECISION\nbar"

  lemma DocSingleBreaks()
    ensures NoTripleNewline(Doc)
  {
    forall i | 0 <= i < |Doc| - 2
      ensures !(Doc[i] == '\n' && Doc[i + 1] == '\n' && Doc[i + 2] == '\n')
    {
      assert Doc[i] != '\n' || Doc[i + 1] != '\n';
    }
  }

  lemma DocTrimmed()
    ensures Trimmed(Doc)
  {
    assert Doc[0] == 'D' && Doc[|Doc| - 1] == 'r';
  }

  /** The text is already normalised. */
  lemma DocNormalized(isWord: char -> bool)
    ensures NormalizeText(Doc, isWord) == Doc
  {
    assert '\r' !in Doc && '-' !in Doc;
    CarriageReturnFree(Doc);
    HealNeedsHyphen(Doc, isWord);
    DocSingleBreaks();
    CollapseKeepsShortRuns(Doc);
    DocTrimmed();
    StripTrimmed(Doc);
  }

  /** The line breaks of the text: after the first heading, after `foo` and
      after the second heading. */
  lemma DocBreaks()
    ensures forall i :: 0 <= i < |Doc| && Doc[i] == '\n' ==> i == 6 || i == 10 || i == 19
  {
    forall i | 0 <= i < |Doc| && Doc[i] == '\n'
      ensures i == 6 || i == 10 || i == 19
    {
    }
  }

  /** The four lines start at 0, 7, 11 and 20. */
  lemma DocLineStarts()
    ensures forall p :: 0 <= p <= |Doc| && LineStart(Doc, p) ==> p == 0 || p == 7 || p == 11 || p == 20
  {
    DocBreaks();
  }

  /** A heading that starts none of the four lines is not found. */
  lemma AbsentHeading(h: string)
    requires !StartsWith(Doc[0..], h) && !StartsWith(Doc[7..], h)
    requires !StartsWith(Doc[11..], h) && !StartsWith(Doc[20..], h)
    ensures FirstHeading(Doc, h, 0).None?
  {
    DocLineStarts();
    forall q | 0 <= q <= |Doc|
      ensures HeadingMatch(Doc, q, h).None?
    {
      if q != 0 && q != 7 && q != 11 && q != 20 {
        assert !LineStart(Doc, q);
      }
    }
  }

  /** A heading whose first letter starts none of the four lines. */
  lemma AbsentInitial(h: string)
    requires h != [] && h[0] != 'D' && h[0] != 'f' && h[0] != 'b'
    ensures FirstHeading(Doc, h, 0).None?
  {
    Mismatch(Doc, 0, h, 0);
    Mismatch(Doc, 7, h, 0);
    Mismatch(Doc, 11, h, 0);
    Mismatch(Doc, 20, h, 0);
    AbsentHeading(h);
  }

  lemma DigestAtTop()
    ensures HeadingMatch(Doc, 0, "DIGEST") == Some(6)
  {
    DocPieces();
    assert Doc[6] == '\n' && Doc[7] == 'f';
    StandsAloneAt(Doc, 0, "DIGEST");
  }

  lemma DecisionAt11()
    ensures HeadingMatch(Doc, 11, "DECISION") == Some(19)
  {
    DocPieces();
    assert Doc[10] == '\n' && Doc[19] == '\n' && Doc[20] == 'b';
    StandsAloneAt(Doc, 11, "DECISION");
  }

  lemma DecisionNotBefore()
    ensures forall q :: 0 <= q < 11 ==> HeadingMatch(Doc, q, "DECISION").None?
  {
    DocLineStarts();
    Mismatch(Doc, 0, "DECISION", 1);
    Mismatch(Doc, 7, "DECISION", 0);
  }

  lemma DigestOnlyAtTop()
    ensures FirstHeading(Doc, "DIGEST", 0) == Some(0)
  {
    DigestAtTop();
    FirstHeadingIs(Doc, "DIGEST", 0);
  }

  lemma DecisionFound()
    ensures FirstHeading(Doc, "DECISION", 0) == Some(11)
  {
    DecisionAt11();
    DecisionNotBefore();
    FirstHeadingIs(Doc, "DECISION", 11);
  }

  lemma DiscussionAbsent()
    ensures FirstHeading(Doc, "DISCUSSION", 0).None?
  {
    Mismatch(Doc, 0, "DISCUSSION", 2);
    Mismatch(Doc, 7, "DISCUSSION", 0);
    Mismatch(Doc, 11, "DISCUSSION", 1);
    Mismatch(Doc, 20, "DISCUSSION", 0);
    AbsentHeading("DISCUSSION");
  }

  /** The candidates found by both loops, in the order they were found. */
  const Found: Dict<nat> := [("DIGEST", 0), ("DECISION", 11)]

  lemma PutDigest()
    ensures Put([], "DIGEST", 0) == [("DIGEST", 0)]
  {
  }

  lemma PutDecision()
    ensures Put([("DIGEST", 0)], "DECISION", 11) == Found
  {
    assert "DIGEST"[1] != "DECISION"[1];
    assert IndexOf([("DIGEST", 0)], "DECISION").None?;
  }

  /** Of eight headings only the first and the fourth are found, at `p` and `q`. */
  predicate OnlyFirstAndFourth(s: string, hs: seq<string>, p: nat, q: nat)
  {
    && |hs| == 8
    && FirstHeading(s, hs[0], 0) == Some(p) && FirstHeading(s, hs[3], 0) == Some(q)
    && FirstHeading(s, hs[1], 0).None? && FirstHeading(s, hs[2], 0).None?
    && FirstHeading(s, hs[4], 0).None? && FirstHeading(s, hs[5], 0).None?
    && FirstHeading(s, hs[6], 0).None? && FirstHeading(s, hs[7], 0).None?
  }

  /** Eight headings of which only the first and the fourth are found give
      those two, in that order. */
  lemma FirstAndFourth(s: string, hs: seq<string>, p: nat, q: nat)
    requires OnlyFirstAndFourth(s, hs, p, q)
    ensures KnownCandidates(s, hs) == Put(Put([], hs[0], p), hs[3], q)
  {
    FirstFour(s, hs, p, q);
    LastFour(s, hs, Put(Put([], hs[0], p), hs[3], q));
  }

  lemma FirstFour(s: string, hs: seq<string>, p: nat, q: nat)
    requires OnlyFirstAndFourth(s, hs, p, q)
    ensures KnownCandidates(s, hs[..4]) == Put(Put([], hs[0], p), hs[3], q)
  {
    var d := Put([], hs[0], p);
    assert hs[..0] == [];
    KnownFound(s, hs, 0, [], p);
    KnownMissed(s, hs, 1, d);
    KnownMissed(s, hs, 2, d);
    KnownFound(s, hs, 3, d, q);
  }

  lemma LastFour(s: string, hs: seq<string>, e: Dict<nat>)
    requires |hs| == 8 && KnownCandidates(s, hs[..4]) == e
    requires FirstHeading(s, hs[4], 0).None? && FirstHeading(s, hs[5], 0).None?
    requires FirstHeading(s, hs[6], 0).None? && FirstHeading(s, hs[7], 0).None?
    ensures KnownCandidates(s, hs) == e
  {
    KnownMissed(s, hs, 4, e);
    KnownMissed(s, hs, 5, e);
    KnownMissed(s, hs, 6, e);
    KnownMissed(s, hs, 7, e);
    assert hs[..8] == hs;
  }

  /** Of the eight known headings only `DIGEST` and `DECISION` are found. */
  lemma KnownInDoc()
    ensures OnlyFirstAndFourth(Doc, KnownOrder, 0, 11)
  {
    KnownOrderNames();
    DigestOnlyAtTop();
    DecisionFound();
    AbsentInitial("BACKGROUND");
    DiscussionAbsent();
    AbsentInitial("CONCLUSION");
    AbsentInitial("RECOMMENDATION");
    AbsentInitial("CONCLUSIONS");
    AbsentInitial("RECOMMENDATIONS");
  }

  lemma DocKnown()
    ensures KnownCandidates(Doc, KnownOrder) == Found
  {
    KnownInDoc();
    KnownOf(Doc);
  }

  lemma KnownOf(s: string)
    requires OnlyFirstAndFourth(s, KnownOrder, 0, 11)
    ensures KnownCandidates(s, KnownOrder) == Found
  {
    FirstAndFourth(s, KnownOrder, 0, 11);
    FoundByPuts();
  }

  lemma FoundByPuts()
    ensures Put(Put([], KnownOrder[0], 0), KnownOrder[3], 11) == Found
  {
    KnownOrderNames();
    PutDigest();
    PutDecision();
  }

  /** The class run after the `D` of `DIGEST` takes the line break too. */
  lemma CapsRunDigest()
    ensures CapsRun(Doc, 1) == 6
  {
    assert Doc[1] == 'I' && Doc[2] == 'G' && Doc[3] == 'E' && Doc[4] == 'S' && Doc[5] == 'T';
    assert Doc[6] == '\n' && Doc[7] == 'f';
    CapsRunIs(Doc, 1, 6);
  }

  /** `CAPS_LINE` takes `DIGEST` with the line break after it and then
      backs off to the end of the line. */
  lemma CapsDigest()
    ensures CapsMatch(Doc, 0) == Some(6)
  {
    CapsRunDigest();
    assert IsCapsLead(Doc[0]);
    assert LineEnd(Doc, 6) && !LineEnd(Doc, 7);
  }

  lemma CapsRunDecision()
    ensures CapsRun(Doc, 12) == 8
  {
    assert Doc[12] == 'E' && Doc[13] == 'C' && Doc[14] == 'I' && Doc[15] == 'S';
    assert Doc[16] == 'I' && Doc[17] == 'O' && Doc[18] == 'N';
    assert Doc[19] == '\n' && Doc[20] == 'b';
    CapsRunIs(Doc, 12, 8);
  }

  lemma CapsDecision()
    ensures CapsMatch(Doc, 11) == Some(19)
  {
    CapsRunDecision();
    assert LineStart(Doc, 11) && IsCapsLead(Doc[11]);
    assert LineEnd(Doc, 19) && !LineEnd(Doc, 20);
  }

  /** The lines `foo` and `bar` start with lower-case letters. */
  lemma NoOtherCaps()
    ensures NoCapsBetween(Doc, 6, 11) && NoCapsBetween(Doc, 19, |Doc|)
  {
    DocLineStarts();
    assert Doc[7] == 'f' && Doc[20] == 'b';
  }

  /** The `CAPS_LINE` scan of a text with matches at 0 and 11 only. */
  lemma CapsMatchesOf(s: string)
    requires |s| == 23 && CapsMatch(s, 0) == Some(6) && CapsMatch(s, 11) == Some(19)
    requires NoCapsBetween(s, 6, 11) && NoCapsBetween(s, 19, |s|)
    ensures CapsMatches(s, 0) == [(0, 6), (11, 19)]
  {
    CapsTakeOne(s, 0, 6);
    CapsBetween(s);
    CapsTakeOne(s, 11, 19);
    CapsAfter(s);
  }

  lemma CapsBetween(s: string)
    requires |s| == 23 && NoCapsBetween(s, 6, 11)
    ensures CapsMatches(s, 6) == CapsMatches(s, 11)
  {
    CapsSkipOne(s, 6);
    CapsSkipOne(s, 7);
    CapsSkipOne(s, 8);
    CapsSkipOne(s, 9);
    CapsSkipOne(s, 10);
  }

  lemma CapsAfter(s: string)
    requires |s| == 23 && NoCapsBetween(s, 19, 23)
    ensures CapsMatches(s, 19) == []
  {
    CapsSkipOne(s, 19);
    CapsSkipOne(s, 20);
    CapsSkipOne(s, 21);
    CapsSkipOne(s, 22);
  }

  lemma DocCapsMatches()
    ensures CapsMatches(Doc, 0) == [(0, 6), (11, 19)]
  {
    CapsDigest();
    CapsDecision();
    NoOtherCaps();
    CapsMatchesOf(Doc);
  }

  /** The two headings and the two bodies as slices of the text. */
  lemma DocPieces()
    ensures Doc[0..6] == "DIGEST" && Doc[11..19] == "DECISION"
    ensures Doc[6..11] == "\nfoo\n" && Doc[19..23] == "\nbar"
  {
  }

  lemma CapsLinesOf(s: string)
    requires |s| >= 19 && CapsMatches(s, 0) == [(0, 6), (11, 19)]
    requires Strip(s[0..6]) == "DIGEST" && Strip(s[11..19]) == "DECISION"
    ensures CapsLines(s) == Found
  {
    var cs := CapsLines(s);
    assert |cs| == 2 && cs[0] == Found[0] && cs[1] == Found[1];
  }

  /** The headings are their own stripped text. */
  lemma HeadingsStripped()
    ensures Strip(Doc[0..6]) == "DIGEST" && Strip(Doc[11..19]) == "DECISION"
  {
    DocPieces();
    StripTrimmed("DIGEST");
    StripTrimmed("DECISION");
  }

  lemma DocCapsLines()
    ensures CapsLines(Doc) == Found
  {
    DocCapsMatches();
    HeadingsStripped();
    CapsLinesOf(Doc);
  }

  /** Lines of capitals that are already candidates change nothing. */
  lemma CapsAlreadyKnown(d: Dict<nat>, cs: seq<(string, nat)>, n: nat)
    requires 0 < n <= |cs| && CapsCandidates(d, cs, n - 1) == d && cs[n - 1].0 in Keys(d)
    ensures CapsCandidates(d, cs, n) == d
  {
    var c := cs[n - 1];
    assert c.0 != SpacedBanner ==> SetDefault(d, c.0, c.1) == d;
  }

  lemma KnownKeys()
    ensures Keys(Found)[0] == "DIGEST" && Keys(Found)[1] == "DECISION"
  {
  }

  /** When the lines of capitals are exactly the known candidates, the
      second loop adds nothing. */
  lemma CandidatesFrom(s: string, d: Dict<nat>)
    requires KnownCandidates(s, KnownOrder) == d && CapsLines(s) == d
    requires |d| == 2 && d[0].0 in Keys(d) && d[1].0 in Keys(d)
    ensures Candidates(s) == d
  {
    CapsAlreadyKnown(d, d, 1);
    CapsAlreadyKnown(d, d, 2);
  }

  /** Both lines of capitals are already candidates, so `setdefault` leaves
      the candidates as the known headings made them. */
  lemma DocCandidates()
    ensures Candidates(Doc) == Found
  {
    DocKnown();
    DocCapsLines();
    KnownKeys();
    CandidatesFrom(Doc, Found);
  }

  /** Two candidates already in position order keep that order. */
  lemma HeadingNamesOfPair(s: string, x: (string, nat), y: (string, nat))
    requires Candidates(s) == [x, y] && x.1 <= y.1
    ensures HeadingNames(s) == [x.0, y.0]
  {
    PairNamesInOrder(x, y);
    assert HeadingNames(s) == Names(SortByPosition(Candidates(s)));
  }

  lemma PairNamesInOrder(x: (string, nat), y: (string, nat))
    requires x.1 <= y.1
    ensures Names(SortByPosition([x, y])) == [x.0, y.0]
  {
    SortedPair(x, y);
    assert Names([x, y]) == [x.0, y.0];
  }

  lemma SortedPair(x: (string, nat), y: (string, nat))
    requires x.1 <= y.1
    ensures SortByPosition([x, y]) == [x, y]
  {
    assert [x, y][..1] == [x];
    assert InsertByPosition(y, [x]) == [x] + InsertByPosition(y, []);
  }

  lemma DocHeadingNames()
    ensures HeadingNames(Doc) == Ordered
  {
    DocCandidates();
    HeadingNamesOfPair(Doc, ("DIGEST", 0), ("DECISION", 11));
  }

  const Ordered: seq<string> := ["DIGEST", "DECISION"]

  lemma DocAlternationHits()
    ensures AlternationMatch(Doc, 0, Ordered) == Some(("DIGEST", 6))
    ensures AlternationMatch(Doc, 11, Ordered) == Some(("DECISION", 19))
  {
    DigestAtTop();
    DecisionAt11();
    DigestNotAt11();
    AlternationHitsOf(Doc);
  }

  lemma DigestNotAt11()
    ensures HeadingMatch(Doc, 11, "DIGEST").None?
  {
    Mismatch(Doc, 11, "DIGEST", 1);
  }

  lemma AlternationHitsOf(s: string)
    requires |s| >= 19 && HeadingMatch(s, 0, "DIGEST") == Some(6)
    requires HeadingMatch(s, 11, "DIGEST").None? && HeadingMatch(s, 11, "DECISION") == Some(19)
    ensures AlternationMatch(s, 0, Ordered) == Some(("DIGEST", 6))
    ensures AlternationMatch(s, 11, Ordered) == Some(("DECISION", 19))
  {
    SecondAlternative(s, 11, Ordered);
  }

  /** The alternation takes its second alternative where only that one matches. */
  lemma SecondAlternative(s: string, q: nat, hs: seq<string>)
    requires q <= |s| && |hs| == 2
    requires HeadingMatch(s, q, hs[0]).None? && HeadingMatch(s, q, hs[1]).Some?
    ensures AlternationMatch(s, q, hs) == Some((hs[1], HeadingMatch(s, q, hs[1]).value))
  {
    assert hs[1..][0] == hs[1];
  }

  lemma DocAlternationMisses()
    ensures NoMarkBetween(Doc, Ordered, 6, 11) && NoMarkBetween(Doc, Ordered, 19, |Doc|)
  {
    DocLineStarts();
    Mismatch(Doc, 7, "DIGEST", 0);
    Mismatch(Doc, 7, "DECISION", 0);
    Mismatch(Doc, 20, "DIGEST", 0);
    Mismatch(Doc, 20, "DECISION", 0);
    forall q | 6 <= q <= |Doc| && q != 11
      ensures AlternationMatch(Doc, q, Ordered).None?
    {
      if q != 7 && q != 20 {
        assert !LineStart(Doc, q);
      }
      NeitherMatches(Doc, q, Ordered);
    }
  }

  lemma MarksBetween(s: string, hs: seq<string>)
    requires NonEmptyNames(hs) && |s| == 23 && NoMarkBetween(s, hs, 6, 11)
    ensures MarksFrom(s, hs, 6) == MarksFrom(s, hs, 11)
  {
    MarksSkipOne(s, hs, 6);
    MarksSkipOne(s, hs, 7);
    MarksSkipOne(s, hs, 8);
    MarksSkipOne(s, hs, 9);
    MarksSkipOne(s, hs, 10);
  }

  lemma MarksAfter(s: string, hs: seq<string>)
    requires NonEmptyNames(hs) && |s| == 23 && NoMarkBetween(s, hs, 19, 23)
    ensures MarksFrom(s, hs, 19) == []
  {
    MarksSkipOne(s, hs, 19);
    MarksSkipOne(s, hs, 20);
    MarksSkipOne(s, hs, 21);
    MarksSkipOne(s, hs, 22);
  }

  /** The marks of a text whose two headings stand at 0 and 11. */
  lemma MarksOf(s: string, hs: seq<string>)
    requires NonEmptyNames(hs) && |s| == 23
    requires AlternationMatch(s, 0, hs) == Some(("DIGEST", 6))
    requires AlternationMatch(s, 11, hs) == Some(("DECISION", 19))
    requires NoMarkBetween(s, hs, 6, 11) && NoMarkBetween(s, hs, 19, |s|)
    requires Strip(s[0..6]) == "DIGEST" && Strip(s[11..19]) == "DECISION"
    ensures MarksFrom(s, hs, 0) == [Mark("DIGEST", 0, 6), Mark("DECISION", 11, 19)]
  {
    MarksFirst(s, hs);
    MarksBetween(s, hs);
    MarksLast(s, hs);
  }

  lemma MarksFirst(s: string, hs: seq<string>)
    requires NonEmptyNames(hs) && |s| == 23
    requires AlternationMatch(s, 0, hs) == Some(("DIGEST", 6))
    requires Strip(s[0..6]) == "DIGEST"
    ensures MarksFrom(s, hs, 0) == [Mark("DIGEST", 0, 6)] + MarksFrom(s, hs, 6)
  {
    MarksTakeOne(s, hs, 0, "DIGEST", 6);
  }

  lemma MarksLast(s: string, hs: seq<string>)
    requires NonEmptyNames(hs) && |s| == 23
    requires AlternationMatch(s, 11, hs) == Some(("DECISION", 19))
    requires NoMarkBetween(s, hs, 19, |s|)
    requires Strip(s[11..19]) == "DECISION"
    ensures MarksFrom(s, hs, 11) == [Mark("DECISION", 11, 19)]
  {
    MarksTakeOne(s, hs, 11, "DECISION", 19);
    MarksAfter(s, hs);
  }

  lemma DocMarks()
    ensures HeadingMarks(Doc) == [Mark("DIGEST", 0, 6), Mark("DECISION", 11, 19)]
  {
    DocHeadingNames();
    HeadingNamesFacts(Doc);
    DocAlternationHits();
    DocAlternationMisses();
    HeadingsStripped();
    MarksOf(Doc, Ordered);
  }

  /** Each body loses the line breaks around it. */
  lemma FooStripped()
    ensures Strip("\nfoo\n") == "foo"
  {
    LeadingSpacesIs("\nfoo\n", 1);
    assert "\nfoo\n"[1..] == "foo\n";
    assert TrailingSpaces("foo\n") == 1 by {
      assert "foo\n"[..3] == "foo";
    }
  }

  lemma BarStripped()
    ensures Strip("\nbar") == "bar"
  {
    LeadingSpacesIs("\nbar", 1);
    assert "\nbar"[1..] == "bar";
  }

  lemma BodiesStripped()
    ensures Strip(Doc[6..11]) == "foo" && Strip(Doc[19..23]) == "bar"
  {
    DocPieces();
    FooStripped();
    BarStripped();
  }

  /** Assigning two different keys in turn keeps both, in order. */
  lemma FromTwoPairs<V>(a: (string, V), b: (string, V))
    requires a.0 != b.0
    ensures FromPairs([a, b]) == [a, b]
  {
    assert [a, b][..1] == [a];
    FromOnePair(a);
    assert IndexOf([a], b.0).None?;
    assert Put([a], b.0, b.1) == [a] + [(b.0, b.1)];
  }

  /** The pairs of the two marks: each heading with the stripped text after it. */
  lemma PairsOf(s: string, ms: seq<Mark>)
    requires |s| == 23 && ms == [Mark("DIGEST", 0, 6), Mark("DECISION", 11, 19)]
    requires Strip(s[6..11]) == "foo" && Strip(s[19..23]) == "bar"
    ensures MarksInOrder(s, ms)
    ensures SectionPairs(s, ms) == [("DIGEST", "foo"), ("DECISION", "bar")]
  {
    assert BodyEnd(s, ms, 0) == 11 && BodyEnd(s, ms, 1) == 23;
  }

  /** The sections of a normalised text with `DIGEST` at 0 and `DECISION` at 11. */
  lemma SectionsOf(s: string, isWord: char -> bool)
    requires NormalizeText(s, isWord) == s && |s| == 23 && Candidates(s) == Found
    requires HeadingMarks(s) == [Mark("DIGEST", 0, 6), Mark("DECISION", 11, 19)]
    requires Strip(s[6..11]) == "foo" && Strip(s[19..23]) == "bar"
    ensures Sections(s, isWord) == [("DIGEST", "foo"), ("DECISION", "bar")]
  {
    PairsOf(s, HeadingMarks(s));
    DocSectionPairs();
    SectionsFromPairs(s, isWord);
  }

  lemma DocSectionPairs()
    ensures FromPairs([("DIGEST", "foo"), ("DECISION", "bar")]) == [("DIGEST", "foo"), ("DECISION", "bar")]
  {
    assert "DIGEST"[1] != "DECISION"[1];
    FromTwoPairs(("DIGEST", "foo"), ("DECISION", "bar"));
  }

  /** `split_sections("DIGEST\nfoo\nDECISION\nbar")` is
      `{"DIGEST": "foo", "DECISION": "bar"}`, keys in document order. */
  lemma DocSections(isWord: char -> bool)
    ensures Sections(Doc, isWord) == [("DIGEST", "foo"), ("DECISION", "bar")]
  {
    DocNormalized(isWord);
    DocCandidates();
    DocMarks();
    BodiesStripped();
    SectionsOf(Doc, isWord);
  }
}
