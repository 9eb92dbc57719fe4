/** `clean_report_text`: right-strip every line, drop the lines of the
    decision's printed masthead and footers, delete docket numbers left
    standing alone between line breaks, then normalise. */
module Cleaner {
  import opened Chars
  import opened TextOps
  import opened Optionals
  import opened Normalizer

  predicate EqualsIgnoringCase(a: string, b: string)
  {
    |a| == |b| && forall i :: 0 <= i < |a| ==> SameIgnoringCase(a[i], b[i])
  }

  predicate StartsWithIgnoringCase(s: string, prefix: string)
  {
    |prefix| <= |s| && EqualsIgnoringCase(s[..|prefix|], prefix)
  }

  /** `\b` at position `i` of `s`. */
  predicate WordBoundary(s: string, i: nat, isWord: char -> bool)
    requires i <= |s|
  {
    (i > 0 && isWord(s[i - 1])) != (i < |s| && isWord(s[i]))
  }

  /** The number of digits `s` starts with. */
  function DigitRun(s: string): (n: nat)
    ensures n <= |s|
    ensures forall i :: 0 <= i < n ==> IsDigit(s[i])
    ensures n < |s| ==> !IsDigit(s[n])
  {
    if s == [] || !IsDigit(s[0]) then 0 else 1 + DigitRun(s[1..])
  }

  /** `^441 G St\. N\.W\.$` */
  predicate IsStreetLine(l: string)
  {
    EqualsIgnoringCase(l, "441 G St. N.W.")
  }

  /** `^Washington, DC\b.*$` */
  predicate IsCityLine(l: string, isWord: char -> bool)
  {
    StartsWithIgnoringCase(l, "Washington, DC") && WordBoundary(l, 14, isWord)
  }

  /** `^Comptroller General\b.*$` */
  predicate IsMastheadLine(l: string, isWord: char -> bool)
  {
    StartsWithIgnoringCase(l, "Comptroller General") && WordBoundary(l, 19, isWord)
  }

  /** `^of the United States$` */
  predicate IsMastheadTail(l: string)
  {
    EqualsIgnoringCase(l, "of the United States")
  }

  /** `^U\.?S\.? Government Accountability Office$`: each dot may be absent. */
  predicate IsAgencyLine(l: string)
  {
    || EqualsIgnoringCase(l, "U.S. Government Accountability Office")
    || EqualsIgnoringCase(l, "U.S Government Accountability Office")
    || EqualsIgnoringCase(l, "US. Government Accountability Office")
    || EqualsIgnoringCase(l, "US Government Accountability Office")
  }

  /** `^www\.gao\.gov$` */
  predicate IsWebLine(l: string)
  {
    EqualsIgnoringCase(l, "www.gao.gov")
  }

  /** `^Page\s+\d+\s*$`: `Page`, whitespace, digits, optional whitespace. */
  predicate IsPageFooter(l: string)
  {
    && StartsWithIgnoringCase(l, "Page")
    && var gap := LeadingSpaces(l[4..]);
    && gap >= 1
    && var number := l[4 + gap..];
    && DigitRun(number) >= 1
    && AllSpace(number[DigitRun(number)..])
  }

  /** What follows the digits of a docket number: `(\.\d+)?\s*$`. */
  predicate IsDocketTail(t: string)
  {
    || AllSpace(t)
    || (|t| >= 2 && t[0] == '.' && DigitRun(t[1..]) >= 1 && AllSpace(t[1 + DigitRun(t[1..])..]))
  }

  /** `^B-\d{4,7}(\.\d+)?\s*$`: a docket number standing alone.  Five or more
      leading digits past the seventh cannot match, since `{4,7}` must be
      followed by a dot, whitespace or the end. */
  predicate IsDocketLine(l: string)
  {
    && |l| >= 2 && SameIgnoringCase(l[0], 'B') && l[1] == '-'
    && 4 <= DigitRun(l[2..]) <= 7
    && IsDocketTail(l[2 + DigitRun(l[2..])..])
  }

  /** `^\s*~+\s*$|^\s*–+\s*$|^\s*-{2,}\s*$`: once the whitespace round it is
      stripped, a line of tildes, of en dashes, or of two or more hyphens. */
  predicate IsRuleLine(l: string)
  {
    var core := Strip(l);
    || (|core| >= 1 && forall i :: 0 <= i < |core| ==> core[i] == '~')
    || (|core| >= 1 && forall i :: 0 <= i < |core| ==> core[i] == '\U{2013}')
    || (|core| >= 2 && forall i :: 0 <= i < |core| ==> core[i] == '-')
  }

  /** The compiled `drop_rx`, searched in a line: every alternative is
      anchored at both ends, so searching is matching the whole line. */
  predicate IsBoilerplate(l: string, isWord: char -> bool)
  {
    || IsStreetLine(l) || IsCityLine(l, isWord) || IsMastheadLine(l, isWord)
    || IsMastheadTail(l) || IsAgencyLine(l) || IsWebLine(l)
    || IsPageFooter(l) || IsDocketLine(l) || IsRuleLine(l)
  }

  /** `[l.rstrip() for l in txt.split("\n")]`: one line per piece, each the
      piece with its trailing whitespace, and only that, cut off. */
  function StrippedLines(txt: string): (r: seq<string>)
    ensures |r| == |SplitLines(txt)|
    ensures forall i :: 0 <= i < |r| ==> r[i] <= SplitLines(txt)[i] && AllSpace(SplitLines(txt)[i][|r[i]|..])
    ensures forall i :: 0 <= i < |r| ==> NoTrailingSpace(r[i]) && '\n' !in r[i]
  {
    var pieces := SplitLines(txt);
    SplitLinesNoBreak(txt);
    var r := seq(|pieces|, i requires 0 <= i < |pieces| => RStrip(pieces[i]));
    assert forall i :: 0 <= i < |r| ==> r[i] <= pieces[i] && '\n' !in pieces[i];
    r
  }

  /** `[l for l in lines if not drop_rx.search(l)]` */
  function DropBoilerplate(lines: seq<string>, isWord: char -> bool): (kept: seq<string>)
    ensures forall l :: l in kept <==> l in lines && !IsBoilerplate(l, isWord)
    ensures |kept| <= |lines|
  {
    if lines == [] then []
    else (if IsBoilerplate(lines[0], isWord) then [] else [lines[0]]) + DropBoilerplate(lines[1..], isWord)
  }

  /** Filtering distributes over concatenation: the kept lines keep their
      order and every kept occurrence is kept once. */
  lemma {:induction false} DropBoilerplateAppend(a: seq<string>, b: seq<string>, isWord: char -> bool)
    ensures DropBoilerplate(a + b, isWord) == DropBoilerplate(a, isWord) + DropBoilerplate(b, isWord)
  {
    if a == [] {
      assert a + b == b;
    } else {
      var head := if IsBoilerplate(a[0], isWord) then [] else [a[0]];
      AppendTail(a, b);
      DropBoilerplateAppend(a[1..], b, isWord);
      Assoc(head, DropBoilerplate(a[1..], isWord), DropBoilerplate(b, isWord));
    }
  }

  /** One line: boilerplate vanishes, anything else stays. */
  lemma DropBoilerplateOne(l: string, isWord: char -> bool)
    ensures DropBoilerplate([l], isWord) == if IsBoilerplate(l, isWord) then [] else [l]
  {
    assert [l][1..] == [];
  }

  /** The lines `clean_report_text` keeps, in order. */
  function KeptLines(txt: string, isWord: char -> bool): (kept: seq<string>)
    ensures forall l :: l in kept ==> !IsBoilerplate(l, isWord) && NoTrailingSpace(l) && '\n' !in l
  {
    SplitLinesNoBreak(txt);
    DropBoilerplate(StrippedLines(txt), isWord)
  }

  /** The end of a match of `\s*\n` at the start of `s`: `\s*` takes the whole
      whitespace run and gives back characters until a line break follows. */
  function SpacesThenNewline(s: string): (r: Option<nat>)
    ensures r.Some? ==> 1 <= r.value <= |s| && s[r.value - 1] == '\n'
    ensures r.Some? ==> AllSpace(s[..r.value])
  {
    LastNewlineBefore(s, LeadingSpaces(s))
  }

  /** One past the last line break among `s[..k]`. */
  function LastNewlineBefore(s: string, k: nat): (r: Option<nat>)
    requires k <= |s| && AllSpace(s[..k])
    ensures r.Some? ==> 1 <= r.value <= k && s[r.value - 1] == '\n'
    ensures r.Some? ==> AllSpace(s[..r.value])
    ensures r.None? ==> forall i :: 0 <= i < k ==> s[i] != '\n'
  {
    if k == 0 then None
    else if s[k - 1] == '\n' then Some(k)
    else LastNewlineBefore(s, k - 1)
  }

  /** The length of a match of `\n\s*B-\d{4,7}(\.\d+)?\s*\n` at the start of `s`. */
  function DocketSandwich(s: string): (r: Option<nat>)
    ensures r.Some? ==> 2 <= r.value <= |s| && s[0] == '\n' && s[r.value - 1] == '\n'
  {
    if s == [] || s[0] != '\n' then None
    else
      var b := 1 + LeadingSpaces(s[1..]);
      if !(b + 1 < |s| && s[b] == 'B' && s[b + 1] == '-') then None
      else
        var digits := DigitRun(s[b + 2..]);
        if !(4 <= digits <= 7) then None
        else
          var after := b + 2 + digits;
          var tail :=
            if after + 1 < |s| && s[after] == '.' && IsDigit(s[after + 1])
            then after + 1 + DigitRun(s[after + 1..])
            else after;
          match SpacesThenNewline(s[tail..])
          case Some(n) => Some(tail + n)
          case None => None
  }

  /** `re.sub(r"\n\s*B-\d{4,7}(\.\d+)?\s*\n", "\n", s)`. */
  function RemoveDocketSandwiches(s: string): (r: string)
    ensures |r| <= |s|
  {
    if s == [] then []
    else match DocketSandwich(s)
      case Some(n) => "\n" + RemoveDocketSandwiches(s[n..])
      case None => [s[0]] + RemoveDocketSandwiches(s[1..])
  }

  /** `clean_report_text(txt)`: like `normalize_text`, its output is empty for
      an empty input, has no carriage return, no three line breaks in a row
      and no whitespace at either end. */
  function CleanReportText(txt: string, isWord: char -> bool): (r: string)
    ensures txt == [] ==> r == []
    ensures '\r' !in r && NoTripleNewline(r) && Trimmed(r)
  {
    if txt == [] then []
    else NormalizeText(RemoveDocketSandwiches(JoinLines(KeptLines(txt, isWord))), isWord)
  }

  /** Page footers, in any case and with any spacing, are never kept. */
  lemma PageFootersDropped(txt: string, isWord: char -> bool)
    ensures "Page 4" !in KeptLines(txt, isWord)
    ensures forall l :: l in KeptLines(txt, isWord) ==> !IsPageFooter(l)
  {
    var l := "Page 4";
    assert l[4..] == " 4" && LeadingSpaces(l[4..]) == 1;
    assert l[5..] == "4" && DigitRun(l[5..]) == 1;
    assert IsPageFooter(l);
  }

  /** A bare docket-number line is never kept. */
  lemma DocketLinesDropped(txt: string, isWord: char -> bool)
    ensures "B-123456" !in KeptLines(txt, isWord)
    ensures "b-1234.5" !in KeptLines(txt, isWord)
  {
    BareDocketLine();
    DottedDocketLine();
  }

  lemma BareDocketLine()
    ensures IsDocketLine("B-123456")
  {
    var l := "B-123456";
    DigitRunIs(l[2..], 6);
    assert l[8..] == [] && IsDocketTail(l[8..]);
  }

  lemma DottedDocketLine()
    ensures IsDocketLine("b-1234.5")
  {
    var m := "b-1234.5";
    DigitRunIs(m[2..], 4);
    var t := m[6..];
    assert t == ".5";
    DigitRunIs(t[1..], 1);
    assert t[2..] == [] && IsDocketTail(t);
  }

  /** A heading standing alone on its line, such as `DISCUSSION`, is kept. */
  lemma HeadingLineKept(a: string, b: string, isWord: char -> bool)
    ensures "DISCUSSION" in KeptLines(a + "\nDISCUSSION\n" + b, isWord)
  {
    var l := "DISCUSSION";
    var txt := a + "\nDISCUSSION\n" + b;
    assert txt == a + "\n" + l + "\n" + b;
    LineStandingAlone(a, l, b);
    var pieces := SplitLines(txt);
    var i :| 0 <= i < |pieces| && pieces[i] == l;
    assert RStrip(l) == l;
    assert StrippedLines(txt)[i] == l;
    DiscussionIsNotBoilerplate(isWord);
  }

  /** Each masthead and footer pattern drops the line it was written for,
      in any case. */
  lemma MastheadLinesDropped(isWord: char -> bool)
    requires isWord('C') && isWord('l')
    ensures IsBoilerplate("441 G St. N.W.", isWord)
    ensures IsBoilerplate("WASHINGTON, DC", isWord)
    ensures IsBoilerplate("Comptroller General", isWord)
    ensures IsBoilerplate("of the United States", isWord)
    ensures IsBoilerplate("US Government Accountability Office", isWord)
    ensures IsBoilerplate("www.gao.gov", isWord)
  {
    assert IsStreetLine("441 G St. N.W.");
    assert IsCityLine("WASHINGTON, DC", isWord) by {
      assert "WASHINGTON, DC"[..14] == "WASHINGTON, DC";
    }
    assert IsMastheadLine("Comptroller General", isWord) by {
      assert "Comptroller General"[..19] == "Comptroller General";
    }
    assert IsMastheadTail("of the United States");
    assert IsAgencyLine("US Government Accountability Office");
    assert IsWebLine("www.gao.gov");
  }

  /** Rule lines of tildes, en dashes or two or more hyphens are dropped,
      with whitespace round them; a single hyphen is kept. */
  lemma RuleLinesDropped(isWord: char -> bool)
    ensures IsBoilerplate(" ~~~ ", isWord)
    ensures IsBoilerplate("\U{2013}\U{2013}", isWord)
    ensures IsBoilerplate("--", isWord)
    ensures !IsBoilerplate("-", isWord)
  {
    TildeRule();
    EnDashRule();
    HyphenRule();
    SingleHyphenKept(isWord);
  }

  lemma TildeRule()
    ensures IsRuleLine(" ~~~ ")
  {
    RuleCore(" ~~~ ", 1, 1);
    assert Strip(" ~~~ ") == "~~~";
  }

  lemma EnDashRule()
    ensures IsRuleLine("\U{2013}\U{2013}")
  {
    RuleCore("\U{2013}\U{2013}", 0, 0);
    assert Strip("\U{2013}\U{2013}") == "\U{2013}\U{2013}";
  }

  lemma HyphenRule()
    ensures IsRuleLine("--")
  {
    RuleCore("--", 0, 0);
    assert Strip("--") == "--";
  }

  lemma SingleHyphenKept(isWord: char -> bool)
    ensures !IsBoilerplate("-", isWord)
  {
    var l := "-";
    RuleCore(l, 0, 0);
    assert Strip(l) == l;
    assert !SameIgnoringCase(l[0], 'B');
  }

  lemma RuleCore(l: string, lead: nat, trail: nat)
    requires lead <= |l| && trail <= |l| - lead
    requires (forall i :: 0 <= i < lead ==> IsSpace(l[i])) && (lead < |l| ==> !IsSpace(l[lead]))
    requires (forall i :: |l| - trail <= i < |l| ==> IsSpace(l[i]))
    requires trail < |l| - lead ==> !IsSpace(l[|l| - trail - 1])
    ensures Strip(l) == l[lead..|l| - trail]
  {
    LeadingSpacesIs(l, lead);
    var t := l[lead..];
    TrailingSpacesIs(t, trail);
  }

  lemma DiscussionIsNotBoilerplate(isWord: char -> bool)
    ensures !IsBoilerplate("DISCUSSION", isWord)
  {
    DiscussionIsNotMasthead(isWord);
    DiscussionIsNotFooter();
    DiscussionIsNotRule();
  }

  lemma DiscussionIsNotMasthead(isWord: char -> bool)
    ensures var l := "DISCUSSION";
      !IsStreetLine(l) && !IsCityLine(l, isWord) && !IsMastheadLine(l, isWord)
      && !IsMastheadTail(l) && !IsAgencyLine(l) && !IsWebLine(l)
  {
    var l := "DISCUSSION";
    assert |l| == 10 && l[0] == 'D' && l[9] == 'N';
    assert !SameIgnoringCase(l[0], 'P') && !SameIgnoringCase(l[0], 'B');
  }

  lemma DiscussionIsNotFooter()
    ensures !IsPageFooter("DISCUSSION") && !IsDocketLine("DISCUSSION")
  {
    var l := "DISCUSSION";
    assert !EqualsIgnoringCase(l[..4], "Page") by {
      assert !SameIgnoringCase(l[..4][0], "Page"[0]);
    }
    assert !SameIgnoringCase(l[0], 'B');
  }

  lemma DiscussionIsNotRule()
    ensures !IsRuleLine("DISCUSSION")
  {
    StripTrimmed("DISCUSSION");
  }

  /** The first match of the docket-sandwich pattern in a text that starts with
      a bare docket line. */
  lemma DocketSandwichAtStart(b: string)
    requires b == [] || !IsSpace(b[0])
    ensures DocketSandwich("\nB-123456\n" + b) == Some(10)
  {
    var s := "\nB-123456\n" + b;
    var d, t := "\nB-123456", "\n" + b;
    assert "\nB-123456\n" == d + "\n";
    Assoc(d, "\n", b);
    DropPrefix(d, t);
    LeadingSpacesIs(s[1..], 0);
    DigitRunIs(s[3..], 6);
    LeadingSpacesIs(t, 1);
    assert LastNewlineBefore(t, 1) == Some(1);
  }

  /** `DigitRun` is pinned down by where the digits stop. */
  lemma DigitRunIs(x: string, k: nat)
    requires k <= |x| && (forall i :: 0 <= i < k ==> IsDigit(x[i]))
    requires k < |x| ==> !IsDigit(x[k])
    ensures DigitRun(x) == k
  {
  }

  /** A docket number alone between two line breaks is cut out together with
      one of the breaks. */
  lemma DocketSandwichRemoved(a: string, b: string)
    requires '\n' !in a
    requires b == [] || !IsSpace(b[0])
    ensures RemoveDocketSandwiches(a + "\nB-123456\n" + b) == a + "\n" + RemoveDocketSandwiches(b)
  {
    var d := "\nB-123456\n";
    Assoc(a, d, b);
    RemoveSkipsLine(a, d + b);
    DocketSandwichAtStart(b);
    DropPrefix(d, b);
    RemoveCut(d + b, 10);
    Assoc(a, "\n", RemoveDocketSandwiches(b));
  }

  /** No sandwich starts inside text without a line break: it is kept whole. */
  lemma {:induction false} RemoveSkipsLine(a: string, t: string)
    requires '\n' !in a
    ensures RemoveDocketSandwiches(a + t) == a + RemoveDocketSandwiches(t)
  {
    if a == [] {
      assert a + t == t;
    } else {
      AppendTail(a, t);
      assert a[0] in a;
      RemoveKeep(a + t);
      RemoveSkipsLine(a[1..], t);
      Recons(a, RemoveDocketSandwiches(t));
    }
  }

  /** A text in which no docket sandwich starts anywhere comes back unchanged. */
  lemma {:induction false} RemoveNoSandwich(s: string)
    requires forall i :: 0 <= i < |s| ==> DocketSandwich(s[i..]).None?
    ensures RemoveDocketSandwiches(s) == s
  {
    if s != [] {
      assert s[0..] == s;
      assert forall i :: 0 <= i < |s| - 1 ==> s[1..][i..] == s[i + 1..];
      RemoveNoSandwich(s[1..]);
    }
  }

  /** A text in which a docket sandwich starts somewhere comes back shorter. */
  lemma {:induction false} RemoveShrinks(s: string, i: nat)
    requires i < |s| && DocketSandwich(s[i..]).Some?
    ensures |RemoveDocketSandwiches(s)| < |s|
  {
    if DocketSandwich(s).None? {
      assert i > 0 && s[1..][i - 1..] == s[i..];
      RemoveShrinks(s[1..], i - 1);
    }
  }

  /** `re.sub` leaves the text unchanged exactly when the pattern matches nowhere. */
  lemma RemoveUnchangedIff(s: string)
    ensures RemoveDocketSandwiches(s) == s <==> forall i :: 0 <= i < |s| ==> DocketSandwich(s[i..]).None?
  {
    if forall i :: 0 <= i < |s| ==> DocketSandwich(s[i..]).None? {
      RemoveNoSandwich(s);
    } else {
      var i :| 0 <= i < |s| && DocketSandwich(s[i..]).Some?;
      RemoveShrinks(s, i);
    }
  }

  /** A text not starting with a line break keeps its first character. */
  lemma RemoveKeep(s: string)
    requires s != [] && s[0] != '\n'
    ensures RemoveDocketSandwiches(s) == [s[0]] + RemoveDocketSandwiches(s[1..])
  {
  }

  /** A sandwich at the start is replaced by one line break. */
  lemma RemoveCut(s: string, n: nat)
    requires s != [] && DocketSandwich(s) == Some(n)
    ensures RemoveDocketSandwiches(s) == "\n" + RemoveDocketSandwiches(s[n..])
  {
  }
}
