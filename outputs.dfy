/** The two pure pieces of `write_outputs`: the section map stored in each
    record's JSON metadata, and the name of the record's worksheet in the
    review workbook. */
module Outputs {
  import opened Optionals
  import opened Chars
  import opened TextOps
  import opened OrderedDict
  import opened Sanitizer
  import opened Segmenter

  /** The comprehension's condition `v and v.strip() and k != "Full Report Text"`. */
  predicate Keeps(k: string, v: string)
  {
    v != [] && Strip(v) != [] && k != FullReportKey
  }

  /** The pairs the comprehension emits, in the order of `sections.items()`. */
  function KeptPairs(d: Dict<string>): (ps: seq<(string, string)>)
    ensures |ps| <= |d|
    ensures forall i :: 0 <= i < |ps| ==> ps[i].0 != FullReportKey && ControlFree(ps[i].1)
  {
    if d == [] then []
    else
      var last := d[|d| - 1];
      KeptPairs(d[..|d| - 1]) + (if Keeps(last.0, last.1) then [(last.0, Sanitize(Some(last.1)))] else [])
  }

  /** `sections_clean`: the comprehension assigns the kept pairs one by one. */
  function CleanSections(d: Dict<string>): (r: Dict<string>)
    ensures UniqueKeys(r)
  {
    FromPairs(KeptPairs(d))
  }

  /** A section survives exactly when its value holds something besides
      whitespace and its name is not the fallback key; a survivor is stored
      with its control characters deleted, and nothing else is stored. */
  lemma CleanSectionsGet(d: Dict<string>, k: string)
    requires UniqueKeys(d)
    ensures Get(CleanSections(d), k) ==
      (match Get(d, k)
       case Some(v) => if Keeps(k, v) then Some(Sanitize(Some(v))) else None
       case None => None)
  {
    FromPairsGet(KeptPairs(d), k);
    match IndexOf(d, k)
    case Some(i) =>
      KeptLast(d, i);
    case None =>
      KeptAbsent(d, k);
  }

  lemma {:induction false} KeptLast(d: Dict<string>, i: nat)
    requires UniqueKeys(d) && i < |d|
    ensures LastValue(KeptPairs(d), d[i].0) ==
      if Keeps(d[i].0, d[i].1) then Some(Sanitize(Some(d[i].1))) else None
  {
    var init, last := d[..|d| - 1], d[|d| - 1];
    var extra := if Keeps(last.0, last.1) then [(last.0, Sanitize(Some(last.1)))] else [];
    assert KeptPairs(d) == KeptPairs(init) + extra;
    if i == |d| - 1 {
      assert forall j :: 0 <= j < |init| ==> init[j].0 != last.0 by {
        forall j | 0 <= j < |init| ensures init[j].0 != last.0 {
          assert init[j] == d[j];
        }
      }
      KeptAbsent(init, last.0);
      if Keeps(last.0, last.1) {
        assert (KeptPairs(init) + extra)[..|KeptPairs(init)|] == KeptPairs(init);
      } else {
        assert KeptPairs(init) + extra == KeptPairs(init);
      }
    } else {
      assert init[i] == d[i] && last.0 != d[i].0;
      assert UniqueKeys(init);
      KeptLast(init, i);
      if Keeps(last.0, last.1) {
        LastValueSkip(KeptPairs(init), (last.0, Sanitize(Some(last.1))), d[i].0);
      } else {
        assert KeptPairs(init) + extra == KeptPairs(init);
      }
    }
  }

  /** A pair under another key does not change what a key was last given. */
  lemma LastValueSkip(ps: seq<(string, string)>, x: (string, string), k: string)
    requires x.0 != k
    ensures LastValue(ps + [x], k) == LastValue(ps, k)
  {
    assert (ps + [x])[..|ps|] == ps;
  }

  lemma {:induction false} KeptAbsent(d: Dict<string>, k: string)
    requires forall j :: 0 <= j < |d| ==> d[j].0 != k
    ensures LastValue(KeptPairs(d), k) == None
  {
    if d != [] {
      var init := d[..|d| - 1];
      assert forall j :: 0 <= j < |init| ==> init[j] == d[j];
      KeptAbsent(init, k);
      var last := d[|d| - 1];
      if Keeps(last.0, last.1) {
        assert KeptPairs(d) == KeptPairs(init) + [(last.0, Sanitize(Some(last.1)))];
      } else {
        assert KeptPairs(d) == KeptPairs(init);
      }
    }
  }

  /** The metadata never carries the fallback key, and every value it holds
      is free of control characters. */
  lemma CleanSectionsShape(d: Dict<string>)
    ensures FullReportKey !in Keys(CleanSections(d))
    ensures forall i :: 0 <= i < |CleanSections(d)| ==> ControlFree(CleanSections(d)[i].1)
  {
    var ps := KeptPairs(d);
    FromPairsKeys(ps);
    FirstOccurrencesMembers(Keys(ps));
    forall i | 0 <= i < |CleanSections(d)|
      ensures ControlFree(CleanSections(d)[i].1)
    {
      var k := CleanSections(d)[i].0;
      assert Keys(CleanSections(d))[i] == k;
      FromPairsGet(ps, k);
      LastValueFrom(ps, k);
      UniqueGet(CleanSections(d), i);
    }
  }

  /** A value the pairs assign comes from one of them. */
  lemma {:induction false} LastValueFrom(ps: seq<(string, string)>, k: string)
    ensures LastValue(ps, k).Some? ==> exists i :: 0 <= i < |ps| && ps[i] == (k, LastValue(ps, k).value)
  {
    if ps != [] && ps[|ps| - 1].0 != k {
      LastValueFrom(ps[..|ps| - 1], k);
      if LastValue(ps, k).Some? {
        var i :| 0 <= i < |ps| - 1 && ps[..|ps| - 1][i] == (k, LastValue(ps, k).value);
        assert ps[i] == (k, LastValue(ps, k).value);
      }
    } else if ps != [] {
      assert ps[|ps| - 1] == (k, LastValue(ps, k).value);
    }
  }

  /** In a dictionary with distinct keys, looking a key up finds its pair. */
  lemma UniqueGet(d: Dict<string>, i: nat)
    requires UniqueKeys(d) && i < |d|
    ensures Get(d, d[i].0) == Some(d[i].1)
  {
    match IndexOf(d, d[i].0)
    case Some(j) =>
      assert j == i;
    case None =>
      assert false;
  }

  /** A section made only of a control character that is not whitespace
      passes the blank test before it is sanitised, so it is stored as an
      empty value. */
  lemma ControlOnlySectionStoredEmpty()
    ensures CleanSections([("DIGEST", "\U{01}")]) == [("DIGEST", "")]
  {
    var d := [("DIGEST", "\U{01}")];
    assert !IsSpace('\U{01}');
    assert Strip("\U{01}") != [];
    assert Keeps("DIGEST", "\U{01}");
    assert d[..0] == [];
    assert KeptPairs(d) == [("DIGEST", "")];
    assert FromPairs(KeptPairs(d))[..0] == [];
  }

  /** A one-character section of a control character: the whitespace ones
      (`\x0b`, `\x0c`, `\x1c` to `\x1f`) fail the blank test and the
      section is dropped; any other is stored as an empty value. */
  lemma ControlSectionFate(k: string, c: char)
    requires IsControl(c) && k != FullReportKey
    ensures CleanSections([(k, [c])]) == if IsSpace(c) then [] else [(k, "")]
  {
    var d := [(k, [c])];
    assert d[..0] == [];
    if IsSpace(c) {
      assert Strip([c]) == [];
      assert KeptPairs(d) == [];
    } else {
      assert Strip([c]) != [];
      assert Sanitize(Some([c])) == "";
      assert KeptPairs(d) == [(k, "")];
      assert FromPairs(KeptPairs(d))[..0] == [];
    }
  }

  /** The characters the sheet-name substitution turns into `_`: backslash,
      slash, star, question mark, colon and both square brackets.  A worksheet
      name may hold none of them. */
  predicate SheetForbidden(c: char)
  {
    c == '\\' || c == '/' || c == '*' || c == '?' || c == ':' || c == '[' || c == ']'
  }

  function ReplaceForbidden(s: string): (r: string)
    ensures |r| == |s|
  {
    if s == [] then [] else [if SheetForbidden(s[0]) then '_' else s[0]] + ReplaceForbidden(s[1..])
  }

  /** Replacing touches the forbidden characters and only them. */
  lemma {:induction false} ReplaceForbiddenAt(s: string, i: nat)
    requires i < |s|
    ensures ReplaceForbidden(s)[i] == if SheetForbidden(s[i]) then '_' else s[i]
    ensures !SheetForbidden(ReplaceForbidden(s)[i])
  {
    if i > 0 {
      ReplaceForbiddenAt(s[1..], i - 1);
    }
  }

  /** `f"Item {idx}"`. */
  function ItemLabel(idx: nat): string
  {
    "Item " + DecimalString(idx)
  }

  /** `row["file_number"] or row["title"] or f"Item {idx}"`, where the row
      holds the sanitised base fields. */
  function SheetSource(fileNumber: string, title: string, idx: nat): (r: string)
    ensures r != []
  {
    var fn := Sanitize(Some(fileNumber));
    var t := Sanitize(Some(title));
    if fn != [] then fn else if t != [] then t else ItemLabel(idx)
  }

  /** The sheet name of the `idx`-th record: the replaced source cut to 31
      characters, or `f"Item {idx}"` when that comes out empty. */
  function SheetName(fileNumber: string, title: string, idx: nat): (r: string)
    ensures r != [] && |r| <= 31
    ensures forall i :: 0 <= i < |r| ==> !SheetForbidden(r[i])
  {
    var cut := ReplaceForbidden(SheetSource(fileNumber, title, idx));
    ReplaceForbiddenClean(SheetSource(fileNumber, title, idx));
    var name := if |cut| <= 31 then cut else cut[..31];
    if name != [] then name else ItemLabel(idx)
  }

  lemma ReplaceForbiddenClean(s: string)
    ensures forall i :: 0 <= i < |ReplaceForbidden(s)| ==> !SheetForbidden(ReplaceForbidden(s)[i])
  {
    forall i | 0 <= i < |s|
      ensures !SheetForbidden(ReplaceForbidden(s)[i])
    {
      ReplaceForbiddenAt(s, i);
    }
  }

  /** A sheet name is never empty, never longer than 31 characters and holds
      no forbidden character; it is the replaced source cut to 31 characters,
      so the trailing `or f"Item {idx}"` never applies. */
  lemma SheetNameFacts(fileNumber: string, title: string, idx: nat)
    ensures var r := SheetName(fileNumber, title, idx);
      && r != [] && |r| <= 31
      && (forall i :: 0 <= i < |r| ==> !SheetForbidden(r[i]))
      && var src := SheetSource(fileNumber, title, idx);
         |r| == (if |src| <= 31 then |src| else 31)
         && forall i :: 0 <= i < |r| ==> r[i] == if SheetForbidden(src[i]) then '_' else src[i]
  {
    var src := SheetSource(fileNumber, title, idx);
    var r := SheetName(fileNumber, title, idx);
    forall i | 0 <= i < |r|
      ensures !SheetForbidden(r[i])
      ensures r[i] == if SheetForbidden(src[i]) then '_' else src[i]
    {
      ReplaceForbiddenAt(src, i);
    }
  }

  /** A file number that is already a valid sheet name is used as it is. */
  lemma PlainFileNumberIsSheetName(fileNumber: string, title: string, idx: nat)
    requires ControlFree(fileNumber) && fileNumber != [] && |fileNumber| <= 31
    requires forall i :: 0 <= i < |fileNumber| ==> !SheetForbidden(fileNumber[i])
    ensures SheetName(fileNumber, title, idx) == fileNumber
  {
    WithoutControlsKeepsClean(fileNumber);
    SheetNameFacts(fileNumber, title, idx);
  }

  /** With neither a file number nor a title the sheet is `Item {idx}`, for
      any index of at most 26 digits. */
  lemma UnnamedItemSheet(fileNumber: string, title: string, idx: nat)
    requires Sanitize(Some(fileNumber)) == [] && Sanitize(Some(title)) == []
    requires idx < Pow10(26)
    ensures SheetName(fileNumber, title, idx) == ItemLabel(idx)
  {
    DecimalLength(idx, 26);
    ItemLabelPlain(idx);
    ReplaceForbiddenKeepsPlain(ItemLabel(idx));
  }

  lemma ItemLabelPlain(idx: nat)
    ensures forall i :: 0 <= i < |ItemLabel(idx)| ==> !SheetForbidden(ItemLabel(idx)[i])
  {
    var digits := DecimalString(idx);
    forall i | 0 <= i < |ItemLabel(idx)|
      ensures !SheetForbidden(ItemLabel(idx)[i])
    {
      if i >= 5 {
        assert ItemLabel(idx)[i] == digits[i - 5];
      }
    }
  }

  /** A string with no forbidden character is left as it is. */
  lemma {:induction false} ReplaceForbiddenKeepsPlain(s: string)
    requires forall i :: 0 <= i < |s| ==> !SheetForbidden(s[i])
    ensures ReplaceForbidden(s) == s
  {
    if s != [] {
      ReplaceForbiddenKeepsPlain(s[1..]);
    }
  }

  /** Sheet names are not unique: with no file number, two titles that agree
      on their first 31 characters give the same sheet name. */
  lemma SheetNamesCanCollide(title1: string, title2: string, idx1: nat, idx2: nat)
    requires ControlFree(title1) && ControlFree(title2)
    requires 31 <= |title1| && 31 <= |title2| && title1[..31] == title2[..31]
    ensures SheetName("", title1, idx1) == SheetName("", title2, idx2)
  {
    WithoutControlsKeepsClean(title1);
    WithoutControlsKeepsClean(title2);
    SheetOfTitle(title1, idx1);
    SheetOfTitle(title2, idx2);
    ReplaceForbiddenPrefix(title1, 31);
    ReplaceForbiddenPrefix(title2, 31);
  }

  /** Without a file number, a clean title of at least 31 characters gives
      its replaced first 31 characters. */
  lemma SheetOfTitle(title: string, idx: nat)
    requires WithoutControls(title) == title && 31 <= |title|
    ensures SheetName("", title, idx) == ReplaceForbidden(title)[..31]
  {
    TitleIsSource(title, idx);
    LongSourceName("", title, idx);
  }

  /** A clean, non-empty title is the sheet source when the file number is empty. */
  lemma TitleIsSource(title: string, idx: nat)
    requires WithoutControls(title) == title && title != []
    ensures SheetSource("", title, idx) == title
  {
    assert WithoutControls("") == [];
  }

  /** A source whose replacement is at least 31 long is cut to 31 characters. */
  lemma LongSourceName(fileNumber: string, title: string, idx: nat)
    requires 31 <= |SheetSource(fileNumber, title, idx)|
    ensures SheetName(fileNumber, title, idx)
      == ReplaceForbidden(SheetSource(fileNumber, title, idx))[..31]
  {
  }

  /** Replacing commutes with taking a prefix. */
  lemma {:induction false} ReplaceForbiddenPrefix(s: string, n: nat)
    requires n <= |s|
    ensures ReplaceForbidden(s)[..n] == ReplaceForbidden(s[..n])
  {
    if n > 0 {
      ReplaceForbiddenPrefix(s[1..], n - 1);
      assert s[..n][1..] == s[1..][..n - 1];
    }
  }
}
