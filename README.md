# GAO bid protest scraper: text core

`gao_bid_protests.py` crawls the GAO bid-protest decision search. It walks
the result pages, scrapes each decision page, cleans the decision text, cuts
it into named sections (DIGEST, BACKGROUND, DISCUSSION, ...) and writes one
CSV row and one workbook sheet per decision. This project models the parts of
that program that decide what ends up in those outputs:

- **Sanitizer**: `sanitize_for_excel` / `sanitize_for_json`, which delete
  C0 control characters.
- **Normalizer**: `normalize_text`. It drops carriage returns, heals words
  hyphenated across a line break, collapses blank-line runs and trims.
- **Cleaner**: `clean_report_text`. It right-strips lines, drops the
  masthead and footer lines, cuts out docket numbers that stand alone
  between line breaks, then normalises.
- **Segmenter**: `split_sections`. It finds heading candidates (the fixed
  `KNOWN_ORDER` list and `CAPS_LINE` lines of capitals), sorts them by
  position, matches them again as one alternation, and gives each heading
  the text up to the next one. The loops are imperative methods proved
  equal to a functional specification, `Sections`.
- **SectionsExample**: `split_sections` worked out on one concrete
  two-heading decision.
- **AbsorbedHeading**: `split_sections` on a text where a line of capitals
  runs over the known heading below it, so that heading is not a key.
- **Links**: `collect_result_links_from_page` and `get_next_page`, over a
  page given as its list of anchors.
- **Outputs**: the two pure pieces of `write_outputs`. One is the
  `sections_clean` filter stored in the JSON metadata; the other is the
  worksheet name.
- **Pipeline**: `scrape_item_with_bs` and the crawl loop of `run`, with its
  `upto` record budget and `max_pages` page budget. The network is an
  oracle:
  - a sequence of index-page responses, where `None` is a failed fetch;
  - a function from a decision URL to the parsed decision page, or `None`.

The supporting modules are:

- **Chars**: Python's `\s` (`str.isspace`), ASCII digits and case folding.
  The word class `\w` is a parameter `isWord`.
- **TextOps**: `strip`, `rstrip`, `split("\n")` / `"\n".join` and decimal
  strings.
- **OrderedDict**: Python's insertion-ordered `dict`, with assignment and
  `setdefault`.
- **Optionals**: the `Option` type.

Some behaviours of the code are easy to overlook, and the model follows the code
in each:

- `normalize_text` is not idempotent. A word broken twice in a row, as in
  `a-\nb-\nc`, needs two passes to heal, because the first match consumes
  the word character the second match needs.
- A known heading alone on its line need not become a section key.
  `CAPS_LINE` takes line breaks as whitespace, so a line of capitals just
  above the heading can match across it. `ABC\nDISCUSSION\nbody` splits
  into `{"ABC\nDISCUSSION": "body"}`.
- Candidate positions can tie, for example a known heading and a
  multi-line `CAPS_LINE` match starting at the same place. The code's stable
  `sorted` keeps dictionary order among ties, and the model sorts stably too.
- `collect_result_links_from_page` checks the raw href against the set of
  links it has already emitted, which are absolutised. So a site-relative link
  listed twice is emitted twice.
- In the sheet name, the trailing `or f"Item {idx}"` can never fire. The
  expression it guards is never empty.
- A section whose only content is control characters that are not
  whitespace (`\x00` to `\x08`, `\x0e` to `\x1b`) passes the blank-value
  test, because sanitising comes after the test. It is stored with an empty
  value. The controls `\x0b`, `\x0c` and `\x1c` to `\x1f` count as
  whitespace, so a section made only of them is dropped.
- Only an href starting with `/` gets the site root. A document-relative
  href such as `../products/x` is emitted as written, not as an absolute
  URL.

## Model

| member | source | states |
|---|---|---|
| `Sanitizer.Sanitize` | gao_bid_protests.py:28-36 | `None` gives the empty string. Otherwise a character is in the result exactly when it is in the input and is not a control character in `[\x00-\x08\x0B\x0C\x0E-\x1F]`. No control character remains. |
| `Sanitizer.WithoutControls` | gao_bid_protests.py:31 | The substitution leaves no control character and never lengthens the text. |
| `Sanitizer.WithoutControlsMembers` | gao_bid_protests.py:31 | A character survives exactly when it occurs in the input and is not a control character. |
| `Sanitizer.WithoutControlsAppend` | gao_bid_protests.py:31 | Deleting controls distributes over concatenation, so surviving characters keep their order. |
| `Sanitizer.WithoutControlsKeepsClean` | gao_bid_protests.py:31 | A text with no control character is returned unchanged. |
| `OrderedDict.Put` | gao_bid_protests.py:87 | `d[k] = v` keeps keys unique, appends a new key at the end and leaves an existing key in its slot, and `k` then maps to `v`. |
| `OrderedDict.PutOthers` | gao_bid_protests.py:87 | Assigning one key leaves every other key's value alone. |
| `OrderedDict.SetDefault` | gao_bid_protests.py:91 | `setdefault` adds a missing key with the value at the end, and leaves a present key and its value unchanged. |
| `OrderedDict.FromPairs` | gao_bid_protests.py:98-100 | A dictionary filled pair by pair has unique keys. |
| `OrderedDict.FromPairsKeys` | gao_bid_protests.py:98-100 | Each key keeps the slot of its first pair. |
| `OrderedDict.FromPairsGet` | gao_bid_protests.py:98-100 | Each key holds the value of its last pair. |
| `Sanitizer.KeepsCleanMiddle` | gao_bid_protests.py:31 | A control-free piece survives in place wherever it stands. |
| `Sanitizer.KeepsLineStructure` | gao_bid_protests.py:28-36 | Tab, line feed and carriage return are kept. |
| `Sanitizer.SanitizeIdempotent` | gao_bid_protests.py:28-36 | Sanitising twice is sanitising once. |
| `Normalizer.RemoveCarriageReturns` | gao_bid_protests.py:41 | The result holds exactly the input's characters other than `\r`. |
| `Normalizer.RemoveCarriageReturnsAppend` | gao_bid_protests.py:41 | Removing carriage returns distributes over concatenation, so the other characters keep their order and their number. |
| `Normalizer.RemoveCarriageReturnsOne` | gao_bid_protests.py:41 | A single `\r` vanishes and any other single character stays. |
| `Normalizer.Heal` | gao_bid_protests.py:42 | Healing never lengthens the text or introduces a character. |
| `Normalizer.HealAtSite` | gao_bid_protests.py:42 | A match `x-\ny` of two word characters at the start becomes `xy`, and the scan resumes after it. |
| `Normalizer.HealIsolated` | gao_bid_protests.py:42 | An isolated broken word `x-\ny` after a separator becomes `xy`, and the text around it is healed independently. |
| `Normalizer.HealAppend` | gao_bid_protests.py:42 | No match straddles a joint that follows a separator, so healing works piecewise. |
| `Normalizer.HealNeedsHyphen` | gao_bid_protests.py:42 | A text without a hyphen is unchanged. |
| `Normalizer.HealChained` | gao_bid_protests.py:42 | `a-\nb-\nc` heals to `ab-\nc` in one pass, because matches do not overlap. A second pass gives `abc`. |
| `Normalizer.CollapseBlankRuns` | gao_bid_protests.py:43 | The result has no three consecutive line breaks. It holds the same characters as the input. A leading run of three or more line breaks becomes two. |
| `Normalizer.CollapseKeepsShortRuns` | gao_bid_protests.py:43 | A text with no run of three line breaks is unchanged. |
| `Normalizer.CollapseAppend` | gao_bid_protests.py:43 | A text that does not end in a line break is collapsed on its own: collapsing distributes over that joint, so the rest of the text keeps its order and count. |
| `Normalizer.CollapseLongRun` | gao_bid_protests.py:43 | A run of three or more line breaks, between two other characters or at either end, becomes exactly `\n\n`. The text on each side is collapsed on its own. |
| `Normalizer.CollapseShortRun` | gao_bid_protests.py:43 | A run of one or two line breaks is kept as it is. |
| `Normalizer.CollapseOne` | gao_bid_protests.py:43 | A single character is kept. |
| `Normalizer.NormalizeText` | gao_bid_protests.py:38-44 | An empty input gives an empty output. Otherwise the output has no `\r`, no three line breaks in a row, and no whitespace at either end. |
| `Normalizer.CarriageReturnFree` | gao_bid_protests.py:41 | Removing carriage returns leaves a text without them unchanged. |
| `Normalizer.NormalizeClean` | gao_bid_protests.py:38-44 | When healing is the only change the text needs, `normalize_text` returns the healed text. |
| `Normalizer.NormalizeJoinsBrokenWord` | gao_bid_protests.py:38-44 | `normalize_text("x-\ny")` is `"xy"` for word characters `x` and `y`. |
| `Normalizer.NormalizeNotIdempotent` | gao_bid_protests.py:38-44 | `normalize_text("a-\nb-\nc")` is `"ab-\nc"`, and normalising that again gives `"abc"`, so the function is not idempotent. |
| `Cleaner.StrippedLines` | gao_bid_protests.py:49 | There is one line per `split("\n")` piece. Each line is a prefix of its piece, and only whitespace is cut off. No line ends in whitespace or holds a line break. |
| `Cleaner.DropBoilerplate` | gao_bid_protests.py:50-62 | A line is kept exactly when it occurs and matches none of the nine drop patterns (case-insensitive). |
| `Cleaner.DropBoilerplateAppend` | gao_bid_protests.py:62 | Filtering distributes over concatenation, so kept lines keep their order and their number. |
| `Cleaner.DropBoilerplateOne` | gao_bid_protests.py:62 | One line is dropped exactly when it matches a drop pattern. |
| `Cleaner.MastheadLinesDropped` | gao_bid_protests.py:50-56 | The street, city, masthead, `of the United States`, agency and web-address lines are each dropped, in any case. |
| `Cleaner.RuleLinesDropped` | gao_bid_protests.py:59 | Lines of tildes, of en dashes, or of two or more hyphens are dropped, with whitespace round them. A single hyphen is kept. |
| `Cleaner.KeptLines` | gao_bid_protests.py:48-62 | Every kept line holds no line break, has no trailing whitespace and matches no drop pattern. |
| `Cleaner.PageFootersDropped` | gao_bid_protests.py:56 | No `Page <n>` footer line survives, in any case or spacing. |
| `Cleaner.DocketLinesDropped` | gao_bid_protests.py:57 | Bare docket-number lines such as `B-123456` and `b-1234.5` never survive. |
| `Cleaner.BareDocketLine` | gao_bid_protests.py:57 | `B-123456` matches the docket-number pattern. |
| `Cleaner.DottedDocketLine` | gao_bid_protests.py:57 | `b-1234.5` matches the docket-number pattern, case-insensitively and with its dotted suffix. |
| `Cleaner.DiscussionIsNotBoilerplate` | gao_bid_protests.py:50-62 | The heading line `DISCUSSION` matches no drop pattern. |
| `Cleaner.HeadingLineKept` | gao_bid_protests.py:49-62 | The heading `DISCUSSION` standing alone on its line survives the line filter, whatever text surrounds it. |
| `Cleaner.SpacesThenNewline` | gao_bid_protests.py:64 | Where `\s*\n` matches: a whitespace-only prefix ending in a line break. |
| `Cleaner.LastNewlineBefore` | gao_bid_protests.py:64 | Backtracking of `\s*`: the last line break in a whitespace prefix. If there is none, the prefix holds no line break. |
| `Cleaner.DocketSandwich` | gao_bid_protests.py:64 | A match of the docket pattern starts and ends with a line break. |
| `Cleaner.DocketSandwichAtStart` | gao_bid_protests.py:64 | `\nB-123456\n` followed by a non-space is a 10-character match. |
| `Cleaner.RemoveDocketSandwiches` | gao_bid_protests.py:64 | The substitution never lengthens the text. |
| `Cleaner.RemoveSkipsLine` | gao_bid_protests.py:64 | Text without a line break is never part of a match and is kept whole. |
| `Cleaner.RemoveNoSandwich` | gao_bid_protests.py:64 | A text with no match of the docket pattern at any position is unchanged. |
| `Cleaner.RemoveShrinks` | gao_bid_protests.py:64 | A text with a match at some position comes out strictly shorter. |
| `Cleaner.RemoveUnchangedIff` | gao_bid_protests.py:64 | The substitution leaves a text unchanged exactly when the docket pattern matches at no position. |
| `Cleaner.DocketSandwichRemoved` | gao_bid_protests.py:64 | A docket number alone between two line breaks is cut out, together with one of the breaks. |
| `Cleaner.CleanReportText` | gao_bid_protests.py:46-65 | An empty input gives an empty output. Otherwise the output has no `\r`, no three line breaks in a row, and no surrounding whitespace. |
| `Segmenter.SpacesToLineEnd` | gao_bid_protests.py:85 | Where `\s*$` ends when tried at a position: a multiline line end reached over whitespace only. |
| `Segmenter.HeadingMatch` | gao_bid_protests.py:85 | A match of `^h\s*$` at `p`: `h` stands at a line start, followed only by whitespace up to a line end. |
| `Segmenter.StandsAlone` | gao_bid_protests.py:85 | Conversely, a heading at a line start followed by whitespace up to a line end is matched there. |
| `Segmenter.FirstHeading` | gao_bid_protests.py:85-87 | `re.search` gives the first position where the heading stands alone on its line. No earlier position matches, and `None` means no position does. |
| `Segmenter.CapsMatch` | gao_bid_protests.py:77 | A `CAPS_LINE` match starts at a line start with a capital or digit, spans 4 to 41 class characters, and ends at a line end. |
| `Segmenter.CapsMatchExact` | gao_bid_protests.py:77 | `CAPS_LINE` fails at a position exactly when no line can start there with a capital or digit, or no line end lies within reach after four characters. When it matches, it ends at the last line end within reach (greedy). |
| `Segmenter.CapsMatches` | gao_bid_protests.py:88 | Every match `finditer` reports is a `CAPS_LINE` match at its start, with its end. The matches do not overlap and are in order. `CAPS_LINE` matches at no position that no reported match covers. |
| `Segmenter.CapsMatchIsHeading` | gao_bid_protests.py:77 | A `CAPS_LINE` match, stripped, stands alone on its line at the match's start. |
| `Segmenter.CapsLinesWitnessed` | gao_bid_protests.py:88-89 | Every stripped line of capitals stands alone on its line where it was found. |
| `Segmenter.KnownCandidates` | gao_bid_protests.py:83-86 | The first loop records a heading exactly when it is listed and stands alone on some line. It records the position of its first such line, and the keys are distinct. |
| `Segmenter.CapsCandidates` | gao_bid_protests.py:88-91 | The second loop keeps every known candidate and only adds lines of capitals other than the spaced banner. |
| `Segmenter.Candidates` | gao_bid_protests.py:82-91 | `found_positions` has distinct keys and holds every `KNOWN_ORDER` heading that stands alone on some line. |
| `Segmenter.KnownOrderCapitals` | gao_bid_protests.py:67-76 | Every `KNOWN_ORDER` heading is written in the `CAPS_LINE` class. |
| `Segmenter.KnownWitnessed` | gao_bid_protests.py:83-86 | Every known candidate is named by a non-empty heading that stands alone on its line at its recorded position. |
| `Segmenter.CapsWitnessed` | gao_bid_protests.py:88-91 | `setdefault` over lines of capitals keeps every candidate witnessed at its recorded position. |
| `Segmenter.CandidatesWitnessed` | gao_bid_protests.py:82-91 | Every entry of `found_positions` names a non-empty heading standing alone on its line at its position. |
| `Segmenter.KnownEmptyIff` | gao_bid_protests.py:83-86 | The first loop finds nothing exactly when no known heading stands alone on a line. |
| `Segmenter.CapsEmptyIff` | gao_bid_protests.py:88-91 | The second loop leaves the candidates empty exactly when they were empty and every line of capitals is the spaced `U N I T E D  S T A T E S` banner. |
| `Segmenter.CandidatesEmptyIff` | gao_bid_protests.py:82-92 | `found_positions` is empty exactly when no `KNOWN_ORDER` heading stands alone on a line and `CAPS_LINE`, tried at every position, matches only the spaced banner. |
| `Segmenter.BannerLinesIff` | gao_bid_protests.py:88-90 | The lines `finditer` reports are all the banner exactly when `CAPS_LINE` matches only the banner at every position. A skipped position lies inside a reported banner, where no line starts with a capital or digit. |
| `Segmenter.InsertByPosition` | gao_bid_protests.py:94 | Insertion keeps every entry and adds the new one. |
| `Segmenter.InsertKeepsSorted` | gao_bid_protests.py:94 | Inserting into a list sorted by position keeps it sorted. |
| `Segmenter.SortByPosition` | gao_bid_protests.py:94 | The result is sorted by position and is a permutation of the candidates. |
| `Segmenter.SortByPositionStable` | gao_bid_protests.py:94 | The sort is stable: for every position, the entries found there come out in the order they had in the dictionary. |
| `Segmenter.InsertEntriesAt` | gao_bid_protests.py:94 | Inserting an entry into a sorted list puts it after every entry at its own position. |
| `Segmenter.HeadingNames` | gao_bid_protests.py:94 | `ordered` names exactly the keys of `found_positions`. |
| `Segmenter.HeadingNamesFacts` | gao_bid_protests.py:94-95 | The alternatives of the heading pattern are non-empty and written in capitals. |
| `Segmenter.AlternationMatch` | gao_bid_protests.py:95 | The alternation matches with an alternative that stands alone on its line there. It fails exactly when no alternative does. |
| `Segmenter.AlternationMatchFirst` | gao_bid_protests.py:95 | The winning alternative is the first in `ordered` that matches there: every alternative listed before it fails. |
| `Segmenter.AlternationAdvances` | gao_bid_protests.py:95-96 | A match of the alternation is never empty, so `finditer` advances. |
| `Segmenter.MarksFrom` | gao_bid_protests.py:96 | The marks are in document order, do not overlap, and each is a match of the alternation named by its stripped text. The alternation matches at no position that no mark covers. |
| `Segmenter.CandidateLineMarked` | gao_bid_protests.py:94-96 | Wherever a candidate stands alone on a line, some heading mark covers that position. |
| `Segmenter.HeadingMarks` | gao_bid_protests.py:94-96 | The heading marks of a text are in order and do not overlap. |
| `Segmenter.MarkNameCapitals` | gao_bid_protests.py:96 | A mark's stripped text is written in capitals when every alternative is. |
| `Segmenter.HeadingMarksCapitals` | gao_bid_protests.py:94-96 | Every heading mark is named in capitals. |
| `Segmenter.BodyEnd` | gao_bid_protests.py:99 | A body runs from its mark's end to no further than the end of the text. |
| `Segmenter.SectionPairs` | gao_bid_protests.py:97-100 | There is one (name, body) pair per mark. |
| `Segmenter.SectionPairsKeys` | gao_bid_protests.py:97-100 | The pairs are named after the marks, in document order. |
| `Segmenter.PairsBody` | gao_bid_protests.py:97-100 | Under a name no later mark repeats, the dictionary holds that mark's stripped body. |
| `Segmenter.Sections` | gao_bid_protests.py:79-101 | The section dictionary has distinct keys. |
| `Segmenter.FindCandidates` | gao_bid_protests.py:82-91 | The two loops build exactly the candidate dictionary of the specification. |
| `Segmenter.CollectSections` | gao_bid_protests.py:97-100 | The last loop builds the dictionary obtained by assigning the marks' (name, body) pairs in order. |
| `Segmenter.SplitSections` | gao_bid_protests.py:79-101 | The imperative `split_sections` returns exactly `Sections` of its input. |
| `Segmenter.FullReportKeyNotCapitals` | gao_bid_protests.py:93 | `Full Report Text` is not written in capitals, so no heading can be called that. |
| `Segmenter.MarkedNamesCapitals` | gao_bid_protests.py:95-100 | Every key of the dictionary built from the marks is written in capitals. |
| `Segmenter.SectionNamesCapitals` | gao_bid_protests.py:79-101 | When the text has a heading, every section name is written in capitals. |
| `Segmenter.NoHeadingSections` | gao_bid_protests.py:92-93 | A non-empty text with no heading comes back whole, under `Full Report Text`. |
| `Segmenter.FullReportExactlyWithoutHeadings` | gao_bid_protests.py:79-101 | `Full Report Text` is a key exactly when no known heading stands alone on a line of the normalised text and every `CAPS_LINE` match is the banner. Then the whole text is the only section. |
| `Segmenter.SectionKeysInOrder` | gao_bid_protests.py:94-100 | With a heading, every mark matches the sorted alternation and marks do not overlap. The alternation matches at no uncovered position. The keys are the mark names in document order, each at its first occurrence. |
| `Segmenter.KnownHeadingMarked` | gao_bid_protests.py:79-101 | A known heading standing alone on a line means the text is split, not kept whole. That line lies inside a mark whose name is a section key. |
| `Segmenter.SectionBody` | gao_bid_protests.py:97-100 | A mark's section holds the stripped text from the mark's end to the next mark's start, or to the end of the text. A repeated heading keeps its last body. |
| `AbsorbedHeading.HeadingAbsorbed` | gao_bid_protests.py:79-101 | `DISCUSSION` is a known heading and stands alone at 4 in `ABC\nDISCUSSION\nbody`, yet `split_sections` gives `{"ABC\nDISCUSSION": "body"}` and `DISCUSSION` is not a key. |
| `AbsorbedHeading.TextCandidates` | gao_bid_protests.py:82-91 | On that text, `found_positions` is `{"DISCUSSION": 4, "ABC\nDISCUSSION": 0}`. |
| `AbsorbedHeading.TextHeadingNames` | gao_bid_protests.py:94 | The stable sort puts `ABC\nDISCUSSION` first in `ordered`. |
| `AbsorbedHeading.TextMarks` | gao_bid_protests.py:95-96 | The only mark is `ABC\nDISCUSSION` at 0-14, which covers the `DISCUSSION` line. |
| `SectionsExample.DocNormalized` | gao_bid_protests.py:38-44 | `DIGEST\nfoo\nDECISION\nbar` is already normalised. |
| `SectionsExample.DocCandidates` | gao_bid_protests.py:82-91 | On that text, `found_positions` is `{"DIGEST": 0, "DECISION": 11}`. The caps lines are already known, so `setdefault` changes nothing. |
| `SectionsExample.DocHeadingNames` | gao_bid_protests.py:94 | `ordered` is `["DIGEST", "DECISION"]`. |
| `SectionsExample.DocMarks` | gao_bid_protests.py:95-96 | The marks are `DIGEST` at 0-6 and `DECISION` at 11-19. |
| `SectionsExample.DocSections` | gao_bid_protests.py:79-101 | `split_sections("DIGEST\nfoo\nDECISION\nbar")` is `{"DIGEST": "foo", "DECISION": "bar"}`, keys in document order. |
| `Links.AbsolutizeFacts` | gao_bid_protests.py:191-192 | An absolutised href does not start with `/` and ends with the original href. It keeps `/products/`. Absolutising is idempotent. |
| `Links.ResultLinksSnoc` | gao_bid_protests.py:187-194 | One more anchor adds its absolutised href at the end exactly when it is a result anchor whose raw href is not yet among the links. |
| `Links.ResultLinksPrefix` | gao_bid_protests.py:187-194 | The links made from a prefix of the anchors are a prefix of the links. |
| `Links.ResultLinksIff` | gao_bid_protests.py:187-194 | A link is emitted exactly when some anchor is taken and the link is that anchor's absolutised href. |
| `Links.TakenEmits` | gao_bid_protests.py:187-194 | A taken anchor's link stands right after the links made before it. |
| `Links.CollectResultLinks` | gao_bid_protests.py:183-195 | The loop returns exactly the links of the specification `ResultLinks`, taken over `<main>` when there is one. |
| `Links.EmittedFacts` | gao_bid_protests.py:187-194 | Each link is the absolutised href of a result anchor, and the anchors taken are in document order. The links made before an anchor are those of the anchors before it. |
| `Links.LinksFollowAnchors` | gao_bid_protests.py:187-194 | Links come out in anchor order: a later link comes from a later result anchor. |
| `Links.ProductLinksNotSiteRelative` | gao_bid_protests.py:190-193 | No link starts with `/` (site-relative hrefs get the site root), and every link contains `/products/`. |
| `Links.RepeatsComeFromSiteRelativeHrefs` | gao_bid_protests.py:190-194 | A link that repeats was made from a site-relative href, one starting with `/`. |
| `Links.NoSiteRelativeHrefsGiveDistinctLinks` | gao_bid_protests.py:190-194 | When no href starts with `/`, no link is emitted twice. |
| `Links.SiteRelativeDuplicateKept` | gao_bid_protests.py:190-194 | A site-relative product link listed twice is emitted twice. |
| `Links.AbsoluteDuplicateDropped` | gao_bid_protests.py:190-194 | The same link written absolutely is emitted once. |
| `Links.DocumentRelativeKept` | gao_bid_protests.py:190-193 | A document-relative href such as `../products/b-1` is emitted unchanged: only a leading `/` gets the site root. |
| `Links.FirstAnchor` | gao_bid_protests.py:198 | `select_one` / `find` give the first anchor satisfying the test, or none when no anchor does. |
| `Links.NextAnchor` | gao_bid_protests.py:198 | The first `rel="next"` anchor is chosen when there is one. Otherwise the first anchor whose string holds "Next" is chosen. There is none exactly when no anchor is of either kind. |
| `Links.NextPage` | gao_bid_protests.py:197-206 | A next-page link is non-empty and does not start with `/` (a site-relative href gets the site root). |
| `Links.RelNextWins` | gao_bid_protests.py:198-206 | The first `rel="next"` anchor is followed, even if an anchor reading "Next" comes before it. Its empty href means no next page. |
| `Links.NextTextFollowed` | gao_bid_protests.py:198-206 | Without a `rel="next"` anchor, the first anchor whose string holds "Next" is followed. |
| `Links.NoNextAnchor` | gao_bid_protests.py:198-200 | With neither kind of anchor there is no next page. |
| `Outputs.KeptPairs` | gao_bid_protests.py:264-268 | The comprehension emits no `Full Report Text` pair, and every value it emits is control-free. |
| `Outputs.CleanSections` | gao_bid_protests.py:264-268 | `sections_clean` has distinct keys. |
| `Outputs.CleanSectionsGet` | gao_bid_protests.py:264-268 | A section is stored exactly when its value is not blank and its name is not `Full Report Text`. It is stored sanitised. Nothing else is stored. |
| `Outputs.CleanSectionsShape` | gao_bid_protests.py:264-268 | The metadata never holds `Full Report Text`, and all its values are control-free. |
| `Outputs.ControlOnlySectionStoredEmpty` | gao_bid_protests.py:264-268 | A section made only of `\x01`, a control character that is not whitespace, is stored with an empty value. |
| `Outputs.ControlSectionFate` | gao_bid_protests.py:264-268 | A one-character section of a control character is dropped when the character is whitespace (`\x0b`, `\x0c`, `\x1c` to `\x1f`), and is otherwise stored with an empty value. |
| `Outputs.ReplaceForbidden` | gao_bid_protests.py:304-306 | The substitution keeps the length. |
| `Outputs.ReplaceForbiddenAt` | gao_bid_protests.py:304-306 | Each of `\ / * ? : [ ]` becomes `_`, and every other character is kept. No forbidden character remains. |
| `Outputs.ReplaceForbiddenKeepsPlain` | gao_bid_protests.py:304-306 | A text with no forbidden character is unchanged. |
| `Outputs.SheetSource` | gao_bid_protests.py:295-307 | The sheet source, the first of file number, title and `Item {idx}` that is non-empty, is never empty. |
| `Outputs.TitleIsSource` | gao_bid_protests.py:295-307 | Without a file number, a clean non-empty title is the source. |
| `Outputs.SheetName` | gao_bid_protests.py:304-308 | A sheet name is non-empty, at most 31 characters long, and holds none of `\ / * ? : [ ]`. |
| `Outputs.SheetNameFacts` | gao_bid_protests.py:304-308 | A sheet name is non-empty, at most 31 characters long, and free of forbidden characters. It is the replaced source cut to 31 characters, so the trailing `or` never applies. |
| `Outputs.PlainFileNumberIsSheetName` | gao_bid_protests.py:304-308 | A file number that is already a valid sheet name is used as it is. |
| `Outputs.UnnamedItemSheet` | gao_bid_protests.py:304-308 | With neither a file number nor a title, the sheet is `Item {idx}`, for an index of at most 26 digits. |
| `Outputs.LongSourceName` | gao_bid_protests.py:304-308 | A source of 31 characters or more is replaced and cut to 31 characters. |
| `Outputs.SheetOfTitle` | gao_bid_protests.py:304-308 | Without a file number, a long clean title gives its replaced first 31 characters. |
| `Outputs.SheetNamesCanCollide` | gao_bid_protests.py:304-308 | Sheet names are not unique: two titles agreeing on their first 31 characters give the same name. |
| `Pipeline.ScrapeItem` | gao_bid_protests.py:240-258 | A record always carries the URL it was scraped from. |
| `Pipeline.ScrapedRecordShape` | gao_bid_protests.py:240-258 | A failed fetch gives a record holding only the URL. Otherwise the full text is normalised and the section names are distinct. An empty text has no sections, and a text with no heading is its own only section. |
| `Pipeline.RecordsOf` | gao_bid_protests.py:360-366 | There is one record per scraped link. |
| `Pipeline.RecordOfLink` | gao_bid_protests.py:360-366 | The i-th record is the scrape of the i-th link and carries that link. |
| `Pipeline.ScrapeLinks` | gao_bid_protests.py:360-373 | The `for url in links` loop scrapes links in order until `upto` records exist. `StopIteration` is raised exactly when a link is left over with the budget spent. |
| `Pipeline.PageStep` | gao_bid_protests.py:351-380 | One turn of `while page_url`. It goes on only after a fetched page with links, all scraped, within `max_pages`, and with a next link. When it stops, the links scraped extend those before it, within the `upto` budget. |
| `Pipeline.PageStepStops` | gao_bid_protests.py:351-380 | A crawl turn stops exactly when the fetch failed, the page has no links, its links overrun `upto`, `max_pages` is reached, or there is no next link. |
| `Pipeline.PageStepShort` | gao_bid_protests.py:360-363 | A page's links are scraped only in part when `upto` cut them short. Then exactly `upto` links have been scraped. |
| `Pipeline.Crawl` | gao_bid_protests.py:351-383 | The crawl never drops a scraped link. It stays within a positive `upto` and scrapes nothing under a negative one. |
| `Pipeline.Run` | gao_bid_protests.py:344-394 | The imperative `run` loop collects exactly the records of the links the specification `Crawled` visits. |
| `Pipeline.CrawlReadsLinkedPages` | gao_bid_protests.py:351-359 | Every page the crawl reads was fetched and had links. |
| `Pipeline.CrawlFollowsNextLinks` | gao_bid_protests.py:377-380 | Every page read before the last had a next-page link. |
| `Pipeline.CrawlFollowsPages` | gao_bid_protests.py:351-380 | The links scraped are a prefix of the read pages' links in page order. |
| `Pipeline.CrawlShortOnlyAtBudget` | gao_bid_protests.py:351-383 | The crawl scrapes fewer links than its read pages hold only under a non-zero `upto`. With a positive `upto` it has then scraped exactly `upto` links. |
| `Pipeline.CrawlPageBudget` | gao_bid_protests.py:374-376 | A positive `max_pages` bounds the number of pages read. |
| `Pipeline.NegativePageBudget` | gao_bid_protests.py:374-376 | A negative `max_pages` still counts as set, so the crawl stops after the first page. |
| `Pipeline.CrawlPageStep` | gao_bid_protests.py:374-376 | A crawl turn either ends having read at most the current page, or moves on to a next page that is still within `max_pages`. |
| `Pipeline.CrawledBounds` | gao_bid_protests.py:344-383 | The whole crawl keeps both budgets (a negative `max_pages` reads one page), reads only fetched pages with links, and scrapes a prefix of their links. It scrapes all of them without `upto`, and exactly `upto` when it scrapes fewer. An empty search URL scrapes nothing. |
| `Pipeline.BudgetStopsWithinPage` | gao_bid_protests.py:351-383 | When the first page alone has more than `upto` links, exactly its first `upto` links are scraped and no further page is requested. |

## Left out

- The network: `build_session`, `get_html` and `human_sleep`. Fetching is an
  oracle, given as a sequence of index-page responses and a function from a
  decision URL to its parsed page.
- A crawl that goes past the end of the response sequence counts as a
  failed fetch.
- Decision pages are a function of the URL, so fetching the same URL twice
  gives the same page.
- BeautifulSoup. An index page is its list of anchors, plus the anchors
  inside `<main>` when there is one. The CSS selectors
  `a[href*='/products/']` and `a[rel='next']` are modelled as predicates on
  an anchor.
- `get_title_file_date_from_doc` and `extract_expanded_decision_text`. A
  decision page is given as its title, file number, date and raw text
  (`DocPage`).
- `write_outputs` beyond the section filter and the sheet name. Left out
  are `json.dumps`, pandas, the CSV file, openpyxl formatting, the
  `KNOWN_ORDER_PREF` columns, `col_title`, and the `_partial` fallback on a
  locked workbook. `write_outputs` running after every record only rewrites
  files, so it is left out too.
- Exception handling in `run`: `KeyboardInterrupt`, other exceptions and the
  `finally` write. The modelled crawl is the run in which nothing raises.
- Python's Unicode `\d` is modelled as the ASCII digits. Case folding under
  `re.IGNORECASE` is ASCII only, so the extra folds of `ſ`, the Kelvin sign,
  `İ` and `ı` are left out.
- `\w` is the parameter `isWord`. Examples that need particular word
  characters state what they need of it.
- The test `cap.upper() == cap` is left out, because it always holds. Every
  character `CAPS_LINE` admits is a capital, a digit, whitespace or
  punctuation, none of which changes under `upper()`.
- The command-line entry point and argument parsing.
- Normalizer.Heal: the contract gives only bounds. The rewriting is
  pinned down by `HealAtSite`, `HealIsolated`, `HealAppend`,
  `HealNeedsHyphen` and `HealChained`.
- Cleaner.DocketSandwich: the contract gives only the match's framing line
  breaks. Its behaviour on docket lines is given by `DocketSandwichAtStart`.
- Cleaner.RemoveDocketSandwiches: the contract gives only a length bound.
  The substitution is pinned down by `RemoveSkipsLine`,
  `DocketSandwichRemoved`, `RemoveUnchangedIff`, `RemoveNoSandwich` and
  `RemoveShrinks`. The exact output of several sandwiches in a row is not
  stated for all inputs.
- Segmenter.CapsCandidates: the contract gives only where entries come
  from. Emptiness is `CapsEmptyIff` and witnessing is `CapsWitnessed`.
- Segmenter.Sections: the contract gives only distinct keys. Its content is
  given by `FullReportExactlyWithoutHeadings`, `SectionKeysInOrder`,
  `KnownHeadingMarked`, `SectionBody` and `SectionNamesCapitals`.
- Segmenter.HeadingMarks: the contract gives only document order. Matching
  and completeness are in `MarksFrom` and `SectionKeysInOrder`.
- Segmenter.KnownHeadingMarked: a known heading on its own line is not
  promised to become a key with its own name. `CAPS_LINE` lets `\s` cross
  line breaks, so a caps match on an earlier line can run over the heading
  line. In `ABC\nDISCUSSION\nbody`, the candidate `ABC\nDISCUSSION` comes
  first and its alternative covers the `DISCUSSION` line, as
  `AbsorbedHeading.HeadingAbsorbed` proves. The lemma states that some
  keyed mark covers the heading line.
- Outputs.CleanSections: the contract gives only distinct keys. Its content
  is `CleanSectionsGet`.
- Outputs.ReplaceForbidden: the contract gives only the length. The
  character map is `ReplaceForbiddenAt`.
- Pipeline.ScrapeItem: the contract gives only the URL. The rest is
  `ScrapedRecordShape`.
- Links.ResultLinks and Links.ResultScope carry no contract of their own.
  What they emit is stated by `CollectResultLinks`, `ResultLinksSnoc` and
  `ResultLinksIff`.
- Cleaner.IsBoilerplate and its pattern predicates carry no contract of
  their own. Which lines they match is stated by `DropBoilerplate`,
  `DropBoilerplateOne`, `MastheadLinesDropped`, `RuleLinesDropped`,
  `PageFootersDropped`, `DocketLinesDropped` and
  `DiscussionIsNotBoilerplate`.
- Outputs.Keeps carries no contract of its own. The filter it expresses is
  stated by `CleanSectionsGet` and `ControlSectionFate`.
- Segmenter.CapsLines carries no contract of its own. It is `CapsMatches`
  with each match stripped, and its content is stated by `CapsMatches`,
  `CapsLinesWitnessed` and `BannerLinesIff`.
- Pipeline.Crawled carries no contract of its own. The whole crawl is
  stated by `CrawledBounds` and `BudgetStopsWithinPage`.
- Links.NextPage: the contract gives only the shape of the result. Which
  anchor is followed is `RelNextWins`, `NextTextFollowed` and
  `NoNextAnchor`.
