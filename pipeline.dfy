/** The crawl of `run`: index pages are read one after another, each result
    link on a page is scraped into one record, and two budgets (`upto`
    records, `max_pages` pages) cut the crawl short.  The network is an
    oracle: `pages[k]` is the response to the k-th index-page request (None
    for a failed fetch) and `docs(url)` the decision page behind a link. */
module Pipeline {
  import opened Optionals
  import opened TextOps
  import opened OrderedDict
  import opened Normalizer
  import opened Cleaner
  import opened Segmenter
  import opened Links

  /** What the scraper reads off a decision page: its title, file number,
      date and the raw decision text. */
  datatype DocPage = DocPage(title: string, fileNumber: string, date: string, decisionText: string)

  /** One scraped item: the base fields, the full text and its sections. */
  datatype Record = Record(url: string, title: string, fileNumber: string, date: string,
                           fullText: string, sections: Dict<string>)

  /** `scrape_item_with_bs(session, url)` given the fetch result for `url`. */
  function ScrapeItem(url: string, doc: Option<DocPage>, isWord: char -> bool): (r: Record)
    ensures r.url == url
  {
    match doc
    case None => Record(url, "", "", "", "", [])
    case Some(d) =>
      var cleaned := CleanReportText(d.decisionText, isWord);
      Record(url, d.title, d.fileNumber, d.date, NormalizeText(cleaned, isWord), Sections(cleaned, isWord))
  }

  /** The records of the scraped links, one per link and in link order. */
  function RecordsOf(urls: seq<string>, docs: string -> Option<DocPage>, isWord: char -> bool): (rs: seq<Record>)
    ensures |rs| == |urls|
  {
    if urls == [] then []
    else RecordsOf(urls[..|urls| - 1], docs, isWord) + [ScrapeItem(urls[|urls| - 1], docs(urls[|urls| - 1]), isWord)]
  }

  /** The links `collect_result_links_from_page` finds on an index page. */
  function PageLinks(p: Page): seq<string>
  {
    ResultLinks(ResultScope(p))
  }

  /** Where a crawl ends: the links scraped, in order, and how many index
      pages had their links reached. */
  datatype Progress = Progress(visited: seq<string>, pagesRead: nat)

  /** What happens at the k-th index page: the crawl ends there, or goes on
      to the next page having scraped every link of this one. */
  datatype Step = Stop(progress: Progress) | Continue(next: seq<string>)

  /** One turn of the `while page_url` loop, `done` being the links scraped
      so far.  The crawl ends on a failed fetch, on a page without links, on
      reaching `upto` while walking a page's links, after page `max_pages`,
      and when a page has no next link. */
  function PageStep(pages: seq<Option<Page>>, k: nat, maxPages: int, upto: int, done: seq<string>): (s: Step)
    requires upto > 0 ==> |done| <= upto
    requires upto < 0 ==> done == []
    ensures s.Continue? ==>
      && k < |pages| && pages[k].Some? && PageLinks(pages[k].value) != []
      && s.next == done + PageLinks(pages[k].value)
      && NextPage(pages[k].value).Some? && (maxPages == 0 || k + 2 <= maxPages)
      && upto >= 0 && (upto > 0 ==> |s.next| <= upto)
    ensures s.Stop? ==>
      var r := s.progress;
      && (upto > 0 ==> |r.visited| <= upto)
      && (upto < 0 ==> r.visited == [])
      && done <= r.visited
      && ((r.pagesRead == k && r.visited == done)
          || (&& r.pagesRead == k + 1 && k < |pages| && pages[k].Some? && PageLinks(pages[k].value) != []
              && r.visited <= done + PageLinks(pages[k].value)
              && (upto == 0 ==> r.visited == done + PageLinks(pages[k].value))))
  {
    if k >= |pages| || pages[k].None? then Stop(Progress(done, k))
    else
      var links := PageLinks(pages[k].value);
      if links == [] then Stop(Progress(done, k))
      else if upto != 0 && |done| + |links| > upto then
        var room := if upto > 0 then upto - |done| else 0;
        PrefixAppend(done, links, room);
        Stop(Progress(done + links[..room], k + 1))
      else if maxPages != 0 && k + 2 > maxPages then Stop(Progress(done + links, k + 1))
      else if NextPage(pages[k].value).None? then Stop(Progress(done + links, k + 1))
      else Continue(done + links)
  }

  /** The crawl stops at a page exactly when the fetch failed, the page has
      no links, its links overrun `upto`, it is page `max_pages`, or it has
      no next link. */
  lemma PageStepStops(pages: seq<Option<Page>>, k: nat, maxPages: int, upto: int, done: seq<string>)
    requires upto > 0 ==> |done| <= upto
    requires upto < 0 ==> done == []
    ensures PageStep(pages, k, maxPages, upto, done).Stop? <==>
      || k >= |pages| || pages[k].None?
      || PageLinks(pages[k].value) == []
      || (upto != 0 && |done| + |PageLinks(pages[k].value)| > upto)
      || (maxPages != 0 && k + 2 > maxPages)
      || NextPage(pages[k].value).None?
  {
  }

  /** A page's links are scraped only in part when `upto` cuts them short,
      and then exactly `upto` links have been scraped. */
  lemma PageStepShort(pages: seq<Option<Page>>, k: nat, maxPages: int, upto: int, done: seq<string>)
    requires upto > 0 ==> |done| <= upto
    requires upto < 0 ==> done == []
    requires k < |pages| && pages[k].Some?
    ensures var s := PageStep(pages, k, maxPages, upto, done);
      s.Stop? && s.progress.pagesRead == k + 1 && s.progress.visited != done + PageLinks(pages[k].value) ==>
        upto != 0 && (upto > 0 ==> |s.progress.visited| == upto)
  {
  }

  lemma PrefixAppend(done: seq<string>, links: seq<string>, room: nat)
    requires room <= |links|
    ensures done <= done + links[..room] <= done + links
  {
    assert (done + links)[..|done| + room] == done + links[..room];
  }

  /** The crawl from the k-th index page on: it never drops a link already
      scraped and keeps within the `upto` budget. */
  function Crawl(pages: seq<Option<Page>>, k: nat, maxPages: int, upto: int, done: seq<string>): (r: Progress)
    requires upto > 0 ==> |done| <= upto
    requires upto < 0 ==> done == []
    ensures done <= r.visited
    ensures upto > 0 ==> |r.visited| <= upto
    ensures upto < 0 ==> r.visited == []
    decreases |pages| - k
  {
    match PageStep(pages, k, maxPages, upto, done)
    case Stop(r) => r
    case Continue(next) =>
      var r := Crawl(pages, k + 1, maxPages, upto, next);
      PrefixTrans(done, next, r.visited);
      r
  }

  /** One turn of the crawl. */
  lemma CrawlUnfold(pages: seq<Option<Page>>, k: nat, maxPages: int, upto: int, done: seq<string>)
    requires upto > 0 ==> |done| <= upto
    requires upto < 0 ==> done == []
    ensures var s := PageStep(pages, k, maxPages, upto, done);
      && (s.Stop? ==> Crawl(pages, k, maxPages, upto, done) == s.progress)
      && (s.Continue? ==> Crawl(pages, k, maxPages, upto, done) == Crawl(pages, k + 1, maxPages, upto, s.next))
  {
  }

  lemma PrefixTrans(a: seq<string>, b: seq<string>, c: seq<string>)
    requires a <= b && b <= c
    ensures a <= c
  {
    assert c[..|a|] == b[..|a|];
  }

  /** The whole crawl; an empty search URL reads nothing. */
  function Crawled(searchUrl: string, pages: seq<Option<Page>>, maxPages: int, upto: int): Progress
  {
    if searchUrl == [] then Progress([], 0) else Crawl(pages, 0, maxPages, upto, [])
  }

  /** The records `run` collects. */
  method Run(searchUrl: string, maxPages: int, upto: int, pages: seq<Option<Page>>,
             docs: string -> Option<DocPage>, isWord: char -> bool)
    returns (records: seq<Record>)
    ensures records == RecordsOf(Crawled(searchUrl, pages, maxPages, upto).visited, docs, isWord)
  {
    records := [];
    var processed := 0;
    var pageUrl := searchUrl;
    var pageNum := 1;
    ghost var visited: seq<string> := [];
    ghost var goal := Crawled(searchUrl, pages, maxPages, upto).visited;
    while pageUrl != []
      invariant 1 <= pageNum <= |pages| + 1
      invariant processed == |visited|
      invariant records == RecordsOf(visited, docs, isWord)
      invariant upto > 0 ==> |visited| <= upto
      invariant upto < 0 ==> visited == []
      invariant pageUrl != [] ==> Crawl(pages, pageNum - 1, maxPages, upto, visited).visited == goal
      invariant pageUrl == [] ==> visited == goal
      decreases |pages| + 1 - pageNum
    {
      if pageNum - 1 >= |pages| || pages[pageNum - 1].None? {
        break;
      }
      var page := pages[pageNum - 1].value;
      var links := CollectResultLinks(page);
      if links == [] {
        break;
      }
      var taken, stopped;
      records, processed, taken, stopped := ScrapeLinks(records, processed, links, upto, docs, isWord);
      RecordsOfAppend(visited, links[..taken], docs, isWord);
      visited := visited + links[..taken];
      if stopped {
        return;
      }
      assert links[..taken] == links;
      pageNum := pageNum + 1;
      if maxPages != 0 && pageNum > maxPages {
        break;
      }
      var nxt := NextPage(page);
      if nxt.None? {
        break;
      }
      pageUrl := nxt.value;
    }
  }

  /** The `for url in links` loop: each link, in order, becomes one record,
      until `upto` records have been made; `stopped` is the `StopIteration`
      raised at the first link beyond the budget. */
  method ScrapeLinks(records0: seq<Record>, processed0: nat, links: seq<string>, upto: int,
                     docs: string -> Option<DocPage>, isWord: char -> bool)
    returns (records: seq<Record>, processed: nat, taken: nat, stopped: bool)
    requires upto > 0 ==> processed0 <= upto
    requires upto < 0 ==> processed0 == 0
    ensures stopped <==> links != [] && upto != 0 && processed0 + |links| > upto
    ensures taken == if stopped then (if upto > 0 then upto - processed0 else 0) else |links|
    ensures taken <= |links| && processed == processed0 + taken
    ensures records == records0 + RecordsOf(links[..taken], docs, isWord)
  {
    records, processed, stopped := records0, processed0, false;
    taken := 0;
    while taken < |links|
      invariant taken <= |links| && processed == processed0 + taken
      invariant records == records0 + RecordsOf(links[..taken], docs, isWord)
      invariant upto > 0 ==> processed <= upto
      invariant upto < 0 ==> taken == 0
    {
      if upto != 0 && processed >= upto {
        stopped := true;
        return;
      }
      var url := links[taken];
      RecordsOfSnoc(links, taken, docs, isWord);
      Assoc(records0, RecordsOf(links[..taken], docs, isWord), [ScrapeItem(url, docs(url), isWord)]);
      records := records + [ScrapeItem(url, docs(url), isWord)];
      processed := processed + 1;
      taken := taken + 1;
    }
  }

  lemma RecordsOfSnoc(urls: seq<string>, n: nat, docs: string -> Option<DocPage>, isWord: char -> bool)
    requires n < |urls|
    ensures RecordsOf(urls[..n + 1], docs, isWord) == RecordsOf(urls[..n], docs, isWord) + [ScrapeItem(urls[n], docs(urls[n]), isWord)]
  {
    assert urls[..n + 1][..n] == urls[..n];
  }

  lemma {:induction false} RecordsOfAppend(a: seq<string>, b: seq<string>, docs: string -> Option<DocPage>, isWord: char -> bool)
    ensures RecordsOf(a + b, docs, isWord) == RecordsOf(a, docs, isWord) + RecordsOf(b, docs, isWord)
  {
    if b != [] {
      var b' := b[..|b| - 1];
      assert (a + b)[..|a + b| - 1] == a + b';
      assert (a + b)[|a + b| - 1] == b[|b| - 1];
      RecordsOfAppend(a, b', docs, isWord);
      assert RecordsOf(a + b, docs, isWord) == RecordsOf(a + b', docs, isWord) + [ScrapeItem(b[|b| - 1], docs(b[|b| - 1]), isWord)];
    } else {
      assert a + b == a;
    }
  }

  /** The links of pages k .. n-1, in page order; a page that failed to
      load contributes none. */
  function AllLinks(pages: seq<Option<Page>>, k: nat, n: nat): seq<string>
    decreases n - k
  {
    if n <= k || |pages| <= k then []
    else (if pages[k].Some? then PageLinks(pages[k].value) else []) + AllLinks(pages, k + 1, n)
  }

  /** The crawl reads pages in order: every page it reads was fetched and
      had links. */
  lemma {:induction false} CrawlReadsLinkedPages(pages: seq<Option<Page>>, k: nat, maxPages: int, upto: int, done: seq<string>)
    requires k <= |pages|
    requires upto > 0 ==> |done| <= upto
    requires upto < 0 ==> done == []
    ensures var r := Crawl(pages, k, maxPages, upto, done);
      && k <= r.pagesRead <= |pages|
      && (forall j :: k <= j < r.pagesRead ==> pages[j].Some? && PageLinks(pages[j].value) != [])
    decreases |pages| - k
  {
    var s := PageStep(pages, k, maxPages, upto, done);
    CrawlUnfold(pages, k, maxPages, upto, done);
    if s.Continue? {
      CrawlReadsLinkedPages(pages, k + 1, maxPages, upto, s.next);
    }
  }

  /** The j-th response is a page with a next-page link. */
  predicate HasNextLink(pages: seq<Option<Page>>, j: nat)
  {
    j < |pages| && pages[j].Some? && NextPage(pages[j].value).Some?
  }

  /** Every page read before the last had a next link. */
  lemma {:induction false} CrawlFollowsNextLinks(pages: seq<Option<Page>>, k: nat, maxPages: int, upto: int, done: seq<string>)
    requires upto > 0 ==> |done| <= upto
    requires upto < 0 ==> done == []
    ensures var r := Crawl(pages, k, maxPages, upto, done);
      forall j :: k <= j < r.pagesRead - 1 ==> HasNextLink(pages, j)
    decreases |pages| - k
  {
    var s := PageStep(pages, k, maxPages, upto, done);
    CrawlUnfold(pages, k, maxPages, upto, done);
    if s.Continue? {
      CrawlFollowsNextLinks(pages, k + 1, maxPages, upto, s.next);
      assert HasNextLink(pages, k);
    }
  }

  /** ... and scrapes their links in order: the links scraped are a prefix
      of the read pages' links. */
  lemma {:induction false} CrawlFollowsPages(pages: seq<Option<Page>>, k: nat, maxPages: int, upto: int, done: seq<string>)
    requires k <= |pages|
    requires upto > 0 ==> |done| <= upto
    requires upto < 0 ==> done == []
    ensures var r := Crawl(pages, k, maxPages, upto, done);
      r.visited <= done + AllLinks(pages, k, r.pagesRead)
    decreases |pages| - k
  {
    var s := PageStep(pages, k, maxPages, upto, done);
    CrawlUnfold(pages, k, maxPages, upto, done);
    if s.Stop? {
      StopFollowsPage(pages, k, maxPages, upto, done);
    } else {
      var next := s.next;
      CrawlFollowsPages(pages, k + 1, maxPages, upto, next);
      CrawlReadsLinkedPages(pages, k + 1, maxPages, upto, next);
      var n := Crawl(pages, k + 1, maxPages, upto, next).pagesRead;
      AllLinksCons(pages, k, n);
      Assoc(done, PageLinks(pages[k].value), AllLinks(pages, k + 1, n));
    }
  }

  lemma StopFollowsPage(pages: seq<Option<Page>>, k: nat, maxPages: int, upto: int, done: seq<string>)
    requires upto > 0 ==> |done| <= upto
    requires upto < 0 ==> done == []
    requires PageStep(pages, k, maxPages, upto, done).Stop?
    ensures var r := PageStep(pages, k, maxPages, upto, done).progress;
      r.visited <= done + AllLinks(pages, k, r.pagesRead)
  {
    var r := PageStep(pages, k, maxPages, upto, done).progress;
    if r.pagesRead == k {
      assert AllLinks(pages, k, k) == [];
      assert done + [] == done;
    } else {
      AllLinksOne(pages, k);
    }
  }

  /** The crawl scrapes fewer links than its pages hold only when `upto`
      cut it short, and then it has scraped exactly `upto` links. */
  lemma {:induction false} CrawlShortOnlyAtBudget(pages: seq<Option<Page>>, k: nat, maxPages: int, upto: int, done: seq<string>)
    requires k <= |pages|
    requires upto > 0 ==> |done| <= upto
    requires upto < 0 ==> done == []
    ensures var r := Crawl(pages, k, maxPages, upto, done);
      r.visited != done + AllLinks(pages, k, r.pagesRead) ==> upto != 0 && (upto > 0 ==> |r.visited| == upto)
    decreases |pages| - k
  {
    match PageStep(pages, k, maxPages, upto, done)
    case Stop(r) =>
      if r.pagesRead == k {
        assert AllLinks(pages, k, k) == [];
        assert done + [] == done;
      } else {
        PageStepShort(pages, k, maxPages, upto, done);
        AllLinksOne(pages, k);
      }
    case Continue(next) =>
      CrawlShortOnlyAtBudget(pages, k + 1, maxPages, upto, next);
      CrawlReadsLinkedPages(pages, k + 1, maxPages, upto, next);
      var r := Crawl(pages, k + 1, maxPages, upto, next);
      AllLinksCons(pages, k, r.pagesRead);
      Assoc(done, PageLinks(pages[k].value), AllLinks(pages, k + 1, r.pagesRead));
  }

  lemma AllLinksOne(pages: seq<Option<Page>>, k: nat)
    requires k < |pages| && pages[k].Some?
    ensures AllLinks(pages, k, k + 1) == PageLinks(pages[k].value)
  {
    assert AllLinks(pages, k + 1, k + 1) == [];
  }

  lemma AllLinksCons(pages: seq<Option<Page>>, k: nat, n: nat)
    requires k < n && k < |pages| && pages[k].Some?
    ensures AllLinks(pages, k, n) == PageLinks(pages[k].value) + AllLinks(pages, k + 1, n)
  {
  }

  /** With a positive `max_pages` at most that many pages have their links
      scraped. */
  lemma {:induction false} CrawlPageBudget(pages: seq<Option<Page>>, k: nat, maxPages: int, upto: int, done: seq<string>)
    requires upto > 0 ==> |done| <= upto
    requires upto < 0 ==> done == []
    requires k < maxPages
    ensures Crawl(pages, k, maxPages, upto, done).pagesRead <= maxPages
    decreases |pages| - k
  {
    var more, next := CrawlPageStep(pages, k, maxPages, upto, done);
    if more {
      CrawlPageBudget(pages, k + 1, maxPages, upto, next);
    }
  }

  /** With a negative `max_pages` the crawl stops after the first page. */
  lemma NegativePageBudget(pages: seq<Option<Page>>, maxPages: int, upto: int, done: seq<string>)
    requires upto > 0 ==> |done| <= upto
    requires upto < 0 ==> done == []
    requires maxPages < 0
    ensures Crawl(pages, 0, maxPages, upto, done).pagesRead <= 1
  {
    var more, next := CrawlPageStep(pages, 0, maxPages, upto, done);
  }

  /** One turn of the crawl, as far as the page count goes: it ends having
      read at most this page, or goes on to the next one, which must still be
      within `max_pages`. */
  lemma CrawlPageStep(pages: seq<Option<Page>>, k: nat, maxPages: int, upto: int, done: seq<string>)
    returns (more: bool, next: seq<string>)
    requires upto > 0 ==> |done| <= upto
    requires upto < 0 ==> done == []
    ensures !more ==> Crawl(pages, k, maxPages, upto, done).pagesRead <= k + 1
    ensures more ==>
      && k < |pages| && (maxPages == 0 || k + 2 <= maxPages)
      && (upto > 0 ==> |next| <= upto) && (upto < 0 ==> next == [])
      && Crawl(pages, k, maxPages, upto, done) == Crawl(pages, k + 1, maxPages, upto, next)
  {
    var s := PageStep(pages, k, maxPages, upto, done);
    CrawlUnfold(pages, k, maxPages, upto, done);
    more := s.Continue?;
    next := if more then s.next else done;
  }

  /** The whole crawl: at most `upto` links when that is positive and none
      when it is negative or the search URL is empty; at most `max_pages`
      pages read when that is positive, and one when it is negative; the links are a prefix of the read
      pages' links, all of them without an `upto` budget. */
  lemma CrawledBounds(searchUrl: string, pages: seq<Option<Page>>, maxPages: int, upto: int)
    ensures var c := Crawled(searchUrl, pages, maxPages, upto);
      && (upto > 0 ==> |c.visited| <= upto)
      && (upto < 0 || searchUrl == [] ==> c.visited == [])
      && (maxPages > 0 ==> c.pagesRead <= maxPages)
      && (maxPages < 0 ==> c.pagesRead <= 1)
      && c.pagesRead <= |pages|
      && (forall j :: 0 <= j < c.pagesRead ==> pages[j].Some? && PageLinks(pages[j].value) != [])
      && c.visited <= AllLinks(pages, 0, c.pagesRead)
      && (upto == 0 ==> c.visited == AllLinks(pages, 0, c.pagesRead))
      && (upto > 0 && c.visited != AllLinks(pages, 0, c.pagesRead) ==> |c.visited| == upto)
  {
    if searchUrl != [] {
      CrawlReadsLinkedPages(pages, 0, maxPages, upto, []);
      CrawlFollowsPages(pages, 0, maxPages, upto, []);
      CrawlShortOnlyAtBudget(pages, 0, maxPages, upto, []);
      if maxPages > 0 {
        CrawlPageBudget(pages, 0, maxPages, upto, []);
      } else if maxPages < 0 {
        NegativePageBudget(pages, maxPages, upto, []);
      }
      assert [] + AllLinks(pages, 0, Crawled(searchUrl, pages, maxPages, upto).pagesRead)
          == AllLinks(pages, 0, Crawled(searchUrl, pages, maxPages, upto).pagesRead);
    } else {
      assert AllLinks(pages, 0, 0) == [];
    }
  }

  /** The `StopIteration` ends the whole crawl, not just the page: when the
      first page alone has more than `upto` links, exactly its first `upto`
      links are scraped and no further page is requested. */
  lemma BudgetStopsWithinPage(searchUrl: string, pages: seq<Option<Page>>, maxPages: int, upto: int)
    requires searchUrl != [] && upto > 0
    requires |pages| > 0 && pages[0].Some? && |PageLinks(pages[0].value)| > upto
    ensures Crawled(searchUrl, pages, maxPages, upto) == Progress(PageLinks(pages[0].value)[..upto], 1)
  {
    var links := PageLinks(pages[0].value);
    CrawlUnfold(pages, 0, maxPages, upto, []);
    assert [] + links[..upto] == links[..upto];
  }

  /** One record per link, in link order: the i-th record is the scrape of
      the i-th link and carries that link. */
  lemma {:induction false} RecordOfLink(urls: seq<string>, docs: string -> Option<DocPage>, isWord: char -> bool, i: nat)
    requires i < |urls|
    ensures RecordsOf(urls, docs, isWord)[i] == ScrapeItem(urls[i], docs(urls[i]), isWord)
    ensures RecordsOf(urls, docs, isWord)[i].url == urls[i]
  {
    if i < |urls| - 1 {
      RecordOfLink(urls[..|urls| - 1], docs, isWord, i);
    }
  }

  /** A failed fetch still yields a record, holding only the link; a fetched
      page yields a clean full text, sections with distinct names, and, when
      the text has no heading, the whole text as its only section. */
  lemma ScrapedRecordShape(url: string, doc: Option<DocPage>, isWord: char -> bool)
    ensures var r := ScrapeItem(url, doc, isWord);
      && (doc.None? ==> r == Record(url, "", "", "", "", []))
      && '\r' !in r.fullText && NoTripleNewline(r.fullText) && Trimmed(r.fullText)
      && UniqueKeys(r.sections)
      && (r.fullText == [] ==> r.sections == [])
      && (r.fullText != [] && NoHeadingIn(r.fullText) ==> r.sections == [(FullReportKey, r.fullText)])
  {
    if doc.Some? {
      var cleaned := CleanReportText(doc.value.decisionText, isWord);
      if NormalizeText(cleaned, isWord) != [] {
        FullReportExactlyWithoutHeadings(cleaned, isWord);
      }
    }
  }
}
