/** `collect_result_links_from_page` and `get_next_page`, over the anchors of a
    parsed page rather than an HTML tree. */
module Links {
  import opened Optionals
  import opened TextOps

  /** An `<a>` element: its `href` attribute (`""` when it has none), its text
      as `get_text(strip=True)` returns it, its `.string` (`None` when the
      element does not hold exactly one string), and whether its `rel` is
      `next`. */
  datatype Anchor = Anchor(href: string, text: string, soleString: Option<string>, relNext: bool)

  /** A parsed page: all its anchors in document order, and the anchors inside
      its `<main>` element when it has one. */
  datatype Page = Page(anchors: seq<Anchor>, main: Option<seq<Anchor>>)

  const SiteRoot: string := "https://www.gao.gov"

  const ProductsPath: string := "/products/"

  /** `href.startswith("/")`: an href relative to the site root. */
  predicate SiteRelative(href: string)
  {
    StartsWith(href, "/")
  }

  /** A site-relative href gets the site root in front; any other href is
      kept as it is, a document-relative one such as `../products/x`
      included. */
  function Absolutize(href: string): (r: string)
  {
    if SiteRelative(href) then SiteRoot + href else href
  }

  /** An absolutised href does not start with `/`, ends with the href it came
      from and still holds every piece of it; absolutising twice is
      absolutising once. */
  lemma AbsolutizeFacts(href: string)
    ensures !SiteRelative(Absolutize(href))
    ensures |href| <= |Absolutize(href)|
    ensures Absolutize(href)[|Absolutize(href)| - |href|..] == href
    ensures Contains(href, ProductsPath) ==> Contains(Absolutize(href), ProductsPath)
    ensures Absolutize(Absolutize(href)) == Absolutize(href)
  {
    var r := Absolutize(href);
    assert SiteRoot[0] == 'h';
    if SiteRelative(href) {
      DropPrefix(SiteRoot, href);
      if Contains(href, ProductsPath) {
        var i :| 0 <= i <= |href| && OccursAt(href, i, ProductsPath);
        assert r[|SiteRoot| + i..|SiteRoot| + i + |ProductsPath|] == href[i..i + |ProductsPath|];
        assert OccursAt(r, |SiteRoot| + i, ProductsPath);
      }
    }
  }

  /** `soup.select_one("main") or soup`: the part of the page searched for results. */
  function ResultScope(p: Page): seq<Anchor>
  {
    match p.main
    case Some(m) => m
    case None => p.anchors
  }

  /** An anchor selected by `a[href*='/products/']` whose href and text pass the
      loop's test. */
  predicate IsResultAnchor(a: Anchor)
  {
    a.href != [] && Contains(a.href, ProductsPath) && a.text != []
  }

  /** The links the loop has emitted after the anchors `anchors`: an anchor is
      taken when it is a result anchor and its RAW href is not among the links
      so far, and what is emitted is the absolutised href. */
  function ResultLinks(anchors: seq<Anchor>): seq<string>
  {
    if anchors == [] then []
    else
      var links := ResultLinks(anchors[..|anchors| - 1]);
      var a := anchors[|anchors| - 1];
      if IsResultAnchor(a) && a.href !in links then links + [Absolutize(a.href)] else links
  }

  /** The `i`-th anchor adds a link: it is a result anchor and its raw href
      is not among the links made from the anchors before it. */
  predicate Taken(anchors: seq<Anchor>, i: nat)
    requires i < |anchors|
  {
    IsResultAnchor(anchors[i]) && anchors[i].href !in ResultLinks(anchors[..i])
  }

  /** One more anchor: a result anchor whose raw href is not yet among the
      links adds its absolutised href at the end; any other adds nothing. */
  lemma ResultLinksSnoc(anchors: seq<Anchor>, a: Anchor)
    ensures ResultLinks(anchors + [a]) ==
      ResultLinks(anchors) + (if IsResultAnchor(a) && a.href !in ResultLinks(anchors) then [Absolutize(a.href)] else [])
  {
    assert (anchors + [a])[..|anchors|] == anchors;
  }

  /** The same step, read off a prefix of the anchors. */
  lemma ResultLinksStep(anchors: seq<Anchor>, i: nat)
    requires i < |anchors|
    ensures ResultLinks(anchors[..i + 1]) ==
      ResultLinks(anchors[..i]) + (if Taken(anchors, i) then [Absolutize(anchors[i].href)] else [])
  {
    assert anchors[..i + 1][..i] == anchors[..i];
  }

  /** The links made from a prefix of the anchors are a prefix of the links. */
  lemma {:induction false} ResultLinksPrefix(anchors: seq<Anchor>, i: nat)
    requires i <= |anchors|
    ensures ResultLinks(anchors[..i]) <= ResultLinks(anchors)
    decreases |anchors|
  {
    if i < |anchors| {
      var init := anchors[..|anchors| - 1];
      assert init[..i] == anchors[..i];
      ResultLinksPrefix(init, i);
    } else {
      assert anchors[..i] == anchors;
    }
  }

  /** A link is emitted exactly when some taken anchor has it as its
      absolutised href. */
  lemma ResultLinksIff(anchors: seq<Anchor>, l: string)
    ensures l in ResultLinks(anchors) <==>
      exists i :: 0 <= i < |anchors| && Taken(anchors, i) && l == Absolutize(anchors[i].href)
  {
    if l in ResultLinks(anchors) {
      var i := LinkSource(anchors, l);
    }
    forall i | 0 <= i < |anchors| && Taken(anchors, i)
      ensures Absolutize(anchors[i].href) in ResultLinks(anchors)
    {
      var n := TakenEmits(anchors, i);
    }
  }

  /** The taken anchor an emitted link was made from. */
  lemma LinkSource(anchors: seq<Anchor>, l: string) returns (i: nat)
    requires l in ResultLinks(anchors)
    ensures i < |anchors| && Taken(anchors, i) && l == Absolutize(anchors[i].href)
  {
    EmittedFacts(anchors);
    var links, e := ResultLinks(anchors), Emitted(anchors);
    var k :| 0 <= k < |links| && links[k] == l;
    i := e[k];
  }

  /** A taken anchor's absolutised href is among the links, at the place
      right after the links made before it. */
  lemma TakenEmits(anchors: seq<Anchor>, i: nat) returns (n: nat)
    requires i < |anchors| && Taken(anchors, i)
    ensures n == |ResultLinks(anchors[..i])|
    ensures n < |ResultLinks(anchors)| && ResultLinks(anchors)[n] == Absolutize(anchors[i].href)
  {
    var after := ResultLinks(anchors[..i + 1]);
    n := |ResultLinks(anchors[..i])|;
    assert n < |after| && after[n] == Absolutize(anchors[i].href) by {
      ResultLinksStep(anchors, i);
    }
    ResultLinksPrefix(anchors, i + 1);
    PrefixIndex(after, ResultLinks(anchors), n);
  }

  /** `collect_result_links_from_page(soup)`. */
  method CollectResultLinks(p: Page) returns (links: seq<string>)
    ensures links == ResultLinks(ResultScope(p))
  {
    var main := ResultScope(p);
    links := [];
    var seen: set<string> := {};
    for i := 0 to |main|
      invariant links == ResultLinks(main[..i])
      invariant seen == set l | l in links
    {
      assert main[..i + 1][..i] == main[..i];
      var a := main[i];
      var href := a.href;
      var title := a.text;
      if href != [] && Contains(href, ProductsPath) && title != [] && href !in seen {
        if SiteRelative(href) {
          href := SiteRoot + href;
        }
        links := links + [href];
        seen := seen + {href};
      }
    }
    assert main[..|main|] == main;
  }

  /** Which anchor each emitted link came from. */
  ghost function Emitted(anchors: seq<Anchor>): seq<nat>
  {
    if anchors == [] then []
    else
      var e := Emitted(anchors[..|anchors| - 1]);
      var a := anchors[|anchors| - 1];
      if IsResultAnchor(a) && a.href !in ResultLinks(anchors[..|anchors| - 1])
      then e + [|anchors| - 1] else e
  }

  /** `e` records, for each link of `links`, the result anchor of `anchors`
      it was made from: the anchors are in document order, and the links made
      before an anchor are those of the anchors before it. */
  ghost predicate EmittedFrom(anchors: seq<Anchor>, e: seq<nat>, links: seq<string>)
  {
    && |e| == |links|
    && (forall k :: 0 <= k < |e| ==>
      e[k] < |anchors| && IsResultAnchor(anchors[e[k]])
      && links[k] == Absolutize(anchors[e[k]].href)
      && ResultLinks(anchors[..e[k]]) == links[..k]
      && anchors[e[k]].href !in links[..k])
    && (forall j, k :: 0 <= j < k < |e| ==> e[j] < e[k])
  }

  /** Every link is the absolutised href of a result anchor, the anchors
      taken are in document order, and the links emitted before an anchor are
      those of the anchors before it. */
  lemma {:induction false} EmittedFacts(anchors: seq<Anchor>)
    ensures EmittedFrom(anchors, Emitted(anchors), ResultLinks(anchors))
  {
    if anchors != [] {
      var init, a := anchors[..|anchors| - 1], anchors[|anchors| - 1];
      assert anchors == init + [a];
      EmittedFacts(init);
      EmittedWiden(init, a, Emitted(init), ResultLinks(init));
      if IsResultAnchor(a) && a.href !in ResultLinks(init) {
        EmittedPush(init, a, Emitted(init), ResultLinks(init));
        assert Emitted(anchors) == Emitted(init) + [|init|];
      } else {
        assert Emitted(anchors) == Emitted(init);
      }
    }
  }

  /** Appending an anchor keeps what was emitted before it. */
  lemma EmittedWiden(init: seq<Anchor>, a: Anchor, e: seq<nat>, links: seq<string>)
    requires EmittedFrom(init, e, links)
    ensures EmittedFrom(init + [a], e, links)
  {
    var anchors := init + [a];
    assert forall i :: 0 <= i <= |init| ==> anchors[..i] == init[..i];
    assert forall i :: 0 <= i < |init| ==> anchors[i] == init[i];
  }

  /** An emitted anchor extends the record by its own position and link. */
  lemma EmittedPush(init: seq<Anchor>, a: Anchor, e: seq<nat>, links: seq<string>)
    requires EmittedFrom(init + [a], e, links) && |links| == |ResultLinks(init)|
    requires links == ResultLinks(init) && (forall k :: 0 <= k < |e| ==> e[k] < |init|)
    requires IsResultAnchor(a) && a.href !in links
    ensures EmittedFrom(init + [a], e + [|init|], links + [Absolutize(a.href)])
  {
    var anchors, links' := init + [a], links + [Absolutize(a.href)];
    assert anchors[..|init|] == init;
    assert links'[..|links|] == links;
    assert forall k :: 0 <= k < |e| ==> links'[..k] == links[..k];
  }

  /** Links are emitted in anchor order: the `k`-th link comes from a result
      anchor, later links from later anchors. */
  lemma LinksFollowAnchors(anchors: seq<Anchor>, j: nat, k: nat)
    requires j < k < |ResultLinks(anchors)|
    ensures exists aj, ak ::
      && 0 <= aj < ak < |anchors|
      && IsResultAnchor(anchors[aj]) && ResultLinks(anchors)[j] == Absolutize(anchors[aj].href)
      && IsResultAnchor(anchors[ak]) && ResultLinks(anchors)[k] == Absolutize(anchors[ak].href)
  {
    EmittedFacts(anchors);
    var e := Emitted(anchors);
    assert e[j] < e[k];
  }

  /** No emitted link starts with `/`, and every one points into
      `/products/`. */
  lemma ProductLinksNotSiteRelative(anchors: seq<Anchor>)
    ensures forall l :: l in ResultLinks(anchors) ==> !SiteRelative(l) && Contains(l, ProductsPath)
  {
    EmittedFacts(anchors);
    var links, e := ResultLinks(anchors), Emitted(anchors);
    forall l | l in links
      ensures !SiteRelative(l) && Contains(l, ProductsPath)
    {
      var k :| 0 <= k < |links| && links[k] == l;
      AbsolutizeFacts(anchors[e[k]].href);
    }
  }

  /** The de-duplication compares the raw href with absolutised links, so a
      link can repeat only when it came from a site-relative href. */
  lemma RepeatsComeFromSiteRelativeHrefs(anchors: seq<Anchor>, j: nat, k: nat)
    requires j < k < |ResultLinks(anchors)|
    requires ResultLinks(anchors)[j] == ResultLinks(anchors)[k]
    ensures exists i ::
      && 0 <= i < |anchors| && SiteRelative(anchors[i].href)
      && ResultLinks(anchors)[k] == Absolutize(anchors[i].href)
  {
    EmittedFacts(anchors);
    var links, e := ResultLinks(anchors), Emitted(anchors);
    assert links[..k][j] == links[j];
    assert SiteRelative(anchors[e[k]].href);
  }

  /** When no href starts with `/`, no link is emitted twice. */
  lemma NoSiteRelativeHrefsGiveDistinctLinks(anchors: seq<Anchor>)
    requires forall i :: 0 <= i < |anchors| ==> !SiteRelative(anchors[i].href)
    ensures forall j, k :: 0 <= j < k < |ResultLinks(anchors)| ==> ResultLinks(anchors)[j] != ResultLinks(anchors)[k]
  {
    EmittedFacts(anchors);
    forall j, k | 0 <= j < k < |ResultLinks(anchors)|
      ensures ResultLinks(anchors)[j] != ResultLinks(anchors)[k]
    {
      var links, e := ResultLinks(anchors), Emitted(anchors);
      assert links[k] == anchors[e[k]].href;
      assert links[..k][j] == links[j];
    }
  }

  /** A site-relative product link listed twice is emitted twice: the raw
      href is never among the absolutised links. */
  lemma SiteRelativeDuplicateKept()
    ensures var a := Anchor("/products/b-1", "Decision", None, false);
      ResultLinks([a, a]) == ["https://www.gao.gov/products/b-1", "https://www.gao.gov/products/b-1"]
  {
    var a := Anchor("/products/b-1", "Decision", None, false);
    var full := "https://www.gao.gov/products/b-1";
    assert OccursAt(a.href, 0, ProductsPath);
    assert SiteRelative(a.href) && Absolutize(a.href) == full;
    assert [a, a][..1] == [a] && [a][..0] == [];
    assert ResultLinks([a]) == [full];
    assert a.href != full;
  }

  /** The same link written absolutely is emitted once. */
  lemma AbsoluteDuplicateDropped()
    ensures var b := Anchor("https://www.gao.gov/products/b-1", "Decision", None, false);
      ResultLinks([b, b]) == ["https://www.gao.gov/products/b-1"]
  {
    var b := Anchor("https://www.gao.gov/products/b-1", "Decision", None, false);
    assert OccursAt(b.href, 19, ProductsPath);
    assert b.href[0] == 'h' && !SiteRelative(b.href);
    assert [b, b][..1] == [b] && [b][..0] == [];
    assert ResultLinks([b]) == [b.href];
  }

  /** Only a leading `/` gets the site root: a document-relative product
      link is emitted as it is written, not as an absolute URL. */
  lemma DocumentRelativeKept()
    ensures ResultLinks([Anchor("../products/b-1", "X", None, false)]) == ["../products/b-1"]
  {
    var a := Anchor("../products/b-1", "X", None, false);
    assert OccursAt(a.href, 2, ProductsPath);
    assert a.href[0] == '.' && !SiteRelative(a.href);
    assert [a][..0] == [];
  }

  /** The index of the first anchor satisfying `wanted`. */
  function FirstAnchor(anchors: seq<Anchor>, wanted: Anchor -> bool): (r: Option<nat>)
    ensures r.Some? ==> r.value < |anchors| && wanted(anchors[r.value])
    ensures r.Some? ==> forall j :: 0 <= j < r.value ==> !wanted(anchors[j])
    ensures r.None? ==> forall j :: 0 <= j < |anchors| ==> !wanted(anchors[j])
  {
    if anchors == [] then None
    else if wanted(anchors[0]) then Some(0)
    else match FirstAnchor(anchors[1..], wanted)
      case Some(i) => Some(i + 1)
      case None => None
  }

  /** `lambda t: t and "Next" in t`, applied to the anchor's `.string`. */
  predicate SaysNext(a: Anchor)
  {
    a.soleString.Some? && a.soleString.value != [] && Contains(a.soleString.value, "Next")
  }

  predicate IsRelNext(a: Anchor)
  {
    a.relNext
  }

  /** The anchor `get_next_page` follows: the first `a[rel='next']` of the
      page, or failing that the first anchor whose string holds `Next`. */
  function NextAnchor(p: Page): (r: Option<nat>)
    ensures r.Some? ==> r.value < |p.anchors|
    ensures r.None? <==> forall j :: 0 <= j < |p.anchors| ==> !IsRelNext(p.anchors[j]) && !SaysNext(p.anchors[j])
    ensures r.Some? && IsRelNext(p.anchors[r.value]) ==>
      forall j :: 0 <= j < r.value ==> !IsRelNext(p.anchors[j])
    ensures r.Some? && !IsRelNext(p.anchors[r.value]) ==>
      && SaysNext(p.anchors[r.value])
      && (forall j :: 0 <= j < |p.anchors| ==> !IsRelNext(p.anchors[j]))
      && (forall j :: 0 <= j < r.value ==> !SaysNext(p.anchors[j]))
  {
    match FirstAnchor(p.anchors, IsRelNext)
    case Some(i) => Some(i)
    case None => FirstAnchor(p.anchors, SaysNext)
  }

  /** `get_next_page(soup)`. */
  function NextPage(p: Page): (r: Option<string>)
    ensures r.Some? ==> r.value != [] && !SiteRelative(r.value)
  {
    match NextAnchor(p)
    case None => None
    case Some(i) =>
      var href := p.anchors[i].href;
      AbsolutizeFacts(href);
      if href == [] then None else Some(Absolutize(href))
  }

  /** An anchor marked `rel="next"` wins over any anchor reading "Next", even
      one that comes before it. */
  lemma RelNextWins(p: Page, i: nat)
    requires i < |p.anchors| && p.anchors[i].relNext
    requires forall j :: 0 <= j < i ==> !p.anchors[j].relNext
    ensures NextPage(p) == if p.anchors[i].href == [] then None else Some(Absolutize(p.anchors[i].href))
  {
    assert IsRelNext(p.anchors[i]);
  }

  /** Without a `rel="next"` anchor, the first anchor reading "Next" is
      followed. */
  lemma NextTextFollowed(p: Page, i: nat)
    requires forall j :: 0 <= j < |p.anchors| ==> !p.anchors[j].relNext
    requires i < |p.anchors| && SaysNext(p.anchors[i])
    requires forall j :: 0 <= j < i ==> !SaysNext(p.anchors[j])
    ensures NextPage(p) == if p.anchors[i].href == [] then None else Some(Absolutize(p.anchors[i].href))
  {
    assert FirstAnchor(p.anchors, IsRelNext).None?;
    assert SaysNext(p.anchors[i]);
  }

  /** With no anchor marked `rel="next"` and none reading "Next" there is no
      next page. */
  lemma NoNextAnchor(p: Page)
    requires forall j :: 0 <= j < |p.anchors| ==> !p.anchors[j].relNext && !SaysNext(p.anchors[j])
    ensures NextPage(p) == None
  {
    assert FirstAnchor(p.anchors, IsRelNext).None?;
    assert FirstAnchor(p.anchors, SaysNext).None?;
  }
}
