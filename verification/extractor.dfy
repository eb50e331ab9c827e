/** `extract_next_links` and `scraper` of scraper.py (lines 8-80): one
    crawled page updates the run-wide statistics and yields the links to
    hand back to the frontier.

    The work the crawler delegates is not modelled: the HTML parser, the
    tokenizer and `urljoin` come in as a `PageContent`, the robots.txt
    fetch as an `Option<string>` and `urlparse` as a function parameter.
    The module-level globals become an explicit `CrawlState` that every
    call takes and returns. */
module Extractor {
  import opened Results
  import opened Text
  import opened Sequences
  import opened Normalizer
  import opened Statistics
  import Robots
  import Validator

  /** The globals of the crawl: the distinct pages, every page in crawl
      order (repeats included), the longest page, the word totals and the
      anchor counts per subdomain of ics.uci.edu. */
  datatype CrawlState = CrawlState(
    uniquePages: set<string>,
    allPages: seq<string>,
    longestPage: PageRecord,
    totalWordFrequency: map<string, nat>,
    icsUciEdu: map<string, nat>)

  /** The parts of the download response the function reads. */
  datatype Response = Response(url: string, status: int)

  /** What the parser and the tokenizer make of the page: its token count,
      the frequencies of its tokens once stopwords are removed, and the
      `href` of every anchor, already resolved against the page URL. */
  datatype PageContent = PageContent(tokenCount: nat, frequencies: map<string, nat>, anchors: seq<string>)

  /** The exceptions that escape `extract_next_links`. */
  datatype CrawlError =
    | RobotsFailure(cause: Robots.RobotsError)  // a ValueError inside canCrawl
    | MissingSchemeSeparator                    // `resp.url.index("//")` at line 68

  /** A call either returns links together with the new state, or raises
      with the state as it stood at that point: the globals are mutated in
      place, so updates made before the exception remain. */
  datatype Outcome =
    | Done(state: CrawlState, links: seq<string>)
    | Raised(error: CrawlError, state: CrawlState)

  /** The domain whose subdomains are counted (line 66). */
  const IcsDomain: string := "ics.uci.edu"

  /** Line 68: the text between the first `//` and the first `.` of the
      URL, empty when that `.` does not come after the `//`. */
  function SubdomainLabel(url: string): (r: Result<string, CrawlError>)
    requires Contains(url, IcsDomain)
    ensures r.Failure? <==> !Contains(url, "//")
    ensures r.Failure? ==> r.error == MissingSchemeSeparator
    ensures r.Success? ==> '.' !in r.value
    ensures r.Success? && r.value != "" ==> Contains(url, "//" + r.value + ".")
    ensures r.Success? ==>
      var i := Find(url, "//").value;
      && '.' in url
      && var dot := FirstIndex(url, '.').value;
      && (r.value == "" <==> dot <= i + 2)
      && (dot > i + 2 ==> r.value == url[i + 2..dot])
  {
    ContainedCharsOccur(url, IcsDomain, 3);
    match Find(url, "//")
    case None => Failure(MissingSchemeSeparator)
    case Some(i) =>
      var dot := FirstIndex(url, '.').value;
      var sub := Slice(url, i + 2, dot);
      assert sub != "" ==> Contains(url, "//" + sub + ".") by {
        if sub != "" {
          SeparatedLabelOccurs(url, i, dot);
        }
      }
      Success(sub)
  }

  /** The text between a `//` at `i` and a `.` at `dot` occurs in the URL
      framed by them. */
  lemma SeparatedLabelOccurs(url: string, i: nat, dot: nat)
    requires OccursAt("//", url, i) && dot < |url| && url[dot] == '.' && i + 2 < dot
    ensures Contains(url, "//" + url[i + 2..dot] + ".")
  {
    assert url[i..dot + 1] == "//" + url[i + 2..dot] + ".";
    assert OccursAt("//" + url[i + 2..dot] + ".", url, i);
  }

  /** Lines 29-47: the page joins the distinct pages and the crawl order,
      may become the longest page, and its word frequencies are added. */
  function RecordPage(s: CrawlState, url: string, page: PageContent): (r: CrawlState)
    ensures r.uniquePages == s.uniquePages + {url}
    ensures r.allPages == s.allPages + [url]
    ensures r.longestPage == UpdateLongest(s.longestPage, url, page.tokenCount)
    ensures r.totalWordFrequency.Keys == s.totalWordFrequency.Keys + page.frequencies.Keys
    ensures forall w :: CountOf(r.totalWordFrequency, w) == CountOf(s.totalWordFrequency, w) + CountOf(page.frequencies, w)
    ensures r.icsUciEdu == s.icsUciEdu
  {
    CrawlState(
      s.uniquePages + {url},
      s.allPages + [url],
      UpdateLongest(s.longestPage, url, page.tokenCount),
      MergeCounts(s.totalWordFrequency, page.frequencies),
      s.icsUciEdu)
  }

  /** Lines 75-77: the links not yet among the visited pages, in order,
      repeats kept. */
  function Unvisited(links: seq<string>, visited: set<string>): (r: seq<string>)
    ensures forall k :: 0 <= k < |r| ==> r[k] !in visited
    ensures forall l :: l in r <==> l in links && l !in visited
    ensures IsSubsequence(r, links)
    ensures forall l :: l !in visited ==> multiset(r)[l] == multiset(links)[l]
  {
    Filter(links, NotVisited(visited))
  }

  /** The test of line 76. */
  function NotVisited(visited: set<string>): string -> bool
  {
    l => l !in visited
  }

  /** Collecting one more link keeps it exactly when it is not visited. */
  lemma UnvisitedSnoc(links: seq<string>, i: nat, visited: set<string>)
    requires i < |links|
    ensures Unvisited(links[..i + 1], visited)
      == Unvisited(links[..i], visited) + (if links[i] in visited then [] else [links[i]])
  {
    assert links[..i + 1] == links[..i] + [links[i]];
    FilterAppend(links[..i], [links[i]], NotVisited(visited));
    assert [links[i]][1..] == [];
  }

  /** The loop of lines 75-77. */
  method CollectUnvisited(aTags: seq<string>, visited: set<string>) returns (validLinks: seq<string>)
    ensures validLinks == Unvisited(aTags, visited)
  {
    validLinks := [];
    var i := 0;
    while i < |aTags|
      invariant 0 <= i <= |aTags|
      invariant validLinks == Unvisited(aTags[..i], visited)
    {
      var tag := aTags[i];
      UnvisitedSnoc(aTags, i, visited);
      if tag !in visited {
        validLinks := validLinks + [tag];
      }
      i := i + 1;
    }
    assert aTags[..i] == aTags;
  }

  /** `extract_next_links(url, resp)`, lines 12-80. Only a page with status
      200 whose robots.txt allows it is processed; the anchors are
      normalised, counted for the subdomain report when the page lies under
      ics.uci.edu, and returned when not yet visited. */
  function ExtractNextLinks(s: CrawlState, resp: Response, robots: Option<string>, page: PageContent): (r: Outcome)
    ensures resp.status != 200 ==> r == Done(s, [])
    ensures r.Raised? && r.error.RobotsFailure? ==> r.state == s
    ensures r.Done? ==> forall k :: 0 <= k < |r.links| ==>
      r.links[k] !in r.state.uniquePages && '#' !in r.links[k] && '?' !in r.links[k]
    ensures r.Done? ==> |r.links| <= |page.anchors|
    ensures r.Done? && r.links != [] ==> resp.url in r.state.uniquePages
  {
    if resp.status != 200 then Done(s, [])
    else
      match Robots.CanCrawl(robots, resp.url)
      case Failure(e) => Raised(RobotsFailure(e), s)
      case Success(allowed) =>
        if !allowed then Done(s, [])
        else
          var recorded := RecordPage(s, resp.url, page);
          var links := NormalizeAll(page.anchors);
          if Contains(resp.url, IcsDomain) then
            match SubdomainLabel(resp.url)
            case Failure(e) => Raised(e, recorded)
            case Success(sub) =>
              var counted := recorded.(icsUciEdu := AddCount(recorded.icsUciEdu, sub, |links|));
              Done(counted, Unvisited(links, counted.uniquePages))
          else
            Done(recorded, Unvisited(links, recorded.uniquePages))
  }

  /** Line 10: the links that `is_valid` accepts, in order, each kept as
      often as it occurs; `parse` stands for `urlparse`. */
  function ValidLinks(links: seq<string>, parse: string -> Validator.ParsedUrl): (r: seq<string>)
    ensures forall k :: 0 <= k < |r| ==> Validator.IsValid(parse(r[k]))
    ensures IsSubsequence(r, links)
    ensures forall l :: l in r <==> l in links && Validator.IsValid(parse(l))
    ensures forall l :: Validator.IsValid(parse(l)) ==> multiset(r)[l] == multiset(links)[l]
  {
    Filter(links, l => Validator.IsValid(parse(l)))
  }

  /** `scraper(url, resp)`, lines 8-10: the extracted links that `is_valid`
      accepts; an exception of the extraction propagates unchanged. */
  function Scraper(s: CrawlState, resp: Response, robots: Option<string>, page: PageContent,
                   parse: string -> Validator.ParsedUrl): (r: Outcome)
    ensures r.Raised? <==> ExtractNextLinks(s, resp, robots, page).Raised?
    ensures r.Raised? ==> r.error == ExtractNextLinks(s, resp, robots, page).error
    ensures r.state == ExtractNextLinks(s, resp, robots, page).state
    ensures r.Done? ==> r.links == ValidLinks(ExtractNextLinks(s, resp, robots, page).links, parse)
  {
    match ExtractNextLinks(s, resp, robots, page)
    case Raised(e, st) => Raised(e, st)
    case Done(st, links) => Done(st, ValidLinks(links, parse))
  }

  /** The links `scraper` returns are exactly the extracted links that
      `is_valid` accepts, in their order and with their repeats. */
  lemma ScraperKeepsValidLinks(s: CrawlState, resp: Response, robots: Option<string>, page: PageContent,
                               parse: string -> Validator.ParsedUrl)
    requires Scraper(s, resp, robots, page, parse).Done?
    ensures var links := ExtractNextLinks(s, resp, robots, page).links;
      var r := Scraper(s, resp, robots, page, parse);
      && (forall k :: 0 <= k < |r.links| ==> Validator.IsValid(parse(r.links[k])))
      && IsSubsequence(r.links, links)
      && (forall l :: l in r.links <==> l in links && Validator.IsValid(parse(l)))
      && (forall l :: Validator.IsValid(parse(l)) ==> multiset(r.links)[l] == multiset(links)[l])
  {
  }

  /** The page is processed: status 200 and robots.txt allows it. */
  predicate Accepted(resp: Response, robots: Option<string>)
  {
    resp.status == 200 && Robots.CanCrawl(robots, resp.url) == Success(true)
  }

  /** A page that is not processed changes nothing and yields no links:
      a status other than 200, or robots.txt disallowing it. */
  lemma RefusedPageChangesNothing(s: CrawlState, resp: Response, robots: Option<string>, page: PageContent)
    requires resp.status != 200 || Robots.CanCrawl(robots, resp.url) == Success(false)
    ensures ExtractNextLinks(s, resp, robots, page) == Done(s, [])
  {
  }

  /** An unreadable robots.txt raises before any global is touched. */
  lemma RobotsErrorChangesNothing(s: CrawlState, resp: Response, robots: Option<string>, page: PageContent)
    requires resp.status == 200 && Robots.CanCrawl(robots, resp.url).Failure?
    ensures ExtractNextLinks(s, resp, robots, page)
      == Raised(RobotsFailure(Robots.CanCrawl(robots, resp.url).error), s)
  {
  }

  /** Without a robots.txt (the fetch fails with an HTTP error) every page
      with status 200 is processed. */
  lemma MissingRobotsAccepts(resp: Response)
    requires resp.status == 200
    ensures Accepted(resp, None)
  {
  }

  /** A processed page is recorded by lines 29-47 whatever happens next;
      the call raises only for an ics.uci.edu page without `//`, and then
      the recorded statistics remain. */
  lemma AcceptedPageRecorded(s: CrawlState, resp: Response, robots: Option<string>, page: PageContent)
    requires Accepted(resp, robots)
    ensures var r := ExtractNextLinks(s, resp, robots, page);
      && r.state.uniquePages == s.uniquePages + {resp.url}
      && r.state.allPages == s.allPages + [resp.url]
      && r.state.longestPage == UpdateLongest(s.longestPage, resp.url, page.tokenCount)
      && r.state.totalWordFrequency.Keys == s.totalWordFrequency.Keys + page.frequencies.Keys
      && (forall w :: CountOf(r.state.totalWordFrequency, w)
            == CountOf(s.totalWordFrequency, w) + CountOf(page.frequencies, w))
      && (r.Raised? <==> Contains(resp.url, IcsDomain) && !Contains(resp.url, "//"))
      && (r.Raised? ==> r == Raised(MissingSchemeSeparator, RecordPage(s, resp.url, page)))
  {
  }

  /** An ics.uci.edu page adds its number of anchors, before any filtering,
      to the count of its subdomain, and no other count changes. */
  lemma SubdomainCounted(s: CrawlState, resp: Response, robots: Option<string>, page: PageContent, sub: string)
    requires Accepted(resp, robots) && Contains(resp.url, IcsDomain)
    requires SubdomainLabel(resp.url) == Success(sub)
    ensures var r := ExtractNextLinks(s, resp, robots, page);
      && r.Done?
      && r.state.icsUciEdu.Keys == s.icsUciEdu.Keys + {sub}
      && CountOf(r.state.icsUciEdu, sub) == CountOf(s.icsUciEdu, sub) + |page.anchors|
      && (forall other :: other != sub ==> CountOf(r.state.icsUciEdu, other) == CountOf(s.icsUciEdu, other))
  {
  }

  /** Pages outside ics.uci.edu leave the subdomain report alone. */
  lemma OtherDomainNotCounted(s: CrawlState, resp: Response, robots: Option<string>, page: PageContent)
    requires !Contains(resp.url, IcsDomain)
    ensures ExtractNextLinks(s, resp, robots, page).state.icsUciEdu == s.icsUciEdu
  {
  }

  /** The links of a processed page are exactly its normalised anchors that
      were not visited before and are not the page itself, in the anchors'
      order and each as often as it appears among the anchors. */
  lemma LinksAreNewNormalisedAnchors(s: CrawlState, resp: Response, robots: Option<string>, page: PageContent, link: string)
    requires Accepted(resp, robots)
    requires ExtractNextLinks(s, resp, robots, page).Done?
    ensures var links := ExtractNextLinks(s, resp, robots, page).links;
      && links == Unvisited(NormalizeAll(page.anchors), s.uniquePages + {resp.url})
      && IsSubsequence(links, NormalizeAll(page.anchors))
      && (link in links <==> link in NormalizeAll(page.anchors) && link !in s.uniquePages && link != resp.url)
      && (link !in s.uniquePages && link != resp.url ==>
            multiset(links)[link] == multiset(NormalizeAll(page.anchors))[link])
  {
    AcceptedPageRecorded(s, resp, robots, page);
  }

  /** The text between the scheme's `//` and the first `.` of the host is
      the subdomain label, as for `http://vision.ics.uci.edu/`. */
  lemma HostLabel(url: string, scheme: string, sub: string, rest: string)
    requires url == scheme + "//" + sub + "." + rest
    requires '/' !in scheme && '.' !in scheme && '.' !in sub
    requires Contains(url, IcsDomain)
    ensures SubdomainLabel(url) == Success(sub)
  {
    var i := |scheme|;
    assert url[i..i + 2] == "//";
    assert OccursAt("//", url, i);
    var found := Find(url, "//").value;
    forall j | 0 <= j < i
      ensures !OccursAt("//", url, j)
    {
      assert url[j] == scheme[j] != '/';
      assert j + 2 <= |url| ==> url[j..j + 2][0] != '/';
    }
    var dot := i + 2 + |sub|;
    assert url[dot] == '.';
    assert url[..dot] == scheme + "//" + sub;
    FirstIndexUnique(url, '.', dot);
    assert url[i + 2..dot] == sub;
  }

  /** Every subdomain in the report is the label of some visited page. */
  ghost predicate LabelOfVisitedPage(sub: string, pages: set<string>)
  {
    exists p :: p in pages && Contains(p, IcsDomain) && SubdomainLabel(p) == Success(sub)
  }

  /** The consistency of the globals: the distinct pages are the pages of
      the crawl order, a longest page with tokens was visited, and the
      subdomain report names only labels of visited pages. */
  ghost predicate Wellformed(s: CrawlState)
  {
    && (forall p :: p in s.uniquePages <==> p in s.allPages)
    && (s.longestPage.tokenCount > 0 ==> s.longestPage.url in s.uniquePages)
    && (forall sub :: sub in s.icsUciEdu ==> LabelOfVisitedPage(sub, s.uniquePages))
  }

  /** A call keeps the globals consistent, also when it raises. */
  lemma ExtractPreservesWellformed(s: CrawlState, resp: Response, robots: Option<string>, page: PageContent)
    requires Wellformed(s)
    ensures Wellformed(ExtractNextLinks(s, resp, robots, page).state)
  {
    var r := ExtractNextLinks(s, resp, robots, page);
    if Accepted(resp, robots) {
      AcceptedPageRecorded(s, resp, robots, page);
      var t := r.state;
      forall sub | sub in t.icsUciEdu
        ensures LabelOfVisitedPage(sub, t.uniquePages)
      {
        if sub in s.icsUciEdu {
          var p :| p in s.uniquePages && Contains(p, IcsDomain) && SubdomainLabel(p) == Success(sub);
          assert p in t.uniquePages;
        } else {
          assert resp.url in t.uniquePages;
        }
      }
    }
  }

  /** The globals only grow: pages are never forgotten and no count drops. */
  lemma ExtractIsMonotone(s: CrawlState, resp: Response, robots: Option<string>, page: PageContent)
    ensures var t := ExtractNextLinks(s, resp, robots, page).state;
      && s.uniquePages <= t.uniquePages
      && s.allPages <= t.allPages
      && t.longestPage.tokenCount >= s.longestPage.tokenCount
      && (forall w :: CountOf(t.totalWordFrequency, w) >= CountOf(s.totalWordFrequency, w))
      && (forall sub :: CountOf(t.icsUciEdu, sub) >= CountOf(s.icsUciEdu, sub))
  {
    if Accepted(resp, robots) {
      AcceptedPageRecorded(s, resp, robots, page);
    }
  }
}
