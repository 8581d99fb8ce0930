/** `SMSPageCrawler`: crawls each host from its two root URLs in no fixed
    order (the frontier is a set popped arbitrarily), follows same-origin
    links, and records the pages the classifier accepts. The network is a
    parameter: a map from URL to what `requests.get` would yield for it;
    HTML parsing and `urljoin` are folded into that answer as the page's
    resolved anchor targets. */
module SmsCrawler {
  import opened SmsClassifier
  import opened LinkFilter

  /** What fetching one URL yields: no response at all (connection error,
      timeout, TLS failure), or a response with its status code, its text and
      the anchor targets in it, already resolved against the URL. */
  datatype FetchOutcome =
    | TransportError
    | Response(status: int, text: string, anchors: seq<string>)

  /** The web as the crawler sees it; a URL with no entry cannot be reached. */
  type Web = map<string, FetchOutcome>

  function Fetch(web: Web, url: string): FetchOutcome
  {
    if url in web then web[url] else TransportError
  }

  /** `raise_for_status()` raises for client and server errors. */
  predicate RaisesForStatus(status: int)
  {
    400 <= status < 600
  }

  /** `requests.get` followed by `raise_for_status()` raises nothing. */
  predicate FetchSucceeds(web: Web, url: string)
  {
    Fetch(web, url).Response? && !RaisesForStatus(Fetch(web, url).status)
  }

  /** The same-origin links of a successfully fetched page; none otherwise. */
  function PageLinks(web: Web, parse: string -> UrlParts, url: string): set<string>
  {
    if FetchSucceeds(web, url) then SameOriginLinks(parse, url, Fetch(web, url).anchors) else {}
  }

  /** The page at `url` is fetched successfully and the classifier accepts it. */
  predicate IsSmsPage(web: Web, url: string)
  {
    FetchSucceeds(web, url) && HasSmsFeatures(Fetch(web, url).text)
  }

  /** The URLs a host's crawl starts from. */
  function StartUrls(domain: string): set<string>
  {
    {"https://" + domain, "http://" + domain}
  }

  /** Every URL a crawl of `domain` can ever put in its frontier. */
  ghost function CrawlUniverse(web: Web, domain: string): set<string>
  {
    StartUrls(domain) + set k, u | k in web && web[k].Response? && u in web[k].anchors :: u
  }

  /** The SMS pages among `order`, in order. */
  function SmsPagesIn(web: Web, order: seq<string>): seq<string>
  {
    if order == [] then []
    else SmsPagesIn(web, order[..|order| - 1])
         + (if IsSmsPage(web, order[|order| - 1]) then [order[|order| - 1]] else [])
  }

  /** `SmsPagesIn` keeps exactly the SMS pages of `order`. */
  lemma {:induction false} SmsPagesInMembers(web: Web, order: seq<string>)
    ensures forall u :: u in SmsPagesIn(web, order) <==> u in order && IsSmsPage(web, u)
  {
    if order != [] {
      var init := order[..|order| - 1];
      SmsPagesInMembers(web, init);
      assert order == init + [order[|order| - 1]];
    }
  }

  ghost predicate NoDuplicates(s: seq<string>)
  {
    forall i, j :: 0 <= i < j < |s| ==> s[i] != s[j]
  }

  /** Each URL of `order` is a start URL or a link of a page earlier in `order`. */
  ghost predicate ReachedInOrder(web: Web, parse: string -> UrlParts, starts: set<string>, order: seq<string>)
  {
    forall i :: 0 <= i < |order| ==>
      order[i] in starts || exists j :: 0 <= j < i && order[i] in PageLinks(web, parse, order[j])
  }

  /** The crawler object: the visited URLs (shared by all hosts), the SMS
      pages found, and the lines appended to the output file. */
  class SmsPageCrawler {
    const domains: seq<string>
    var visited: set<string>
    var smsPages: set<string>
    var log: seq<string>

    /** Every SMS page was visited and is written to the output exactly once. */
    ghost predicate Valid()
      reads this
    {
      && smsPages <= visited
      && (forall u :: u in log <==> u in smsPages)
      && NoDuplicates(log)
    }

    constructor (domains: seq<string>)
      ensures Valid()
      ensures this.domains == domains && visited == {} && smsPages == {} && log == []
    {
      this.domains := domains;
      visited := {};
      smsPages := {};
      log := [];
    }

    /** `save_url`: append one line to the output. It is only called as a
        step of `VisitPage`, right after the URL joins `smsPages`; that step
        is what restores `Valid()`. */
    method SaveUrl(url: string)
      modifies this
      ensures log == old(log) + [url]
      ensures visited == old(visited) && smsPages == old(smsPages)
    {
      log := log + [url];
    }

    /** The body of the crawl loop for a URL not yet visited: fetch it; on
        success mark it visited, record it when it is an SMS page, and return
        its same-origin links that are not visited. A failed fetch changes
        nothing and yields no links. */
    method VisitPage(web: Web, parse: string -> UrlParts, url: string) returns (newLinks: set<string>)
      requires Valid() && url !in visited
      modifies this
      ensures Valid()
      ensures FetchSucceeds(web, url) ==> visited == old(visited) + {url}
      ensures !FetchSucceeds(web, url) ==> visited == old(visited)
      ensures newLinks == PageLinks(web, parse, url) - visited
      ensures url !in newLinks
      ensures smsPages == old(smsPages) + (if IsSmsPage(web, url) then {url} else {})
      ensures log == old(log) + (if IsSmsPage(web, url) then [url] else [])
    {
      newLinks := {};
      var response := Fetch(web, url);
      if response.TransportError? || RaisesForStatus(response.status) {
        return;
      }
      visited := visited + {url};
      if HasSmsFeatures(response.text) {
        smsPages := smsPages + {url};
        SaveUrl(url);
      }
      var links := ExtractLinks(parse, url, response.anchors);
      newLinks := links - visited;
    }

    /** `crawl_domain`: run the frontier loop for one host until the frontier
        is empty. Returns, as ghost, the newly visited URLs in visiting order. */
    method CrawlDomain(web: Web, parse: string -> UrlParts, domain: string) returns (ghost order: seq<string>)
      requires Valid()
      modifies this
      ensures Valid()
      ensures old(visited) <= visited
      // the newly visited URLs, each fetched once, each reached from the start URLs
      ensures NoDuplicates(order)
      ensures forall u :: u in order <==> u in visited && u !in old(visited)
      ensures forall u :: u in order ==> FetchSucceeds(web, u)
      ensures ReachedInOrder(web, parse, StartUrls(domain), order)
      // nothing that could have been visited was left out
      ensures forall s :: s in StartUrls(domain) ==> s in visited || !FetchSucceeds(web, s)
      ensures forall v, l :: v in order && l in PageLinks(web, parse, v) ==> l in visited || !FetchSucceeds(web, l)
      // the SMS pages among them are recorded, in visiting order
      ensures forall u :: u in smsPages <==> u in old(smsPages) || (u in order && IsSmsPage(web, u))
      ensures log == old(log) + SmsPagesIn(web, order)
    {
      var startUrls := ["https://" + domain, "http://" + domain];
      var urlsToVisit := {startUrls[0], startUrls[1]};
      ghost var visited0, smsPages0, log0 := visited, smsPages, log;
      ghost var universe := CrawlUniverse(web, domain);
      order := [];
      assert urlsToVisit == StartUrls(domain);
      ExploredStart(web, parse, StartUrls(domain), visited);
      while urlsToVisit != {}
        invariant Valid()
        invariant visited0 <= visited
        invariant urlsToVisit <= universe
        // only start URLs visited before this crawl can be both visited and queued
        invariant forall u :: u in urlsToVisit && u in visited ==> u in StartUrls(domain) && u in visited0
        invariant Explored(web, parse, StartUrls(domain), visited0, visited, urlsToVisit, order)
        invariant Recorded(web, smsPages0, log0, smsPages, log, order)
        decreases |universe - visited|, |urlsToVisit|
      {
        ghost var popped;
        urlsToVisit, order, popped := CrawlStep(web, parse, domain, urlsToVisit, visited0, smsPages0, log0, order);
      }
      ExploredDone(web, parse, StartUrls(domain), visited0, visited, order);
      SmsPagesInMembers(web, order);
    }

    /** One round of the crawl loop: pop a URL from the frontier, skip it if
        it is visited, otherwise visit it and add its unvisited links. The
        round keeps the loop's invariants and decreases the pair (URLs of the
        universe not yet visited, frontier size) lexicographically. */
    method CrawlStep(web: Web, parse: string -> UrlParts, domain: string, urlsToVisit: set<string>,
                     ghost visited0: set<string>, ghost smsPages0: set<string>, ghost log0: seq<string>,
                     ghost order: seq<string>)
      returns (next: set<string>, ghost order': seq<string>, ghost url: string)
      requires Valid() && urlsToVisit != {}
      requires visited0 <= visited && urlsToVisit <= CrawlUniverse(web, domain)
      requires Explored(web, parse, StartUrls(domain), visited0, visited, urlsToVisit, order)
      requires Recorded(web, smsPages0, log0, smsPages, log, order)
      modifies this
      ensures Valid()
      ensures visited0 <= visited && next <= CrawlUniverse(web, domain)
      ensures Explored(web, parse, StartUrls(domain), visited0, visited, next, order')
      ensures Recorded(web, smsPages0, log0, smsPages, log, order')
      // the popped URL and what the round did with it
      ensures url in urlsToVisit
      ensures order' == order + (if url !in old(visited) && FetchSucceeds(web, url) then [url] else [])
      ensures url in old(visited) ==>
                visited == old(visited) && smsPages == old(smsPages) && log == old(log) && next == urlsToVisit - {url}
      ensures url !in old(visited) ==> next == (urlsToVisit - {url}) + (PageLinks(web, parse, url) - visited)
      ensures FetchSucceeds(web, url) && url !in old(visited) ==> visited == old(visited) + {url}
      ensures !FetchSucceeds(web, url) ==> visited == old(visited) && next == urlsToVisit - {url}
      ensures || |CrawlUniverse(web, domain) - visited| < |CrawlUniverse(web, domain) - old(visited)|
              || (visited == old(visited) && |next| < |urlsToVisit|)
    {
      var currentUrl :| currentUrl in urlsToVisit;
      url := currentUrl;
      next := urlsToVisit - {currentUrl};
      order' := order;
      ghost var universe := CrawlUniverse(web, domain);
      assert |next| < |urlsToVisit| && next <= universe;
      if currentUrl in visited {
        ExploredSkip(web, parse, StartUrls(domain), visited0, visited, urlsToVisit, order, currentUrl);
        return;
      }
      ghost var before, smsBefore, logBefore := visited, smsPages, log;
      var newLinks := VisitPage(web, parse, currentUrl);
      assert newLinks == PageLinks(web, parse, currentUrl) - visited;
      if FetchSucceeds(web, currentUrl) {
        UniverseShrinks(universe, before, currentUrl);
        NewLinksInUniverse(web, parse, domain, currentUrl);
        assert newLinks <= universe;
        ExploredVisit(web, parse, StartUrls(domain), visited0, before, urlsToVisit, order, currentUrl);
        RecordedVisit(web, smsPages0, log0, smsBefore, logBefore, order, currentUrl);
        order' := order + [currentUrl];
      } else {
        assert newLinks == {} && visited == before;
        ExploredFail(web, parse, StartUrls(domain), visited0, visited, urlsToVisit, order, currentUrl);
      }
      next := next + newLinks;
    }

    /** `crawl_all`: crawl every host in turn and return how many SMS pages
        were found. */
    method CrawlAll(web: Web, parse: string -> UrlParts) returns (count: nat, ghost order: seq<string>)
      requires Valid()
      modifies this
      ensures Valid()
      ensures count == |smsPages|
      ensures old(visited) <= visited && old(smsPages) <= smsPages
      ensures forall u :: u in smsPages && u !in old(smsPages) ==> IsSmsPage(web, u)
      // the new SMS pages are exactly the SMS pages among the newly visited URLs
      ensures forall u :: u in visited && u !in old(visited) ==> FetchSucceeds(web, u)
      ensures forall u :: u in smsPages <==> u in old(smsPages) || (u in visited && u !in old(visited) && IsSmsPage(web, u))
      // every host was crawled to the end
      ensures forall d, s :: d in domains && s in StartUrls(d) ==> s in visited || !FetchSucceeds(web, s)
      ensures forall v, l :: v in visited && v !in old(visited) && l in PageLinks(web, parse, v) ==>
                l in visited || !FetchSucceeds(web, l)
      // the output gained exactly the new SMS pages, after its old lines
      ensures |old(log)| <= |log| && log[..|old(log)|] == old(log)
      ensures forall u :: u in log[|old(log)|..] <==> u in smsPages && u !in old(smsPages)
      // the newly visited URLs, each once, each reached from some host's start URLs, in visiting order
      ensures NoDuplicates(order)
      ensures forall u :: u in order <==> u in visited && u !in old(visited)
      ensures ReachedInOrder(web, parse, AllStarts(domains), order)
      ensures log == old(log) + SmsPagesIn(web, order)
    {
      order := [];
      for i := 0 to |domains|
        invariant Valid()
        invariant old(visited) <= visited && old(smsPages) <= smsPages
        invariant |old(log)| <= |log| && log[..|old(log)|] == old(log)
        invariant forall u :: u in smsPages && u !in old(smsPages) ==> IsSmsPage(web, u)
        invariant forall u :: u in visited && u !in old(visited) ==> FetchSucceeds(web, u)
        invariant forall u :: u in smsPages <==> u in old(smsPages) || (u in visited && u !in old(visited) && IsSmsPage(web, u))
        invariant forall d, s :: d in domains[..i] && s in StartUrls(d) ==> s in visited || !FetchSucceeds(web, s)
        invariant forall v, l :: v in visited && v !in old(visited) && l in PageLinks(web, parse, v) ==>
                    l in visited || !FetchSucceeds(web, l)
        invariant NoDuplicates(order)
        invariant forall u :: u in order <==> u in visited && u !in old(visited)
        invariant ReachedInOrder(web, parse, AllStarts(domains), order)
        invariant log == old(log) + SmsPagesIn(web, order)
      {
        ghost var v1, l1 := visited, log;
        ghost var o := CrawlDomain(web, parse, domains[i]);
        assert forall d :: d in domains[..i + 1] ==> d in domains[..i] || d == domains[i];
        assert StartUrls(domains[i]) <= AllStarts(domains);
        ReachedConcat(web, parse, AllStarts(domains), order, StartUrls(domains[i]), o);
        LogConcat(web, old(log), l1, log, order, o);
        MembersConcat(order, o, old(visited), v1, visited);
        order := order + o;
      }
      assert domains[..|domains|] == domains;
      LogTail(old(log), log, old(smsPages), smsPages);
      count := |smsPages|;
    }
  }

  /** The start URLs of all the hosts. */
  ghost function AllStarts(domains: seq<string>): set<string>
  {
    set d, s | d in domains && s in StartUrls(d) :: s
  }

  /** Following a reached order by one reached from fewer start URLs gives a
      reached order. */
  lemma ReachedConcat(web: Web, parse: string -> UrlParts, starts: set<string>, a: seq<string>,
                      starts': set<string>, b: seq<string>)
    requires ReachedInOrder(web, parse, starts, a)
    requires ReachedInOrder(web, parse, starts', b)
    requires starts' <= starts
    ensures ReachedInOrder(web, parse, starts, a + b)
  {
    var ab := a + b;
    forall i | 0 <= i < |ab|
      ensures ab[i] in starts || exists j :: 0 <= j < i && ab[i] in PageLinks(web, parse, ab[j])
    {
      if i < |a| {
        if ab[i] !in starts {
          var j :| 0 <= j < i && a[i] in PageLinks(web, parse, a[j]);
          assert ab[j] == a[j];
        }
      } else {
        var k := i - |a|;
        assert ab[i] == b[k];
        if b[k] !in starts' {
          var j :| 0 <= j < k && b[k] in PageLinks(web, parse, b[j]);
          assert ab[|a| + j] == b[j];
        }
      }
    }
  }

  /** The SMS pages of two orders one after the other are those of the
      first followed by those of the second. */
  lemma {:induction false} SmsPagesInConcat(web: Web, a: seq<string>, b: seq<string>)
    ensures SmsPagesIn(web, a + b) == SmsPagesIn(web, a) + SmsPagesIn(web, b)
  {
    if b == [] {
      assert a + b == a;
    } else {
      var ab := a + b;
      var init, last := b[..|b| - 1], b[|b| - 1];
      var tail := if IsSmsPage(web, last) then [last] else [];
      assert ab[..|ab| - 1] == a + init;
      assert ab[|ab| - 1] == last;
      assert SmsPagesIn(web, ab) == SmsPagesIn(web, a + init) + tail;
      assert SmsPagesIn(web, b) == SmsPagesIn(web, init) + tail;
      SmsPagesInConcat(web, a, init);
    }
  }

  /** An output that grew by the SMS pages of `a` and then by those of `b`
      grew by the SMS pages of `a + b`. */
  lemma LogConcat(web: Web, log0: seq<string>, log1: seq<string>, log2: seq<string>, a: seq<string>, b: seq<string>)
    requires log1 == log0 + SmsPagesIn(web, a)
    requires log2 == log1 + SmsPagesIn(web, b)
    ensures log2 == log0 + SmsPagesIn(web, a + b)
  {
    SmsPagesInConcat(web, a, b);
  }

  /** Two orders without duplicates listing the URLs added to a growing set
      in two stages list, one after the other, the URLs added overall, once. */
  lemma MembersConcat(a: seq<string>, b: seq<string>, v0: set<string>, v1: set<string>, v2: set<string>)
    requires NoDuplicates(a) && NoDuplicates(b)
    requires forall u :: u in a <==> u in v1 && u !in v0
    requires forall u :: u in b <==> u in v2 && u !in v1
    requires v0 <= v1 <= v2
    ensures NoDuplicates(a + b)
    ensures forall u :: u in a + b <==> u in v2 && u !in v0
  {
    var ab := a + b;
    forall i, j | 0 <= i < j < |ab|
      ensures ab[i] != ab[j]
    {
      if j < |a| {
        assert ab[i] == a[i] && ab[j] == a[j];
      } else if i >= |a| {
        assert ab[i] == b[i - |a|] && ab[j] == b[j - |a|];
      } else {
        assert ab[i] == a[i] && ab[j] == b[j - |a|];
        assert a[i] in v1 && b[j - |a|] !in v1;
      }
    }
  }

  /** An output without duplicates that extends `log0`, where `log0` holds
      exactly the pages of `sms0` and the output those of `sms`, gained
      exactly the pages of `sms` not in `sms0`. */
  lemma LogTail(log0: seq<string>, log: seq<string>, sms0: set<string>, sms: set<string>)
    requires |log0| <= |log| && log[..|log0|] == log0
    requires forall u :: u in log0 <==> u in sms0
    requires forall u :: u in log <==> u in sms
    requires NoDuplicates(log)
    ensures forall u :: u in log[|log0|..] <==> u in sms && u !in sms0
  {
    assert log == log0 + log[|log0|..];
    forall k | |log0| <= k < |log|
      ensures log[k] !in log0
    {
      forall j | 0 <= j < |log0|
        ensures log0[j] != log[k]
      {
        assert log0[j] == log[j];
      }
    }
    forall u | u in log[|log0|..]
      ensures u !in sms0
    {
      var k :| 0 <= k < |log| - |log0| && log[|log0|..][k] == u;
      assert log[|log0| + k] == u;
    }
  }

  /** Visiting a new URL of the universe shrinks the part not yet visited. */
  lemma UniverseShrinks(universe: set<string>, visited: set<string>, url: string)
    requires url in universe && url !in visited
    ensures |universe - (visited + {url})| < |universe - visited|
  {
    assert universe - visited == (universe - (visited + {url})) + {url};
  }

  /** The links a fetched page contributes stay within the crawl's universe. */
  lemma NewLinksInUniverse(web: Web, parse: string -> UrlParts, domain: string, url: string)
    ensures PageLinks(web, parse, url) <= CrawlUniverse(web, domain)
  {
    if FetchSucceeds(web, url) {
      forall u | u in PageLinks(web, parse, url) ensures u in CrawlUniverse(web, domain) {
        assert url in web && web[url].Response? && u in web[url].anchors;
      }
    }
  }

  /** Appending a URL that is a start URL or a link of an earlier page keeps
      the order reachable. */
  lemma AppendReached(web: Web, parse: string -> UrlParts, starts: set<string>, order: seq<string>,
                      url: string, frontier: set<string>)
    requires ReachedInOrder(web, parse, starts, order)
    requires url in frontier
    requires forall u :: u in frontier ==>
               u in starts || exists j :: 0 <= j < |order| && u in PageLinks(web, parse, order[j])
    ensures ReachedInOrder(web, parse, starts, order + [url])
  {
    var next := order + [url];
    forall i | 0 <= i < |next|
      ensures next[i] in starts || exists j :: 0 <= j < i && next[i] in PageLinks(web, parse, next[j])
    {
      if i < |order| {
        if next[i] !in starts {
          var j :| 0 <= j < i && order[i] in PageLinks(web, parse, order[j]);
          assert next[j] == order[j];
        }
      } else if url !in starts {
        var j :| 0 <= j < |order| && url in PageLinks(web, parse, order[j]);
        assert next[j] == order[j];
      }
    }
  }

  /** The exploration invariant of the crawl loop for one host. `order` lists
      the URLs visited so far by this crawl, `frontier` is `urls_to_visit`,
      `visited0` is the visited set the crawl started with. */
  ghost predicate Explored(web: Web, parse: string -> UrlParts, starts: set<string>,
                           visited0: set<string>, visited: set<string>, frontier: set<string>, order: seq<string>)
  {
    && NoDuplicates(order)
    && (forall u :: u in order <==> u in visited && u !in visited0)
    && (forall u :: u in order ==> FetchSucceeds(web, u))
    && ReachedInOrder(web, parse, starts, order)
    && (forall u :: u in frontier ==>
          u in starts || exists j :: 0 <= j < |order| && u in PageLinks(web, parse, order[j]))
    && (forall s :: s in starts ==> s in visited || s in frontier || !FetchSucceeds(web, s))
    && (forall v, l :: v in order && l in PageLinks(web, parse, v) ==>
          l in visited || l in frontier || !FetchSucceeds(web, l))
  }

  /** The recording invariant: the SMS pages and the output grow by the SMS
      pages among the newly visited URLs. */
  ghost predicate Recorded(web: Web, smsPages0: set<string>, log0: seq<string>,
                           smsPages: set<string>, log: seq<string>, order: seq<string>)
  {
    && (forall u :: u in smsPages <==> u in smsPages0 || (u in order && IsSmsPage(web, u)))
    && log == log0 + SmsPagesIn(web, order)
  }

  /** Before the first round: nothing visited by this crawl yet, and the
      frontier is the start URLs. */
  lemma ExploredStart(web: Web, parse: string -> UrlParts, starts: set<string>, visited: set<string>)
    ensures Explored(web, parse, starts, visited, visited, starts, [])
  {
  }

  /** Popping a URL that is already visited keeps the exploration invariant. */
  lemma ExploredSkip(web: Web, parse: string -> UrlParts, starts: set<string>, visited0: set<string>,
                     visited: set<string>, frontier: set<string>, order: seq<string>, url: string)
    requires Explored(web, parse, starts, visited0, visited, frontier, order)
    requires url in visited
    ensures Explored(web, parse, starts, visited0, visited, frontier - {url}, order)
  {
  }

  /** Popping a URL whose fetch fails keeps the exploration invariant: the
      URL is dropped without being marked visited. */
  lemma ExploredFail(web: Web, parse: string -> UrlParts, starts: set<string>, visited0: set<string>,
                     visited: set<string>, frontier: set<string>, order: seq<string>, url: string)
    requires Explored(web, parse, starts, visited0, visited, frontier, order)
    requires !FetchSucceeds(web, url)
    ensures Explored(web, parse, starts, visited0, visited, frontier - {url}, order)
  {
  }

  /** Popping and visiting a URL whose fetch succeeds, then adding its
      unvisited links to the frontier, keeps the exploration invariant. */
  lemma ExploredVisit(web: Web, parse: string -> UrlParts, starts: set<string>, visited0: set<string>,
                      visited: set<string>, frontier: set<string>, order: seq<string>, url: string)
    requires Explored(web, parse, starts, visited0, visited, frontier, order)
    requires visited0 <= visited
    requires url in frontier && url !in visited && FetchSucceeds(web, url)
    ensures Explored(web, parse, starts, visited0, visited + {url},
                     (frontier - {url}) + (PageLinks(web, parse, url) - (visited + {url})), order + [url])
  {
    var visited' := visited + {url};
    var frontier' := (frontier - {url}) + (PageLinks(web, parse, url) - visited');
    var order' := order + [url];
    AppendReached(web, parse, starts, order, url, frontier);
    forall u | u in frontier'
      ensures u in starts || exists j :: 0 <= j < |order'| && u in PageLinks(web, parse, order'[j])
    {
      if u in frontier - {url} {
        if u !in starts {
          var j :| 0 <= j < |order| && u in PageLinks(web, parse, order[j]);
          assert order'[j] == order[j];
        }
      } else {
        assert order'[|order|] == url;
      }
    }
    assert forall u :: u in order' <==> u in order || u == url;
  }

  /** Visiting a URL records it exactly when it is an SMS page. */
  lemma RecordedVisit(web: Web, smsPages0: set<string>, log0: seq<string>,
                      smsPages: set<string>, log: seq<string>, order: seq<string>, url: string)
    requires Recorded(web, smsPages0, log0, smsPages, log, order)
    ensures Recorded(web, smsPages0, log0, smsPages + (if IsSmsPage(web, url) then {url} else {}),
                     log + (if IsSmsPage(web, url) then [url] else []), order + [url])
  {
    assert (order + [url])[..|order|] == order;
  }

  /** With the frontier empty, the exploration invariant says that every
      start URL and every link of a visited page was visited or fails. */
  lemma ExploredDone(web: Web, parse: string -> UrlParts, starts: set<string>, visited0: set<string>,
                     visited: set<string>, order: seq<string>)
    requires Explored(web, parse, starts, visited0, visited, {}, order)
    ensures forall s :: s in starts ==> s in visited || !FetchSucceeds(web, s)
    ensures forall v, l :: v in order && l in PageLinks(web, parse, v) ==> l in visited || !FetchSucceeds(web, l)
  {
  }
}
