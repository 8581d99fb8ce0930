/** The same-origin filter of `SMSPageCrawler.extract_links`. HTML parsing
    and `urljoin` happen before it: its input is the list of anchor targets
    already resolved against the page URL. `urlparse` is a parameter. */
module LinkFilter {

  /** The two components of `urlparse(url)` the filter looks at. */
  datatype UrlParts = UrlParts(scheme: string, netloc: string)

  /** The schemes a kept link may have. */
  const WebSchemes: seq<string> := ["http", "https"]

  /** A resolved link is kept when its netloc is the page's netloc and its
      scheme is http or https. */
  predicate SameOrigin(parse: string -> UrlParts, baseUrl: string, url: string)
  {
    parse(url).netloc == parse(baseUrl).netloc && parse(url).scheme in WebSchemes
  }

  /** The links `extract_links` returns for a page, as a set. */
  function SameOriginLinks(parse: string -> UrlParts, baseUrl: string, resolved: seq<string>): set<string>
  {
    set u | u in resolved && SameOrigin(parse, baseUrl, u)
  }

  /** `extract_links`, from line 82 on: loop over the resolved anchors and
      add each one that passes the filter. */
  method ExtractLinks(parse: string -> UrlParts, baseUrl: string, resolved: seq<string>)
    returns (links: set<string>)
    ensures forall u :: u in links ==>
              u in resolved && parse(u).netloc == parse(baseUrl).netloc && parse(u).scheme in WebSchemes
    ensures forall u ::
              (u in resolved && parse(u).netloc == parse(baseUrl).netloc && parse(u).scheme in WebSchemes)
              ==> u in links
    ensures links == SameOriginLinks(parse, baseUrl, resolved)
  {
    links := {};
    var baseDomain := parse(baseUrl).netloc;
    for i := 0 to |resolved|
      invariant forall u :: u in links <==> u in resolved[..i] && SameOrigin(parse, baseUrl, u)
    {
      var url := resolved[i];
      var parsed := parse(url);
      if parsed.netloc == baseDomain && parsed.scheme in WebSchemes {
        links := links + {url};
      }
    }
    assert resolved[..|resolved|] == resolved;
  }
}
