# SMS verification page finder — Dafny model

This project models the logic of `scripts/find_sms_url.py`. The script does two things:

- **Subdomain enumeration (`DomainScanner`).** It reads a word list of candidate labels. For each label it probes `label.domain` with a DNS A-record query and keeps the names that resolve.
- **Crawling (`SMSPageCrawler`).** For each host it crawls from `https://host` and `http://host`. It follows only same-origin `http`/`https` links and uses one visited set for all hosts. A page counts as an SMS verification page when its lower-cased text contains a verification-code keyword and also a phone-input pattern. Each such page is added to `sms_pages` and appended to the output file.

The model has the same entities as the script:

- **`PyStr`** (`pystr.dfy`): the Python string operations the script relies on. `lower()` is ASCII only. Also modelled are the substring test `in`, `isspace()` and `strip()`.
- **`SmsClassifier`** (`classifier.dfy`): `has_sms_features`, with the two word lists exactly as the source writes them.
- **`LinkFilter`** (`linkfilter.dfy`): the same-origin loop of `extract_links`, written as a loop-based method.
- **`DomainScan`** (`scanner.dfy`): `load_subdomain_dict` as a function over the file's lines. The class `DomainScanner` holds the field `subdomains`. Its methods `check_subdomain` and `scan_subdomains` update that field. The thread pool is modelled as a sequential fold, and the order of the probes does not change the result (proved).
- **`SmsCrawler`** (`crawler.dfy`): the class `SmsPageCrawler` with the three fields the source updates:
  - `visited` (`visited_urls`),
  - `smsPages` (`sms_pages`),
  - `log`, the lines `save_url` appends to the output file.

  `CrawlDomain` is the `while urls_to_visit` loop. `CrawlStep` is one round of that loop, and `VisitPage` is the `try` block of a round.

The outside world enters only as parameters:

- **The web** is a `map<string, FetchOutcome>`. It gives what `requests.get(url)` yields for each URL: no response at all, or a status, a text and the page's anchor targets already resolved with `urljoin`. A URL without an entry cannot be reached.
- **`urlparse`** is a parameter `parse: string -> UrlParts`.
- **DNS** is the set of host names whose A query succeeds.
- **`raise_for_status()`** is modelled as failing exactly for a status in 400..599, which is the rule of the `requests` library.

Properties proved, besides each method's own state-level contract:

- The classifier's verdict holds exactly when some lower-cased keyword and some lower-cased phone pattern occur in the lower-cased content. Either condition alone is not enough.
- The verdict ignores ASCII letter case.
- Two keywords, "mobile verification" and "手机验证", contain a phone pattern themselves, so either one is enough on its own.
- `extract_links` keeps exactly the resolved links with the page's netloc and an `http`/`https` scheme.
- `load_subdomain_dict` keeps file order: the labels of two concatenated files are the labels of each, one after the other. The labels are exactly the non-empty stripped lines, and each is non-empty and already stripped.
- `scan_subdomains` adds exactly the resolving `label.domain` names, whatever order the probes complete in.
- The crawl of one host terminates. The measure is the pair (URLs of a finite universe not yet visited, size of the frontier), decreasing lexicographically.
- At the end of a host crawl:
  - every newly visited URL was fetched successfully, once;
  - each was reached from a start URL through same-origin links, in visiting order;
  - every start URL and every link of a visited page is either visited or fails to fetch;
  - the output grew by exactly the newly found SMS pages, in visiting order.
- Across the whole run (`CrawlAll`):
  - every host is crawled to the end: each of its start URLs, and each link of a newly visited page, is visited or fails to fetch;
  - every newly visited URL was reached from some host's start URL, and the output grew by exactly their SMS pages, in visiting order;
  - every SMS page is in `visited`;
  - the output holds each SMS page exactly once, and the run appends exactly the new SMS pages;
  - the returned count is `|sms_pages|`.

Some behaviour of the code differs from what a reader might expect of a crawler. The model follows the code:

- **Failed fetches.** One might expect a URL whose fetch fails to be recorded as visited. In the code, `visited_urls.add` (line 113) comes after `raise_for_status()` (line 111). So a failed URL is only dropped from the frontier (`VisitPage`, `CrawlStep`, `SmsCrawler.ExploredFail`). A later page can queue it again, and it is then fetched again.
  - As a result, the number of fetches can exceed the size of `visited`.
- **Shared visited set.** `visited_urls` belongs to the crawler, not to one host's crawl. A start URL visited during an earlier crawl therefore starts out in the frontier while already visited. `CrawlStep` then discards it without a fetch. `CrawlDomain`'s loop invariant proves these are the only URLs that can be queued and visited at once.
  - With the real `urlparse`, every URL a host's crawl visits has that host's netloc. So this overlap happens only when `domains` lists the same host twice, and `main` passes a set, which never does.
- **Seed fetches.** Both `https://host` and `http://host` are seeded, so a host whose pages have no anchors is fetched up to twice, not once.
- **Write failures.** `save_url` is called inside the `try` block of `crawl_domain`. A failure to write a match is caught and printed like a fetch failure, so it never reaches the caller.

## Model

| member | source | states |
|---|---|---|
| PyStr.LowerChar | scripts/find_sms_url.py:72 | `c.lower()` for one character, ASCII letters only; `SmsClassifier.CaseInsensitive` states the verdict depends only on it |
| PyStr.Lower | scripts/find_sms_url.py:72 | `str.lower()` restricted to ASCII letters; characterised by `PyStr.LowerIdempotent`, `PyStr.LowerOfUpper` and `SmsClassifier.CaseInsensitive` |
| PyStr.Occurs | scripts/find_sms_url.py:73-74 | Python's substring test `w in s`; characterised by `PyStr.OccursIff` |
| PyStr.IsSpace | scripts/find_sms_url.py:23 | `str.isspace()` for one character, Python's full whitespace set; used by `PyStr.StripSpec` and `PyStr.StripEmptyIff` |
| PyStr.Strip | scripts/find_sms_url.py:23 | `str.strip()`; characterised by `PyStr.StripSpec`, `PyStr.StripEmptyIff` and `PyStr.StripIdempotent` |
| PyStr.LowerIdempotent | scripts/find_sms_url.py:72 | lower-casing twice is the same as lower-casing once |
| PyStr.LowerOfUpper | scripts/find_sms_url.py:72 | upper-casing first does not change the lower-cased text |
| PyStr.OccursIff | scripts/find_sms_url.py:73-74 | the substring test `w in s` holds exactly when some position of `s` starts a copy of `w` |
| PyStr.SkipSpaceForward | scripts/find_sms_url.py:23 | the left scan of `strip()` stops at the first non-whitespace character at or after its start, or at the end, having passed only whitespace |
| PyStr.SkipSpaceBackward | scripts/find_sms_url.py:23 | the right scan of `strip()` stops just after the last non-whitespace character above its lower bound, having passed only whitespace |
| PyStr.StripSpec | scripts/find_sms_url.py:23 | `strip()` returns a slice of the line; everything cut off on either side is whitespace; the result neither starts nor ends with whitespace |
| PyStr.StripEmptyIff | scripts/find_sms_url.py:23 | a stripped line is empty exactly when the line is all whitespace, so the `if line.strip()` test drops exactly the blank lines |
| PyStr.StripIdempotent | scripts/find_sms_url.py:23 | stripping a stripped line changes nothing |
| SmsClassifier.AnyLoweredIn | scripts/find_sms_url.py:73-74 | `any(w.lower() in content_lower for w in words)`; characterised by `SmsClassifier.AnyLoweredInIff` |
| SmsClassifier.HasSmsFeatures | scripts/find_sms_url.py:55-76 | the classifier; characterised by `SmsClassifier.HasSmsFeaturesIff`, `BothConditionsNeeded`, `CaseInsensitive`, `VerdictIgnoresCase` and `KeywordsImplyingPhone` |
| SmsClassifier.AnyLoweredInIff | scripts/find_sms_url.py:73-74 | `any(w.lower() in content_lower for w in words)` holds exactly when some word of the list, lower-cased, occurs in the content |
| SmsClassifier.HasSmsFeaturesIff | scripts/find_sms_url.py:55-76 | the verdict is true exactly when some lower-cased keyword and some lower-cased phone pattern both occur in the lower-cased page |
| SmsClassifier.BothConditionsNeeded | scripts/find_sms_url.py:73-76 | a page with no phone pattern, or with no keyword, is not an SMS page |
| SmsClassifier.CaseInsensitive | scripts/find_sms_url.py:72-74 | two pages that agree up to ASCII letter case get the same verdict |
| SmsClassifier.VerdictIgnoresCase | scripts/find_sms_url.py:72-74 | lower-casing or upper-casing the page first does not change the verdict |
| SmsClassifier.KeywordsImplyingPhone | scripts/find_sms_url.py:57-70 | a page containing "mobile verification" or "手机验证" is an SMS page even with no other phone pattern, since these keywords contain "mobile" and "手机" |
| LinkFilter.SameOrigin | scripts/find_sms_url.py:82-87 | the filter condition of `extract_links`: the link's netloc equals the base URL's and its scheme is http or https; `LinkFilter.ExtractLinks` states the filter in these terms |
| LinkFilter.ExtractLinks | scripts/find_sms_url.py:78-90 | every returned link is one of the resolved anchors with the base URL's netloc and an http/https scheme, and every such anchor is returned |
| DomainScan.FullDomain | scripts/find_sms_url.py:28 | the probed name `label.domain`; `DomainScan.DomainScanner.CheckSubdomain` and `DomainScan.ScanFoldIsUnion` state what is added in its terms |
| DomainScan.CheckStep | scripts/find_sms_url.py:28-30 | one probe's effect on the set of subdomains; characterised by `DomainScan.ScanFoldIsUnion` |
| DomainScan.ScanFold | scripts/find_sms_url.py:38-41 | the probes of the word list run one after another; characterised by `DomainScan.ScanFoldIsUnion` and `DomainScan.ScanOrderIrrelevant` |
| DomainScan.LoadSubdomainDict | scripts/find_sms_url.py:20-23 | the word list has at most as many labels as the file has lines |
| DomainScan.LoadSubdomainDictMembers | scripts/find_sms_url.py:23 | the labels are exactly the non-empty stripped lines; each is non-empty and has no surrounding whitespace |
| DomainScan.LoadSubdomainDictAppend | scripts/find_sms_url.py:22-23 | the lines are processed in file order: the labels of a file made of two parts are those of the first part followed by those of the second |
| DomainScan.LoadSubdomainDictLine | scripts/find_sms_url.py:23 | a whitespace-only line yields no label; any other line yields exactly its stripped text |
| DomainScan.ScanFoldIsUnion | scripts/find_sms_url.py:35-43 | running the probes one after another adds exactly the names `label.domain` that resolve to the set found so far |
| DomainScan.ScanOrderIrrelevant | scripts/find_sms_url.py:40-41 | any ordering of the labels, as a worker pool may complete them, yields the same set of subdomains |
| DomainScan.ScanExample | scripts/find_sms_url.py:25-43 | with www and api resolving under example.com and blah-not-real-xyz not, the scan finds exactly www.example.com and api.example.com |
| DomainScan.DomainScanner.constructor | scripts/find_sms_url.py:11-15 | a new scanner has the given domain and worker count, default 10, and no subdomains |
| DomainScan.DomainScanner.CheckSubdomain | scripts/find_sms_url.py:25-33 | the set of subdomains only grows; it gains exactly `label.domain` when that name resolves and is unchanged otherwise |
| DomainScan.DomainScanner.ScanSubdomains | scripts/find_sms_url.py:35-43 | after probing every label of the word list in turn, the subdomains are the old ones plus exactly the resolving names; the returned set is the field |
| SmsCrawler.Fetch | scripts/find_sms_url.py:110 | `requests.get(url)`: the web's answer for the URL, or no response; `SmsPageCrawler.VisitPage` states both outcomes in its terms |
| SmsCrawler.PageLinks | scripts/find_sms_url.py:120 | `extract_links(response.text, current_url)` on a fetched page, nothing for a failed one; `SmsPageCrawler.VisitPage` returns it minus the visited URLs |
| SmsCrawler.IsSmsPage | scripts/find_sms_url.py:115 | the page is fetched successfully and the classifier accepts its text; `SmsPageCrawler.VisitPage` records the URL exactly then |
| SmsCrawler.RaisesForStatus | scripts/find_sms_url.py:111 | `raise_for_status()` fails exactly for a status in 400..599 |
| SmsCrawler.FetchSucceeds | scripts/find_sms_url.py:110-111 | `requests.get` returns a response and `raise_for_status()` does not raise; `SmsPageCrawler.VisitPage` states both outcomes in its terms |
| SmsCrawler.StartUrls | scripts/find_sms_url.py:99-100 | the seeded frontier `{https://host, http://host}`; `SmsCrawler.ExploredStart` and `SmsPageCrawler.CrawlDomain` state the crawl from it |
| SmsCrawler.SmsPagesInMembers | scripts/find_sms_url.py:115-117 | the pages recorded along a visiting order are exactly its SMS pages |
| SmsCrawler.SmsPageCrawler.constructor | scripts/find_sms_url.py:46-50 | a new crawler has the given hosts, nothing visited, no SMS pages and an empty output, and satisfies the crawler invariant |
| SmsCrawler.SmsPageCrawler.SaveUrl | scripts/find_sms_url.py:92-95 | one line, the URL, is appended to the output; the sets are unchanged |
| SmsCrawler.SmsPageCrawler.VisitPage | scripts/find_sms_url.py:108-126 | a successful fetch marks the URL visited; a failed one changes nothing; the SMS set and the output grow by the URL exactly when it is an SMS page; the links returned are its same-origin links that are not visited, never the URL itself |
| SmsCrawler.SmsPageCrawler.CrawlStep | scripts/find_sms_url.py:102-126 | one round pops a frontier URL. An already visited one is discarded with no other change. The visiting order gains the URL exactly when it is new and fetched successfully. Otherwise the URL leaves the frontier and its same-origin links not yet visited are added; on success it alone joins `visited`, and on failure `visited` and the frontier's remainder are unchanged. The round keeps the exploration and recording invariants and decreases the termination measure |
| SmsCrawler.SmsPageCrawler.CrawlDomain | scripts/find_sms_url.py:97-126 | the crawl of one host terminates; visited only grows; the newly visited URLs were each fetched successfully once and reached from the two start URLs by same-origin links; every start URL and every link of a visited page ends visited or unfetchable; the output grows by exactly the new SMS pages, in visiting order. Its loop invariant proves that during the crawl only start URLs visited by an earlier crawl are both queued and visited |
| SmsCrawler.SmsPageCrawler.CrawlAll | scripts/find_sms_url.py:128-134 | every host of `domains` is crawled to the end: each start URL and each link of a newly visited page is visited or fails to fetch. Every newly visited URL was fetched successfully. The SMS set gains exactly the SMS pages among the newly visited URLs, and the count returned is its size. Visited and the SMS set only grow. The newly visited URLs, listed once each in visiting order, were each reached from some host's start URL by same-origin links, and the output gains exactly their SMS pages in that order |
| SmsCrawler.ReachedConcat | scripts/find_sms_url.py:130-132 | the URLs visited by the crawl of one host, appended to those of earlier hosts, stay reached from the start URLs of all hosts |
| SmsCrawler.SmsPagesInConcat | scripts/find_sms_url.py:115-117 | the SMS pages recorded along two visiting orders one after the other are those of the first followed by those of the second |
| SmsCrawler.LogConcat | scripts/find_sms_url.py:130-132 | an output that grew by the SMS pages of one host's crawl and then of the next grew by the SMS pages of both orders concatenated |
| SmsCrawler.MembersConcat | scripts/find_sms_url.py:130-132 | the URLs newly visited by two successive host crawls, one after the other, are exactly the URLs newly visited by both, each once |
| SmsCrawler.LogTail | scripts/find_sms_url.py:115-117 | an output without duplicates that extends the old one, each holding exactly its SMS set, gained exactly the new SMS pages |
| SmsCrawler.UniverseShrinks | scripts/find_sms_url.py:113 | marking a new URL of the universe visited shrinks the part of the universe not yet visited |
| SmsCrawler.NewLinksInUniverse | scripts/find_sms_url.py:120-121 | the links a fetched page adds to the frontier stay within the finite universe of start URLs and anchors |
| SmsCrawler.AppendReached | scripts/find_sms_url.py:103-113 | visiting a frontier URL, which is a start URL or a link of a visited page, keeps every visited URL reachable from an earlier one |
| SmsCrawler.ExploredStart | scripts/find_sms_url.py:99-100 | the seeded frontier of both start URLs satisfies the exploration invariant |
| SmsCrawler.ExploredSkip | scripts/find_sms_url.py:105-106 | discarding an already visited URL keeps the exploration invariant |
| SmsCrawler.ExploredFail | scripts/find_sms_url.py:110-111 | dropping a URL whose fetch fails, without marking it visited, keeps the exploration invariant |
| SmsCrawler.ExploredVisit | scripts/find_sms_url.py:113-121 | visiting a URL whose fetch succeeds and queuing its unvisited links keeps the exploration invariant |
| SmsCrawler.RecordedVisit | scripts/find_sms_url.py:115-117 | recording a visited URL exactly when it is an SMS page keeps the output equal to the SMS pages of the visiting order |
| SmsCrawler.ExploredDone | scripts/find_sms_url.py:102 | once the frontier is empty, every start URL and every link of a visited page is visited or fails to fetch |

## Left out

- DNS and HTTP are network I/O. `dns.resolver.resolve` is a set of resolving names. `requests.get` is a map from URL to outcome. The request headers and the 10-second timeout appear only as a possible transport failure.
- BeautifulSoup parsing and `urljoin` are library calls whose code is not part of this model. A page's anchors arrive already resolved, as part of the fetch outcome. `urlparse` is a function parameter.
- The `ThreadPoolExecutor` in `scan_subdomains` is modelled as a sequential fold, because the point of the pool is concurrency. The order-independence lemma covers the pool's arbitrary completion order. Lost updates from unsynchronised set insertion are not modelled.
- File I/O is not modelled: the `open` calls in `load_subdomain_dict` and `save_url`. The word list is the sequence of its lines, with the line ending counted as whitespace. The output file is the sequence `log`.
- Exceptions raised after a URL has been marked visited are not modelled; the model assumes the rest of the round completes. They come from three places:
  - the HTML parser;
  - `save_url`;
  - `urljoin`/`urlparse`, which raise `ValueError` on a malformed href such as an unclosed IPv6 bracket. In the code that drops every link of the page; in the model every anchor resolves.
- `time.sleep(1)` and every `print` only affect timing and the console.
- `str.lower()` on non-ASCII letters is not modelled: only `A`..`Z` are lowered. The Chinese keywords and patterns have no case, so they are unaffected.
- Python's `set.pop()` returns an unspecified element. The model lets the loop pick any frontier element, so every result holds for every pop order.
- In `crawl_all`, the hosts come from a Python set, iterated in some order. `domains` is a sequence in that order.
- `main()` is not part of this model: it sets the configuration, writes the subdomain file and prints a summary.
- `vuln_detector.py` and `example.py` are not part of this model. They are a TF-IDF/FAISS similarity service with SQL persistence and its driver, and they share no data with the crawler.
- The web is a finite map with one fixed outcome per URL, so a failed URL that is queued again fails again. In the code a second `requests.get` can succeed after a transient timeout. That is the only way lines 111-113 can change which pages are found, and the model cannot express it.
- SmsCrawler.SmsPageCrawler.CrawlDomain: termination holds because the web map is finite. A site that produces fresh same-origin URLs on every page keeps `crawl_domain` looping forever, and that case is not modelled.
- DomainScan.DomainScanner.ScanSubdomains: does not model `max_workers == 0`. There, `ThreadPoolExecutor` raises `ValueError` before any probe and no name is added, while the model still adds every resolving name. The only caller, `main`, uses the default of 10.
- SmsCrawler.SmsPageCrawler.CrawlDomain: states no bound on the number of fetches. A URL whose fetch fails can be fetched again when another page links to it, which the code allows.
