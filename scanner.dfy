/** `DomainScanner`: reads a word list of candidate labels and keeps the
    names `candidate.domain` that resolve. The DNS lookup is a parameter, the set
    of names whose A-record query succeeds; the thread pool that runs the
    probes is a sequential fold. */
module DomainScan {
  import opened PyStr

  /** `load_subdomain_dict` on the lines the file yields: every line
      stripped, blank ones dropped, file order kept. */
  function LoadSubdomainDict(lines: seq<string>): (labels: seq<string>)
    ensures |labels| <= |lines|
  {
    if lines == [] then []
    else
      var s := Strip(lines[0]);
      (if s != [] then [s] else []) + LoadSubdomainDict(lines[1..])
  }

  /** The labels are exactly the non-empty stripped lines; each is non-empty
      and has no surrounding whitespace left. */
  lemma {:induction false} LoadSubdomainDictMembers(lines: seq<string>)
    ensures forall x :: x in LoadSubdomainDict(lines) ==> x != [] && Strip(x) == x
    ensures forall x :: x in LoadSubdomainDict(lines) <==> x != [] && exists l :: l in lines && Strip(l) == x
  {
    if lines != [] {
      LoadSubdomainDictMembers(lines[1..]);
      StripIdempotent(lines[0]);
      forall x | x != [] && (exists l :: l in lines && Strip(l) == x)
        ensures x in LoadSubdomainDict(lines)
      {
        var l :| l in lines && Strip(l) == x;
        if l != lines[0] {
          assert l in lines[1..];
        }
      }
    }
  }

  /** Reading a file in two parts gives the labels of the first part
      followed by those of the second: the labels keep file order. */
  lemma {:induction false} LoadSubdomainDictAppend(a: seq<string>, b: seq<string>)
    ensures LoadSubdomainDict(a + b) == LoadSubdomainDict(a) + LoadSubdomainDict(b)
  {
    if a == [] {
      assert a + b == b;
    } else {
      assert (a + b)[0] == a[0];
      assert (a + b)[1..] == a[1..] + b;
      LoadSubdomainDictAppend(a[1..], b);
    }
  }

  /** A whitespace-only line yields no candidate; any other line yields exactly
      its stripped text. */
  lemma LoadSubdomainDictLine(line: string)
    ensures (forall k :: 0 <= k < |line| ==> IsSpace(line[k])) ==> LoadSubdomainDict([line]) == []
    ensures !(forall k :: 0 <= k < |line| ==> IsSpace(line[k])) ==> LoadSubdomainDict([line]) == [Strip(line)]
  {
    StripEmptyIff(line);
    assert [line][1..] == [];
  }

  /** The host name probed for a candidate. */
  function FullDomain(candidate: string, domain: string): string
  {
    candidate + "." + domain
  }

  /** One probe on a set of confirmed names: add the name when it resolves. */
  function CheckStep(found: set<string>, candidate: string, domain: string, resolves: set<string>): set<string>
  {
    var host := FullDomain(candidate, domain);
    if host in resolves then found + {host} else found
  }

  /** The probes run one after another, in list order. */
  function ScanFold(found: set<string>, labels: seq<string>, domain: string, resolves: set<string>): set<string>
  {
    if labels == [] then found
    else CheckStep(ScanFold(found, labels[..|labels| - 1], domain, resolves), labels[|labels| - 1], domain, resolves)
  }

  /** The names of `labels` that resolve. */
  function Confirmed(labels: seq<string>, domain: string, resolves: set<string>): set<string>
  {
    set l | l in labels && FullDomain(l, domain) in resolves :: FullDomain(l, domain)
  }

  /** Running the probes one by one adds exactly the resolving names. */
  lemma {:induction false} ScanFoldIsUnion(found: set<string>, labels: seq<string>, domain: string, resolves: set<string>)
    ensures ScanFold(found, labels, domain, resolves) == found + Confirmed(labels, domain, resolves)
  {
    if labels != [] {
      var init := labels[..|labels| - 1];
      var last := labels[|labels| - 1];
      ScanFoldIsUnion(found, init, domain, resolves);
      assert labels == init + [last];
      assert Confirmed(labels, domain, resolves)
          == Confirmed(init, domain, resolves) + Confirmed([last], domain, resolves);
    }
  }

  /** The order in which the worker pool finishes the probes does not matter:
      any permutation of the labels confirms the same names. */
  lemma ScanOrderIrrelevant(found: set<string>, a: seq<string>, b: seq<string>, domain: string, resolves: set<string>)
    requires multiset(a) == multiset(b)
    ensures ScanFold(found, a, domain, resolves) == ScanFold(found, b, domain, resolves)
  {
    ScanFoldIsUnion(found, a, domain, resolves);
    ScanFoldIsUnion(found, b, domain, resolves);
    assert forall l :: l in a <==> l in multiset(a);
    assert forall l :: l in b <==> l in multiset(b);
    assert Confirmed(a, domain, resolves) == Confirmed(b, domain, resolves);
  }

  /** A worked example: of www, api and blah-not-real-xyz under
      example.com, only the two names that resolve are kept. */
  lemma ScanExample(labels: seq<string>, resolves: set<string>)
    requires labels == ["www", "api", "blah-not-real-xyz"]
    requires "www.example.com" in resolves && "api.example.com" in resolves
    requires "blah-not-real-xyz.example.com" !in resolves
    ensures ScanFold({}, labels, "example.com", resolves) == {"www.example.com", "api.example.com"}
  {
    ScanFoldIsUnion({}, labels, "example.com", resolves);
    assert FullDomain(labels[0], "example.com") == "www.example.com";
    assert FullDomain(labels[1], "example.com") == "api.example.com";
    assert FullDomain(labels[2], "example.com") == "blah-not-real-xyz.example.com";
  }

  /** The scanner object; `subdomains` is the set the probes add to. */
  class DomainScanner {
    const domain: string
    const maxWorkers: nat
    var subdomains: set<string>

    constructor (domain: string, maxWorkers: nat := 10)
      ensures this.domain == domain && this.maxWorkers == maxWorkers
      ensures subdomains == {}
    {
      this.domain := domain;
      this.maxWorkers := maxWorkers;
      subdomains := {};
    }

    /** `check_subdomain`: add `candidate.domain` when it resolves, otherwise
        leave the set as it is (the lookup error is swallowed). */
    method CheckSubdomain(candidate: string, resolves: set<string>)
      modifies this
      ensures old(subdomains) <= subdomains
      ensures FullDomain(candidate, domain) in resolves ==> subdomains == old(subdomains) + {FullDomain(candidate, domain)}
      ensures FullDomain(candidate, domain) !in resolves ==> subdomains == old(subdomains)
    {
      var fullDomain := candidate + "." + domain;
      if fullDomain in resolves {
        subdomains := subdomains + {fullDomain};
      }
    }

    /** `scan_subdomains`: probe every candidate of the word list and return the
        confirmed names. */
    method ScanSubdomains(lines: seq<string>, resolves: set<string>) returns (found: set<string>)
      modifies this
      ensures subdomains == ScanFold(old(subdomains), LoadSubdomainDict(lines), domain, resolves)
      ensures subdomains == old(subdomains) + Confirmed(LoadSubdomainDict(lines), domain, resolves)
      ensures found == subdomains
    {
      var labels := LoadSubdomainDict(lines);
      ghost var start := subdomains;
      for i := 0 to |labels|
        invariant subdomains == ScanFold(start, labels[..i], domain, resolves)
      {
        assert labels[..i + 1][..i] == labels[..i];
        CheckSubdomain(labels[i], resolves);
      }
      assert labels[..|labels|] == labels;
      ScanFoldIsUnion(start, labels, domain, resolves);
      found := subdomains;
    }
  }
}
