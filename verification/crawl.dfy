/**
 Crawling one journal (`scrape_journal`): the issue links of the journal page are
 collected, those already stored are filtered out, and each remaining issue's citation
 export is downloaded and ingested, until a per-run budget of ingested issues is reached.

 The browser is not modelled: the page is given as its list of year entries, and the
 download as a function from issue URL to the records of its export (`None` when the
 download failed).
 */
module Crawl {
  import opened Basics
  import opened Text
  import opened Schema
  import opened Progress
  import opened Ingest
  import Tables

  /** One year entry of the journal page: its `data-year` attribute and the `href` of each issue link. */
  datatype YearItem = YearItem(dataYear: Option<string>, hrefs: seq<string>)

  const Site := "https://www.jstor.org"

  /** A link made absolute: relative links are taken against the site. */
  function Absolute(href: string): (r: string)
    ensures StartsWith(r, "http")
    ensures StartsWith(href, "http") ==> r == href
    ensures !StartsWith(href, "http") ==> StartsWith(r, Site) && r[|Site|..] == href
  {
    if StartsWith(href, "http") then href
    else
      assert (Site + href)[..4] == "http";
      Site + href
  }

  /** An absolute link is left alone, so making links absolute is idempotent. */
  lemma AbsoluteIdempotent(href: string)
    ensures Absolute(Absolute(href)) == Absolute(href)
  {
  }

  /** The links of one entry, made absolute. */
  function ItemUrls(item: YearItem): (r: seq<string>)
    ensures |r| == |item.hrefs|
    ensures forall k :: 0 <= k < |r| ==> r[k] == Absolute(item.hrefs[k])
  {
    seq(|item.hrefs|, k requires 0 <= k < |item.hrefs| => Absolute(item.hrefs[k]))
  }

  /** The number of issue links on the page: links under entries that carry a year. */
  function LinkCount(items: seq<YearItem>): nat
    decreases |items|
  {
    if |items| == 0 then 0
    else (if items[0].dataYear.Some? then |items[0].hrefs| else 0) + LinkCount(items[1..])
  }

  /**
   `scrape_issue_urls` before filtering: the absolute URL of every issue link under an
   entry with a `data-year` attribute, in page order, repeats kept.
   */
  function CollectIssueUrls(items: seq<YearItem>): (r: seq<string>)
    ensures |r| == LinkCount(items)
    ensures forall u :: u in r <==> exists i, k :: 0 <= i < |items| && items[i].dataYear.Some?
                                      && 0 <= k < |items[i].hrefs| && u == Absolute(items[i].hrefs[k])
    decreases |items|
  {
    if |items| == 0 then []
    else
      var rest := CollectIssueUrls(items[1..]);
      var mine := if items[0].dataYear.Some? then ItemUrls(items[0]) else [];
      forall u ensures u in rest <==> exists i, k :: 1 <= i < |items| && items[i].dataYear.Some?
                                        && 0 <= k < |items[i].hrefs| && u == Absolute(items[i].hrefs[k]) {
        if u in rest {
          var i, k :| 0 <= i < |items[1..]| && items[1..][i].dataYear.Some?
                      && 0 <= k < |items[1..][i].hrefs| && u == Absolute(items[1..][i].hrefs[k]);
          assert items[1..][i] == items[i + 1];
        }
        if exists i, k :: 1 <= i < |items| && items[i].dataYear.Some?
                          && 0 <= k < |items[i].hrefs| && u == Absolute(items[i].hrefs[k]) {
          var i, k :| 1 <= i < |items| && items[i].dataYear.Some?
                      && 0 <= k < |items[i].hrefs| && u == Absolute(items[i].hrefs[k]);
          assert items[i] == items[1..][i - 1];
        }
      }
      forall u | items[0].dataYear.Some? && exists k :: 0 <= k < |items[0].hrefs| && u == Absolute(items[0].hrefs[k])
        ensures u in mine
      {
        var k :| 0 <= k < |items[0].hrefs| && u == Absolute(items[0].hrefs[k]);
        assert mine[k] == u;
      }
      mine + rest
  }

  /** No value occurs twice. */
  predicate Distinct(s: seq<string>) {
    forall a, b :: 0 <= a < b < |s| ==> s[a] != s[b]
  }

  /** `filter_issues_urls`: the collected URLs that name no stored issue, each once, in any order. */
  predicate IsPendingList(pending: seq<string>, collected: seq<string>, issues: seq<Issue>) {
    && Distinct(pending)
    && (forall u :: u in pending ==> u in collected && IssueByUrl(issues, u).None?)
    && (forall u :: u in collected && IssueByUrl(issues, u).None? ==> u in pending)
  }

  /**
   `filter_issues_urls(collected)`. The source takes a set difference, whose order is
   unspecified; this keeps first occurrences in page order, one of the orders it may give.
   */
  method FilterIssueUrls(collected: seq<string>, issues: seq<Issue>) returns (pending: seq<string>)
    ensures IsPendingList(pending, collected, issues)
    ensures |pending| <= |collected|
  {
    pending := [];
    var i := 0;
    while i < |collected|
      invariant 0 <= i <= |collected|
      invariant Distinct(pending) && |pending| <= i
      invariant forall u :: u in pending <==> u in collected[..i] && IssueByUrl(issues, u).None?
    {
      var u := collected[i];
      assert collected[..i + 1] == collected[..i] + [u];
      if u !in pending && IssueByUrl(issues, u).None? {
        pending := pending + [u];
      }
      i := i + 1;
    }
    assert collected[..i] == collected;
  }

  /** What a crawl leaves: the store, how many issues it ingested, and the error that stopped it, if any. */
  datatype CrawlOutcome = CrawlOutcome(store: Store, ingested: nat, failure: Option<IngestError>)

  /** What the loop body makes of one pending URL: nothing (a failed download), a failed ingest, or a new store. */
  datatype Step = Skipped | Failed(error: IngestError) | Ingested(store: Store)

  /**
   The loop of `scrape_journal` over the pending URLs, `count` issues ingested so far, with
   `body` the work done for one URL. The budget is checked before each URL, so a negative
   budget never stops the loop; a skipped URL is not counted; a failed ingest raises out of
   the loop and ends the crawl.
   */
  function Loop(s: Store, pending: seq<string>, budget: int, count: nat,
                body: (Store, string) -> Step): (r: CrawlOutcome)
    ensures count <= r.ingested <= count + |pending|
    ensures r.failure.None? && |pending| > 0 && r.ingested == count ==>
              count == budget || body(s, pending[0]).Skipped?
    decreases |pending|
  {
    if |pending| == 0 || count == budget then CrawlOutcome(s, count, None)
    else
      match body(s, pending[0])
      case Skipped => Loop(s, pending[1..], budget, count, body)
      case Failed(e) => CrawlOutcome(s, count, Some(e))
      case Ingested(s1) => Loop(s1, pending[1..], budget, count + 1, body)
  }

  /** One iteration of the loop body for the journal at `j`: download the export, then ingest it. */
  function Visit(s: Store, j: nat, url: string, n: nat, fetch: string -> Option<seq<Record>>): (r: Step)
    requires j < |s.journals|
    ensures r.Skipped? <==> fetch(url).None?
    ensures r.Ingested? ==> Extends(s, r.store, j)
  {
    match fetch(url)
    case None => Skipped
    case Some(rs) =>
      match Merge(s, j, url, n, rs)
      case Err(e) => Failed(e)
      case Ok(s1) =>
        assert |s1.journals| == |FileIssue(s, j, url, n, rs).value.store.journals|;
        Ingested(s1)
  }

  /** A visit that downloads is exactly an ingest of the export. */
  lemma VisitIsMerge(s: Store, j: nat, url: string, n: nat, fetch: string -> Option<seq<Record>>)
    requires j < |s.journals|
    ensures var r := Visit(s, j, url, n, fetch);
            && (r.Failed? ==> Merge(s, j, url, n, fetch(url).value) == Err(r.error))
            && (r.Ingested? ==> Merge(s, j, url, n, fetch(url).value) == Ok(r.store))
  {
  }

  /**
   The body `scrape_journal` runs for the journal at `j`, whose page lists `n` issues. The
   journal is never missing, since no step changes the number of journals; a store without
   it is left alone.
   */
  function IngestBody(j: nat, n: nat, fetch: string -> Option<seq<Record>>): (Store, string) -> Step {
    (st: Store, url: string) => if j < |st.journals| then Visit(st, j, url, n, fetch) else Skipped
  }

  /**
   `b` only adds to `a`: no journal appears or disappears and only the one at `j` changes,
   accounts are untouched, and issues, articles, authors and links only grow.
   */
  predicate Extends(a: Store, b: Store, j: nat) {
    && |b.journals| == |a.journals| && b.accounts == a.accounts
    && (forall k :: 0 <= k < |a.journals| && k != j ==> b.journals[k] == a.journals[k])
    && a.issues <= b.issues && a.articles <= b.articles && a.authors <= b.authors && a.links <= b.links
  }

  lemma ExtendsTransitive(a: Store, b: Store, c: Store, j: nat)
    requires Extends(a, b, j) && Extends(b, c, j)
    ensures Extends(a, c, j)
  {
  }

  /** Every store the body produces extends the one it was given. */
  ghost predicate BodyExtends(body: (Store, string) -> Step, j: nat) {
    forall st, u :: body(st, u).Ingested? ==> Extends(st, body(st, u).store, j)
  }

  /** While the journal exists, the body skips exactly the URLs whose download fails. */
  ghost predicate SkipsFailedDownloads(body: (Store, string) -> Step, j: nat, fetch: string -> Option<seq<Record>>) {
    forall st: Store, u: string :: j < |st.journals| ==> (body(st, u).Skipped? <==> fetch(u).None?)
  }

  /** The body keeps the store invariant. */
  ghost predicate BodyKeepsValid(body: (Store, string) -> Step) {
    forall st, u :: Valid(st) && body(st, u).Ingested? ==> Valid(body(st, u).store)
  }

  /** After an ingest the URL names a stored issue. */
  ghost predicate BodyFiles(body: (Store, string) -> Step) {
    forall st, u :: body(st, u).Ingested? ==> IssueByUrl(body(st, u).store.issues, u).Some?
  }

  /**
   Ingesting a URL no stored issue has moves the counter of journal `j` to min(n, counter + 1)
   and stores issues under that URL only.
   */
  ghost predicate BodyAdvances(body: (Store, string) -> Step, j: nat, n: nat) {
    forall st: Store, u: string :: j < |st.journals| && body(st, u).Ingested? && NoIssueAt(st.issues, u) ==>
      var s1 := body(st, u).store;
      && j < |s1.journals|
      && s1.journals[j].numberOfIssuesScraped == Min(n, st.journals[j].numberOfIssuesScraped + 1)
      && (forall i :: |st.issues| <= i < |s1.issues| ==> s1.issues[i].url == Some(u))
  }

  /** No issue in `issues` is stored under `u`. */
  predicate NoIssueAt(issues: seq<Issue>, u: string) {
    forall i :: 0 <= i < |issues| ==> issues[i].url != Some(u)
  }

  /** The ingest body has all five properties. */
  lemma IngestBodyProperties(j: nat, n: nat, fetch: string -> Option<seq<Record>>)
    ensures var body := IngestBody(j, n, fetch);
            && BodyExtends(body, j) && SkipsFailedDownloads(body, j, fetch)
            && BodyKeepsValid(body) && BodyFiles(body) && BodyAdvances(body, j, n)
  {
    var body := IngestBody(j, n, fetch);
    forall st, u | body(st, u).Ingested?
      ensures Extends(st, body(st, u).store, j)
      ensures IssueByUrl(body(st, u).store.issues, u).Some?
      ensures Valid(st) ==> Valid(body(st, u).store)
      ensures j < |st.journals| && NoIssueAt(st.issues, u) ==>
                var s1 := body(st, u).store;
                && j < |s1.journals|
                && s1.journals[j].numberOfIssuesScraped == Min(n, st.journals[j].numberOfIssuesScraped + 1)
                && (forall i :: |st.issues| <= i < |s1.issues| ==> s1.issues[i].url == Some(u))
    {
      VisitIngests(st, j, u, n, fetch);
    }
  }

  /** What one ingesting visit does, stated through the ingest lemmas. */
  lemma VisitIngests(s: Store, j: nat, url: string, n: nat, fetch: string -> Option<seq<Record>>)
    requires j < |s.journals| && Visit(s, j, url, n, fetch).Ingested?
    ensures var s1 := Visit(s, j, url, n, fetch).store;
            && IssueByUrl(s1.issues, url).Some?
            && (Valid(s) ==> Valid(s1))
            && (NoIssueAt(s.issues, url) ==>
                  && s1.journals[j].numberOfIssuesScraped == Min(n, s.journals[j].numberOfIssuesScraped + 1)
                  && (forall i :: |s.issues| <= i < |s1.issues| ==> s1.issues[i].url == Some(url)))
  {
    var rs := fetch(url).value;
    VisitIsMerge(s, j, url, n, fetch);
    FiledUnderUrl(s, j, url, n, rs);
    if Valid(s) {
      MergeKeepsValid(s, j, url, n, rs);
    }
    if NoIssueAt(s.issues, url) {
      MergeNewIssueProgress(s, j, url, n, rs);
    }
  }

  /** After an ingest the issue's URL is stored. */
  lemma FiledUnderUrl(s: Store, j: nat, url: string, n: nat, rs: seq<Record>)
    requires j < |s.journals| && Merge(s, j, url, n, rs).Ok?
    ensures IssueByUrl(Merge(s, j, url, n, rs).value.issues, url).Some?
  {
  }

  /** Ingesting an issue whose URL is new appends it and moves the journal's counter to min(n, counter + 1). */
  lemma MergeNewIssueProgress(s: Store, j: nat, url: string, n: nat, rs: seq<Record>)
    requires j < |s.journals| && NoIssueAt(s.issues, url)
    requires Merge(s, j, url, n, rs).Ok?
    ensures var s1 := Merge(s, j, url, n, rs).value;
            && s1.journals[j].numberOfIssuesScraped == Min(n, s.journals[j].numberOfIssuesScraped + 1)
            && forall i :: |s.issues| <= i < |s1.issues| ==> s1.issues[i].url == Some(url)
  {
    NoIssueNoUrl(s.issues, url);
    MergeNewIssueYear(s, j, url, n, rs);
    MergeNewIssueCounter(s, j, url, n, rs);
    MergeNewIssueUrl(s, j, url, n, rs);
  }

  lemma MergeNewIssueCounter(s: Store, j: nat, url: string, n: nat, rs: seq<Record>)
    requires j < |s.journals| && IssueByUrl(s.issues, url).None?
    requires Merge(s, j, url, n, rs).Ok?
    requires |rs| > 0 && rs[0].year.Some? && ParseInt(rs[0].year.value).Some?
    ensures Merge(s, j, url, n, rs).value.journals[j].numberOfIssuesScraped
            == Min(n, s.journals[j].numberOfIssuesScraped + 1)
  {
    MergeNewIssue(s, j, url, n, rs);
    SaveJournalStep(s.journals[j], n, rs[0].year);
  }

  lemma MergeNewIssueUrl(s: Store, j: nat, url: string, n: nat, rs: seq<Record>)
    requires j < |s.journals| && IssueByUrl(s.issues, url).None?
    requires Merge(s, j, url, n, rs).Ok?
    requires |rs| > 0 && rs[0].year.Some? && ParseInt(rs[0].year.value).Some?
    ensures var s1 := Merge(s, j, url, n, rs).value;
            forall i :: |s.issues| <= i < |s1.issues| ==> s1.issues[i].url == Some(url)
  {
    MergeNewIssue(s, j, url, n, rs);
    AppendedUrl(s.issues, NewIssue(url, ParseInt(rs[0].year.value).value, rs[0], j), url);
  }

  lemma AppendedUrl(issues: seq<Issue>, issue: Issue, url: string)
    requires issue.url == Some(url)
    ensures forall i :: |issues| <= i < |issues + [issue]| ==> (issues + [issue])[i].url == Some(url)
  {
  }

  lemma NoIssueNoUrl(issues: seq<Issue>, url: string)
    requires NoIssueAt(issues, url)
    ensures IssueByUrl(issues, url).None?
  {
  }

  /** The number of pending URLs whose export downloads. */
  function Downloads(pending: seq<string>, fetch: string -> Option<seq<Record>>): (r: nat)
    ensures r <= |pending|
    decreases |pending|
  {
    if |pending| == 0 then 0
    else (if fetch(pending[0]).Some? then 1 else 0) + Downloads(pending[1..], fetch)
  }

  /** How many of `d` downloads a crawl at `count` may still ingest under `budget`. */
  function Allowed(budget: int, count: nat, d: nat): nat
    requires budget < 0 || count <= budget
  {
    if budget < 0 then d else Min(budget - count, d)
  }

  /** A crawl never ingests more issues than its budget allows. */
  lemma {:induction false} LoopWithinBudget(s: Store, pending: seq<string>, budget: int, count: nat,
                                            body: (Store, string) -> Step)
    requires count <= budget
    ensures Loop(s, pending, budget, count, body).ingested <= budget
    decreases |pending|
  {
    if |pending| > 0 && count != budget {
      match body(s, pending[0])
      case Skipped => LoopWithinBudget(s, pending[1..], budget, count, body);
      case Failed(e) =>
      case Ingested(s1) => LoopWithinBudget(s1, pending[1..], budget, count + 1, body);
    }
  }

  /** The crawl's store extends the one it started from. */
  lemma {:induction false} LoopExtends(s: Store, pending: seq<string>, budget: int, count: nat,
                                       body: (Store, string) -> Step, j: nat)
    requires BodyExtends(body, j)
    ensures Extends(s, Loop(s, pending, budget, count, body).store, j)
    decreases |pending|
  {
    if |pending| > 0 && count != budget {
      match body(s, pending[0])
      case Skipped => LoopExtends(s, pending[1..], budget, count, body, j);
      case Failed(e) =>
      case Ingested(s1) =>
        var r := Loop(s1, pending[1..], budget, count + 1, body);
        LoopExtends(s1, pending[1..], budget, count + 1, body, j);
        ExtendsTransitive(s, s1, r.store, j);
    }
  }

  /**
   A crawl that no ingest stops ingests every downloaded issue up to the budget: all of
   them under a negative budget, otherwise the smaller of the remaining budget and the
   downloads.
   */
  lemma {:induction false} LoopCount(s: Store, pending: seq<string>, budget: int, count: nat,
                                     body: (Store, string) -> Step, j: nat, fetch: string -> Option<seq<Record>>)
    requires j < |s.journals| && BodyExtends(body, j) && SkipsFailedDownloads(body, j, fetch)
    requires budget < 0 || count <= budget
    requires Loop(s, pending, budget, count, body).failure.None?
    ensures Loop(s, pending, budget, count, body).ingested == count + Allowed(budget, count, Downloads(pending, fetch))
    decreases |pending|
  {
    if |pending| > 0 && count != budget {
      var d := Downloads(pending[1..], fetch);
      match body(s, pending[0])
      case Skipped =>
        LoopCount(s, pending[1..], budget, count, body, j, fetch);
      case Failed(e) =>
      case Ingested(s1) =>
        LoopCount(s1, pending[1..], budget, count + 1, body, j, fetch);
        assert Allowed(budget, count + 1, d) + 1 == Allowed(budget, count, d + 1);
    }
  }

  /** A crawl keeps the store valid. */
  lemma {:induction false} LoopKeepsValid(s: Store, pending: seq<string>, budget: int, count: nat,
                                          body: (Store, string) -> Step)
    requires Valid(s) && BodyKeepsValid(body)
    ensures Valid(Loop(s, pending, budget, count, body).store)
    decreases |pending|
  {
    if |pending| > 0 && count != budget {
      match body(s, pending[0])
      case Skipped => LoopKeepsValid(s, pending[1..], budget, count, body);
      case Failed(e) =>
      case Ingested(s1) => LoopKeepsValid(s1, pending[1..], budget, count + 1, body);
    }
  }

  /** Extending a table keeps every lookup that succeeded. */
  lemma IssueFoundGrows(t: seq<Issue>, u: seq<Issue>, url: string)
    requires t <= u && IssueByUrl(t, url).Some?
    ensures IssueByUrl(u, url) == IssueByUrl(t, url)
  {
    var i := IssueByUrl(t, url).value;
    assert u[i] == t[i];
  }

  /**
   A crawl that stops neither on an error nor on the budget leaves every downloaded
   pending URL stored as an issue.
   */
  lemma {:induction false} LoopStoresDownloads(s: Store, pending: seq<string>, budget: int, count: nat,
                                               body: (Store, string) -> Step, j: nat,
                                               fetch: string -> Option<seq<Record>>)
    requires j < |s.journals| && BodyExtends(body, j) && SkipsFailedDownloads(body, j, fetch) && BodyFiles(body)
    requires var r := Loop(s, pending, budget, count, body);
             r.failure.None? && r.ingested != budget
    ensures var r := Loop(s, pending, budget, count, body);
            forall u :: u in pending && fetch(u).Some? ==> IssueByUrl(r.store.issues, u).Some?
    decreases |pending|
  {
    var r := Loop(s, pending, budget, count, body);
    if |pending| > 0 {
      assert count != budget;
      match body(s, pending[0])
      case Skipped =>
        LoopStoresDownloads(s, pending[1..], budget, count, body, j, fetch);
        forall u | u in pending && fetch(u).Some? ensures IssueByUrl(r.store.issues, u).Some? {
          assert u in pending[1..];
        }
      case Failed(e) =>
        assert false;
      case Ingested(s1) =>
        LoopStoresDownloads(s1, pending[1..], budget, count + 1, body, j, fetch);
        LoopExtends(s1, pending[1..], budget, count + 1, body, j);
        IssueFoundGrows(s1.issues, r.store.issues, pending[0]);
        forall u | u in pending && fetch(u).Some? ensures IssueByUrl(r.store.issues, u).Some? {
          if u != pending[0] {
            assert u in pending[1..];
          }
        }
    }
  }

  /** No pending URL names a stored issue, and none occurs twice. */
  predicate AllNew(pending: seq<string>, issues: seq<Issue>) {
    Distinct(pending) && forall k, i :: 0 <= k < |pending| && 0 <= i < |issues| ==> issues[i].url != Some(pending[k])
  }

  /** `LoopProgress` for a crawl that starts with nothing ingested. */
  lemma LoopProgressFromZero(s: Store, pending: seq<string>, budget: int, body: (Store, string) -> Step, j: nat, n: nat)
    requires j < |s.journals| && BodyExtends(body, j) && BodyAdvances(body, j, n)
    requires AllNew(pending, s.issues)
    ensures var r := Loop(s, pending, budget, 0, body);
            && j < |r.store.journals|
            && r.store.journals[j].numberOfIssuesScraped == Advanced(s.journals[j].numberOfIssuesScraped, n, r.ingested)
  {
    LoopProgress(s, pending, budget, 0, body, j, n);
  }

  /** The counter after `k` ingests of new issues starting from `before`: min(n, before + k), or unchanged when `k` is 0. */
  function Advanced(before: int, n: nat, k: int): int {
    if k == 0 then before else Min(n, before + k)
  }

  /**
   Crawling issues that are all new advances the journal's counter once per ingested
   issue, capped at the page's issue count `n`.
   */
  lemma {:induction false} LoopProgress(s: Store, pending: seq<string>, budget: int, count: nat,
                                        body: (Store, string) -> Step, j: nat, n: nat)
    requires j < |s.journals| && BodyExtends(body, j) && BodyAdvances(body, j, n)
    requires AllNew(pending, s.issues)
    ensures var r := Loop(s, pending, budget, count, body);
            && j < |r.store.journals|
            && r.store.journals[j].numberOfIssuesScraped ==
                 Advanced(s.journals[j].numberOfIssuesScraped, n, r.ingested - count)
    decreases |pending|
  {
    LoopExtends(s, pending, budget, count, body, j);
    if |pending| > 0 && count != budget {
      var before := s.journals[j].numberOfIssuesScraped;
      match body(s, pending[0])
      case Skipped =>
        AllNewTail(pending, s.issues, s.issues);
        LoopProgress(s, pending[1..], budget, count, body, j, n);
      case Failed(e) =>
      case Ingested(s1) =>
        assert NoIssueAt(s.issues, pending[0]) by {
          forall i | 0 <= i < |s.issues| ensures s.issues[i].url != Some(pending[0]) {
            assert 0 < |pending|;
          }
        }
        AllNewTail(pending, s.issues, s1.issues);
        var r1 := Loop(s1, pending[1..], budget, count + 1, body);
        LoopProgress(s1, pending[1..], budget, count + 1, body, j, n);
        AdvancedStep(before, n, r1.ingested - count);
    }
  }

  /**
   Dropping the first pending URL keeps the rest new, also against a table that grew by
   issues stored under that first URL only.
   */
  lemma AllNewTail(pending: seq<string>, issues: seq<Issue>, grown: seq<Issue>)
    requires |pending| > 0 && AllNew(pending, issues) && issues <= grown
    requires forall i :: |issues| <= i < |grown| ==> grown[i].url == Some(pending[0])
    ensures AllNew(pending[1..], grown)
  {
    forall k, i | 0 <= k < |pending[1..]| && 0 <= i < |grown| ensures grown[i].url != Some(pending[1..][k]) {
      assert pending[1..][k] == pending[k + 1];
      if i < |issues| {
        assert grown[i] == issues[i];
      }
    }
  }

  /** Advancing once and then `k - 1` times is advancing `k` times. */
  lemma AdvancedStep(before: int, n: nat, k: int)
    requires k >= 1
    ensures Advanced(Min(n, before + 1), n, k - 1) == Advanced(before, n, k)
  {
  }

  /**
   `scrape_journal(journal, budget)` for the journal at `j`, given the page's year entries,
   the pending URLs `filter_issues_urls` returned and the download function. With nothing
   pending the journal is marked complete at the page's issue count.
   */
  function ScrapeJournal(s: Store, j: nat, items: seq<YearItem>, pending: seq<string>, budget: int,
                         fetch: string -> Option<seq<Record>>): (r: CrawlOutcome)
    requires j < |s.journals|
    requires IsPendingList(pending, CollectIssueUrls(items), s.issues)
    ensures |pending| == 0 ==> r.ingested == 0 && r.failure.None?
    ensures r.ingested <= |pending|
  {
    var n := |CollectIssueUrls(items)|;
    if |pending| == 0 then
      var jn := SaveJournal(s.journals[j].(numberOfIssuesScraped := n), n, None);
      assert jn.Ok?;
      CrawlOutcome(s.(journals := s.journals[j := jn.value]), 0, None)
    else
      Loop(s, pending, budget, 0, IngestBody(j, n, fetch))
  }

  /** A page with no new issue marks the journal complete: it no longer needs scraping. */
  lemma ScrapeNothingPending(s: Store, j: nat, items: seq<YearItem>, budget: int,
                             fetch: string -> Option<seq<Record>>)
    requires j < |s.journals|
    requires IsPendingList([], CollectIssueUrls(items), s.issues)
    ensures var r := ScrapeJournal(s, j, items, [], budget, fetch);
            var jr := r.store.journals[j];
            && jr.numberOfIssues == LinkCount(items) && jr.numberOfIssuesScraped == LinkCount(items)
            && jr.lastIssueDateScraped == s.journals[j].lastIssueDate
            && !NeedsScrape(jr)
            && r.store.issues == s.issues && r.store.articles == s.articles
  {
  }

  /** A crawl with budget 0 downloads nothing and changes nothing. */
  lemma ZeroBudgetIsNoop(s: Store, j: nat, items: seq<YearItem>, pending: seq<string>,
                         fetch: string -> Option<seq<Record>>)
    requires j < |s.journals| && |pending| > 0
    requires IsPendingList(pending, CollectIssueUrls(items), s.issues)
    ensures ScrapeJournal(s, j, items, pending, 0, fetch) == CrawlOutcome(s, 0, None)
  {
  }

  /** Every URL a filter keeps is absolute and names no stored issue. */
  lemma PendingAreNewAndAbsolute(pending: seq<string>, items: seq<YearItem>, issues: seq<Issue>)
    requires IsPendingList(pending, CollectIssueUrls(items), issues)
    ensures AllNew(pending, issues)
    ensures forall k :: 0 <= k < |pending| ==> StartsWith(pending[k], "http")
  {
    forall k | 0 <= k < |pending| ensures StartsWith(pending[k], "http") {
      assert pending[k] in pending;
      var i, m :| 0 <= i < |items| && items[i].dataYear.Some? && 0 <= m < |items[i].hrefs|
                  && pending[k] == Absolute(items[i].hrefs[m]);
    }
    forall k, i | 0 <= k < |pending| && 0 <= i < |issues| ensures issues[i].url != Some(pending[k]) {
      assert pending[k] in pending;
    }
  }

  /**
   What a scrape of a journal with pending issues guarantees: the store stays valid and
   only grows; at most the budget is ingested; without an error, every download up to the
   budget is ingested; the journal's counter advances once per ingested issue, capped at
   the page's issue count.
   */
  lemma ScrapeJournalSound(s: Store, j: nat, items: seq<YearItem>, pending: seq<string>, budget: int,
                           fetch: string -> Option<seq<Record>>)
    requires Valid(s) && j < |s.journals| && |pending| > 0
    requires IsPendingList(pending, CollectIssueUrls(items), s.issues)
    ensures var r := ScrapeJournal(s, j, items, pending, budget, fetch);
            && Valid(r.store) && Extends(s, r.store, j)
            && (budget >= 0 ==> r.ingested <= budget)
            && (r.failure.None? ==> r.ingested == Allowed(budget, 0, Downloads(pending, fetch)))
            && (r.failure.None? && r.ingested != budget ==>
                  forall u :: u in pending && fetch(u).Some? ==> IssueByUrl(r.store.issues, u).Some?)
            && r.store.journals[j].numberOfIssuesScraped ==
                 Advanced(s.journals[j].numberOfIssuesScraped, LinkCount(items), r.ingested)
  {
    var n := |CollectIssueUrls(items)|;
    var body := IngestBody(j, n, fetch);
    assert ScrapeJournal(s, j, items, pending, budget, fetch) == Loop(s, pending, budget, 0, body);
    IngestBodyProperties(j, n, fetch);
    PendingAreNewAndAbsolute(pending, items, s.issues);
    LoopSound(s, j, pending, budget, body, fetch);
    ScrapeJournalProgress(s, j, items, pending, budget, fetch);
  }

  /** The counter after a crawl of new issues: the source of the last clause above. */
  lemma ScrapeJournalProgress(s: Store, j: nat, items: seq<YearItem>, pending: seq<string>, budget: int,
                              fetch: string -> Option<seq<Record>>)
    requires j < |s.journals| && |pending| > 0
    requires IsPendingList(pending, CollectIssueUrls(items), s.issues)
    ensures var r := ScrapeJournal(s, j, items, pending, budget, fetch);
            && j < |r.store.journals|
            && r.store.journals[j].numberOfIssuesScraped ==
                 Advanced(s.journals[j].numberOfIssuesScraped, LinkCount(items), r.ingested)
  {
    var n := |CollectIssueUrls(items)|;
    var body := IngestBody(j, n, fetch);
    var r := Loop(s, pending, budget, 0, body);
    assert ScrapeJournal(s, j, items, pending, budget, fetch) == r;
    IngestBodyProperties(j, n, fetch);
    PendingAreNewAndAbsolute(pending, items, s.issues);
    LoopProgressFromZero(s, pending, budget, body, j, n);
  }

  /** The crawl loop from a count of 0 with a body that extends, keeps validity, files and skips failed downloads. */
  lemma LoopSound(s: Store, j: nat, pending: seq<string>, budget: int, body: (Store, string) -> Step,
                  fetch: string -> Option<seq<Record>>)
    requires Valid(s) && j < |s.journals| && AllNew(pending, s.issues)
    requires BodyExtends(body, j) && SkipsFailedDownloads(body, j, fetch)
    requires BodyKeepsValid(body) && BodyFiles(body)
    ensures var r := Loop(s, pending, budget, 0, body);
            && Valid(r.store) && Extends(s, r.store, j)
            && (budget >= 0 ==> r.ingested <= budget)
            && (r.failure.None? ==> r.ingested == Allowed(budget, 0, Downloads(pending, fetch)))
            && (r.failure.None? && r.ingested != budget ==>
                  forall u :: u in pending && fetch(u).Some? ==> IssueByUrl(r.store.issues, u).Some?)
  {
    LoopKeepsValid(s, pending, budget, 0, body);
    LoopExtends(s, pending, budget, 0, body, j);
    if budget >= 0 {
      LoopWithinBudget(s, pending, budget, 0, body);
    }
    var r := Loop(s, pending, budget, 0, body);
    if r.failure.None? {
      LoopCount(s, pending, budget, 0, body, j, fetch);
      if r.ingested != budget {
        LoopStoresDownloads(s, pending, budget, 0, body, j, fetch);
      }
    }
  }
}
