/**
 The article listing endpoint `get_articles`: how the query string is read (defaults and
 integer conversion), which handler a request is routed to, the `scraped` filter, the
 lookups by issue, journal and author, and pagination.

 The database's trigram similarity is not computed: it is a parameter, `Search`, that
 says which stored names pass the threshold and how matching titles rank. Rows are named
 by their position in their table, which is also the default ordering of articles; the
 `journalID` and `issueID` a request names are the database's primary keys, which `Keys`
 maps to those positions. Every exception inside the handler becomes a 500 reply.
 */
module ArticleViews {
  import opened Basics
  import opened Text
  import opened Schema
  import Tables
  import Paginator

  /** The query string: each parameter present with its text, or absent. */
  type Query = map<string, string>

  /** `request.query_params.get(key)`. */
  function Param(q: Query, key: string): (r: Option<string>)
    ensures r.Some? <==> key in q
    ensures r.Some? ==> r.value == q[key]
  {
    if key in q then Some(q[key]) else None
  }

  /** The paging and filter settings of a request once defaults are applied. */
  datatype Params = Params(page: int, pageSize: int, scraped: int, exact: string, onlyJstorId: bool)

  /** An integer parameter: `default` when absent or empty, otherwise `int(text)`, which may raise. */
  function IntParam(q: Query, key: string, default: int): (r: Option<int>)
    ensures !Truthy(Param(q, key)) ==> r == Some(default)
    ensures Truthy(Param(q, key)) ==> r == ParseInt(q[key])
  {
    if Truthy(Param(q, key)) then ParseInt(q[key]) else Some(default)
  }

  /**
   The parameter block of `get_articles`: page 1, page size 50, `scraped` -1 and
   similarity threshold "0.1" unless given; only the JSTOR ids when `onlyJstorID` is "1".
   `None` when one of the integers does not parse, or when `isFloat` says `float(exact)`
   would raise (the handler then answers 500).
   */
  function ReadParams(q: Query, isFloat: string -> bool): (r: Option<Params>)
    ensures r.Some? <==> IntParam(q, "page", 1).Some? && IntParam(q, "scraped", -1).Some?
                         && IntParam(q, "page_size", 50).Some?
                         && (Truthy(Param(q, "exact")) ==> isFloat(q["exact"]))
    ensures r.Some? ==> r.value.page == IntParam(q, "page", 1).value
                        && r.value.pageSize == IntParam(q, "page_size", 50).value
                        && r.value.scraped == IntParam(q, "scraped", -1).value
    ensures r.Some? ==> (r.value.onlyJstorId <==> Param(q, "onlyJstorID") == Some("1"))
    ensures r.Some? ==> r.value.exact == if Truthy(Param(q, "exact")) then q["exact"] else "0.1"
  {
    var page := IntParam(q, "page", 1);
    var scraped := IntParam(q, "scraped", -1);
    var size := IntParam(q, "page_size", 50);
    var given := Truthy(Param(q, "exact"));
    if page.None? || scraped.None? || size.None? || (given && !isFloat(q["exact"])) then None
    else
      var exact := if given then q["exact"] else "0.1";
      Some(Params(page.value, size.value, scraped.value, exact, Param(q, "onlyJstorID") == Some("1")))
  }

  /** A request without parameters gets every default. */
  lemma DefaultParams(isFloat: string -> bool)
    ensures ReadParams(map[], isFloat) == Some(Params(1, 50, -1, "0.1", false))
  {
  }

  /**
   Page, page size and `scraped` written in decimal are read back as given; without
   `exact` and `onlyJstorID` the threshold is "0.1" and whole rows are returned.
   */
  lemma ReadParamsOfNumbers(q: Query, page: nat, size: nat, scraped: nat, isFloat: string -> bool)
    requires "page" in q && q["page"] == ShowNat(page)
    requires "page_size" in q && q["page_size"] == ShowNat(size)
    requires "scraped" in q && q["scraped"] == ShowNat(scraped)
    requires "exact" !in q && "onlyJstorID" !in q
    ensures ReadParams(q, isFloat) == Some(Params(page, size, scraped, "0.1", false))
  {
    IntParamOfNat(q, "page", page, 1);
    IntParamOfNat(q, "page_size", size, 50);
    IntParamOfNat(q, "scraped", scraped, -1);
    assert Param(q, "exact").None? && Param(q, "onlyJstorID").None?;
  }

  /** A parameter holding a decimal number is read as that number. */
  lemma IntParamOfNat(q: Query, key: string, n: nat, default: int)
    requires key in q && q[key] == ShowNat(n)
    ensures IntParam(q, key, default) == Some(n)
  {
    ParseShowNat(n);
  }

  /** A page number that is not an integer makes the request fail. */
  lemma MalformedPageFails(q: Query, isFloat: string -> bool)
    requires "page" in q && q["page"] == "two"
    ensures ReadParams(q, isFloat).None?
  {
    assert ParseInt("two").None? by {
      assert Strip("two") == "two";
      assert !IsDigit("two"[0]);
    }
    assert IntParam(q, "page", 1).None?;
  }

  /** Which handler `get_articles` hands the request to. */
  datatype Route =
    | ByTitle(title: string)
    | ByAuthor(name: string)
    | ByJournalName(name: string)
    | ByJournalId(id: string)
    | ByIssue(id: string)
    | AllArticles

  /**
   The first non-empty parameter among `title`, `authorName`, `journalName` or `journalID`,
   and `issueID` decides the route; a journal name wins over a journal id.
   */
  function RouteOf(q: Query): (r: Route)
    ensures r.ByTitle? <==> Truthy(Param(q, "title"))
    ensures r.ByAuthor? <==> !Truthy(Param(q, "title")) && Truthy(Param(q, "authorName"))
    ensures r.ByJournalName? <==> !Truthy(Param(q, "title")) && !Truthy(Param(q, "authorName"))
                                  && Truthy(Param(q, "journalName"))
    ensures r.ByJournalId? <==> !Truthy(Param(q, "title")) && !Truthy(Param(q, "authorName"))
                                && !Truthy(Param(q, "journalName")) && Truthy(Param(q, "journalID"))
    ensures r.ByIssue? <==> !Truthy(Param(q, "title")) && !Truthy(Param(q, "authorName"))
                            && !Truthy(Param(q, "journalName")) && !Truthy(Param(q, "journalID"))
                            && Truthy(Param(q, "issueID"))
    ensures r.ByTitle? ==> r.title == q["title"]
    ensures r.ByAuthor? ==> r.name == q["authorName"]
    ensures r.ByJournalName? ==> r.name == q["journalName"]
    ensures r.ByJournalId? ==> r.id == q["journalID"]
    ensures r.ByIssue? ==> r.id == q["issueID"]
  {
    if Truthy(Param(q, "title")) then ByTitle(q["title"])
    else if Truthy(Param(q, "authorName")) then ByAuthor(q["authorName"])
    else if Truthy(Param(q, "journalName")) then ByJournalName(q["journalName"])
    else if Truthy(Param(q, "journalID")) then ByJournalId(q["journalID"])
    else if Truthy(Param(q, "issueID")) then ByIssue(q["issueID"])
    else AllArticles
  }

  /**
   The `scraped` filter: 1 keeps the articles whose PDF is archived (`bucketURL` set), 0
   those still missing, and any other value keeps everything.
   */
  predicate ScrapedMatches(a: Article, scraped: int) {
    if scraped == 1 then a.bucketUrl.Some? else if scraped == 0 then a.bucketUrl.None? else true
  }

  /** `get_all_articles(scraped)`: the matching articles in table order. */
  function AllArticlesRows(s: Store, scraped: int): (r: seq<nat>)
    ensures forall a, b :: 0 <= a < b < |r| ==> r[a] < r[b]
    ensures scraped == 1 ==> forall k :: k in r <==> 0 <= k < |s.articles| && s.articles[k].bucketUrl.Some?
    ensures scraped == 0 ==> forall k :: k in r <==> 0 <= k < |s.articles| && s.articles[k].bucketUrl.None?
    ensures scraped != 0 && scraped != 1 ==> forall k :: k in r <==> 0 <= k < |s.articles|
  {
    Tables.Positions(s.articles, (a: Article) => ScrapedMatches(a, scraped))
  }

  /**
   The two `scraped` filters split the articles: every article is either archived or not,
   and without a filter all of them are listed.
   */
  lemma ScrapedSplit(s: Store, other: int)
    requires other != 0 && other != 1
    ensures |AllArticlesRows(s, 1)| + |AllArticlesRows(s, 0)| == |s.articles|
    ensures |AllArticlesRows(s, other)| == |s.articles|
  {
    Tables.PositionsSplit(s.articles, (a: Article) => ScrapedMatches(a, 1), (a: Article) => ScrapedMatches(a, 0), 0);
    Tables.PositionsSplit(s.articles, (a: Article) => ScrapedMatches(a, other), (a: Article) => false, 0);
    NothingSelected(s.articles, (a: Article) => false, 0);
  }

  lemma {:induction false} NothingSelected<T>(t: seq<T>, p: T -> bool, from: nat)
    requires from <= |t| && forall x :: !p(x)
    ensures Tables.PositionsFrom(t, p, from) == []
    decreases |t| - from
  {
    if from < |t| {
      NothingSelected(t, p, from + 1);
    }
  }

  /** The articles of issue `i` that pass the `scraped` filter, in table order. */
  function IssueRows(s: Store, i: nat, scraped: int): (r: seq<nat>)
    ensures forall k :: k in r <==> 0 <= k < |s.articles| && s.articles[k].issue == i
                                     && ScrapedMatches(s.articles[k], scraped)
    ensures forall a, b :: 0 <= a < b < |r| ==> r[a] < r[b]
  {
    Tables.Positions(s.articles, (a: Article) => a.issue == i && ScrapedMatches(a, scraped))
  }

  /** The articles filed under an issue of one of the journals `js`, in table order. */
  function JournalRows(s: Store, js: set<nat>, scraped: int): (r: seq<nat>)
    ensures forall k :: k in r <==> 0 <= k < |s.articles| && s.articles[k].issue < |s.issues|
                                     && s.issues[s.articles[k].issue].journal in js
                                     && ScrapedMatches(s.articles[k], scraped)
    ensures forall a, b :: 0 <= a < b < |r| ==> r[a] < r[b]
  {
    Tables.Positions(s.articles, (a: Article) => a.issue < |s.issues| && s.issues[a.issue].journal in js
                                                 && ScrapedMatches(a, scraped))
  }

  /** How many of the authors `who` article `k` is linked to. */
  function LinkedTimes(s: Store, k: nat, who: set<nat>): nat {
    |set a | a in who && Link(k, a) in s.links|
  }

  function Repeat(k: nat, n: nat): (r: seq<nat>)
    ensures |r| == n && forall i :: 0 <= i < n ==> r[i] == k
  {
    seq(n, _ => k)
  }

  /**
   `Article.objects.filter(authors__in=who)` from article `from` on: the join through the
   association table lists an article once per matching author, in article order.
   */
  function AuthorRowsFrom(s: Store, who: set<nat>, scraped: int, from: nat): (r: seq<nat>)
    requires from <= |s.articles|
    ensures forall k :: multiset(r)[k] ==
              if from <= k < |s.articles| && ScrapedMatches(s.articles[k], scraped) then LinkedTimes(s, k, who) else 0
    ensures forall a, b :: 0 <= a < b < |r| ==> r[a] <= r[b]
    ensures forall i :: 0 <= i < |r| ==> from <= r[i] < |s.articles|
    decreases |s.articles| - from
  {
    if from == |s.articles| then []
    else
      var mine := if ScrapedMatches(s.articles[from], scraped) then Repeat(from, LinkedTimes(s, from, who)) else [];
      var rest := AuthorRowsFrom(s, who, scraped, from + 1);
      assert forall k :: multiset(mine)[k] ==
               if k == from && ScrapedMatches(s.articles[from], scraped) then LinkedTimes(s, from, who) else 0 by {
        RepeatCount(from, |mine|);
      }
      JoinRows(mine, rest, from, |s.articles|);
      mine + rest
  }

  /** Copies of row `from` followed by sorted later rows are sorted and stay in range. */
  lemma JoinRows(mine: seq<nat>, rest: seq<nat>, from: nat, n: nat)
    requires from < n && forall i :: 0 <= i < |mine| ==> mine[i] == from
    requires forall a, b :: 0 <= a < b < |rest| ==> rest[a] <= rest[b]
    requires forall i :: 0 <= i < |rest| ==> from + 1 <= rest[i] < n
    ensures forall a, b :: 0 <= a < b < |mine + rest| ==> (mine + rest)[a] <= (mine + rest)[b]
    ensures forall i :: 0 <= i < |mine + rest| ==> from <= (mine + rest)[i] < n
  {
  }

  lemma {:induction false} RepeatCount(k: nat, n: nat)
    ensures forall j :: multiset(Repeat(k, n))[j] == if j == k then n else 0
    decreases n
  {
    if n > 0 {
      RepeatCount(k, n - 1);
      assert Repeat(k, n) == Repeat(k, n - 1) + [k];
    }
  }

  /** The article rows of the authors `who`. */
  function AuthorRows(s: Store, who: set<nat>, scraped: int): (r: seq<nat>)
    ensures forall k :: multiset(r)[k] ==
              if 0 <= k < |s.articles| && ScrapedMatches(s.articles[k], scraped) then LinkedTimes(s, k, who) else 0
  {
    AuthorRowsFrom(s, who, scraped, 0)
  }

  /** An article written by two matching authors is listed twice. */
  lemma AuthorRowsRepeat(s: Store, k: nat, a: nat, b: nat, who: set<nat>)
    requires k < |s.articles| && a != b && a in who && b in who
    requires Link(k, a) in s.links && Link(k, b) in s.links
    ensures multiset(AuthorRows(s, who, -1))[k] >= 2
  {
    var linked := set x | x in who && Link(k, x) in s.links;
    assert {a, b} <= linked;
    assert |{a, b}| == 2;
    SubsetCard({a, b}, linked);
  }

  lemma SubsetCard(x: set<nat>, y: set<nat>)
    requires x <= y
    ensures |x| <= |y|
  {
    assert y == x + (y - x);
  }

  /**
   The database's trigram search: `isFloat(text)` says whether `float(text)` succeeds,
   `similar(stored, query, exact)` says whether the two
   texts are at least `exact` similar; `titleRanking(query, exact)` lists the articles
   whose title is, most similar first.
   */
  datatype Search = Search(
    isFloat: string -> bool,
    similar: (string, string, string) -> bool, titleRanking: (string, string) -> seq<nat>)

  /** What `get_articles` answers. */
  datatype Reply =
    | Rows(ids: seq<nat>, onlyJstorIds: bool)  // 200: the articles, or only their JSTOR ids
    | NoArticlesFound                          // 200: {"message": "no articles found"}
    | ServerError                              // 500

  /** One page of `rows`, as `get_articles_from_page` cuts it. */
  function Paged(rows: seq<nat>, p: Params): (r: Reply)
    ensures r.Rows? ==> r.onlyJstorIds == p.onlyJstorId && multiset(r.ids) <= multiset(rows)
    ensures r == ServerError <==> Paginator.FromPage(rows, p.page, p.pageSize).Err?
    ensures !r.NoArticlesFound?
  {
    match Paginator.FromPage(rows, p.page, p.pageSize)
    case Err(_) => ServerError
    case Ok(page) =>
      Paginator.FromPageWithin(rows, p.page, p.pageSize);
      Rows(page, p.onlyJstorId)
  }

  /**
   The `AutoField` primary keys of the journal and issue tables, row by row. The database
   numbers rows from 1 upwards in insertion order, and an insert that conflicts still uses
   up a number, so the keys increase but may skip values.
   */
  datatype Keys = Keys(journals: seq<nat>, issues: seq<nat>)

  /** Keys as the database assigns them: one per row, from 1, strictly increasing. */
  predicate KeyColumn(ks: seq<nat>, n: nat) {
    && |ks| == n
    && (forall i :: 0 <= i < |ks| ==> ks[i] >= 1)
    && (forall i, j :: 0 <= i < j < |ks| ==> ks[i] < ks[j])
  }

  /** The row whose key is `k` (`filter(pk=k)`), if any. */
  function KeyRow(ks: seq<nat>, k: int): (r: Option<nat>)
    ensures r.Some? <==> k in ks
    ensures r.Some? ==> r.value < |ks| && ks[r.value] == k
  {
    Tables.FirstIndex(ks, (x: nat) => x == k)
  }

  /** In a key column every row is found under its own key. */
  lemma KeyRowOfKey(ks: seq<nat>, i: nat)
    requires KeyColumn(ks, |ks|) && i < |ks|
    ensures KeyRow(ks, ks[i]) == Some(i)
  {
  }

  /**
   `get_articles_by_issue`. A missing issue raises `Issue.DoesNotExist`, which the
   handler's `except Journal.DoesNotExist` does not catch, so it ends as a 500 and the
   400 branch is never taken.
   */
  function ArticlesByIssue(s: Store, keys: Keys, id: string, p: Params): (r: Reply)
    ensures ParseInt(id).None? ==> r == ServerError
    ensures ParseInt(id).Some? && ParseInt(id).value !in keys.issues ==> r == ServerError
    ensures ParseInt(id).Some? && ParseInt(id).value in keys.issues ==>
              r == Paged(IssueRows(s, KeyRow(keys.issues, ParseInt(id).value).value, p.scraped), p)
    ensures r.Rows? ==> && ParseInt(id).Some? && KeyRow(keys.issues, ParseInt(id).value).Some?
                        && forall k :: k in r.ids ==>
                             && k < |s.articles|
                             && s.articles[k].issue == KeyRow(keys.issues, ParseInt(id).value).value
                             && ScrapedMatches(s.articles[k], p.scraped)
    ensures !r.NoArticlesFound?
  {
    match ParseInt(id)
    case None => ServerError
    case Some(key) =>
      match KeyRow(keys.issues, key)
      case None => ServerError
      case Some(i) =>
        var r := Paged(IssueRows(s, i, p.scraped), p);
        assert r.Rows? ==> forall k :: k in r.ids ==> k in IssueRows(s, i, p.scraped) by {
          if r.Rows? {
            forall k | k in r.ids ensures k in IssueRows(s, i, p.scraped) {
              assert multiset(r.ids)[k] > 0;
            }
          }
        }
        r
  }

  /** Asking for an issue that is not stored is a server error, not a bad request. */
  lemma MissingIssueIsServerError(s: Store, keys: Keys, k: nat, p: Params)
    requires k !in keys.issues
    ensures ArticlesByIssue(s, keys, ShowNat(k), p) == ServerError
  {
    ParseShowNat(k);
  }

  /** Every stored issue is served under its key: the page of its own articles. */
  lemma StoredIssueServed(s: Store, keys: Keys, i: nat, p: Params)
    requires KeyColumn(keys.issues, |s.issues|) && i < |s.issues|
    ensures ArticlesByIssue(s, keys, ShowNat(keys.issues[i]), p) == Paged(IssueRows(s, i, p.scraped), p)
  {
    ParseShowNat(keys.issues[i]);
    KeyRowOfKey(keys.issues, i);
  }

  /**
   With one stored issue, keyed 1 by the database, `issueID=1` lists that issue's articles
   and `issueID=0` is a 500.
   */
  lemma FirstIssueKeyedOne(s: Store, p: Params)
    requires |s.issues| == 1
    ensures ArticlesByIssue(s, Keys([], [1]), "1", p) == Paged(IssueRows(s, 0, p.scraped), p)
    ensures ArticlesByIssue(s, Keys([], [1]), "0", p) == ServerError
  {
    assert ShowNat(1) == "1" && ShowNat(0) == "0";
    StoredIssueServed(s, Keys([], [1]), 0, p);
    MissingIssueIsServerError(s, Keys([], [1]), 0, p);
  }

  /** The rows of the journals `js`, or the "no articles found" message when there are none. */
  function JournalReply(s: Store, js: set<nat>, p: Params): (r: Reply)
    ensures js == {} <==> r == NoArticlesFound
    ensures r.Rows? ==> forall k :: k in r.ids ==> k in JournalRows(s, js, p.scraped)
  {
    if js == {} then NoArticlesFound
    else
      var r := Paged(JournalRows(s, js, p.scraped), p);
      assert r.Rows? ==> forall k :: k in r.ids ==> k in JournalRows(s, js, p.scraped) by {
        if r.Rows? {
          forall k | k in r.ids ensures k in JournalRows(s, js, p.scraped) {
            assert multiset(r.ids)[k] > 0;
          }
        }
      }
      r
  }

  /**
   `get_articles_by_author`: the articles of every author whose name is similar to
   `name`, once per matching author, or the message when no author matches.
   */
  function AuthorReply(s: Store, name: string, p: Params, search: Search): (r: Reply)
    ensures r.NoArticlesFound? <==> forall a :: 0 <= a < |s.authors| ==> !search.similar(s.authors[a].name, name, p.exact)
    ensures r.Rows? ==> forall k :: k in r.ids ==> k < |s.articles|
  {
    var matched := set a | 0 <= a < |s.authors| && search.similar(s.authors[a].name, name, p.exact);
    assert forall a :: 0 <= a < |s.authors| && search.similar(s.authors[a].name, name, p.exact) ==> a in matched;
    if matched == {} then
      NoArticlesFound
    else
      var rows := AuthorRows(s, matched, p.scraped);
      var r := Paged(rows, p);
      assert r.Rows? ==> forall k :: k in r.ids ==> k < |s.articles| by {
        if r.Rows? {
          forall k | k in r.ids ensures k < |s.articles| {
            assert multiset(r.ids)[k] > 0;
            assert multiset(rows)[k] > 0;
          }
        }
      }
      r
  }

  /** `get_articles(request)` against the store `s`. */
  function GetArticles(s: Store, keys: Keys, q: Query, search: Search): (r: Reply)
    ensures ReadParams(q, search.isFloat).None? ==> r == ServerError
    ensures ReadParams(q, search.isFloat).Some? && RouteOf(q).AllArticles? ==>
              r == Rows(AllArticlesRows(s, ReadParams(q, search.isFloat).value.scraped), false)
    ensures ReadParams(q, search.isFloat).Some? && RouteOf(q).ByIssue? ==> r == ArticlesByIssue(s, keys, q["issueID"], ReadParams(q, search.isFloat).value)
    ensures r.NoArticlesFound? ==> RouteOf(q).ByAuthor? || RouteOf(q).ByJournalName? || RouteOf(q).ByJournalId?
    ensures r.Rows? && !RouteOf(q).ByTitle? ==> forall k :: k in r.ids ==> k < |s.articles|
  {
    match ReadParams(q, search.isFloat)
    case None => ServerError
    case Some(p) =>
      match RouteOf(q)
      case ByTitle(title) => Paged(search.titleRanking(title, p.exact), p)
      case ByAuthor(name) => AuthorReply(s, name, p, search)
      case ByJournalName(name) =>
        var matched := set k | 0 <= k < |s.journals| && search.similar(s.journals[k].name, name, p.exact);
        JournalReply(s, matched, p)
      case ByJournalId(id) =>
        (match ParseInt(id)
         case None => ServerError
         case Some(k) =>
           JournalReply(s, match KeyRow(keys.journals, k) case Some(j) => {j} case None => {}, p))
      case ByIssue(id) => ArticlesByIssue(s, keys, id, p)
      case AllArticles => Rows(AllArticlesRows(s, p.scraped), false)
  }

  /** Without parameters every article is listed, in full and unpaged. */
  lemma ListAll(s: Store, keys: Keys, search: Search)
    ensures var r := GetArticles(s, keys, map[], search);
            r.Rows? && !r.onlyJstorIds && |r.ids| == |s.articles|
            && forall k :: k in r.ids <==> 0 <= k < |s.articles|
  {
    DefaultParams(search.isFloat);
    assert RouteOf(map[]).AllArticles?;
    ScrapedSplit(s, -1);
  }

  /**
   The all-articles route ignores paging and the `onlyJstorID` switch: two such requests
   with the same `scraped` filter get the same full list.
   */
  lemma AllArticlesUnpaged(s: Store, keys: Keys, search: Search, q1: Query, q2: Query)
    requires RouteOf(q1).AllArticles? && RouteOf(q2).AllArticles?
    requires ReadParams(q1, search.isFloat).Some? && ReadParams(q2, search.isFloat).Some?
    requires ReadParams(q1, search.isFloat).value.scraped == ReadParams(q2, search.isFloat).value.scraped
    ensures GetArticles(s, keys, q1, search) == GetArticles(s, keys, q2, search)
    ensures GetArticles(s, keys, q1, search).Rows? && !GetArticles(s, keys, q1, search).onlyJstorIds
  {
  }

  /** A journal id that names no journal gives the "no articles found" message. */
  lemma UnknownJournalId(s: Store, keys: Keys, search: Search, k: nat)
    requires k !in keys.journals
    ensures GetArticles(s, keys, map["journalID" := ShowNat(k)], search) == NoArticlesFound
  {
    var q := map["journalID" := ShowNat(k)];
    assert ReadParams(q, search.isFloat).Some? by {
      assert "page" !in q && "scraped" !in q && "page_size" !in q;
    }
    assert RouteOf(q) == ByJournalId(ShowNat(k)) by {
      assert "title" !in q && "authorName" !in q && "journalName" !in q;
      assert q["journalID"] == ShowNat(k);
    }
    ParseShowNat(k);
  }

  /** A stored journal's key selects exactly that journal. */
  lemma StoredJournalServed(s: Store, keys: Keys, search: Search, j: nat)
    requires KeyColumn(keys.journals, |s.journals|) && j < |s.journals|
    ensures var q := map["journalID" := ShowNat(keys.journals[j])];
            ReadParams(q, search.isFloat).Some?
            && GetArticles(s, keys, q, search) == JournalReply(s, {j}, ReadParams(q, search.isFloat).value)
  {
    var k := keys.journals[j];
    var q := map["journalID" := ShowNat(k)];
    assert ReadParams(q, search.isFloat).Some? by {
      assert "page" !in q && "scraped" !in q && "page_size" !in q;
    }
    assert RouteOf(q) == ByJournalId(ShowNat(k)) by {
      assert "title" !in q && "authorName" !in q && "journalName" !in q;
      assert q["journalID"] == ShowNat(k);
    }
    ParseShowNat(k);
    KeyRowOfKey(keys.journals, j);
  }
}
