/**
 The relational schema of the archive (journals, issues, authors, donation accounts,
 articles and the article-author association) as immutable tables, and the store
 invariant every operation of the model preserves: each unique column holds no
 value twice (NULL never collides) and every foreign key names an existing row.
 */
module Schema {
  import opened Basics
  import Tables

  /** A calendar date. Dates are compared only for equality. */
  datatype Date = Date(year: int, month: int, day: int)

  /** `datetime.min`, the default of both journal dates: "never". */
  const MinDate := Date(1, 1, 1)

  /**
   A journal of the catalog. `numberOfIssues` is the number of issue links last seen on
   the journal's page; `numberOfIssuesScraped` counts issues ingested since.
   `lastIssueDate` comes from the catalog, `lastIssueDateScraped` is the ingest watermark.
   */
  datatype Journal = Journal(
    issn: string,
    altIssn: Option<string>,
    url: Option<string>,
    name: string,
    numberOfIssues: int,
    numberOfIssuesScraped: int,
    lastIssueDate: Date,
    lastIssueDateScraped: Date)

  /** A journal as first created: counters 0, watermark `datetime.min`. */
  function NewJournal(issn: string, altIssn: Option<string>, url: Option<string>, name: string,
                      lastIssueDate: Date): (j: Journal)
    ensures j.numberOfIssues == 0 && j.numberOfIssuesScraped == 0
    ensures j.lastIssueDateScraped == MinDate
    ensures j.issn == issn && j.altIssn == altIssn && j.url == url && j.name == name
    ensures j.lastIssueDate == lastIssueDate
  {
    Journal(issn, altIssn, url, name, 0, 0, lastIssueDate, MinDate)
  }

  /**
   What a text column saves for a pandas cell. A missing cell is pandas' NaN, and Django's
   `CharField` stores any value that is not a string as its `str`, so NaN is saved as the
   text "nan".
   */
  function SavedText(cell: Option<string>): string {
    match cell
    case Some(t) => t
    case None => "nan"
  }

  /** One issue of a journal, created once per URL. */
  datatype Issue = Issue(jstorId: Option<string>, url: Option<string>, year: int, volume: int,
                         number: int, journal: nat)

  datatype Author = Author(name: string)

  /** A donation account; both counters default to 0. */
  datatype Account = Account(address: string, donationsReceived: int, donationsPaid: int)

  /** An article; `summary` is its abstract. `bucketUrl` is set once its PDF is archived; `account` is who archived it. */
  datatype Article = Article(
    title: string,
    summary: string,
    bucketUrl: Option<string>,
    articleUrl: Option<string>,
    jstorId: string,
    issue: nat,
    account: Option<nat>)

  /** A row of the article-author association table. */
  datatype Link = Link(article: nat, author: nat)

  datatype Store = Store(
    journals: seq<Journal>,
    issues: seq<Issue>,
    authors: seq<Author>,
    accounts: seq<Account>,
    articles: seq<Article>,
    links: set<Link>)

  /** Two values of a unique, nullable column collide: both set and equal. */
  predicate SameValue(a: Option<string>, b: Option<string>) {
    a.Some? && b.Some? && a.value == b.value
  }

  /** `issn` and `journalName` are unique; `altISSN` and `url` are unique but nullable. */
  predicate JournalsClash(a: Journal, b: Journal) {
    a.issn == b.issn || SameValue(a.altIssn, b.altIssn) || SameValue(a.url, b.url) || a.name == b.name
  }

  /** `issueJstorID` and `url` are unique and nullable. */
  predicate IssuesClash(a: Issue, b: Issue) {
    SameValue(a.jstorId, b.jstorId) || SameValue(a.url, b.url)
  }

  predicate AuthorsClash(a: Author, b: Author) {
    a.name == b.name
  }

  predicate AccountsClash(a: Account, b: Account) {
    a.address == b.address
  }

  /** `articleJstorID` is unique; `bucketURL` and `articleURL` are unique but nullable. */
  predicate ArticlesClash(a: Article, b: Article) {
    a.jstorId == b.jstorId || SameValue(a.bucketUrl, b.bucketUrl) || SameValue(a.articleUrl, b.articleUrl)
  }

  /** Every issue has its journal, every article its issue, every link both ends. */
  predicate ReferencesValid(s: Store) {
    && (forall i :: 0 <= i < |s.issues| ==> s.issues[i].journal < |s.journals|)
    && (forall i :: 0 <= i < |s.articles| ==> s.articles[i].issue < |s.issues|)
    && (forall i :: 0 <= i < |s.articles| && s.articles[i].account.Some? ==>
                     s.articles[i].account.value < |s.accounts|)
    && (forall l :: l in s.links ==> l.article < |s.articles| && l.author < |s.authors|)
  }

  predicate UniqueValid(s: Store) {
    && Tables.Unique(s.journals, JournalsClash)
    && Tables.Unique(s.issues, IssuesClash)
    && Tables.Unique(s.authors, AuthorsClash)
    && Tables.Unique(s.accounts, AccountsClash)
    && Tables.Unique(s.articles, ArticlesClash)
  }

  /** The store invariant. */
  predicate Valid(s: Store) {
    UniqueValid(s) && ReferencesValid(s)
  }

  const EmptyStore := Store([], [], [], [], [], {})

  /** The issue stored under `url`, if any (`Issue.objects.get(url=...)`). */
  function IssueByUrl(issues: seq<Issue>, url: string): (r: Option<nat>)
    ensures r.Some? <==> exists i :: 0 <= i < |issues| && issues[i].url == Some(url)
    ensures r.Some? ==> r.value < |issues| && issues[r.value].url == Some(url)
  {
    Tables.FirstIndex(issues, (x: Issue) => x.url == Some(url))
  }

  /** The article stored under `jstorId`, if any. */
  function ArticleById(articles: seq<Article>, jstorId: string): (r: Option<nat>)
    ensures r.Some? <==> exists i :: 0 <= i < |articles| && articles[i].jstorId == jstorId
    ensures r.Some? ==> r.value < |articles| && articles[r.value].jstorId == jstorId
  {
    Tables.FirstIndex(articles, (x: Article) => x.jstorId == jstorId)
  }

  /** The author stored under `name`, if any. */
  function AuthorByName(authors: seq<Author>, name: string): (r: Option<nat>)
    ensures r.Some? <==> exists i :: 0 <= i < |authors| && authors[i].name == name
    ensures r.Some? ==> r.value < |authors| && authors[r.value].name == name
  {
    Tables.FirstIndex(authors, (x: Author) => x.name == name)
  }

  /** The account stored under `address`, if any. */
  function AccountByAddress(accounts: seq<Account>, address: string): (r: Option<nat>)
    ensures r.Some? <==> exists i :: 0 <= i < |accounts| && accounts[i].address == address
    ensures r.Some? ==> r.value < |accounts| && accounts[r.value].address == address
  {
    Tables.FirstIndex(accounts, (x: Account) => x.address == address)
  }

  /** In a valid store a URL names at most one issue, so lookup by URL is exact. */
  lemma IssueUrlUnique(s: Store, url: string, i: nat)
    requires Valid(s)
    requires i < |s.issues| && s.issues[i].url == Some(url)
    ensures IssueByUrl(s.issues, url) == Some(i)
  {
    var r := IssueByUrl(s.issues, url);
    if r.value != i {
      assert IssuesClash(s.issues[r.value], s.issues[i]);
    }
  }
}
