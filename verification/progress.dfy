/**
 Per-journal crawl progress: which journals still need scraping, and how one ingested
 issue advances a journal's counter and date watermark.
 */
module Progress {
  import opened Basics
  import opened Text
  import opened Schema
  import Tables

  /** Why an ingest transaction is rolled back. */
  datatype IngestError =
    | EmptyBatch        // the citation export held no record: the first row does not exist
    | MissingYear       // the first record has no `year`
    | YearNotInteger    // a new issue's `year` is not an integer
    | IssueIdTaken      // a new issue's identifier (its URL's last segment) is already stored
    | WatermarkNotDate  // `year + "-01-01"` is not a date the journal's date field accepts

  /** A journal needs work when issues are missing or the catalog date differs from the watermark. */
  predicate NeedsScrape(j: Journal) {
    j.numberOfIssues > j.numberOfIssuesScraped || j.lastIssueDate != j.lastIssueDateScraped
  }

  /** A journal fresh from the catalog needs scraping exactly when the catalog gave it a real date. */
  lemma NewJournalNeedsScrape(issn: string, altIssn: Option<string>, url: Option<string>,
                              name: string, d: Date)
    ensures NeedsScrape(NewJournal(issn, altIssn, url, name, d)) <==> d != MinDate
  {
  }

  /** The positions of the journals that need scraping, in table order. */
  function Candidates(js: seq<Journal>): (r: seq<nat>)
    ensures forall k :: k in r <==> 0 <= k < |js| && NeedsScrape(js[k])
    ensures forall a, b :: 0 <= a < b < |r| ==> r[a] < r[b]
  {
    Tables.Positions(js, NeedsScrape)
  }

  /** What `get_journals_to_scrape` returns: nothing, one journal, or all candidates. */
  datatype Selection = NoJournal | First(id: nat) | Every(ids: seq<nat>)

  /**
   `get_journals_to_scrape(get_all)`. The query has no ordering, so "the first candidate"
   is whichever row the database returns first; the model takes table order.
   */
  function SelectJournals(js: seq<Journal>, getAll: bool): (r: Selection)
    ensures r.NoJournal? <==> forall k :: 0 <= k < |js| ==> !NeedsScrape(js[k])
    ensures r.First? ==> !getAll && r.id < |js| && NeedsScrape(js[r.id])
    ensures r.Every? ==> getAll && |r.ids| > 0
    ensures r.Every? ==> forall k :: k in r.ids <==> 0 <= k < |js| && NeedsScrape(js[k])
  {
    var c := Candidates(js);
    if |c| == 0 then
      assert forall k :: 0 <= k < |js| ==> !NeedsScrape(js[k]) by {
        forall k | 0 <= k < |js| ensures !NeedsScrape(js[k]) {
          assert k !in c;
        }
      }
      NoJournal
    else
      assert c[0] in c;
      if getAll then Every(c) else First(c[0])
  }

  /**
   The date field's reading of `year + "-01-01"`: Django accepts only a four-digit year
   that is at least 1, so "16", "20160" or "0000" make the save fail.
   */
  function Watermark(year: string): (r: Option<Date>)
    ensures r.Some? ==> r.value.month == 1 && r.value.day == 1
    ensures r.Some? ==> 1 <= r.value.year <= 9999
    ensures r.Some? ==> |year| == 4
  {
    if |year| == 4 && AllDigits(year) && DigitsValue(year) >= 1 then
      assert DigitsValue(year) <= 9999 by { DigitsBound(year); }
      Some(Date(DigitsValue(year), 1, 1))
    else None
  }

  lemma {:induction false} DigitsBound(s: string)
    requires forall k :: 0 <= k < |s| ==> IsDigit(s[k])
    ensures DigitsValue(s) < Pow10(|s|)
    decreases |s|
  {
    if |s| > 0 {
      DigitsBound(s[..|s| - 1]);
      assert IsDigit(s[|s| - 1]);
    }
  }

  function Pow10(n: nat): (p: nat)
    ensures p >= 1
  {
    if n == 0 then 1 else 10 * Pow10(n - 1)
  }

  /** Every four-digit year from 1000 on has a watermark: January 1 of that year. */
  lemma WatermarkOfYear(y: nat)
    requires 1000 <= y <= 9999
    ensures Watermark(ShowNat(y)) == Some(Date(y, 1, 1))
  {
    FourDigits(y);
    DigitsOfShowNat(y);
  }

  lemma FourDigits(y: nat)
    requires 1000 <= y <= 9999
    ensures |ShowNat(y)| == 4
  {
    assert |ShowNat(y)| == |ShowNat(y / 10)| + 1;
    assert |ShowNat(y / 10)| == |ShowNat(y / 100)| + 1;
    assert |ShowNat(y / 100)| == |ShowNat(y / 1000)| + 1;
    assert |ShowNat(y / 1000)| == 1;
  }

  /** A year that gives a watermark is also an integer year, and the two agree. */
  lemma WatermarkAgreesWithYear(year: string)
    requires Watermark(year).Some?
    ensures ParseInt(year) == Some(Watermark(year).value.year)
  {
    ParseDigits(year);
  }

  /**
   `save_journal(journal, n, first_record)`: the journal now has `n` issues; one more is
   scraped, capped at `n`. On reaching the cap the watermark snaps to the catalog's last
   issue date, otherwise it becomes January 1 of the record's year.
   */
  function SaveJournal(j: Journal, n: nat, year: Option<string>): (r: Result<Journal, IngestError>)
    ensures r.Ok? ==> r.value.numberOfIssues == n && r.value.numberOfIssuesScraped <= n
    ensures r.Ok? ==> r.value == j.(numberOfIssues := n,
                                    numberOfIssuesScraped := r.value.numberOfIssuesScraped,
                                    lastIssueDateScraped := r.value.lastIssueDateScraped)
    ensures j.numberOfIssuesScraped + 1 >= n ==>
              r.Ok? && r.value.numberOfIssuesScraped == n && r.value.lastIssueDateScraped == j.lastIssueDate
    ensures j.numberOfIssuesScraped + 1 < n ==>
              (r.Ok? <==> year.Some? && Watermark(year.value).Some?)
    ensures j.numberOfIssuesScraped + 1 < n && r.Ok? ==>
              r.value.numberOfIssuesScraped == j.numberOfIssuesScraped + 1
              && r.value.lastIssueDateScraped == Watermark(year.value).value
  {
    var scraped := j.numberOfIssuesScraped + 1;
    if n <= scraped then
      Ok(j.(numberOfIssues := n, numberOfIssuesScraped := n, lastIssueDateScraped := j.lastIssueDate))
    else if year.None? then
      Err(MissingYear)
    else
      match Watermark(year.value)
      case None => Err(WatermarkNotDate)
      case Some(d) => Ok(j.(numberOfIssues := n, numberOfIssuesScraped := scraped, lastIssueDateScraped := d))
  }

  /** After a save the journal is finished exactly when this issue reached the count. */
  lemma SaveJournalCompletes(j: Journal, n: nat, year: Option<string>)
    requires SaveJournal(j, n, year).Ok?
    ensures !NeedsScrape(SaveJournal(j, n, year).value) <==> j.numberOfIssuesScraped + 1 >= n
  {
  }

  /** A save advances the counter to min(n, scraped + 1), so it never decreases while the
      page keeps listing at least as many issues as were already scraped. */
  lemma SaveJournalStep(j: Journal, n: nat, year: Option<string>)
    requires SaveJournal(j, n, year).Ok?
    ensures SaveJournal(j, n, year).value.numberOfIssuesScraped == Min(n, j.numberOfIssuesScraped + 1)
    ensures j.numberOfIssuesScraped <= n ==>
              j.numberOfIssuesScraped <= SaveJournal(j, n, year).value.numberOfIssuesScraped
  {
  }

  /** The counter is not monotone in general: a page listing fewer issues than were already
      scraped pulls it down to that number. */
  lemma SaveJournalCanDecrease()
    ensures var j := Journal("1537260X", None, None, "J", 5, 5, MinDate, MinDate);
            SaveJournal(j, 3, None) == Ok(j.(numberOfIssues := 3, numberOfIssuesScraped := 3))
  {
  }
}
