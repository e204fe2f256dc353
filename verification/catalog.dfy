/**
 Catalog synchronisation: the catalog's journal list is normalised (dashes removed from
 both identifiers, a missing print identifier replaced by the online one), existing
 journals take the catalog's last-issue date, and every row is then inserted unless it
 collides with a stored journal on a unique column.

 A missing text cell is pandas' NaN, which the text columns save as "nan": a row without
 identifiers is filed under "nan", and rows that lack the same optional cell collide on it.
 A date cell the date column cannot read makes the statement that saves it raise.
 The update and the insert are two separate database statements without an enclosing
 transaction: when the insert raises, the dates already written stay written.
 */
module Catalog {
  import opened Basics
  import opened Text
  import opened Schema
  import Tables

  /**
   The `date_last_issue_online` cell as Django's date column reads it: an ISO date, or a
   cell it cannot read (missing, or text that is not a date).
   */
  datatype DateCell = Readable(date: Date) | Unreadable

  /**
   One catalog line: `publication_title`, `print_identifier`, `online_identifier`,
   `title_url`, `date_last_issue_online`. A missing text cell is `None`.
   */
  datatype CatalogRow = CatalogRow(
    title: Option<string>,
    printId: Option<string>,
    onlineId: Option<string>,
    titleUrl: Option<string>,
    lastIssueDate: DateCell)

  /** A catalog line renamed to journal columns, after normalisation. */
  datatype JournalRow = JournalRow(
    issn: Option<string>,
    altIssn: Option<string>,
    name: Option<string>,
    url: Option<string>,
    lastIssueDate: DateCell)

  /** Why a statement of the sync raises: it saves a date the date column cannot read. */
  datatype SyncError = UnreadableDate

  /** The store after a sync, and whether a statement raised. */
  datatype Synced = Synced(store: Store, error: Option<SyncError>)

  /** `column.str.replace("-", "")`; an empty cell stays empty. */
  function StripDashes(id: Option<string>): (r: Option<string>)
    ensures r.Some? <==> id.Some?
    ensures r.Some? ==> '-' !in r.value
    ensures r.Some? ==> forall c :: c != '-' ==> multiset(r.value)[c] == multiset(id.value)[c]
  {
    match id
    case None => None
    case Some(t) => Some(Without(t, '-'))
  }

  /** Renaming and normalisation of one catalog line (`update_journal_data`). */
  function Normalize(row: CatalogRow): (r: JournalRow)
    ensures r.issn.Some? ==> '-' !in r.issn.value
    ensures r.altIssn.Some? ==> '-' !in r.altIssn.value
    ensures r.issn.None? <==> row.printId.None? && row.onlineId.None?
    ensures row.printId.None? ==> r.issn == r.altIssn
    ensures r.name == row.title && r.url == row.titleUrl && r.lastIssueDate == row.lastIssueDate
  {
    var alt := StripDashes(row.onlineId);
    var issn := StripDashes(row.printId);
    JournalRow(if issn.Some? then issn else alt, alt, row.title, row.titleUrl, row.lastIssueDate)
  }

  /** Identifiers already without dashes come through unchanged. */
  lemma NormalizeKeepsPlainIds(row: CatalogRow)
    requires row.printId.Some? && '-' !in row.printId.value
    requires row.onlineId.Some? && '-' !in row.onlineId.value
    ensures Normalize(row).issn == row.printId && Normalize(row).altIssn == row.onlineId
  {
  }

  /** Normalising is idempotent on the identifier columns. */
  lemma StripDashesIdempotent(id: Option<string>)
    ensures StripDashes(StripDashes(id)) == StripDashes(id)
  {
  }

  /** The catalog's date cell of the first row filed under `issn` (`groups.get_group(issn).iloc[0]`). */
  function FirstDateFor(rows: seq<JournalRow>, issn: string): (r: Option<DateCell>)
    ensures r.Some? <==> exists k :: 0 <= k < |rows| && rows[k].issn == Some(issn)
    ensures r.Some? ==> exists k :: 0 <= k < |rows| && rows[k].issn == Some(issn)
                          && rows[k].lastIssueDate == r.value
                          && forall m :: 0 <= m < k ==> rows[m].issn != Some(issn)
  {
    match Tables.FirstIndex(rows, (x: JournalRow) => x.issn == Some(issn))
    case None => None
    case Some(k) => Some(rows[k].lastIssueDate)
  }

  /** The date a stored journal carries after the update: its first row's date, or its own when no row is filed under its issn. */
  function CatalogDate(rows: seq<JournalRow>, j: Journal): Date {
    match FirstDateFor(rows, j.issn)
    case Some(Readable(d)) => d
    case _ => j.lastIssueDate
  }

  /** The update statement can save every date it assigns: no stored journal's first row has an unreadable date. */
  predicate UpdateReadable(js: seq<Journal>, rows: seq<JournalRow>) {
    forall i :: 0 <= i < |js| ==> FirstDateFor(rows, js[i].issn) != Some(Unreadable)
  }

  /** Every row's date can be saved, as the insert statement needs. */
  predicate DatesReadable(rows: seq<JournalRow>) {
    forall k :: 0 <= k < |rows| ==> rows[k].lastIssueDate.Readable?
  }

  /** A catalog whose dates are all readable never breaks the update. */
  lemma ReadableRowsUpdate(js: seq<Journal>, rows: seq<JournalRow>)
    requires DatesReadable(rows)
    ensures UpdateReadable(js, rows)
  {
    forall i | 0 <= i < |js| ensures FirstDateFor(rows, js[i].issn) != Some(Unreadable) {
      if FirstDateFor(rows, js[i].issn).Some? {
        var k :| 0 <= k < |rows| && rows[k].issn == Some(js[i].issn)
                 && rows[k].lastIssueDate == FirstDateFor(rows, js[i].issn).value;
        assert rows[k].lastIssueDate.Readable?;
      }
    }
  }

  /** Step (a): every stored journal whose issn appears takes the date of its first row; nothing else changes. */
  function UpdateDates(js: seq<Journal>, rows: seq<JournalRow>): (r: seq<Journal>)
    ensures |r| == |js|
    ensures forall i :: 0 <= i < |js| ==> r[i] == js[i].(lastIssueDate := CatalogDate(rows, js[i]))
  {
    seq(|js|, i requires 0 <= i < |js| => js[i].(lastIssueDate := CatalogDate(rows, js[i])))
  }

  /**
   The journal a catalog row creates: counters 0, watermark `datetime.min`, and every
   missing text cell saved as "nan".
   */
  function ToJournal(r: JournalRow): Journal
    requires r.lastIssueDate.Readable?
  {
    NewJournal(SavedText(r.issn), Some(SavedText(r.altIssn)), Some(SavedText(r.url)), SavedText(r.name),
               r.lastIssueDate.date)
  }

  function ToJournals(rows: seq<JournalRow>): (r: seq<Journal>)
    requires DatesReadable(rows)
    ensures |r| == |rows|
    ensures forall k :: 0 <= k < |rows| ==> r[k] == ToJournal(rows[k])
  {
    seq(|rows|, k requires 0 <= k < |rows| => ToJournal(rows[k]))
  }

  /**
   `update_journal_data` followed by `save_db_journals`. An unreadable date assigned to a
   stored journal makes the update raise before anything is written; an unreadable date
   anywhere in the catalog makes the insert raise after the update was committed.
   */
  function SyncCatalog(s: Store, catalog: seq<CatalogRow>): (r: Synced)
    ensures r.store.issues == s.issues && r.store.authors == s.authors
    ensures r.store.accounts == s.accounts && r.store.articles == s.articles && r.store.links == s.links
    ensures |s.journals| <= |r.store.journals|
    ensures forall i :: 0 <= i < |s.journals| ==>
              r.store.journals[i] == s.journals[i].(lastIssueDate := r.store.journals[i].lastIssueDate)
    ensures r.error.None? <==> DatesReadable(NormalizeAll(catalog))
    ensures !UpdateReadable(s.journals, NormalizeAll(catalog)) ==> r.store == s
    ensures UpdateReadable(s.journals, NormalizeAll(catalog)) && r.error.Some? ==>
              r.store.journals == UpdateDates(s.journals, NormalizeAll(catalog))
    ensures r.error.None? ==>
              && DatesReadable(NormalizeAll(catalog))
              && r.store.journals == Tables.InsertAll(UpdateDates(s.journals, NormalizeAll(catalog)),
                                                      ToJournals(NormalizeAll(catalog)), JournalsClash)
    ensures r.error.None? ==>
              forall i :: 0 <= i < |s.journals| ==>
                r.store.journals[i].lastIssueDate == CatalogDate(NormalizeAll(catalog), s.journals[i])
    ensures Valid(s) ==> Valid(r.store)
  {
    var rows := NormalizeAll(catalog);
    if !UpdateReadable(s.journals, rows) then
      assert !DatesReadable(rows) by {
        if DatesReadable(rows) { ReadableRowsUpdate(s.journals, rows); }
      }
      Synced(s, Some(UnreadableDate))
    else
      var updated := UpdateDates(s.journals, rows);
      assert Tables.Unique(s.journals, JournalsClash) ==> Tables.Unique(updated, JournalsClash) by {
        if Tables.Unique(s.journals, JournalsClash) {
          UpdateKeepsUnique(s.journals, rows);
        }
      }
      if !DatesReadable(rows) then
        Synced(s.(journals := updated), Some(UnreadableDate))
      else
        var js := Tables.InsertAll(updated, ToJournals(rows), JournalsClash);
        assert ReferencesValid(s) ==> ReferencesValid(s.(journals := js));
        Synced(s.(journals := js), None)
  }

  function NormalizeAll(catalog: seq<CatalogRow>): (rows: seq<JournalRow>)
    ensures |rows| == |catalog|
    ensures forall k :: 0 <= k < |catalog| ==> rows[k] == Normalize(catalog[k])
  {
    seq(|catalog|, k requires 0 <= k < |catalog| => Normalize(catalog[k]))
  }

  /** Changing only the date keeps every unique column as it was. */
  lemma UpdateKeepsUnique(js: seq<Journal>, rows: seq<JournalRow>)
    requires Tables.Unique(js, JournalsClash)
    ensures Tables.Unique(UpdateDates(js, rows), JournalsClash)
  {
    var u := UpdateDates(js, rows);
    forall i, j | 0 <= i < |u| && 0 <= j < |u| && i != j ensures !JournalsClash(u[i], u[j]) {
      assert !JournalsClash(js[i], js[j]);
    }
  }

  /** After a successful sync every catalog row is represented: its journal was created, or
      a stored journal shares its issn, alternate issn, url or name. */
  lemma SyncCoversCatalog(s: Store, catalog: seq<CatalogRow>)
    requires SyncCatalog(s, catalog).error.None?
    ensures DatesReadable(NormalizeAll(catalog))
    ensures var rows := NormalizeAll(catalog);
            forall k :: 0 <= k < |rows| ==>
              Tables.Blocked(SyncCatalog(s, catalog).store.journals, ToJournal(rows[k]), JournalsClash)
  {
    var rows := NormalizeAll(catalog);
    ReadableRowsUpdate(s.journals, rows);
    var added := ToJournals(rows);
    Tables.InsertAllCovers(UpdateDates(s.journals, rows), added, JournalsClash);
    forall k | 0 <= k < |rows|
      ensures Tables.Blocked(SyncCatalog(s, catalog).store.journals, ToJournal(rows[k]), JournalsClash)
    {
      assert added[k] == ToJournal(rows[k]);
      assert JournalsClash(added[k], added[k]);
    }
  }

  /**
   Every row agrees on the catalog date with the rows filed under the issn it is saved with
   (true of a catalog listing each journal once).
   */
  predicate DatesConsistent(rows: seq<JournalRow>) {
    forall k, m :: 0 <= k < |rows| && 0 <= m < |rows| && rows[m].issn == Some(SavedText(rows[k].issn)) ==>
      rows[k].lastIssueDate == rows[m].lastIssueDate
  }

  /** A second sync with the same catalog neither creates journals nor changes anything
      but the catalog date. */
  lemma ResyncCreatesNothing(s: Store, catalog: seq<CatalogRow>)
    requires SyncCatalog(s, catalog).error.None?
    ensures var s1 := SyncCatalog(s, catalog).store;
            var s2 := SyncCatalog(s1, catalog);
            s2.error.None? && s2.store.journals == UpdateDates(s1.journals, NormalizeAll(catalog))
  {
    var rows := NormalizeAll(catalog);
    var s1 := SyncCatalog(s, catalog).store;
    SyncCoversCatalog(s, catalog);
    ReadableRowsUpdate(s1.journals, rows);
    CoveredRowsBlocked(s1.journals, rows);
  }

  /** Rows that each collide with a stored journal still collide after the date update, so none is inserted. */
  lemma CoveredRowsBlocked(js: seq<Journal>, rows: seq<JournalRow>)
    requires DatesReadable(rows)
    requires forall k :: 0 <= k < |rows| ==> Tables.Blocked(js, ToJournal(rows[k]), JournalsClash)
    ensures Tables.InsertAll(UpdateDates(js, rows), ToJournals(rows), JournalsClash) == UpdateDates(js, rows)
  {
    var updated := UpdateDates(js, rows);
    var added := ToJournals(rows);
    forall k | 0 <= k < |added| ensures Tables.Blocked(updated, added[k], JournalsClash) {
      assert added[k] == ToJournal(rows[k]);
      var i :| 0 <= i < |js| && (JournalsClash(js[i], added[k]) || JournalsClash(added[k], js[i]));
      assert updated[i] == js[i].(lastIssueDate := updated[i].lastIssueDate);
    }
    Tables.InsertAllBlocked(updated, added, JournalsClash);
  }

  /** With a catalog that gives each issn one date, synchronising is idempotent. */
  lemma SyncIdempotent(s: Store, catalog: seq<CatalogRow>)
    requires SyncCatalog(s, catalog).error.None?
    requires DatesConsistent(NormalizeAll(catalog))
    ensures SyncCatalog(SyncCatalog(s, catalog).store, catalog) == SyncCatalog(s, catalog)
  {
    var rows := NormalizeAll(catalog);
    var s1 := SyncCatalog(s, catalog).store;
    ResyncCreatesNothing(s, catalog);
    var updated := UpdateDates(s1.journals, rows);
    forall i | 0 <= i < |s1.journals| ensures updated[i] == s1.journals[i] {
      SyncedDateSettled(s, catalog, i);
    }
    assert updated == s1.journals;
  }

  /** Every journal after a sync already carries the date the catalog assigns to its issn. */
  lemma SyncedDateSettled(s: Store, catalog: seq<CatalogRow>, i: nat)
    requires SyncCatalog(s, catalog).error.None?
    requires DatesConsistent(NormalizeAll(catalog))
    requires i < |SyncCatalog(s, catalog).store.journals|
    ensures var j := SyncCatalog(s, catalog).store.journals[i];
            CatalogDate(NormalizeAll(catalog), j) == j.lastIssueDate
  {
    var rows := NormalizeAll(catalog);
    SyncCoversCatalog(s, catalog);
    ReadableRowsUpdate(s.journals, rows);
    var js := SyncCatalog(s, catalog).store.journals;
    var updated := UpdateDates(s.journals, rows);
    var added := ToJournals(rows);
    if i >= |s.journals| {
      assert js == Tables.InsertAll(updated, added, JournalsClash);
      assert js[i] in added;
      var k :| 0 <= k < |added| && added[k] == js[i];
      FirstRowDateSettled(rows, k);
    }
  }

  /** The journal a row creates already carries the date its issn's first row gives. */
  lemma FirstRowDateSettled(rows: seq<JournalRow>, k: nat)
    requires DatesReadable(rows) && DatesConsistent(rows) && k < |rows|
    ensures CatalogDate(rows, ToJournal(rows[k])) == rows[k].lastIssueDate.date
  {
    var j := ToJournal(rows[k]);
    var f := FirstDateFor(rows, j.issn);
    if f.Some? {
      var m :| 0 <= m < |rows| && rows[m].issn == Some(j.issn) && rows[m].lastIssueDate == f.value;
    }
  }

  /** The catalog line of "Academy of Management Learning & Education" creates a journal
      filed under its identifiers without dashes. */
  lemma SyncCreatesJournalExample()
    ensures var row := CatalogRow(Some("Academy of Management Learning & Education"), Some("1537-260X"),
                                  Some("1944-9585"), None, Readable(Date(2016, 12, 1)));
            var r := SyncCatalog(EmptyStore, [row]);
            r.error.None? && |r.store.journals| == 1
            && r.store.journals[0].issn == "1537260X" && r.store.journals[0].altIssn == Some("19449585")
            && r.store.journals[0].numberOfIssuesScraped == 0
  {
    var row := CatalogRow(Some("Academy of Management Learning & Education"), Some("1537-260X"),
                          Some("1944-9585"), None, Readable(Date(2016, 12, 1)));
    DashesExample();
    var jr := Normalize(row);
    assert jr.issn == Some("1537260X") && jr.altIssn == Some("19449585");
    SyncOneRowIntoEmpty(row);
  }

  /** Synchronising an empty store with a one-line catalog creates that line's journal. */
  lemma SyncOneRowIntoEmpty(row: CatalogRow)
    requires row.lastIssueDate.Readable?
    ensures var r := SyncCatalog(EmptyStore, [row]);
            r.error.None? && r.store.journals == [ToJournal(Normalize(row))]
  {
    var rows := NormalizeAll([row]);
    assert rows == [Normalize(row)];
    assert UpdateDates([], rows) == [];
    assert ToJournals(rows) == [ToJournal(Normalize(row))];
    InsertIntoEmpty(ToJournal(Normalize(row)));
  }

  /** A line with neither identifier is not refused: its journal is filed under the text "nan". */
  lemma NoIdentifierFiledAsNan(row: CatalogRow)
    requires row.printId.None? && row.onlineId.None? && row.lastIssueDate.Readable?
    ensures var r := SyncCatalog(EmptyStore, [row]);
            r.error.None? && |r.store.journals| == 1
            && r.store.journals[0].issn == "nan" && r.store.journals[0].altIssn == Some("nan")
  {
    SyncOneRowIntoEmpty(row);
  }

  /**
   Two lines that both lack the online identifier, the URL or the title collide on the
   text "nan" saved for it, so only the first becomes a journal.
   */
  lemma MissingCellsCollide(a: CatalogRow, b: CatalogRow)
    requires a.lastIssueDate.Readable? && b.lastIssueDate.Readable?
    requires (a.onlineId.None? && b.onlineId.None?) || (a.titleUrl.None? && b.titleUrl.None?)
             || (a.title.None? && b.title.None?)
    ensures var r := SyncCatalog(EmptyStore, [a, b]);
            r.error.None? && r.store.journals == [ToJournal(Normalize(a))]
  {
    var rows := NormalizeAll([a, b]);
    var ja, jb := ToJournal(Normalize(a)), ToJournal(Normalize(b));
    assert rows == [Normalize(a), Normalize(b)];
    assert UpdateDates([], rows) == [];
    assert ToJournals(rows) == [ja, jb];
    assert JournalsClash(ja, jb);
    InsertFirstBlocksSecond(ja, jb);
  }

  /** Two rows of which the second collides with the first: only the first is stored. */
  lemma InsertFirstBlocksSecond(ja: Journal, jb: Journal)
    requires JournalsClash(ja, jb)
    ensures Tables.InsertAll([], [ja, jb], JournalsClash) == [ja]
  {
    InsertIntoEmpty(ja);
    assert Tables.InsertIfAbsent([], ja, JournalsClash) == [ja];
    assert [ja, jb][1..] == [jb];
    assert Tables.Blocked([ja], jb, JournalsClash) by { assert [ja][0] == ja; }
    assert [jb][1..] == [];
  }

  /** A date the update assigns that the date column cannot read aborts the sync before anything is written. */
  lemma UnreadableUpdateWritesNothing(s: Store, catalog: seq<CatalogRow>, i: nat)
    requires i < |s.journals|
    requires FirstDateFor(NormalizeAll(catalog), s.journals[i].issn) == Some(Unreadable)
    ensures SyncCatalog(s, catalog) == Synced(s, Some(UnreadableDate))
  {
  }

  lemma DashesExample()
    ensures Without("1537-260X", '-') == "1537260X"
    ensures Without("1944-9585", '-') == "19449585"
  {
    assert "1537" + "-" + "260X" == "1537-260X";
    assert "1944" + "-" + "9585" == "1944-9585";
    assert "1537" + "260X" == "1537260X";
    assert "1944" + "9585" == "19449585";
    DropDash("1537", "260X");
    DropDash("1944", "9585");
  }

  /** Removing the one dash between two dash-free parts joins them. */
  lemma DropDash(a: string, b: string)
    requires '-' !in a && '-' !in b
    ensures Without(a + "-" + b, '-') == a + b
  {
    var d := "-" + b;
    assert a + "-" + b == a + d;
    assert d[0] == '-' && d[1..] == b;
    assert Without(d, '-') == b;
    WithoutAppend(a, d, '-');
  }

  lemma InsertIntoEmpty(j: Journal)
    ensures Tables.InsertAll([], [j], JournalsClash) == [j]
  {
    assert !Tables.Blocked([], j, JournalsClash);
    assert [j][1..] == [];
  }
}
