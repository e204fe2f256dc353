/**
 Ingest of one issue's citation export (`save_issue_articles`), as one transaction:
 the issue is found by URL or created, a newly created issue advances its journal's
 progress, then the articles, the authors and the article-author links are inserted
 with conflicts ignored. Any failure rolls everything back.
 */
module Ingest {
  import opened Basics
  import opened Text
  import opened Schema
  import opened Progress
  import Tables

  /**
   One citation record. `id` and `title` are read unconditionally; every other cell may
   be missing.
   */
  datatype Record = Record(
    id: string,
    title: string,
    summary: Option<string>,
    url: Option<string>,
    author: Option<string>,
    volume: Option<string>,
    number: Option<string>,
    year: Option<string>)

  /** Front and back matter are skipped: no article, no authors. */
  predicate IsMatter(rec: Record) {
    rec.title == "Front Matter" || rec.title == "Back Matter"
  }

  /** The export has a `year` column: some record carries a year. */
  predicate HasYearColumn(rs: seq<Record>) {
    exists k :: 0 <= k < |rs| && rs[k].year.Some?
  }

  /** An optional sign and ASCII digits: the exponent of a numeral. */
  function SignedDigits(x: string): Option<int> {
    if |x| > 0 && (x[0] == '-' || x[0] == '+') then
      if AllDigits(x[1..]) then
        var v: int := DigitsValue(x[1..]);
        Some(if x[0] == '-' then -v else v)
      else None
    else if AllDigits(x) then Some(DigitsValue(x))
    else None
  }

  /** `m · 10^e` truncated toward zero, for a mantissa that is not negative. */
  function Scaled(m: nat, e: int): nat {
    if e >= 0 then m * Pow10(e) else Dropped(m, -e)
  }

  /** `m` with its last `k` decimal digits dropped. */
  function Dropped(m: nat, k: nat): nat {
    if k == 0 then m else Dropped(m / 10, k - 1)
  }

  /** The exponent that follows the digits ending at `c`: none written is 0, and any other tail is not a numeral. */
  function ExponentAt(t: string, c: nat): Option<int>
    requires c <= |t|
  {
    if c == |t| then Some(0)
    else if t[c] == 'e' || t[c] == 'E' then SignedDigits(t[c + 1..])
    else None
  }

  /**
   The unsigned numeral from index `i` of `t` to its end (digits, an optional fractional
   part, an optional exponent), truncated toward zero.
   */
  function ReadUnsigned(t: string, i: nat): Option<nat>
    requires i <= |t|
  {
    var a := DigitsEnd(t, i);
    var b := if a < |t| && t[a] == '.' then a + 1 else a;
    var c := DigitsEnd(t, b);
    var exponent := ExponentAt(t, c);
    if (a == i && c == b) || exponent.None? then None
    else Some(Scaled(DigitsValue(t[i..a] + t[b..c]), exponent.value - (c - b)))
  }

  /** The length of a leading sign. */
  function SignLength(t: string): (n: nat)
    ensures n <= |t|
    ensures n == 1 <==> |t| > 0 && (t[0] == '-' || t[0] == '+')
  {
    if |t| > 0 && (t[0] == '-' || t[0] == '+') then 1 else 0
  }

  /**
   A cell through `pd.to_numeric(errors="coerce")` and then the integer column's `int()`:
   a decimal numeral with white space around it and an optional sign is read and
   truncated toward zero; any other text is not a number.
   */
  function ReadNumber(s: string): (r: Option<int>)
    ensures r.Some? ==> |Strip(s)| > 0
    ensures r.Some? && r.value < 0 ==> Strip(s)[0] == '-'
  {
    var t := Strip(s);
    var i := SignLength(t);
    match ReadUnsigned(t, i)
    case None => None
    case Some(v) =>
      var n: int := v;
      Some(if i == 1 && t[0] == '-' then -n else n)
  }

  /** `pd.to_numeric(cell, errors="coerce").fillna(0)` saved to an integer column, or the default "0" of a missing column. */
  function Numeric(cell: Option<string>): (r: int)
    ensures cell.None? ==> r == 0
    ensures r != 0 ==> cell.Some? && ReadNumber(cell.value) == Some(r)
    ensures r < 0 ==> cell.Some? && |Strip(cell.value)| > 0 && Strip(cell.value)[0] == '-'
  {
    if cell.Some? then ReadNumber(cell.value).GetOr(0) else 0
  }

  /** A number written out is read back; anything that is not a numeral reads as 0. */
  lemma NumericReadsNumbers(n: nat, junk: string)
    requires ReadNumber(junk).None?
    ensures Numeric(Some(ShowNat(n))) == n
    ensures Numeric(Some(junk)) == 0 && Numeric(None) == 0
  {
    var t := ShowNat(n);
    NoSpaceStrip(t);
    UnsignedDigits(t, 0);
    assert t[0..] == t;
    DigitsOfShowNat(n);
  }

  /** Digits running to the end read as their value. */
  lemma UnsignedDigits(t: string, i: nat)
    requires i < |t| && forall k :: i <= k < |t| ==> IsDigit(t[k])
    ensures ReadUnsigned(t, i) == Some(DigitsValue(t[i..]))
  {
    DigitsRun(t, t[i..], i);
    assert t[i..|t|] + t[|t|..|t|] == t[i..];
  }

  /** A fractional part is cut off: `w.f` reads as `w`. */
  lemma NumericTruncates(w: string, f: string, t: string)
    requires AllDigits(w) && forall k :: 0 <= k < |f| ==> IsDigit(f[k])
    requires t == w + "." + f
    ensures Numeric(Some(t)) == DigitsValue(w)
  {
    PlainNumeral(t);
    UnsignedFraction(t, w, f, 0);
    assert w[0] == t[0];
    ReadPlain(t, DigitsValue(w));
  }

  /** Truncation is toward zero: `-w.f` reads as `-w`. */
  lemma NumericTruncatesNegative(w: string, f: string, t: string)
    requires AllDigits(w) && forall k :: 0 <= k < |f| ==> IsDigit(f[k])
    requires t == "-" + w + "." + f
    ensures Numeric(Some(t)) == -(DigitsValue(w) as int)
  {
    assert t[1..] == w + "." + f;
    PlainNumeral(t);
    UnsignedFraction(t, w, f, 1);
    ReadMinus(t, DigitsValue(w));
  }

  /** An unsigned numeral without white space reads as its value. */
  lemma ReadPlain(t: string, v: nat)
    requires Strip(t) == t && |t| > 0 && IsDigit(t[0]) && ReadUnsigned(t, 0) == Some(v)
    ensures Numeric(Some(t)) == v
  {
  }

  /** A numeral without white space after a minus sign reads as the negated value. */
  lemma ReadMinus(t: string, v: nat)
    requires Strip(t) == t && |t| > 0 && t[0] == '-' && ReadUnsigned(t, 1) == Some(v)
    ensures Numeric(Some(t)) == -(v as int)
  {
  }

  /** A numeral built from digits, sign, point and exponent letter has no white space to strip. */
  lemma PlainNumeral(t: string)
    requires forall k :: 0 <= k < |t| ==> IsDigit(t[k]) || t[k] in "-.e"
    ensures Strip(t) == t
  {
    assert forall k :: 0 <= k < |t| ==> !IsSpace(t[k]);
  }

  /** `w.f` from index `i` to the end: the mantissa `w + f` scaled down by `|f|` digits, which is `w`. */
  lemma UnsignedFraction(t: string, w: string, f: string, i: nat)
    requires AllDigits(w) && forall k :: 0 <= k < |f| ==> IsDigit(f[k])
    requires i + |w| + 1 + |f| == |t| && t[i..] == w + "." + f
    ensures ReadUnsigned(t, i) == Some(DigitsValue(w))
  {
    var a, b := i + |w|, i + |w| + 1;
    FractionParts(t, w, f, i);
    DigitsRun(t, w, i);
    DigitsRun(t, f, b);
    ReadUnsignedAt(t, i, a, b, |t|, 0);
    FractionDropped(w, f);
  }

  /** Where `w`, the point and `f` sit in `t`. */
  lemma FractionParts(t: string, w: string, f: string, i: nat)
    requires i + |w| + 1 + |f| == |t| && t[i..] == w + "." + f
    ensures t[i..i + |w|] == w && t[i + |w|] == '.' && t[i + |w| + 1..|t|] == f
    ensures t[i..i + |w|] + t[i + |w| + 1..|t|] == w + f
  {
    assert t[i..i + |w|] == (w + "." + f)[..|w|];
    assert t[i + |w| + 1..|t|] == (w + "." + f)[|w| + 1..];
  }

  /** `ReadUnsigned` from the positions of its pieces: digits to `a`, a fraction from `b` to `c`, exponent `e`. */
  lemma ReadUnsignedAt(t: string, i: nat, a: nat, b: nat, c: nat, e: int)
    requires i <= |t| && DigitsEnd(t, i) == a
    requires b == if a < |t| && t[a] == '.' then a + 1 else a
    requires DigitsEnd(t, b) == c && ExponentAt(t, c) == Some(e) && (a > i || c > b)
    ensures ReadUnsigned(t, i) == Some(Scaled(DigitsValue(t[i..a] + t[b..c]), e - (c - b)))
  {
  }

  /** The digits `w` then `f`, scaled down by `|f|` digits, are `w`. */
  lemma FractionDropped(w: string, f: string)
    requires AllDigits(w) && forall k :: 0 <= k < |f| ==> IsDigit(f[k])
    ensures Scaled(DigitsValue(w + f), -|f|) == DigitsValue(w)
  {
    var m := DigitsValue(w + f);
    DigitsAppend(w, f);
    DigitsBound(f);
    DropDigits(DigitsValue(w), |f|, DigitsValue(f), m);
    if |f| == 0 {
      assert m == DigitsValue(w) * 1 + 0;
    }
  }

  /** An exponent scales up: `w` then "e" then digits `e` reads as `w · 10^e`. */
  lemma NumericExponent(w: string, e: string, t: string)
    requires AllDigits(w) && AllDigits(e)
    requires t == w + "e" + e
    ensures Numeric(Some(t)) == DigitsValue(w) * Pow10(DigitsValue(e))
  {
    var v := DigitsValue(w) * Pow10(DigitsValue(e));
    assert ReadUnsigned(t, 0) == Some(v) by { UnsignedExponent(t, w, e); }
    assert Strip(t) == t by { PlainNumeral(t); }
    assert IsDigit(t[0]) by { assert w[0] == t[0]; }
    ReadPlain(t, v);
  }

  lemma UnsignedExponent(t: string, w: string, e: string)
    requires AllDigits(w) && AllDigits(e) && t == w + "e" + e
    ensures ReadUnsigned(t, 0) == Some(DigitsValue(w) * Pow10(DigitsValue(e)))
  {
    var a := |w|;
    assert t[0..a] == w && t[a] == 'e' && t[a + 1..] == e;
    DigitsRun(t, w, 0);
    assert DigitsEnd(t, a) == a;
    assert ExponentAt(t, a) == Some(DigitsValue(e));
    assert t[0..a] + t[a..a] == w;
    ReadUnsignedAt(t, 0, a, a, a, DigitsValue(e));
  }

  /** `"1.5"` reads as 1, as the integer column receives it. */
  lemma DecimalExample()
    ensures Numeric(Some("1.5")) == 1
  {
    OneDigit('1');
    OneDigit('5');
    assert "1.5" == "1" + "." + "5";
    NumericTruncates("1", "5", "1.5");
  }

  /** `"1e3"` reads as 1000. */
  lemma ExponentExample()
    ensures Numeric(Some("1e3")) == 1000
  {
    OneDigit('1');
    OneDigit('3');
    assert "1e3" == "1" + "e" + "3";
    assert Pow10(3) == 1000;
    NumericExponent("1", "3", "1e3");
  }

  lemma OneDigit(c: char)
    requires IsDigit(c)
    ensures AllDigits([c]) && DigitsValue([c]) == c as int - '0' as int
  {
    assert [c][..0] == [];
  }

  /** The digits `d` placed at index `i` of `t`, followed by a non-digit or the end, form one run. */
  lemma DigitsRun(t: string, d: string, i: nat)
    requires i + |d| <= |t| && t[i..i + |d|] == d
    requires forall k :: 0 <= k < |d| ==> IsDigit(d[k])
    requires i + |d| == |t| || !IsDigit(t[i + |d|])
    ensures DigitsEnd(t, i) == i + |d|
  {
    assert forall k :: i <= k < i + |d| ==> t[k] == d[k - i];
    DigitsEndUnique(t, i, i + |d|);
  }

  /** Digits written after digits shift the first value by the length of the second. */
  lemma {:induction false} DigitsAppend(a: string, b: string)
    requires forall k :: 0 <= k < |a| ==> IsDigit(a[k])
    requires forall k :: 0 <= k < |b| ==> IsDigit(b[k])
    ensures DigitsValue(a + b) == DigitsValue(a) * Pow10(|b|) + DigitsValue(b)
    decreases |b|
  {
    if |b| == 0 {
      assert a + b == a;
    } else {
      var b' := b[..|b| - 1];
      DigitsAppend(a, b');
      assert (a + b)[..|a + b| - 1] == a + b';
      var x, p, y, d := DigitsValue(a), Pow10(|b'|), DigitsValue(b'), b[|b| - 1] as int - '0' as int;
      assert DigitsValue(a + b) == (x * p + y) * 10 + d;
      ShiftDigit(x, p, y, d);
    }
  }

  lemma ShiftDigit(x: int, p: int, y: int, d: int)
    ensures (x * p + y) * 10 + d == x * (p * 10) + (y * 10 + d)
  {
  }

  /** Dropping `k` digits from `w · 10^k + r` leaves `w` when `r` has fewer than `k` digits. */
  lemma {:induction false} DropDigits(w: nat, k: nat, r: nat, n: nat)
    requires r < Pow10(k) && n == w * Pow10(k) + r
    ensures Dropped(n, k) == w
    decreases k
  {
    if k > 0 {
      var p := Pow10(k - 1);
      var q, d := r / 10, r % 10;
      ShiftDigit(w, p, q, d);
      assert n == (w * p + q) * 10 + d;
      DropDigits(w, k - 1, q, n / 10);
    }
  }

  /** The author names of one record: the `author` cell cut at every "and", each piece stripped. */
  function AuthorNames(author: Option<string>): (r: seq<string>)
    ensures !Truthy(author) ==> r == []
    ensures Truthy(author) ==> |r| == |Split(author.value, "and")|
    ensures Truthy(author) ==> forall k :: 0 <= k < |r| ==> r[k] == Strip(Split(author.value, "and")[k])
  {
    if Truthy(author) then
      var pieces := Split(author.value, "and");
      seq(|pieces|, k requires 0 <= k < |pieces| => Strip(pieces[k]))
    else []
  }

  /** A cell without the word "and" names one author, stripped; no name keeps surrounding blanks. */
  lemma AuthorNamesSingle(author: string)
    requires author != "" && !Contains(author, "and")
    ensures AuthorNames(Some(author)) == [Strip(author)]
  {
    SplitWithoutSeparator(author, "and");
  }

  /** No name of a record still contains "and": a name such as "Sandra" is cut apart. */
  lemma AuthorNamesFreeOfSeparator(author: Option<string>)
    ensures forall k :: 0 <= k < |AuthorNames(author)| ==> !Contains(AuthorNames(author)[k], "and")
  {
    if Truthy(author) {
      var pieces := Split(author.value, "and");
      SplitPiecesFree(author.value, "and");
      forall k | 0 <= k < |pieces| ensures !Contains(Strip(pieces[k]), "and") {
        StrippedKeepsAbsence(pieces[k], "and");
      }
    }
  }

  /** The cut is on the bare letters "and", not on the word: "Sandra" gives two names. */
  lemma AuthorNamesCutsNames()
    ensures AuthorNames(Some("Sandra")) == ["S", "ra"]
  {
    SplitSandra();
    AuthorNamesOfTwo("Sandra", "S", "ra");
    PiecesOfSandraPlain();
  }

  lemma PiecesOfSandraPlain()
    ensures Strip("S") == "S" && Strip("ra") == "ra"
  {
    assert !IsSpace('S') && !IsSpace('r') && !IsSpace('a');
    StripPlain("S");
    StripPlain("ra");
  }

  /** A cell cut into two pieces names the two stripped pieces. */
  lemma AuthorNamesOfTwo(author: string, a: string, b: string)
    requires author != "" && Split(author, "and") == [a, b]
    ensures AuthorNames(Some(author)) == [Strip(a), Strip(b)]
  {
    var r := AuthorNames(Some(author));
    assert r == [r[0], r[1]];
  }

  /** A short word without blanks has nothing to strip. */
  lemma StripPlain(w: string)
    requires 1 <= |w| <= 2 && !IsSpace(w[0]) && !IsSpace(w[|w| - 1])
    ensures Strip(w) == w
  {
  }

  /** `"Sandra".split("and")`. */
  lemma SplitSandra()
    ensures Split("Sandra", "and") == ["S", "ra"]
  {
    var s := "Sandra";
    assert s[0..3][0] == 'S';
    assert !OccursAt(s, "and", 0);
    assert OccursAt(s, "and", 1);
    assert Find(s, "and", 0) == Some(1);
    var t := s[4..];
    assert t == "ra";
    assert Find(t, "and", 0) == None;
    assert Split(t, "and") == ["ra"];
    assert s[..1] == "S";
  }
  /** Stripping cuts a text down to a slice of it, so it cannot create an occurrence. */
  lemma StrippedKeepsAbsence(s: string, sep: string)
    requires !Contains(s, sep)
    ensures !Contains(Strip(s), sep)
  {
    var i := StripSlice(s);
    SliceKeepsAbsence(s, sep, i, i + |Strip(s)|);
  }

  /** A slice of a text has no occurrence the text lacks. */
  lemma SliceKeepsAbsence(s: string, sep: string, lo: nat, hi: nat)
    requires lo <= hi <= |s| && !Contains(s, sep)
    ensures !Contains(s[lo..hi], sep)
  {
    var t := s[lo..hi];
    forall k | 0 <= k <= |t| ensures !OccursAt(t, sep, k) {
      if OccursAt(t, sep, k) {
        var u, v := t[k..k + |sep|], s[lo + k..lo + k + |sep|];
        assert forall i :: 0 <= i < |sep| ==> u[i] == v[i];
        assert OccursAt(s, sep, lo + k);
      }
    }
  }

  /**
   The text a batch saves for a record that lacks the abstract or the URL. The batch is one
   DataFrame: when some record has the field, the DataFrame has the column, the missing
   cell is NaN and is saved as "nan"; when none has it, `record.get(field, "")` gives "".
   */
  datatype Defaults = Defaults(summary: string, url: string)

  function DefaultsOf(rs: seq<Record>): Defaults {
    Defaults(if exists k :: 0 <= k < |rs| && rs[k].summary.Some? then SavedText(None) else "",
             if exists k :: 0 <= k < |rs| && rs[k].url.Some? then SavedText(None) else "")
  }

  /** The article a record creates: no PDF yet, no account; a missing abstract or url takes the batch's default. */
  function ArticleRow(rec: Record, issue: nat, d: Defaults): (a: Article)
    ensures a.jstorId == rec.id && a.title == rec.title && a.issue == issue
    ensures a.bucketUrl.None? && a.account.None?
    ensures a.summary == rec.summary.GetOr(d.summary) && a.articleUrl == Some(rec.url.GetOr(d.url))
  {
    Article(rec.title, rec.summary.GetOr(d.summary), None, Some(rec.url.GetOr(d.url)), rec.id, issue, None)
  }

  /**
   A record without a URL is saved with "" when no record of its batch has one, and with
   the text "nan" when another record has one; the abstract likewise.
   */
  lemma MissingCellDefault(rs: seq<Record>, k: nat, issue: nat)
    requires k < |rs|
    ensures var a := ArticleRow(rs[k], issue, DefaultsOf(rs));
            && (rs[k].url.None? ==>
                  a.articleUrl == Some(if exists m :: 0 <= m < |rs| && rs[m].url.Some? then "nan" else ""))
            && (rs[k].summary.None? ==>
                  a.summary == if exists m :: 0 <= m < |rs| && rs[m].summary.Some? then "nan" else "")
  {
  }

  /**
   Two articles of one batch that both lack a URL get the same saved URL, so they collide
   on that unique column and the insert keeps only the first.
   */
  lemma MissingUrlsCollide(rs: seq<Record>, k: nat, m: nat, issue: nat)
    requires k < |rs| && m < |rs| && rs[k].url.None? && rs[m].url.None?
    ensures ArticlesClash(ArticleRow(rs[k], issue, DefaultsOf(rs)), ArticleRow(rs[m], issue, DefaultsOf(rs)))
  {
  }

  /** The article rows of a batch, in record order, front and back matter left out; `d` holds the batch's defaults. */
  function ArticleRows(rs: seq<Record>, issue: nat, d: Defaults): (r: seq<Article>)
    ensures forall a :: a in r ==> exists k :: 0 <= k < |rs| && !IsMatter(rs[k]) && a == ArticleRow(rs[k], issue, d)
    ensures forall k :: 0 <= k < |rs| && !IsMatter(rs[k]) ==> ArticleRow(rs[k], issue, d) in r
    decreases |rs|
  {
    if |rs| == 0 then []
    else
      var rest := ArticleRows(rs[1..], issue, d);
      ArticleRowsShift(rs, issue, d, rest);
      if IsMatter(rs[0]) then rest else [ArticleRow(rs[0], issue, d)] + rest
  }

  /**
   A record added at the end of a batch adds its row at the end, or nothing when it is
   front or back matter: the rows follow the records one for one, in order.
   */
  lemma {:induction false} ArticleRowsAppend(rs: seq<Record>, x: Record, issue: nat, d: Defaults)
    ensures ArticleRows(rs + [x], issue, d)
            == ArticleRows(rs, issue, d) + (if IsMatter(x) then [] else [ArticleRow(x, issue, d)])
    decreases |rs|
  {
    if |rs| == 0 {
      assert rs + [x] == [x] && [x][1..] == [];
    } else {
      assert (rs + [x])[0] == rs[0] && (rs + [x])[1..] == rs[1..] + [x];
      ArticleRowsAppend(rs[1..], x, issue, d);
    }
  }

  /** What the rows of the later records say, restated with the batch's own indices. */
  lemma ArticleRowsShift(rs: seq<Record>, issue: nat, d: Defaults, rest: seq<Article>)
    requires |rs| > 0
    requires forall a :: a in rest ==> exists k :: 0 <= k < |rs[1..]| && !IsMatter(rs[1..][k]) && a == ArticleRow(rs[1..][k], issue, d)
    requires forall k :: 0 <= k < |rs[1..]| && !IsMatter(rs[1..][k]) ==> ArticleRow(rs[1..][k], issue, d) in rest
    ensures forall a :: a in rest ==> exists k :: 0 <= k < |rs| && !IsMatter(rs[k]) && a == ArticleRow(rs[k], issue, d)
    ensures forall k :: 1 <= k < |rs| && !IsMatter(rs[k]) ==> ArticleRow(rs[k], issue, d) in rest
  {
    forall a | a in rest ensures exists k :: 0 <= k < |rs| && !IsMatter(rs[k]) && a == ArticleRow(rs[k], issue, d) {
      var m :| 0 <= m < |rs[1..]| && !IsMatter(rs[1..][m]) && a == ArticleRow(rs[1..][m], issue, d);
      assert rs[1..][m] == rs[m + 1];
    }
    forall k | 1 <= k < |rs| && !IsMatter(rs[k]) ensures ArticleRow(rs[k], issue, d) in rest {
      assert rs[k] == rs[1..][k - 1];
    }
  }

  /** The author rows of a batch: every name of every record that is not matter, repeats included. */
  function AuthorRows(rs: seq<Record>): (r: seq<Author>)
    ensures forall a :: a in r <==> exists k :: 0 <= k < |rs| && !IsMatter(rs[k]) && a.name in AuthorNames(rs[k].author)
    decreases |rs|
  {
    if |rs| == 0 then []
    else
      var rest := AuthorRows(rs[1..]);
      var mine := if IsMatter(rs[0]) then [] else AuthorsNamed(AuthorNames(rs[0].author));
      AuthorRowsShift(rs, rest);
      AuthorRowsJoin(rs, mine, rest);
      mine + rest
  }

  /** One author row per name, in order. */
  function AuthorsNamed(names: seq<string>): (r: seq<Author>)
    ensures forall a :: a in r <==> a.name in names
  {
    var r := seq(|names|, k requires 0 <= k < |names| => Author(names[k]));
    assert forall a: Author :: a.name in names ==> a in r by {
      forall a: Author | a.name in names ensures a in r {
        var k :| 0 <= k < |names| && names[k] == a.name;
        assert r[k] == a;
      }
    }
    r
  }

  /** What the rows of the later records say, restated with the batch's own indices. */
  lemma AuthorRowsShift(rs: seq<Record>, rest: seq<Author>)
    requires |rs| > 0
    requires forall a :: a in rest <==> exists k :: 0 <= k < |rs[1..]| && !IsMatter(rs[1..][k]) && a.name in AuthorNames(rs[1..][k].author)
    ensures forall a :: a in rest <==> exists k :: 1 <= k < |rs| && !IsMatter(rs[k]) && a.name in AuthorNames(rs[k].author)
  {
    forall a ensures a in rest <==> exists k :: 1 <= k < |rs| && !IsMatter(rs[k]) && a.name in AuthorNames(rs[k].author) {
      if a in rest {
        var m :| 0 <= m < |rs[1..]| && !IsMatter(rs[1..][m]) && a.name in AuthorNames(rs[1..][m].author);
        assert rs[1..][m] == rs[m + 1];
      }
      if exists k :: 1 <= k < |rs| && !IsMatter(rs[k]) && a.name in AuthorNames(rs[k].author) {
        var k :| 1 <= k < |rs| && !IsMatter(rs[k]) && a.name in AuthorNames(rs[k].author);
        assert rs[k] == rs[1..][k - 1];
      }
    }
  }

  /** The first record's rows followed by the later records' rows are the batch's rows. */
  lemma AuthorRowsJoin(rs: seq<Record>, mine: seq<Author>, rest: seq<Author>)
    requires |rs| > 0
    requires forall a :: a in mine <==> !IsMatter(rs[0]) && a.name in AuthorNames(rs[0].author)
    requires forall a :: a in rest <==> exists k :: 1 <= k < |rs| && !IsMatter(rs[k]) && a.name in AuthorNames(rs[k].author)
    ensures forall a :: a in mine + rest <==> exists k :: 0 <= k < |rs| && !IsMatter(rs[k]) && a.name in AuthorNames(rs[k].author)
  {
    forall a ensures a in mine + rest <==> exists k :: 0 <= k < |rs| && !IsMatter(rs[k]) && a.name in AuthorNames(rs[k].author) {
      if exists k :: 0 <= k < |rs| && !IsMatter(rs[k]) && a.name in AuthorNames(rs[k].author) {
        var k :| 0 <= k < |rs| && !IsMatter(rs[k]) && a.name in AuthorNames(rs[k].author);
        if k == 0 {
          assert a in mine;
        } else {
          assert a in rest;
        }
      }
    }
  }

  /** A record whose names end up filed under its identifier: it is not matter, has authors,
      and no later such record carries the same identifier. */
  predicate LastWithId(rs: seq<Record>, k: int) {
    && 0 <= k < |rs| && !IsMatter(rs[k]) && Truthy(rs[k].author)
    && forall m :: k < m < |rs| && !IsMatter(rs[m]) && Truthy(rs[m].author) ==> rs[m].id != rs[k].id
  }

  /**
   `article_author_names`: identifier to author names, for records that are not matter and
   have authors; a later record with the same identifier replaces an earlier one.
   */
  function NamesById(rs: seq<Record>): (r: map<string, seq<string>>)
    ensures forall id :: id in r ==> exists k :: 0 <= k < |rs| && !IsMatter(rs[k]) && Truthy(rs[k].author) && rs[k].id == id
    decreases |rs|
  {
    if |rs| == 0 then map[]
    else
      var init := rs[..|rs| - 1];
      var m := NamesById(init);
      var last := rs[|rs| - 1];
      assert forall id :: id in m ==> exists k :: 0 <= k < |rs| && !IsMatter(rs[k]) && Truthy(rs[k].author) && rs[k].id == id by {
        forall id | id in m ensures exists k :: 0 <= k < |rs| && !IsMatter(rs[k]) && Truthy(rs[k].author) && rs[k].id == id {
          var k :| 0 <= k < |init| && !IsMatter(init[k]) && Truthy(init[k].author) && init[k].id == id;
          assert init[k] == rs[k];
        }
      }
      if !IsMatter(last) && Truthy(last.author) then m[last.id := AuthorNames(last.author)] else m
  }

  /** The names filed under an identifier are those of the last record carrying it. */
  lemma {:induction false} NamesByIdLast(rs: seq<Record>, k: int)
    requires LastWithId(rs, k)
    ensures rs[k].id in NamesById(rs) && NamesById(rs)[rs[k].id] == AuthorNames(rs[k].author)
    decreases |rs|
  {
    var init := rs[..|rs| - 1];
    if k < |rs| - 1 {
      assert LastWithId(init, k) by {
        forall i | k < i < |init| && !IsMatter(init[i]) && Truthy(init[i].author) ensures init[i].id != init[k].id {
          assert init[i] == rs[i];
        }
      }
      NamesByIdLast(init, k);
      assert init[k] == rs[k];
    }
  }

  /**
   The association rows `save_article_author_relations` adds: every stored article whose
   identifier has names, to every stored author carrying one of those names.
   */
  function LinksFor(articles: seq<Article>, authors: seq<Author>, names: map<string, seq<string>>): (r: set<Link>)
    ensures forall l :: l in r ==> l.article < |articles| && l.author < |authors|
  {
    set a, b | 0 <= a < |articles| && 0 <= b < |authors| && articles[a].jstorId in names
                 && authors[b].name in names[articles[a].jstorId] :: Link(a, b)
  }

  /** `save_articles_and_authors` followed by `save_article_author_relations`, under `issue`. */
  function AddArticles(s: Store, issue: nat, rs: seq<Record>): (r: Store)
    ensures r.journals == s.journals && r.issues == s.issues && r.accounts == s.accounts
    ensures s.articles <= r.articles && s.authors <= r.authors && s.links <= r.links
    ensures forall i :: |s.articles| <= i < |r.articles| ==>
              r.articles[i].issue == issue && r.articles[i].bucketUrl.None? && r.articles[i].account.None?
              && r.articles[i].title != "Front Matter" && r.articles[i].title != "Back Matter"
    ensures Valid(s) && issue < |s.issues| ==> Valid(r)
  {
    var rows := ArticleRows(rs, issue, DefaultsOf(rs));
    var articles := Tables.InsertAll(s.articles, rows, ArticlesClash);
    var authors := Tables.InsertAll(s.authors, AuthorRows(rs), AuthorsClash);
    NewArticlesFresh(s.articles, rs, issue);
    var r := s.(articles := articles, authors := authors, links := s.links + LinksFor(articles, authors, NamesById(rs)));
    assert Valid(s) && issue < |s.issues| ==> ReferencesValid(r) by {
      if Valid(s) && issue < |s.issues| {
        ArticleReferencesKept(s.articles, articles, issue, |s.issues|, |s.accounts|);
      }
    }
    r
  }

  /** The articles a batch adds belong to `issue`, have no PDF and no account, and are not matter. */
  lemma NewArticlesFresh(t: seq<Article>, rs: seq<Record>, issue: nat)
    ensures var articles := Tables.InsertAll(t, ArticleRows(rs, issue, DefaultsOf(rs)), ArticlesClash);
            forall i :: |t| <= i < |articles| ==>
              articles[i].issue == issue && articles[i].bucketUrl.None? && articles[i].account.None?
              && articles[i].title != "Front Matter" && articles[i].title != "Back Matter"
  {
    var rows := ArticleRows(rs, issue, DefaultsOf(rs));
    var articles := Tables.InsertAll(t, rows, ArticlesClash);
    forall i | |t| <= i < |articles|
      ensures articles[i].issue == issue && articles[i].bucketUrl.None? && articles[i].account.None?
              && articles[i].title != "Front Matter" && articles[i].title != "Back Matter"
    {
      assert articles[i] in rows;
    }
  }

  /** Extending the article table with rows of an existing issue and no account keeps every reference valid. */
  lemma ArticleReferencesKept(t: seq<Article>, articles: seq<Article>, issue: nat, issues: nat, accounts: nat)
    requires t <= articles && issue < issues
    requires forall i :: 0 <= i < |t| ==> t[i].issue < issues
    requires forall i :: 0 <= i < |t| && t[i].account.Some? ==> t[i].account.value < accounts
    requires forall i :: |t| <= i < |articles| ==> articles[i].issue == issue && articles[i].account.None?
    ensures forall i :: 0 <= i < |articles| ==> articles[i].issue < issues
    ensures forall i :: 0 <= i < |articles| && articles[i].account.Some? ==> articles[i].account.value < accounts
  {
    forall i | 0 <= i < |articles| ensures articles[i].issue < issues {
      if i < |t| {
        assert articles[i] == t[i];
      }
    }
    forall i | 0 <= i < |articles| && articles[i].account.Some? ensures articles[i].account.value < accounts {
      assert i < |t|;
      assert articles[i] == t[i];
    }
  }

  /** The issue `get_or_create` makes: identifier the URL's last segment, volume and number from the first record. */
  function NewIssue(url: string, year: int, first: Record, j: nat): (i: Issue)
    ensures i.url == Some(url) && i.year == year && i.journal == j
    ensures i.jstorId.Some? && EndsWith(url, i.jstorId.value) && '/' !in i.jstorId.value
  {
    Issue(Some(LastSegment(url)), Some(url), year, Numeric(first.volume), Numeric(first.number), j)
  }

  /** The store with the issue in place, and the issue's position. */
  datatype Filed = Filed(store: Store, issue: nat)

  /**
   `save_issue` then, for a newly created issue, `save_journal`: the issue is looked up by
   URL; a new one takes its year from the first record and advances the journal at `j`.
   */
  function FileIssue(s: Store, j: nat, issueUrl: string, n: nat, rs: seq<Record>): (r: Result<Filed, IngestError>)
    requires j < |s.journals|
    ensures |rs| == 0 ==> r == Err(EmptyBatch)
    ensures |rs| > 0 && !HasYearColumn(rs) ==> r == Err(MissingYear)
    ensures |rs| > 0 && HasYearColumn(rs) && IssueByUrl(s.issues, issueUrl).Some? ==>
              r == Ok(Filed(s, IssueByUrl(s.issues, issueUrl).value))
    ensures r.Ok? ==> IssueByUrl(r.value.store.issues, issueUrl) == Some(r.value.issue)
    ensures r.Ok? ==> var t := r.value.store;
              t.articles == s.articles && t.authors == s.authors && t.accounts == s.accounts && t.links == s.links
    ensures r.Ok? ==> s.issues <= r.value.store.issues && |r.value.store.issues| <= |s.issues| + 1
    ensures r.Ok? ==> |r.value.store.journals| == |s.journals|
    ensures r.Ok? ==> forall k :: 0 <= k < |s.journals| && k != j ==> r.value.store.journals[k] == s.journals[k]
  {
    if |rs| == 0 then Err(EmptyBatch)
    else if !HasYearColumn(rs) then Err(MissingYear)
    else
      var first := rs[0];
      match IssueByUrl(s.issues, issueUrl)
      case Some(i) => Ok(Filed(s, i))
      case None =>
        var year := if first.year.Some? then ParseInt(first.year.value) else None;
        if year.None? then Err(YearNotInteger)
        else
          var issue := NewIssue(issueUrl, year.value, first, j);
          if Tables.Blocked(s.issues, issue, IssuesClash) then Err(IssueIdTaken)
          else
            match SaveJournal(s.journals[j], n, first.year)
            case Err(e) => Err(e)
            case Ok(jn) =>
              AppendedIssueFound(s.issues, issue, issueUrl);
              Ok(Filed(s.(journals := s.journals[j := jn], issues := s.issues + [issue]), |s.issues|))
  }

  /** A new issue filed under a URL no stored issue has is the one a lookup by that URL finds. */
  lemma AppendedIssueFound(issues: seq<Issue>, issue: Issue, url: string)
    requires IssueByUrl(issues, url).None? && issue.url == Some(url)
    ensures IssueByUrl(issues + [issue], url) == Some(|issues|)
  {
    FirstIndexAppended(issues, issue, (x: Issue) => x.url == Some(url));
  }

  /**
   `save_issue_articles(records, journal, issue_url, number_of_issues)` for the journal at
   position `j`: the new store, or why the transaction is rolled back.
   */
  function Merge(s: Store, j: nat, issueUrl: string, n: nat, rs: seq<Record>): (r: Result<Store, IngestError>)
    requires j < |s.journals|
    ensures r.Err? <==> FileIssue(s, j, issueUrl, n, rs).Err?
    ensures r.Ok? ==> r.value.journals == FileIssue(s, j, issueUrl, n, rs).value.store.journals
    ensures r.Ok? ==> r.value.issues == FileIssue(s, j, issueUrl, n, rs).value.store.issues
    ensures r.Ok? ==> r.value.accounts == s.accounts
    ensures r.Ok? ==> s.articles <= r.value.articles && s.authors <= r.value.authors && s.links <= r.value.links
  {
    match FileIssue(s, j, issueUrl, n, rs)
    case Err(e) => Err(e)
    case Ok(f) => Ok(AddArticles(f.store, f.issue, rs))
  }

  /** The error cases of an ingest, all and only: each rolls the whole transaction back. */
  lemma MergeFails(s: Store, j: nat, issueUrl: string, n: nat, rs: seq<Record>)
    requires j < |s.journals|
    ensures |rs| == 0 ==> Merge(s, j, issueUrl, n, rs) == Err(EmptyBatch)
    ensures |rs| > 0 && !HasYearColumn(rs) ==> Merge(s, j, issueUrl, n, rs) == Err(MissingYear)
    ensures |rs| > 0 && HasYearColumn(rs) && IssueByUrl(s.issues, issueUrl).Some? ==> Merge(s, j, issueUrl, n, rs).Ok?
    ensures |rs| > 0 && HasYearColumn(rs) && IssueByUrl(s.issues, issueUrl).None? ==>
              var year := if rs[0].year.Some? then ParseInt(rs[0].year.value) else None;
              && (Merge(s, j, issueUrl, n, rs) == Err(YearNotInteger) <==> year.None?)
              && (Merge(s, j, issueUrl, n, rs) == Err(IssueIdTaken) <==>
                    year.Some? && Tables.Blocked(s.issues, NewIssue(issueUrl, year.value, rs[0], j), IssuesClash))
              && (year.Some? && !Tables.Blocked(s.issues, NewIssue(issueUrl, year.value, rs[0], j), IssuesClash) ==>
                    (Merge(s, j, issueUrl, n, rs).Ok? <==> SaveJournal(s.journals[j], n, rs[0].year).Ok?))
  {
  }

  /** A batch for an issue already stored touches neither the journal nor the issues. */
  lemma MergeExistingIssue(s: Store, j: nat, issueUrl: string, n: nat, rs: seq<Record>)
    requires j < |s.journals|
    requires Merge(s, j, issueUrl, n, rs).Ok? && IssueByUrl(s.issues, issueUrl).Some?
    ensures Merge(s, j, issueUrl, n, rs).value.journals == s.journals
    ensures Merge(s, j, issueUrl, n, rs).value.issues == s.issues
  {
  }

  /** A batch for a new issue adds exactly that issue and advances exactly that journal. */
  lemma MergeNewIssue(s: Store, j: nat, issueUrl: string, n: nat, rs: seq<Record>)
    requires j < |s.journals|
    requires Merge(s, j, issueUrl, n, rs).Ok? && IssueByUrl(s.issues, issueUrl).None?
    requires |rs| > 0 && rs[0].year.Some? && ParseInt(rs[0].year.value).Some?
    ensures SaveJournal(s.journals[j], n, rs[0].year).Ok?
    ensures var r := Merge(s, j, issueUrl, n, rs).value;
            && r.issues == s.issues + [NewIssue(issueUrl, ParseInt(rs[0].year.value).value, rs[0], j)]
            && r.journals == s.journals[j := SaveJournal(s.journals[j], n, rs[0].year).value]
  {
    var first := rs[0];
    var issue := NewIssue(issueUrl, ParseInt(first.year.value).value, first, j);
    assert !Tables.Blocked(s.issues, issue, IssuesClash);
    assert SaveJournal(s.journals[j], n, first.year).Ok?;
    var jn := SaveJournal(s.journals[j], n, first.year).value;
    var f := FileIssue(s, j, issueUrl, n, rs).value;
    assert f.store == s.(journals := s.journals[j := jn], issues := s.issues + [issue]);
    var r := Merge(s, j, issueUrl, n, rs).value;
    assert r == AddArticles(f.store, f.issue, rs);
  }

  /** An ingest that creates its issue had a first record with an integer year. */
  lemma MergeNewIssueYear(s: Store, j: nat, issueUrl: string, n: nat, rs: seq<Record>)
    requires j < |s.journals|
    requires Merge(s, j, issueUrl, n, rs).Ok? && IssueByUrl(s.issues, issueUrl).None?
    ensures |rs| > 0 && rs[0].year.Some? && ParseInt(rs[0].year.value).Some?
  {
    assert FileIssue(s, j, issueUrl, n, rs).Ok?;
  }

  /** Changing a journal's counters and watermark leaves every unique column as it was. */
  lemma ProgressKeepsUnique(js: seq<Journal>, j: nat, jn: Journal)
    requires Tables.Unique(js, JournalsClash) && j < |js|
    requires jn.issn == js[j].issn && jn.altIssn == js[j].altIssn && jn.url == js[j].url && jn.name == js[j].name
    ensures Tables.Unique(js[j := jn], JournalsClash)
  {
    var u := js[j := jn];
    forall a, b | 0 <= a < |u| && 0 <= b < |u| && a != b ensures !JournalsClash(u[a], u[b]) {
      assert !JournalsClash(js[a], js[b]);
    }
  }

  /** Filing the issue keeps the store valid, and the issue it names exists. */
  lemma FileIssueKeepsValid(s: Store, j: nat, issueUrl: string, n: nat, rs: seq<Record>)
    requires Valid(s) && j < |s.journals|
    requires FileIssue(s, j, issueUrl, n, rs).Ok?
    ensures var f := FileIssue(s, j, issueUrl, n, rs).value;
            Valid(f.store) && f.issue < |f.store.issues|
  {
    var first := rs[0];
    if IssueByUrl(s.issues, issueUrl).None? {
      var year := ParseInt(first.year.value);
      var issue := NewIssue(issueUrl, year.value, first, j);
      var jn := SaveJournal(s.journals[j], n, first.year).value;
      assert FileIssue(s, j, issueUrl, n, rs).value.store ==
             s.(journals := s.journals[j := jn], issues := s.issues + [issue]);
      IssueAppendedKeepsValid(s, j, jn, issue);
    }
  }

  /** A new issue of journal `j` that clashes with no stored issue, filed with the journal's progress, keeps the store valid. */
  lemma IssueAppendedKeepsValid(s: Store, j: nat, jn: Journal, issue: Issue)
    requires Valid(s) && j < |s.journals| && issue.journal == j
    requires !Tables.Blocked(s.issues, issue, IssuesClash)
    requires jn.issn == s.journals[j].issn && jn.altIssn == s.journals[j].altIssn
    requires jn.url == s.journals[j].url && jn.name == s.journals[j].name
    ensures Valid(s.(journals := s.journals[j := jn], issues := s.issues + [issue]))
  {
    var issues := Tables.InsertIfAbsent(s.issues, issue, IssuesClash);
    assert issues == s.issues + [issue];
    ProgressKeepsUnique(s.journals, j, jn);
    var s1 := s.(journals := s.journals[j := jn], issues := issues);
    assert ReferencesValid(s1) by {
      forall i | 0 <= i < |issues| ensures issues[i].journal < |s1.journals| {
        if i < |s.issues| {
          assert issues[i] == s.issues[i];
        }
      }
      forall i | 0 <= i < |s1.articles| ensures s1.articles[i].issue < |s1.issues| {
        assert s.articles[i].issue < |s.issues|;
      }
    }
  }

  /** An ingest keeps the store valid: unique columns stay unique and every reference resolves. */
  lemma MergeKeepsValid(s: Store, j: nat, issueUrl: string, n: nat, rs: seq<Record>)
    requires Valid(s) && j < |s.journals|
    requires Merge(s, j, issueUrl, n, rs).Ok?
    ensures Valid(Merge(s, j, issueUrl, n, rs).value)
  {
    FileIssueKeepsValid(s, j, issueUrl, n, rs);
  }

  /** Appending the first row that satisfies `p` makes it the one a lookup finds. */
  lemma FirstIndexAppended<T>(t: seq<T>, x: T, p: T -> bool)
    requires forall i :: 0 <= i < |t| ==> !p(t[i])
    requires p(x)
    ensures Tables.FirstIndex(t + [x], p) == Some(|t|)
  {
    assert (t + [x])[|t|] == x;
  }

  /** Inserting a batch's articles, authors and links a second time changes nothing. */
  lemma AddArticlesIdempotent(s: Store, issue: nat, rs: seq<Record>)
    ensures AddArticles(AddArticles(s, issue, rs), issue, rs) == AddArticles(s, issue, rs)
  {
    var rows := ArticleRows(rs, issue, DefaultsOf(rs));
    var names := AuthorRows(rs);
    Tables.InsertAllIdempotent(s.articles, rows, ArticlesClash);
    Tables.InsertAllIdempotent(s.authors, names, AuthorsClash);
  }

  /** Ingesting the same export for the same issue twice is ingesting it once. */
  lemma MergeIdempotent(s: Store, j: nat, issueUrl: string, n: nat, rs: seq<Record>)
    requires j < |s.journals|
    requires Merge(s, j, issueUrl, n, rs).Ok?
    ensures Merge(Merge(s, j, issueUrl, n, rs).value, j, issueUrl, n, rs) == Merge(s, j, issueUrl, n, rs)
  {
    var f := FileIssue(s, j, issueUrl, n, rs).value;
    var s1 := AddArticles(f.store, f.issue, rs);
    assert FileIssue(s1, j, issueUrl, n, rs) == Ok(Filed(s1, f.issue));
    AddArticlesIdempotent(f.store, f.issue, rs);
  }

  /** Every record that is not matter is represented among the stored articles afterwards:
      inserted, or kept out by an article sharing its identifier or one of its URLs. */
  lemma MergeCoversRecords(s: Store, j: nat, issueUrl: string, n: nat, rs: seq<Record>)
    requires j < |s.journals|
    requires Merge(s, j, issueUrl, n, rs).Ok?
    ensures var r := Merge(s, j, issueUrl, n, rs).value;
            IssueByUrl(r.issues, issueUrl).Some? &&
            forall k :: 0 <= k < |rs| && !IsMatter(rs[k]) ==>
              Tables.Blocked(r.articles, ArticleRow(rs[k], IssueByUrl(r.issues, issueUrl).value, DefaultsOf(rs)), ArticlesClash)
  {
    var f := FileIssue(s, j, issueUrl, n, rs).value;
    var r := Merge(s, j, issueUrl, n, rs).value;
    var rows := ArticleRows(rs, f.issue, DefaultsOf(rs));
    assert r.articles == Tables.InsertAll(f.store.articles, rows, ArticlesClash);
    Tables.InsertAllCovers(f.store.articles, rows, ArticlesClash);
    forall k | 0 <= k < |rs| && !IsMatter(rs[k]) ensures Tables.Blocked(r.articles, ArticleRow(rs[k], f.issue, DefaultsOf(rs)), ArticlesClash) {
      var a := ArticleRow(rs[k], f.issue, DefaultsOf(rs));
      assert a in rows;
      var m :| 0 <= m < |rows| && rows[m] == a;
      assert ArticlesClash(rows[m], rows[m]);
    }
  }

  /** Every author name of every record that is not matter is stored afterwards. */
  lemma MergeStoresAuthors(s: Store, j: nat, issueUrl: string, n: nat, rs: seq<Record>)
    requires j < |s.journals|
    requires Merge(s, j, issueUrl, n, rs).Ok?
    ensures var r := Merge(s, j, issueUrl, n, rs).value;
            forall k, name :: 0 <= k < |rs| && !IsMatter(rs[k]) && name in AuthorNames(rs[k].author) ==>
              AuthorByName(r.authors, name).Some?
  {
    var f := FileIssue(s, j, issueUrl, n, rs).value;
    AddArticlesStoresAuthors(f.store, f.issue, rs);
  }

  lemma AddArticlesStoresAuthors(s: Store, issue: nat, rs: seq<Record>)
    ensures var r := AddArticles(s, issue, rs);
            forall k, name :: 0 <= k < |rs| && !IsMatter(rs[k]) && name in AuthorNames(rs[k].author) ==>
              AuthorByName(r.authors, name).Some?
  {
    var authors := Tables.InsertAll(s.authors, AuthorRows(rs), AuthorsClash);
    assert AddArticles(s, issue, rs).authors == authors;
    forall k, name | 0 <= k < |rs| && !IsMatter(rs[k]) && name in AuthorNames(rs[k].author)
      ensures AuthorByName(AddArticles(s, issue, rs).authors, name).Some?
    {
      BatchNameFound(s.authors, rs, k, name);
    }
  }

  /** After inserting a batch's author rows every name of every record can be looked up. */
  lemma BatchNameFound(t: seq<Author>, rs: seq<Record>, k: nat, name: string)
    requires k < |rs| && !IsMatter(rs[k]) && name in AuthorNames(rs[k].author)
    ensures AuthorByName(Tables.InsertAll(t, AuthorRows(rs), AuthorsClash), name).Some?
  {
    var names := AuthorRows(rs);
    assert Author(name) in names;
    InsertedNamesFound(t, names);
  }

  /** After inserting a batch of authors every name of the batch can be looked up. */
  lemma InsertedNamesFound(t: seq<Author>, names: seq<Author>)
    ensures forall a :: a in names ==> AuthorByName(Tables.InsertAll(t, names, AuthorsClash), a.name).Some?
  {
    var authors := Tables.InsertAll(t, names, AuthorsClash);
    Tables.InsertAllCovers(t, names, AuthorsClash);
    forall a | a in names ensures AuthorByName(authors, a.name).Some? {
      var m :| 0 <= m < |names| && names[m] == a;
      assert AuthorsClash(names[m], names[m]);
      var i :| 0 <= i < |authors| && (AuthorsClash(authors[i], a) || AuthorsClash(a, authors[i]));
      assert authors[i].name == a.name;
    }
  }

  /**
   After an ingest, the article stored under a record's identifier is linked to the author
   stored under each of that record's names, for the last record carrying the identifier.
   */
  lemma MergeLinksAuthors(s: Store, j: nat, issueUrl: string, n: nat, rs: seq<Record>, k: nat, name: string)
    requires j < |s.journals|
    requires Merge(s, j, issueUrl, n, rs).Ok?
    requires LastWithId(rs, k) && name in AuthorNames(rs[k].author)
    requires ArticleById(Merge(s, j, issueUrl, n, rs).value.articles, rs[k].id).Some?
    ensures var r := Merge(s, j, issueUrl, n, rs).value;
            AuthorByName(r.authors, name).Some? &&
            Link(ArticleById(r.articles, rs[k].id).value, AuthorByName(r.authors, name).value) in r.links
  {
    var f := FileIssue(s, j, issueUrl, n, rs).value;
    var r := Merge(s, j, issueUrl, n, rs).value;
    MergeStoresAuthors(s, j, issueUrl, n, rs);
    var a := ArticleById(r.articles, rs[k].id).value;
    var b := AuthorByName(r.authors, name).value;
    var m := NamesById(rs);
    NamesByIdLast(rs, k);
    assert r.links == f.store.links + LinksFor(r.articles, r.authors, m);
    assert Link(a, b) in LinksFor(r.articles, r.authors, m);
  }

  /** A new issue for a journal with no issue scraped yet: one issue scraped, watermark at the record's year. */
  lemma FirstIssueOfJournal(s: Store, j: nat, issueUrl: string, rs: seq<Record>)
    requires j < |s.journals| && s.journals[j].numberOfIssuesScraped == 0
    requires IssueByUrl(s.issues, issueUrl).None?
    requires |rs| > 0 && rs[0].year == Some("2016")
    requires !Tables.Blocked(s.issues, NewIssue(issueUrl, 2016, rs[0], j), IssuesClash)
    ensures Merge(s, j, issueUrl, 58, rs).Ok?
    ensures var r := Merge(s, j, issueUrl, 58, rs).value;
            && r.journals[j].numberOfIssues == 58 && r.journals[j].numberOfIssuesScraped == 1
            && r.journals[j].lastIssueDateScraped == Date(2016, 1, 1)
            && |r.issues| > |s.issues| && r.issues[|s.issues|].year == 2016 && r.issues[|s.issues|].url == Some(issueUrl)
  {
    Year2016();
    assert HasYearColumn(rs) by { assert rs[0].year.Some?; }
    var jn := SaveJournal(s.journals[j], 58, rs[0].year);
    assert jn.Ok? && jn.value.numberOfIssuesScraped == 1 && jn.value.lastIssueDateScraped == Date(2016, 1, 1);
    MergeFails(s, j, issueUrl, 58, rs);
    MergeNewIssue(s, j, issueUrl, 58, rs);
  }

  /** The year "2016" reads as 2016 and stands for the first of January 2016. */
  lemma Year2016()
    ensures ParseInt("2016") == Some(2016) && Watermark("2016") == Some(Date(2016, 1, 1))
  {
    assert ShowNat(2016) == "2016" by {
      assert ShowNat(201) == "201" by {
        assert ShowNat(20) == "20";
      }
    }
    ParseShowNat(2016);
    WatermarkOfYear(2016);
  }
}
