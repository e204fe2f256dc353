/**
 The PDF upload endpoint `store_pdf` and the account bookkeeping it ends with,
 `update_article_account`.

 The cloud storage upload is a parameter: `uploaded` says whether it succeeded. The
 clean bucket's name is the deployment setting `GS_CLEAN_BUCKET_NAME`. The upload does
 not record where the file went: `bucketURL` is filled in later, by the scan pipeline,
 so the "already scraped" check only trips for articles that pipeline has handled.
 */
module Uploads {
  import opened Basics
  import opened Text
  import opened Schema
  import Tables

  /**
   `Account.objects.get_or_create(algorandAddress=address)`: the table after the call
   and the position of the account with that address.
   */
  function GetOrCreateAccount(accounts: seq<Account>, address: string): (r: (seq<Account>, nat))
    ensures r.1 < |r.0| && r.0[r.1].address == address
    ensures AccountByAddress(accounts, address).Some? ==> r == (accounts, AccountByAddress(accounts, address).value)
    ensures AccountByAddress(accounts, address).None? ==>
              r == (accounts + [Account(address, 0, 0)], |accounts|)
    ensures Tables.Unique(accounts, AccountsClash) ==> Tables.Unique(r.0, AccountsClash)
  {
    match AccountByAddress(accounts, address)
    case Some(i) => (accounts, i)
    case None =>
      var row := Account(address, 0, 0);
      assert !Tables.Blocked(accounts, row, AccountsClash);
      assert Tables.InsertIfAbsent(accounts, row, AccountsClash) == accounts + [row];
      (accounts + [row], |accounts|)
  }

  /** Why `update_article_account` raises: the article does not exist. */
  datatype AccountError = ArticleMissing

  /**
   `update_article_account(article_id, address)`: nothing for an empty address;
   otherwise the article named `articleId` is linked to the account with that address,
   which is created with both donation counters at 0 when it is new. A missing article
   raises `Article.DoesNotExist`.
   */
  function UpdateArticleAccount(s: Store, articleId: string, address: string): (r: Result<Store, AccountError>)
    ensures address == "" ==> r == Ok(s)
    ensures address != "" && ArticleById(s.articles, articleId).None? ==> r == Err(ArticleMissing)
    ensures address != "" && ArticleById(s.articles, articleId).Some? ==>
              r.Ok? && var k := ArticleById(s.articles, articleId).value;
              && AccountByAddress(r.value.accounts, address).Some?
              && |r.value.articles| == |s.articles|
              && r.value.articles[k] == s.articles[k].(account := AccountByAddress(r.value.accounts, address))
              && (forall i :: 0 <= i < |s.articles| && i != k ==> r.value.articles[i] == s.articles[i])
    ensures r.Ok? ==> && s.accounts <= r.value.accounts && |r.value.accounts| <= |s.accounts| + 1
                      && r.value.journals == s.journals && r.value.issues == s.issues
                      && r.value.authors == s.authors && r.value.links == s.links
    ensures r.Ok? && |r.value.accounts| > |s.accounts| ==>
              AccountByAddress(s.accounts, address).None? && r.value.accounts[|s.accounts|] == Account(address, 0, 0)
  {
    if address == "" then Ok(s)
    else
      match ArticleById(s.articles, articleId)
      case None => Err(ArticleMissing)
      case Some(k) =>
        var (accounts, a) := GetOrCreateAccount(s.accounts, address);
        assert AccountByAddress(accounts, address) == Some(a) by {
          if AccountByAddress(s.accounts, address).None? {
            assert accounts[..|s.accounts|] == s.accounts;
          }
        }
        Ok(s.(accounts := accounts, articles := s.articles[k := s.articles[k].(account := Some(a))]))
  }

  /** Changing an article's account never breaks a unique constraint on articles. */
  lemma AccountChangeKeepsUnique(articles: seq<Article>, k: nat, acc: Option<nat>)
    requires Tables.Unique(articles, ArticlesClash) && k < |articles|
    ensures Tables.Unique(articles[k := articles[k].(account := acc)], ArticlesClash)
  {
    var t := articles[k := articles[k].(account := acc)];
    forall i, j | 0 <= i < |t| && 0 <= j < |t| && i != j
      ensures !ArticlesClash(t[i], t[j])
    {
      assert !ArticlesClash(articles[i], articles[j]);
    }
  }

  /** Linking an article to an account keeps the store invariant. */
  lemma UpdateArticleAccountKeepsValid(s: Store, articleId: string, address: string)
    requires Valid(s)
    requires UpdateArticleAccount(s, articleId, address).Ok?
    ensures Valid(UpdateArticleAccount(s, articleId, address).value)
  {
    if address != "" {
      var k := ArticleById(s.articles, articleId).value;
      var s1 := UpdateArticleAccount(s, articleId, address).value;
      AccountChangeKeepsUnique(s.articles, k, s1.articles[k].account);
      assert s1.articles == s.articles[k := s.articles[k].(account := s1.articles[k].account)];
    }
  }

  /** Linking the same article to the same address twice is the same as once. */
  lemma UpdateArticleAccountIdempotent(s: Store, articleId: string, address: string)
    requires UpdateArticleAccount(s, articleId, address).Ok?
    ensures var s1 := UpdateArticleAccount(s, articleId, address).value;
            UpdateArticleAccount(s1, articleId, address) == Ok(s1)
  {
    if address != "" {
      var s1 := UpdateArticleAccount(s, articleId, address).value;
      var k := ArticleById(s.articles, articleId).value;
      assert ArticleById(s1.articles, articleId) == Some(k) by {
        var k1 := ArticleById(s1.articles, articleId);
        assert s1.articles[k].jstorId == articleId;
        assert forall i :: 0 <= i < k ==> s1.articles[i] == s.articles[i];
      }
      var a := AccountByAddress(s1.accounts, address).value;
      assert GetOrCreateAccount(s1.accounts, address) == (s1.accounts, a);
      assert s1.articles[k := s1.articles[k].(account := Some(a))] == s1.articles;
    }
  }

  /** What `store_pdf` answers. */
  datatype PdfReply =
    | Stored(store: Store, bucketUrl: string)  // 200 with the clean bucket URL of the file
    | ArticleNotFound                          // 400
    | AlreadyScraped                           // 400
    | NotPdf                                   // 400
    | MissingFile                              // 500: `request.FILES["file"]` raises
    | UploadFailed                             // 500

  /** The JSON form fields, each read as `request.data.get(key, "")`. */
  function Field(data: map<string, string>, key: string): (r: string)
    ensures key in data ==> r == data[key]
    ensures key !in data ==> r == ""
  {
    if key in data then data[key] else ""
  }

  /** `filename.lower().endswith(".pdf")`. */
  predicate IsPdfName(filename: string) {
    EndsWith(Lower(filename), ".pdf")
  }

  /** The article stored under `id` exists and has no `bucketURL` yet. */
  predicate Unarchived(s: Store, id: string) {
    var k := ArticleById(s.articles, id);
    k.Some? && !Truthy(s.articles[k.value].bucketUrl)
  }

  /**
   `store_pdf`: the article must exist and have no `bucketURL` yet, a file must be
   attached and its name must end in ".pdf" in any case, and the upload must succeed;
   only then is the uploader's account recorded and the clean bucket URL returned.
   */
  function StorePdf(s: Store, data: map<string, string>, filename: Option<string>, uploaded: bool,
                    cleanBucket: string): (r: PdfReply)
    ensures ArticleById(s.articles, Field(data, "articleJstorID")).None? <==> r == ArticleNotFound
    ensures r == AlreadyScraped <==>
              ArticleById(s.articles, Field(data, "articleJstorID")).Some?
              && Truthy(s.articles[ArticleById(s.articles, Field(data, "articleJstorID")).value].bucketUrl)
    ensures r == MissingFile <==> Unarchived(s, Field(data, "articleJstorID")) && filename.None?
    ensures r == NotPdf <==>
              Unarchived(s, Field(data, "articleJstorID")) && filename.Some? && !IsPdfName(filename.value)
    ensures r == UploadFailed <==>
              Unarchived(s, Field(data, "articleJstorID")) && filename.Some? && IsPdfName(filename.value) && !uploaded
    ensures r.Stored? <==>
              Unarchived(s, Field(data, "articleJstorID")) && filename.Some? && IsPdfName(filename.value) && uploaded
    ensures r.Stored? ==>
              && r.bucketUrl == "https://storage.googleapis.com/" + cleanBucket + "/" + filename.value
              && Ok(r.store) == UpdateArticleAccount(s, Field(data, "articleJstorID"), Field(data, "algorandAddress"))
  {
    var id := Field(data, "articleJstorID");
    match ArticleById(s.articles, id)
    case None => ArticleNotFound
    case Some(k) =>
      if Truthy(s.articles[k].bucketUrl) then AlreadyScraped
      else if filename.None? then MissingFile
      else if !IsPdfName(filename.value) then NotPdf
      else if !uploaded then UploadFailed
      else
        var url := "https://storage.googleapis.com/" + cleanBucket + "/" + filename.value;
        match UpdateArticleAccount(s, id, Field(data, "algorandAddress"))
        case Ok(s1) => Stored(s1, url)
        case Err(_) => assert false; UploadFailed
  }

  /** The checks come in order: an unknown article is reported before anything about the file. */
  lemma UnknownArticleFirst(s: Store, data: map<string, string>, filename: Option<string>, uploaded: bool,
                            cleanBucket: string)
    requires ArticleById(s.articles, Field(data, "articleJstorID")).None?
    requires filename.None? || !IsPdfName(filename.value) || !uploaded
    ensures StorePdf(s, data, filename, uploaded, cleanBucket) == ArticleNotFound
  {
  }

  /** A stored upload keeps the store invariant. */
  lemma StorePdfKeepsValid(s: Store, data: map<string, string>, filename: Option<string>, uploaded: bool,
                           cleanBucket: string)
    requires Valid(s)
    requires StorePdf(s, data, filename, uploaded, cleanBucket).Stored?
    ensures Valid(StorePdf(s, data, filename, uploaded, cleanBucket).store)
  {
    UpdateArticleAccountKeepsValid(s, Field(data, "articleJstorID"), Field(data, "algorandAddress"));
  }

  /**
   Because the upload leaves `bucketURL` alone, the same upload can be repeated: the
   second call is accepted again and changes nothing further.
   */
  lemma StorePdfRepeatable(s: Store, data: map<string, string>, filename: Option<string>, cleanBucket: string)
    requires StorePdf(s, data, filename, true, cleanBucket).Stored?
    ensures var first := StorePdf(s, data, filename, true, cleanBucket);
            StorePdf(first.store, data, filename, true, cleanBucket) == first
  {
    var id := Field(data, "articleJstorID");
    var address := Field(data, "algorandAddress");
    var s1 := StorePdf(s, data, filename, true, cleanBucket).store;
    UpdateArticleAccountIdempotent(s, id, address);
    if address != "" {
      var k := ArticleById(s.articles, id).value;
      assert s1.articles[k].jstorId == id && s1.articles[k].bucketUrl == s.articles[k].bucketUrl;
      assert ArticleById(s1.articles, id) == Some(k) by {
        assert forall i :: 0 <= i < k ==> s1.articles[i] == s.articles[i];
      }
    }
  }

  /** File names are matched case-insensitively: "PAPER.PDF" is accepted. */
  lemma UpperCasePdfAccepted()
    ensures IsPdfName("PAPER.PDF")
    ensures !IsPdfName("paper.pdf.txt")
  {
    assert Lower("PAPER.PDF") == "paper.pdf";
    assert Lower("paper.pdf.txt") == "paper.pdf.txt";
  }
}
