/** `insert_article_data` and `get_article_stats` of `src/database/db_manager.py`, the
    ORM variant of the store.

    Each natural key is looked up first, compared as the record gives it, and a row is
    created only when the lookup finds nothing; SQLAlchemy turns a comparison with
    `None` into `IS NULL`, so a NULL first name is matched like any other. A created
    row is flushed at once, so the columns cut an all-space excess (Schema.Cut) and a
    cut title or term that is already stored breaks its `unique=True` constraint.
    Authors carry no uniqueness in the models, so a cut name is simply added again.

    An existing pmid returns `True` before the commit: closing the session discards
    everything flushed so far, the new journal included, so such a call leaves no
    trace. The session connects lazily on its first query, inside the `try`, so every
    failure, a failed connection included, rolls back and returns `False`. */
module OrmStore {
  import opened Wrappers
  import opened Schema
  import opened Mapper
  import Store

  type DbError = Store.DbError
  type Outcome = Store.Outcome

  /** A lookup sends its key as a query parameter: a NULL is `IS NULL`, and a string
      holding U+0000 makes the query raise. */
  predicate KeySendable(k: Option<string>) {
    k.None? || NoNul(k.value)
  }

  /** The journal lookup. A new journal is checked against its columns and the unique
      title when flushed. */
  function ResolveJournal(db: Db, title: string, issn: Option<string>): (r: Result<(Db, int), DbError>)
    ensures !NoNul(title) ==> r.Failure?
    ensures NoNul(title) && FindKey(db.journals, JournalTitle, title).Some? ==>
              r == Success((db, FindKey(db.journals, JournalTitle, title).value))
    ensures FindKey(db.journals, JournalTitle, title).None? ==>
              (r.Success? <==> Store.JournalAccepted(title, issn) && Store.JournalIdOf(db, title).None?)
    ensures r.Success? ==> r.value.0.(journals := db.journals) == db
    ensures r.Success? ==> IsId(|r.value.0.journals|, r.value.1)
    ensures r.Success? && FindKey(db.journals, JournalTitle, title).None? ==>
              && r.value.0.journals == db.journals + [Store.JournalRow(title, issn)]
              && r.value.1 == |r.value.0.journals|
  {
    if !NoNul(title) then Failure(Store.ValueRejected)
    else
    match FindKey(db.journals, JournalTitle, title)
    case Some(id) => Success((db, id))
    case None =>
      if !Store.JournalAccepted(title, issn) then Failure(Store.ValueRejected)
      else if Store.JournalIdOf(db, title).Some? then Failure(Store.UniqueViolation)
      else Success((db.(journals := db.journals + [Store.JournalRow(title, issn)]), |db.journals| + 1))
  }

  /** The author lookup on `(last_name, first_name)`, NULLs included. */
  function ResolveAuthor(db: Db, a: AuthorRecord): (r: Result<(Db, int), DbError>)
    ensures !(KeySendable(a.lastName) && KeySendable(a.firstName)) ==> r.Failure?
    ensures Store.AuthorAccepted(a) ==> r.Success?
    ensures KeySendable(a.lastName) && KeySendable(a.firstName) && FindKey(db.authors, AuthorName, Store.NameOf(a)).Some? ==>
              r == Success((db, FindKey(db.authors, AuthorName, Store.NameOf(a)).value))
    ensures FindKey(db.authors, AuthorName, Store.NameOf(a)).None? ==>
              (r.Success? <==> Store.AuthorAccepted(a))
    ensures r.Success? ==> r.value.0.(authors := db.authors) == db
    ensures r.Success? ==> IsId(|r.value.0.authors|, r.value.1)
    ensures r.Success? && FindKey(db.authors, AuthorName, Store.NameOf(a)).None? ==>
              && r.value.0.authors == db.authors + [Store.AuthorRow(a)]
              && r.value.1 == |r.value.0.authors|
  {
    if !(KeySendable(a.lastName) && KeySendable(a.firstName)) then Failure(Store.ValueRejected)
    else
    match FindKey(db.authors, AuthorName, Store.NameOf(a))
    case Some(id) => Success((db, id))
    case None =>
      if !Store.AuthorAccepted(a) then
        Failure(if a.lastName.None? then Store.NullViolation else Store.ValueRejected)
      else
        Success((db.(authors := db.authors + [Store.AuthorRow(a)]), |db.authors| + 1))
  }

  /** The term lookup. A new term is checked against its column and the unique text
      when flushed. */
  function ResolveTerm(db: Db, t: string): (r: Result<(Db, int), DbError>)
    ensures !NoNul(t) ==> r.Failure?
    ensures Store.TermAccepted(t) && !Store.TermCut(t) ==> r.Success?
    ensures NoNul(t) && FindKey(db.terms, TermText, t).Some? ==> r == Success((db, FindKey(db.terms, TermText, t).value))
    ensures FindKey(db.terms, TermText, t).None? ==>
              (r.Success? <==> Store.TermAccepted(t) && Store.TermIdOf(db, t).None?)
    ensures r.Success? ==> r.value.0.(terms := db.terms) == db
    ensures r.Success? ==> IsId(|r.value.0.terms|, r.value.1)
    ensures r.Success? && FindKey(db.terms, TermText, t).None? ==>
              r.value.0.terms == db.terms + [Cut(t, TermWidth)] && r.value.1 == |r.value.0.terms|
  {
    if !NoNul(t) then Failure(Store.ValueRejected)
    else
    match FindKey(db.terms, TermText, t)
    case Some(id) => Success((db, id))
    case None =>
      if !Store.TermAccepted(t) then Failure(Store.ValueRejected)
      else if Store.TermIdOf(db, t).Some? then Failure(Store.UniqueViolation)
      else Success((db.(terms := db.terms + [Cut(t, TermWidth)]), |db.terms| + 1))
  }

  /** Resolves each author and appends it to the article's authors unless already
      there: each author is linked once. */
  function LinkAuthors(db: Db, pmid: int, authors: seq<AuthorRecord>): (r: Result<Db, DbError>)
    ensures (forall a :: a in authors ==> Store.AuthorAccepted(a)) ==> r.Success?
    ensures r.Success? ==> r.value.(authors := db.authors, articleAuthors := db.articleAuthors) == db
    ensures r.Success? ==> db.authors <= r.value.authors && db.articleAuthors <= r.value.articleAuthors
    ensures r.Success? ==> forall l :: l in r.value.articleAuthors - db.articleAuthors ==> l.0 == pmid
    decreases |authors|
  {
    if authors == [] then Success(db)
    else
      var step :- ResolveAuthor(db, authors[0]);
      assert forall a :: a in authors[1..] ==> a in authors;
      LinkAuthors(step.0.(articleAuthors := step.0.articleAuthors + {(pmid, step.1)}), pmid, authors[1..])
  }

  /** Resolves each term and appends it to the article's terms unless already there. */
  function LinkTerms(db: Db, pmid: int, terms: seq<string>): (r: Result<Db, DbError>)
    ensures (forall t :: t in terms ==> Store.TermAccepted(t) && !Store.TermCut(t)) ==> r.Success?
    ensures r.Success? ==> r.value.(terms := db.terms, articleTerms := db.articleTerms) == db
    ensures r.Success? ==> db.terms <= r.value.terms && db.articleTerms <= r.value.articleTerms
    ensures r.Success? ==> forall l :: l in r.value.articleTerms - db.articleTerms ==> l.0 == pmid
    decreases |terms|
  {
    if terms == [] then Success(db)
    else
      var step :- ResolveTerm(db, terms[0]);
      assert forall t :: t in terms[1..] ==> t in terms;
      LinkTerms(step.0.(articleTerms := step.0.articleTerms + {(pmid, step.1)}), pmid, terms[1..])
  }

  /** The article `rec.pmid` is stored with the record's values and references a journal
      whose title is the record's, as given or as its column cut it. */
  ghost predicate StoredArticle(d: Db, rec: ArticleRecord) {
    && rec.pmid in d.articles
    && d.articles[rec.pmid].journalId.Some?
    && var id := d.articles[rec.pmid].journalId.value;
       && IsId(|d.journals|, id)
       && d.articles[rec.pmid] == Store.ArticleRow(rec, id)
       && (JournalTitle(d.journals[id - 1]) == rec.journalTitle
           || JournalTitle(d.journals[id - 1]) == Cut(rec.journalTitle, JournalTitleWidth))
  }

  /** The article `pmid` is linked to an author row carrying the record's name, as given
      or as its row stores it. */
  ghost predicate NamedLink(d: Db, pmid: int, a: AuthorRecord) {
    exists id :: (pmid, id) in d.articleAuthors && IsId(|d.authors|, id)
                 && (AuthorName(d.authors[id - 1]) == Store.NameOf(a) || AuthorName(d.authors[id - 1]) == Store.RowName(a))
  }

  /** The article `pmid` is linked to a term row carrying the text, as given or cut. */
  ghost predicate TermLink(d: Db, pmid: int, t: string) {
    exists id :: (pmid, id) in d.articleTerms && IsId(|d.terms|, id)
                 && (d.terms[id - 1] == t || d.terms[id - 1] == Cut(t, TermWidth))
  }

  /** `insert_article_data`. Every fault, including a failed connection, rolls back and
      returns `False`. */
  function InsertArticleData(db: Db, rec: ArticleRecord, fault: Store.Fault): (r: Outcome)
    ensures r.Returned?
    ensures !r.ok ==> r.db == db
    ensures r.ok ==> fault.NoFault?
    ensures rec.pmid in db.articles ==> r.db == db
    ensures rec.pmid in db.articles ==>
              (r.ok <==> fault.NoFault? && ((NoNul(rec.journalTitle) && FindKey(db.journals, JournalTitle, rec.journalTitle).Some?)
                                            || (Store.JournalAccepted(rec.journalTitle, rec.journalIssn)
                                                && Store.JournalIdOf(db, rec.journalTitle).None?)))
    ensures rec.pmid !in db.articles && fault.NoFault? && Store.Storable(rec) ==> r.ok
    ensures rec.pmid !in db.articles && r.ok ==>
              && StoredArticle(r.db, rec)
              && ArticleRowFits(rec.pmid, r.db.articles[rec.pmid])
              && (forall a :: a in rec.authors ==> NamedLink(r.db, rec.pmid, a))
              && (forall t :: t in rec.meshTerms ==> TermLink(r.db, rec.pmid, t))
    ensures Extends(db, r.db)
  {
    if !fault.NoFault? then Store.Returned(false, db)
    else
      match ResolveJournal(db, rec.journalTitle, rec.journalIssn)
      case Failure(_) => Store.Returned(false, db)
      case Success(j) =>
        if rec.pmid in j.0.articles then Store.Returned(true, db)
        else if !ArticleRowFits(rec.pmid, Store.ArticleRow(rec, j.1)) then Store.Returned(false, db)
        else
          var withArticle := j.0.(articles := j.0.articles[rec.pmid := Store.ArticleRow(rec, j.1)]);
          match LinkAuthors(withArticle, rec.pmid, rec.authors)
          case Failure(_) => Store.Returned(false, db)
          case Success(withAuthors) =>
            match LinkTerms(withAuthors, rec.pmid, rec.meshTerms)
            case Failure(_) => Store.Returned(false, db)
            case Success(d) =>
              LinkAuthorsLinks(withArticle, rec.pmid, rec.authors);
              LinkTermsLinks(withAuthors, rec.pmid, rec.meshTerms);
              NamedLinksKept(withAuthors, d, rec.pmid, rec.authors);
              Store.Returned(true, d)
  }

  /** `get_article_stats`: the year range is reported only when both MIN and MAX are
      truthy, so neither an empty store nor a year 0 at either end reports one. */
  ghost function GetArticleStats(db: Db): (r: Stats)
    ensures r.totalArticles == |db.articles| && r.totalAuthors == |db.authors|
    ensures r.totalJournals == |db.journals| && r.totalMeshTerms == |db.terms|
    ensures r.yearRange.Some? <==> Years(db) != {} && YearSpan(db).0 != Some(0) && YearSpan(db).1 != Some(0)
    ensures r.yearRange.Some? ==> r.yearRange.value.0.Some? && r.yearRange.value.1.Some?
    ensures r.yearRange.Some? ==> forall y :: y in Years(db) ==>
              r.yearRange.value.0.value <= y <= r.yearRange.value.1.value
  {
    var t := Totals(db);
    var span := YearSpan(db);
    var truthy := span.0.Some? && span.0.value != 0 && span.1.Some? && span.1.value != 0;
    Stats(t.0, t.1, t.2, t.3, if truthy then Some(span) else None)
  }

  // ---------------------------------------------------------------------------
  // Links

  lemma NamedLinkKept(d: Db, d': Db, pmid: int, a: AuthorRecord)
    requires NamedLink(d, pmid, a)
    requires d.authors <= d'.authors && d.articleAuthors <= d'.articleAuthors
    ensures NamedLink(d', pmid, a)
  {
    var id :| (pmid, id) in d.articleAuthors && IsId(|d.authors|, id)
              && (AuthorName(d.authors[id - 1]) == Store.NameOf(a) || AuthorName(d.authors[id - 1]) == Store.RowName(a));
    assert d'.authors[id - 1] == d.authors[id - 1];
  }

  lemma NamedLinksKept(d: Db, d': Db, pmid: int, authors: seq<AuthorRecord>)
    requires forall a :: a in authors ==> NamedLink(d, pmid, a)
    requires d.authors <= d'.authors && d.articleAuthors <= d'.articleAuthors
    ensures forall a :: a in authors ==> NamedLink(d', pmid, a)
  {
    forall a | a in authors
      ensures NamedLink(d', pmid, a)
    {
      NamedLinkKept(d, d', pmid, a);
    }
  }

  lemma TermLinkKept(d: Db, d': Db, pmid: int, t: string)
    requires TermLink(d, pmid, t)
    requires d.terms <= d'.terms && d.articleTerms <= d'.articleTerms
    ensures TermLink(d', pmid, t)
  {
    var id :| (pmid, id) in d.articleTerms && IsId(|d.terms|, id)
              && (d.terms[id - 1] == t || d.terms[id - 1] == Cut(t, TermWidth));
    assert d'.terms[id - 1] == d.terms[id - 1];
  }

  /** Every author of the list ends up linked to `pmid`. */
  lemma {:induction false} LinkAuthorsLinks(db: Db, pmid: int, authors: seq<AuthorRecord>)
    requires LinkAuthors(db, pmid, authors).Success?
    ensures forall a :: a in authors ==> NamedLink(LinkAuthors(db, pmid, authors).value, pmid, a)
    decreases |authors|
  {
    if authors != [] {
      var a := authors[0];
      var step := ResolveAuthor(db, a).value;
      var linked := step.0.(articleAuthors := step.0.articleAuthors + {(pmid, step.1)});
      var d' := LinkAuthors(db, pmid, authors).value;
      assert LinkAuthors(linked, pmid, authors[1..]) == Success(d');
      LinkAuthorsLinks(linked, pmid, authors[1..]);
      assert AuthorName(linked.authors[step.1 - 1]) == Store.NameOf(a)
          || AuthorName(linked.authors[step.1 - 1]) == Store.RowName(a);
      assert NamedLink(linked, pmid, a);
      NamedLinkKept(linked, d', pmid, a);
    }
  }

  /** Every term of the list ends up linked to `pmid`. */
  lemma {:induction false} LinkTermsLinks(db: Db, pmid: int, terms: seq<string>)
    requires LinkTerms(db, pmid, terms).Success?
    ensures forall t :: t in terms ==> TermLink(LinkTerms(db, pmid, terms).value, pmid, t)
    decreases |terms|
  {
    if terms != [] {
      var t := terms[0];
      var step := ResolveTerm(db, t).value;
      var linked := step.0.(articleTerms := step.0.articleTerms + {(pmid, step.1)});
      var d' := LinkTerms(db, pmid, terms).value;
      assert LinkTerms(linked, pmid, terms[1..]) == Success(d');
      LinkTermsLinks(linked, pmid, terms[1..]);
      assert linked.terms[step.1 - 1] == t || linked.terms[step.1 - 1] == Cut(t, TermWidth);
      assert TermLink(linked, pmid, t);
      TermLinkKept(linked, d', pmid, t);
    }
  }

  // ---------------------------------------------------------------------------
  // Replays

  /** A duplicate pmid leaves no trace, and a second insert of a committed record is a
      duplicate: replaying never changes the store, whatever the first names. It
      returns `True` when it does not fault, unless the journal title was cut: the
      lookup with the title as given then misses the stored row and the flush breaks
      the unique title. */
  lemma InsertTwice(db: Db, rec: ArticleRecord, fault: Store.Fault, fault2: Store.Fault)
    requires InsertArticleData(db, rec, fault).ok
    ensures var once := InsertArticleData(db, rec, fault);
      InsertArticleData(once.db, rec, fault2).db == once.db
    ensures var once := InsertArticleData(db, rec, fault);
      rec.pmid in db.articles || !Store.TitleCut(rec.journalTitle) ==>
        InsertArticleData(once.db, rec, fault2) == Store.Returned(fault2.NoFault?, once.db)
    ensures var once := InsertArticleData(db, rec, fault);
      rec.pmid !in db.articles && Store.TitleCut(rec.journalTitle) && ModelValid(db) ==>
        InsertArticleData(once.db, rec, fault2) == Store.Returned(false, once.db)
  {
    var once := InsertArticleData(db, rec, fault);
    if rec.pmid !in db.articles {
      var d := once.db;
      assert StoredArticle(d, rec);
      var id := d.articles[rec.pmid].journalId.value;
      if !Store.TitleCut(rec.journalTitle) {
        assert JournalTitle(d.journals[id - 1]) == rec.journalTitle;
        assert FindKey(d.journals, JournalTitle, rec.journalTitle).Some?;
      } else if ModelValid(db) {
        InsertKeepsModelValid(db, rec, fault);
        JournalFallsThrough(d, rec, id);
      }
    }
  }

  /** In a valid store holding a journal under the cut title, the lookup with the title
      as given misses it and the flush of a new journal breaks the unique title. */
  lemma JournalFallsThrough(d: Db, rec: ArticleRecord, id: int)
    requires ModelValid(d) && Store.TitleCut(rec.journalTitle)
    requires IsId(|d.journals|, id)
    requires JournalTitle(d.journals[id - 1]) == rec.journalTitle
          || JournalTitle(d.journals[id - 1]) == Cut(rec.journalTitle, JournalTitleWidth)
    ensures ResolveJournal(d, rec.journalTitle, rec.journalIssn).Failure?
  {
    assert JournalRowFits(d.journals[id - 1]);
    UncutLookup(d.journals, JournalTitle, rec.journalTitle, JournalTitleWidth);
    assert Store.JournalIdOf(d, rec.journalTitle).Some?;
  }

  // ---------------------------------------------------------------------------
  // Author names

  /** The model's author rows: no two share `(last_name, first_name)`, NULLs compared
      as equal. The ORM declares no such constraint. */
  ghost predicate NamesUnique(db: Db) {
    UniqueKeys(db.authors, AuthorName)
  }

  /** Neither name part is longer than its column, so the lookup compares the name the
      row stores. */
  predicate NameFits(a: AuthorRecord) {
    !Longer(a.lastName, NameWidth) && !Longer(a.firstName, NameWidth)
  }

  lemma ResolveAuthorKeepsNames(db: Db, a: AuthorRecord)
    requires NamesUnique(db) && ResolveAuthor(db, a).Success? && NameFits(a)
    ensures NamesUnique(ResolveAuthor(db, a).value.0)
  {
    var d := ResolveAuthor(db, a).value.0;
    if d != db {
      assert d.authors == db.authors + [Store.AuthorRow(a)];
      assert Store.RowName(a) == Store.NameOf(a);
      forall i, j | 0 <= i < j < |d.authors|
        ensures AuthorName(d.authors[i]) != AuthorName(d.authors[j])
      {
        if j == |db.authors| {
          assert d.authors[i] == db.authors[i];
        }
      }
    }
  }

  lemma {:induction false} LinkAuthorsKeepsNames(db: Db, pmid: int, authors: seq<AuthorRecord>)
    requires NamesUnique(db) && LinkAuthors(db, pmid, authors).Success?
    requires forall a :: a in authors ==> NameFits(a)
    ensures NamesUnique(LinkAuthors(db, pmid, authors).value)
    decreases |authors|
  {
    if authors != [] {
      var step := ResolveAuthor(db, authors[0]).value;
      assert authors[0] in authors;
      ResolveAuthorKeepsNames(db, authors[0]);
      assert forall a :: a in authors[1..] ==> a in authors;
      LinkAuthorsKeepsNames(step.0.(articleAuthors := step.0.articleAuthors + {(pmid, step.1)}), pmid, authors[1..]);
    }
  }

  /** The lookup logic alone keeps at most one author per name, NULL first names
      included, as long as no name part is cut (see PaddedNameDuplicates). */
  lemma InsertKeepsNamesUnique(db: Db, rec: ArticleRecord, fault: Store.Fault)
    requires NamesUnique(db)
    requires forall a :: a in rec.authors ==> NameFits(a)
    ensures NamesUnique(InsertArticleData(db, rec, fault).db)
  {
    var r := InsertArticleData(db, rec, fault);
    if r.db != db {
      var j := ResolveJournal(db, rec.journalTitle, rec.journalIssn).value;
      var withArticle := j.0.(articles := j.0.articles[rec.pmid := Store.ArticleRow(rec, j.1)]);
      LinkAuthorsKeepsNames(withArticle, rec.pmid, rec.authors);
    }
  }

  /** A last name padded past its column with spaces is stored cut, and the next lookup
      with the name as given misses it: the same author is added again for every
      article. */
  lemma PaddedNameDuplicates()
    ensures var last := seq(NameWidth + 1, i => if i == 0 then 'X' else ' ');
            var a := AuthorRecord(Some(last), Some("J"), None, "J X");
            var first := ArticleRecord(1, "T", "", None, "J", None, [a], []);
            var second := first.(pmid := 2);
            var once := InsertArticleData(EmptyDb, first, Store.NoFault);
            var twice := InsertArticleData(once.db, second, Store.NoFault);
            && once.ok && twice.ok
            && |once.db.authors| == 1 && |twice.db.authors| == 2
            && twice.db.authors[0] == twice.db.authors[1]
  {
    var last := seq(NameWidth + 1, i => if i == 0 then 'X' else ' ');
    var a := AuthorRecord(Some(last), Some("J"), None, "J X");
    assert Store.AuthorAccepted(a);
    var first := ArticleRecord(1, "T", "", None, "J", None, [a], []);
    var second := first.(pmid := 2);
    assert Cut("J", JournalTitleWidth) == "J";
    assert Store.JournalAccepted("J", None);
    assert Store.JournalRow("J", None) == Journal("J", None);
    assert FindKey(EmptyDb.journals, JournalTitle, "J").None?;
    assert Store.JournalIdOf(EmptyDb, "J").None?;
    assert EmptyDb.journals + [Journal("J", None)] == [Journal("J", None)];
    assert EmptyDb.authors + [Store.AuthorRow(a)] == [Store.AuthorRow(a)];
    var j := ResolveJournal(EmptyDb, "J", None);
    assert j == Success((EmptyDb.(journals := [Journal("J", None)]), 1));
    var withArticle := EmptyDb.(journals := [Journal("J", None)], articles := map[1 := Store.ArticleRow(first, 1)]);
    assert ResolveAuthor(withArticle, a) == Success((withArticle.(authors := [Store.AuthorRow(a)]), 1));
    assert [a][1..] == [];
    var linked := withArticle.(authors := [Store.AuthorRow(a)], articleAuthors := {(1, 1)});
    var step := ResolveAuthor(withArticle, a).value;
    assert step == (withArticle.(authors := [Store.AuthorRow(a)]), 1);
    assert step.0.(articleAuthors := step.0.articleAuthors + {(1, step.1)}) == linked;
    assert LinkAuthors(withArticle, 1, [a]) == LinkAuthors(linked, 1, []);
    assert LinkAuthors(linked, 1, []) == Success(linked);
    assert LinkTerms(linked, 1, []) == Success(linked);
    var once := InsertArticleData(EmptyDb, first, Store.NoFault);
    assert once == Store.Returned(true, linked);
    assert once.db.authors == [Store.AuthorRow(a)];
    assert |Store.AuthorRow(a).lastName.value| == NameWidth;
    assert FindKey(once.db.journals, JournalTitle, "J") == Some(1);
    assert FindKey(once.db.authors, AuthorName, Store.NameOf(a)).None?;
    var withSecond := linked.(articles := linked.articles[2 := Store.ArticleRow(second, 1)]);
    assert ResolveJournal(linked, "J", None) == Success((linked, 1));
    assert FindKey(withSecond.authors, AuthorName, Store.NameOf(a)).None?;
    assert withSecond.authors + [Store.AuthorRow(a)] == [Store.AuthorRow(a), Store.AuthorRow(a)];
    var step2 := ResolveAuthor(withSecond, a).value;
    assert step2 == (withSecond.(authors := [Store.AuthorRow(a), Store.AuthorRow(a)]), 2);
    var linked2 := step2.0.(articleAuthors := step2.0.articleAuthors + {(2, step2.1)});
    assert LinkAuthors(withSecond, 2, [a]) == LinkAuthors(linked2, 2, []) == Success(linked2);
    assert LinkTerms(linked2, 2, []) == Success(linked2);
    var twice := InsertArticleData(once.db, second, Store.NoFault);
    assert twice == Store.Returned(true, linked2);
  }

  // ---------------------------------------------------------------------------
  // The models' constraints are kept

  lemma ResolveJournalModelValid(db: Db, title: string, issn: Option<string>)
    requires ModelValid(db) && ResolveJournal(db, title, issn).Success?
    ensures ModelValid(ResolveJournal(db, title, issn).value.0)
  {
    Store.JournalRowFitsCut(title, issn);
  }

  lemma ResolveAuthorModelValid(db: Db, a: AuthorRecord)
    requires ModelValid(db) && ResolveAuthor(db, a).Success?
    ensures ModelValid(ResolveAuthor(db, a).value.0)
  {
    if FindKey(db.authors, AuthorName, Store.NameOf(a)).None? {
      Store.AuthorRowFitsCut(a);
    }
  }

  lemma ResolveTermModelValid(db: Db, t: string)
    requires ModelValid(db) && ResolveTerm(db, t).Success?
    ensures ModelValid(ResolveTerm(db, t).value.0)
  {
    CutFits(t, TermWidth);
  }

  lemma {:induction false} LinkAuthorsModelValid(db: Db, pmid: int, authors: seq<AuthorRecord>)
    requires ModelValid(db) && pmid in db.articles
    requires LinkAuthors(db, pmid, authors).Success?
    ensures ModelValid(LinkAuthors(db, pmid, authors).value)
    decreases |authors|
  {
    if authors != [] {
      var step := ResolveAuthor(db, authors[0]).value;
      ResolveAuthorModelValid(db, authors[0]);
      LinkAuthorsModelValid(step.0.(articleAuthors := step.0.articleAuthors + {(pmid, step.1)}), pmid, authors[1..]);
    }
  }

  lemma {:induction false} LinkTermsModelValid(db: Db, pmid: int, terms: seq<string>)
    requires ModelValid(db) && pmid in db.articles
    requires LinkTerms(db, pmid, terms).Success?
    ensures ModelValid(LinkTerms(db, pmid, terms).value)
    decreases |terms|
  {
    if terms != [] {
      var step := ResolveTerm(db, terms[0]).value;
      ResolveTermModelValid(db, terms[0]);
      LinkTermsModelValid(step.0.(articleTerms := step.0.articleTerms + {(pmid, step.1)}), pmid, terms[1..]);
    }
  }

  /** Every insert keeps the models' keys, uniqueness, column and reference
      constraints. */
  lemma InsertKeepsModelValid(db: Db, rec: ArticleRecord, fault: Store.Fault)
    requires ModelValid(db)
    ensures ModelValid(InsertArticleData(db, rec, fault).db)
  {
    var r := InsertArticleData(db, rec, fault);
    if r.db != db {
      var j := ResolveJournal(db, rec.journalTitle, rec.journalIssn).value;
      ResolveJournalModelValid(db, rec.journalTitle, rec.journalIssn);
      var withArticle := j.0.(articles := j.0.articles[rec.pmid := Store.ArticleRow(rec, j.1)]);
      assert ModelValid(withArticle);
      var withAuthors := LinkAuthors(withArticle, rec.pmid, rec.authors).value;
      LinkAuthorsModelValid(withArticle, rec.pmid, rec.authors);
      LinkTermsModelValid(withAuthors, rec.pmid, rec.meshTerms);
    }
  }

  // ---------------------------------------------------------------------------
  // The two variants compared

  /** On authors that are accepted, have first names and no cut name, both variants
      resolve and link identically. */
  lemma {:induction false} AuthorsAgree(db: Db, pmid: int, authors: seq<AuthorRecord>)
    requires forall a :: a in authors ==> Store.AuthorAccepted(a) && a.firstName.Some? && !Store.NameCut(a)
    ensures LinkAuthors(db, pmid, authors) == Store.LinkAuthors(db, pmid, authors)
    decreases |authors|
  {
    if authors != [] {
      var a := authors[0];
      assert a in authors;
      assert Store.RowName(a) == Store.NameOf(a);
      assert ResolveAuthor(db, a) == Store.ResolveAuthor(db, a);
      var step := ResolveAuthor(db, a).value;
      assert forall b :: b in authors[1..] ==> b in authors;
      AuthorsAgree(step.0.(articleAuthors := step.0.articleAuthors + {(pmid, step.1)}), pmid, authors[1..]);
    }
  }

  lemma {:induction false} TermsAgree(db: Db, pmid: int, terms: seq<string>)
    requires forall t :: t in terms ==> Store.TermAccepted(t) && !Store.TermCut(t)
    ensures LinkTerms(db, pmid, terms) == Store.LinkTerms(db, pmid, terms)
    decreases |terms|
  {
    if terms != [] {
      var t := terms[0];
      assert t in terms;
      assert ResolveTerm(db, t) == Store.ResolveTerm(db, t);
      var step := ResolveTerm(db, t).value;
      assert forall u :: u in terms[1..] ==> u in terms;
      TermsAgree(step.0.(articleTerms := step.0.articleTerms + {(pmid, step.1)}), pmid, terms[1..]);
    }
  }

  /** The two store variants agree on new storable articles whose authors all have
      first names, except on a failed connection: the live store raises, the ORM store
      returns `False`. */
  lemma VariantsAgreeOnNewArticles(db: Db, rec: ArticleRecord, fault: Store.Fault)
    requires rec.pmid !in db.articles && Store.Storable(rec)
    requires forall a :: a in rec.authors ==> a.firstName.Some?
    ensures !fault.ConnectFault? ==> InsertArticleData(db, rec, fault) == Store.InsertArticleData(db, rec, fault)
    ensures fault.ConnectFault? ==>
              InsertArticleData(db, rec, fault) == Store.Returned(false, db)
              && Store.InsertArticleData(db, rec, fault) == Store.Raised(db)
  {
    if fault.NoFault? {
      var j := ResolveJournal(db, rec.journalTitle, rec.journalIssn).value;
      assert ResolveJournal(db, rec.journalTitle, rec.journalIssn)
          == Store.ResolveJournal(db, rec.journalTitle, rec.journalIssn);
      var withArticle := j.0.(articles := j.0.articles[rec.pmid := Store.ArticleRow(rec, j.1)]);
      assert Store.PutArticle(j.0, rec, j.1) == Success(withArticle);
      AuthorsAgree(withArticle, rec.pmid, rec.authors);
      var withAuthors := LinkAuthors(withArticle, rec.pmid, rec.authors).value;
      TermsAgree(withAuthors, rec.pmid, rec.meshTerms);
    }
  }

  /** On a duplicate pmid the variants part ways: the live store links a new author to
      the existing article, the ORM store leaves everything as it was. */
  lemma VariantsDifferOnDuplicates()
    ensures var first := ArticleRecord(7, "T", "", None, "J", None, [], []);
            var a := AuthorRecord(Some("Doe"), Some("Jane"), Some(""), "Jane Doe");
            var again := first.(title := "Other", authors := [a]);
            var db := Store.InsertArticleData(EmptyDb, first, Store.NoFault).db;
            && db.articleAuthors == {}
            && Store.InsertArticleData(db, again, Store.NoFault).Succeeded()
            && Store.AuthorFoundAndLinked(Store.InsertArticleData(db, again, Store.NoFault).db, 7, a)
            && Store.InsertArticleData(db, again, Store.NoFault).db.articles == db.articles
            && InsertArticleData(db, again, Store.NoFault) == Store.Returned(true, db)
  {
    var first := ArticleRecord(7, "T", "", None, "J", None, [], []);
    var a := AuthorRecord(Some("Doe"), Some("Jane"), Some(""), "Jane Doe");
    var again := first.(title := "Other", authors := [a]);
    assert Store.Storable(first);
    assert Store.Storable(again) by {
      assert Store.AuthorAccepted(a);
    }
    var db := Store.InsertArticleData(EmptyDb, first, Store.NoFault).db;
    Store.TransactionEffect(EmptyDb, first);
    Store.TransactionLinks(EmptyDb, first);
    Store.TransactionEffect(db, again);
    Store.TransactionLinks(db, again);
  }
}
