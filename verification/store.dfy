/** `insert_article_data` of `src/database/database.py`, the store on the live ingest
    path, as a transition of the in-memory store.

    Every insert is `INSERT ... ON CONFLICT DO NOTHING`: journals reconcile on their
    title, authors on `(last_name, first_name)`, terms on their text, articles on their
    pmid, and both association tables on the whole pair. An existing article keeps
    its first-written row, yet the record's authors and terms are still linked to it.

    PostgreSQL stores a string that is longer than its `VARCHAR` column when the excess
    is all spaces, cut to the width; any other excess is an error. The conflict check
    sees the cut key, but the fallback `SELECT` that fetches the conflicting row
    compares the key as given, so a cut key that is already stored finds no row and
    `fetchone()[0]` raises.

    The statements run in one transaction inside a `try`. An exception raised by a
    statement there, on a connection that still works, rolls every write back and
    returns `False`. Opening the connection and the cursor happens before the `try`,
    so a failure there leaves the call as an exception; so does a connection lost
    inside the `try`, because the `rollback()` of the `except` then raises itself. */
module Store {
  import opened Wrappers
  import opened Schema
  import opened Mapper

  /** The errors the statements raise on the record's values and the store. */
  datatype DbError =
    | ValueRejected    // a string holding U+0000, or longer than its VARCHAR column by more than spaces
    | NullViolation    // NULL into `authors.last_name`
    | OutOfRange       // a pmid or year outside INTEGER
    | NoRow            // the fallback SELECT finds nothing and `fetchone()[0]` raises
    | UniqueViolation  // a flushed ORM row repeats a unique key

  /** What goes wrong besides the record's values. */
  datatype Fault =
    | NoFault
    | StatementFault   // a statement raises inside the `try` (a deadlock, a serialization failure); the rollback succeeds
    | ConnectFault     // `psycopg2.connect` or `conn.cursor()` raises before the `try`, or the connection is lost inside it

  /** How an `insert_article_data` call ends, with the store it leaves behind. */
  datatype Outcome =
    | Returned(ok: bool, db: Db)
    | Raised(db: Db)
  {
    /** The call returned `True`. */
    predicate Succeeded() {
      Returned? && ok
    }
  }

  // ---------------------------------------------------------------------------
  // The rows a record produces

  function JournalRow(title: string, issn: Option<string>): Journal {
    Journal(Cut(title, JournalTitleWidth), CutOpt(issn, IssnWidth))
  }

  function AuthorRow(a: AuthorRecord): Author {
    Author(CutOpt(a.lastName, NameWidth), CutOpt(a.firstName, NameWidth),
           CutOpt(a.middleName, NameWidth), Cut(a.fullName, FullNameWidth))
  }

  function ArticleRow(rec: ArticleRecord, journalId: int): Article {
    Article(rec.title, Some(rec.abstractText), rec.year, Some(journalId))
  }

  /** The author's name as the record gives it. */
  function NameOf(a: AuthorRecord): (Option<string>, Option<string>) {
    (a.lastName, a.firstName)
  }

  /** The author's name as its row stores it. */
  function RowName(a: AuthorRecord): (Option<string>, Option<string>) {
    AuthorName(AuthorRow(a))
  }

  predicate JournalAccepted(title: string, issn: Option<string>) {
    Assignable(Some(title), JournalTitleWidth) && Assignable(issn, IssnWidth)
  }

  /** `last_name` is non-null and every name column accepts its value. */
  predicate AuthorAccepted(a: AuthorRecord) {
    && a.lastName.Some?
    && Assignable(a.lastName, NameWidth)
    && Assignable(a.firstName, NameWidth)
    && Assignable(a.middleName, NameWidth)
    && Assignable(Some(a.fullName), FullNameWidth)
  }

  predicate TermAccepted(t: string) {
    Assignable(Some(t), TermWidth)
  }

  predicate TitleCut(title: string) {
    |title| > JournalTitleWidth
  }

  /** The author's conflict key is cut: its first name is non-null (so it can conflict)
      and a name part is longer than its column. */
  predicate NameCut(a: AuthorRecord) {
    a.firstName.Some? && (Longer(a.lastName, NameWidth) || Longer(a.firstName, NameWidth))
  }

  predicate TermCut(t: string) {
    |t| > TermWidth
  }

  /** Every value of the record is accepted by its column. */
  ghost predicate Accepted(rec: ArticleRecord) {
    && JournalAccepted(rec.journalTitle, rec.journalIssn)
    && ArticleRowFits(rec.pmid, ArticleRow(rec, 0))
    && (forall a :: a in rec.authors ==> AuthorAccepted(a))
    && (forall t :: t in rec.meshTerms ==> TermAccepted(t))
  }

  /** No conflict key of the record is longer than its column. */
  ghost predicate KeysUncut(rec: ArticleRecord) {
    && !TitleCut(rec.journalTitle)
    && (forall a :: a in rec.authors ==> !NameCut(a))
    && (forall t :: t in rec.meshTerms ==> !TermCut(t))
  }

  /** A record that commits on every store: accepted values and no cut conflict key. */
  ghost predicate Storable(rec: ArticleRecord) {
    Accepted(rec) && KeysUncut(rec)
  }

  // ---------------------------------------------------------------------------
  // Lookups, by the key as the column stores it

  function JournalIdOf(db: Db, title: string): Option<int> {
    FindKey(db.journals, JournalTitle, Cut(title, JournalTitleWidth))
  }

  function AuthorIdOf(db: Db, a: AuthorRecord): Option<int> {
    FindKey(db.authors, AuthorName, RowName(a))
  }

  function TermIdOf(db: Db, t: string): Option<int> {
    FindKey(db.terms, TermText, Cut(t, TermWidth))
  }

  // ---------------------------------------------------------------------------
  // The statements

  /** The journal step: insert the row unless its title exists, then take its id. On a
      conflict the fallback `SELECT` finds the row only when the title was not cut
      (JournalFallback). */
  function ResolveJournal(db: Db, title: string, issn: Option<string>): (r: Result<(Db, int), DbError>)
    ensures r.Success? <==> JournalAccepted(title, issn) && (TitleCut(title) ==> JournalIdOf(db, title).None?)
    ensures r.Success? ==> r.value.0.(journals := db.journals) == db
    ensures r.Success? ==> JournalIdOf(r.value.0, title) == Some(r.value.1)
    ensures r.Success? && JournalIdOf(db, title).Some? ==> r.value.0 == db
    ensures r.Success? && JournalIdOf(db, title).None? ==>
              r.value.0.journals == db.journals + [JournalRow(title, issn)]
  {
    var row := JournalRow(title, issn);
    if !JournalAccepted(title, issn) then Failure(ValueRejected)
    else
      match JournalIdOf(db, title)
      case Some(id) => if TitleCut(title) then Failure(NoRow) else Success((db, id))
      case None =>
        FindKeyAppendNew(db.journals, row, JournalTitle, row.title);
        Success((db.(journals := db.journals + [row]), |db.journals| + 1))
  }

  /** The article step: a new pmid gets its row; an existing one keeps its row. */
  function PutArticle(db: Db, rec: ArticleRecord, journalId: int): (r: Result<Db, DbError>)
    ensures r.Success? <==> ArticleRowFits(rec.pmid, ArticleRow(rec, journalId))
    ensures r.Success? ==> r.value.(articles := db.articles) == db
    ensures r.Success? && rec.pmid in db.articles ==> r.value == db
    ensures r.Success? && rec.pmid !in db.articles ==>
              r.value.articles == db.articles[rec.pmid := ArticleRow(rec, journalId)]
  {
    if !ArticleRowFits(rec.pmid, ArticleRow(rec, journalId)) then
      Failure(if NoNul(rec.title) && NoNul(rec.abstractText) then OutOfRange else ValueRejected)
    else if rec.pmid in db.articles then Success(db)
    else Success(db.(articles := db.articles[rec.pmid := ArticleRow(rec, journalId)]))
  }

  /** The author step. A conflict needs equal non-null names: with a NULL first name
      the insert never conflicts and always adds a row. On a conflict the fallback
      `SELECT` finds the row only when the name was not cut (AuthorFallback). */
  function ResolveAuthor(db: Db, a: AuthorRecord): (r: Result<(Db, int), DbError>)
    ensures r.Success? <==> AuthorAccepted(a) && (NameCut(a) ==> AuthorIdOf(db, a).None?)
    ensures r.Success? ==> r.value.0.(authors := db.authors) == db
    ensures r.Success? ==> IsId(|r.value.0.authors|, r.value.1)
    ensures r.Success? ==> AuthorName(r.value.0.authors[r.value.1 - 1]) == RowName(a)
    ensures r.Success? && a.firstName.Some? ==> AuthorIdOf(r.value.0, a) == Some(r.value.1)
    ensures r.Success? && a.firstName.Some? && AuthorIdOf(db, a).Some? ==> r.value.0 == db
    ensures r.Success? && (a.firstName.None? || AuthorIdOf(db, a).None?) ==>
              r.value.0.authors == db.authors + [AuthorRow(a)]
  {
    var row := AuthorRow(a);
    if !AuthorAccepted(a) then
      Failure(if a.lastName.None? then NullViolation else ValueRejected)
    else if a.firstName.Some? && AuthorIdOf(db, a).Some? then
      if NameCut(a) then Failure(NoRow) else Success((db, AuthorIdOf(db, a).value))
    else
      assert (db.authors + [row])[|db.authors|] == row;
      assert a.firstName.Some? ==> FindKey(db.authors + [row], AuthorName, RowName(a)) == Some(|db.authors| + 1) by {
        if a.firstName.Some? {
          FindKeyAppendNew(db.authors, row, AuthorName, RowName(a));
        }
      }
      Success((db.(authors := db.authors + [row]), |db.authors| + 1))
  }

  /** The term step: insert the text unless it exists, then take its id. On a conflict
      the fallback `SELECT` finds the row only when the term was not cut
      (TermFallback). */
  function ResolveTerm(db: Db, t: string): (r: Result<(Db, int), DbError>)
    ensures r.Success? <==> TermAccepted(t) && (TermCut(t) ==> TermIdOf(db, t).None?)
    ensures r.Success? ==> r.value.0.(terms := db.terms) == db
    ensures r.Success? ==> TermIdOf(r.value.0, t) == Some(r.value.1)
    ensures r.Success? && TermIdOf(db, t).Some? ==> r.value.0 == db
    ensures r.Success? && TermIdOf(db, t).None? ==> r.value.0.terms == db.terms + [Cut(t, TermWidth)]
  {
    var row := Cut(t, TermWidth);
    if !TermAccepted(t) then Failure(ValueRejected)
    else
      match TermIdOf(db, t)
      case Some(id) => if TermCut(t) then Failure(NoRow) else Success((db, id))
      case None =>
        FindKeyAppendNew(db.terms, row, TermText, row);
        Success((db.(terms := db.terms + [row]), |db.terms| + 1))
  }

  /** Resolves each author in order and links it to `pmid`. */
  function LinkAuthors(db: Db, pmid: int, authors: seq<AuthorRecord>): (r: Result<Db, DbError>)
    ensures r.Success? ==> forall a :: a in authors ==> AuthorAccepted(a)
    ensures (forall a :: a in authors ==> AuthorAccepted(a) && !NameCut(a)) ==> r.Success?
    ensures r.Success? ==> r.value.(authors := db.authors, articleAuthors := db.articleAuthors) == db
    ensures r.Success? ==> db.authors <= r.value.authors && db.articleAuthors <= r.value.articleAuthors
    ensures r.Success? ==> forall l :: l in r.value.articleAuthors - db.articleAuthors ==> l.0 == pmid
    decreases |authors|
  {
    if authors == [] then Success(db)
    else
      var step :- ResolveAuthor(db, authors[0]);
      var linked := step.0.(articleAuthors := step.0.articleAuthors + {(pmid, step.1)});
      var r := LinkAuthors(linked, pmid, authors[1..]);
      assert forall a :: a in authors <==> a == authors[0] || a in authors[1..];
      r
  }

  /** Resolves each term in order and links it to `pmid`. */
  function LinkTerms(db: Db, pmid: int, terms: seq<string>): (r: Result<Db, DbError>)
    ensures r.Success? ==> forall t :: t in terms ==> TermAccepted(t)
    ensures (forall t :: t in terms ==> TermAccepted(t) && !TermCut(t)) ==> r.Success?
    ensures r.Success? ==> r.value.(terms := db.terms, articleTerms := db.articleTerms) == db
    ensures r.Success? ==> db.terms <= r.value.terms && db.articleTerms <= r.value.articleTerms
    ensures r.Success? ==> forall l :: l in r.value.articleTerms - db.articleTerms ==> l.0 == pmid
    decreases |terms|
  {
    if terms == [] then Success(db)
    else
      var step :- ResolveTerm(db, terms[0]);
      var linked := step.0.(articleTerms := step.0.articleTerms + {(pmid, step.1)});
      var r := LinkTerms(linked, pmid, terms[1..]);
      assert forall t :: t in terms <==> t == terms[0] || t in terms[1..];
      r
  }

  /** The body of the `try` block: journal, article, authors, terms. */
  function Transaction(db: Db, rec: ArticleRecord): (r: Result<Db, DbError>)
    ensures r.Success? ==> Accepted(rec)
    ensures Storable(rec) ==> r.Success?
    ensures r.Success? ==> Extends(db, r.value)
  {
    var j :- ResolveJournal(db, rec.journalTitle, rec.journalIssn);
    var withArticle :- PutArticle(j.0, rec, j.1);
    var withAuthors :- LinkAuthors(withArticle, rec.pmid, rec.authors);
    LinkTerms(withAuthors, rec.pmid, rec.meshTerms)
  }

  /** `insert_article_data`: commit and `True`, or roll back and `False`; a failure to
      connect leaves the call as an exception. */
  function InsertArticleData(db: Db, rec: ArticleRecord, fault: Fault): (r: Outcome)
    ensures r.Raised? <==> fault.ConnectFault?
    ensures r.Succeeded() <==> fault.NoFault? && Accepted(rec) && FreshCutKeys(db, rec)
    ensures fault.NoFault? && Storable(rec) ==> r.Succeeded()
    ensures !r.Succeeded() ==> r.db == db
    ensures Extends(db, r.db)
  {
    match fault
    case ConnectFault => Raised(db)
    case StatementFault => Returned(false, db)
    case NoFault =>
      TransactionCommits(db, rec);
      match Transaction(db, rec)
      case Success(d) => Returned(true, d)
      case Failure(_) => Returned(false, db)
  }

  // ---------------------------------------------------------------------------
  // The fallback lookups

  /** No stored title is longer than its column, so the fallback `SELECT` with the title
      as given finds the conflicting row when the title was not cut, and nothing when
      it was. */
  lemma JournalFallback(db: Db, title: string)
    requires RowsFit(db)
    ensures FindKey(db.journals, JournalTitle, title) ==
              if TitleCut(title) then None else JournalIdOf(db, title)
  {
    UncutLookup(db.journals, JournalTitle, title, JournalTitleWidth);
  }

  /** The same for a name: the `SELECT` finds the row when neither name part was cut. */
  lemma AuthorFallback(db: Db, a: AuthorRecord)
    requires RowsFit(db) && a.firstName.Some?
    ensures FindKey(db.authors, AuthorName, NameOf(a)) ==
              if NameCut(a) then None else AuthorIdOf(db, a)
  {
    if NameCut(a) {
      forall i | 0 <= i < |db.authors|
        ensures AuthorName(db.authors[i]) != NameOf(a)
      {
        assert AuthorRowFits(db.authors[i]);
      }
    } else {
      assert RowName(a) == NameOf(a);
    }
  }

  lemma TermFallback(db: Db, t: string)
    requires RowsFit(db)
    ensures FindKey(db.terms, TermText, t) == if TermCut(t) then None else TermIdOf(db, t)
  {
    UncutLookup(db.terms, TermText, t, TermWidth);
  }

  // ---------------------------------------------------------------------------
  // The exact commit condition

  /** The author's name, as its row stores it, is not in `rows`. */
  ghost predicate NameMissing(rows: seq<Author>, a: AuthorRecord) {
    FindKey(rows, AuthorName, RowName(a)).None?
  }

  ghost predicate TermMissing(rows: seq<string>, t: string) {
    FindKey(rows, TermText, Cut(t, TermWidth)).None?
  }

  /** Every cut conflict key among `authors` is new: neither in `rows` nor the stored
      name of an earlier author of the list. */
  ghost predicate FreshCutNames(rows: seq<Author>, authors: seq<AuthorRecord>) {
    forall k :: 0 <= k < |authors| && NameCut(authors[k]) ==>
      && NameMissing(rows, authors[k])
      && forall j :: 0 <= j < k ==> RowName(authors[j]) != RowName(authors[k])
  }

  ghost predicate FreshCutTerms(rows: seq<string>, terms: seq<string>) {
    forall k :: 0 <= k < |terms| && TermCut(terms[k]) ==>
      && TermMissing(rows, terms[k])
      && forall j :: 0 <= j < k ==> Cut(terms[j], TermWidth) != Cut(terms[k], TermWidth)
  }

  ghost predicate FreshCutKeys(db: Db, rec: ArticleRecord) {
    && (TitleCut(rec.journalTitle) ==> JournalIdOf(db, rec.journalTitle).None?)
    && FreshCutNames(db.authors, rec.authors)
    && FreshCutTerms(db.terms, rec.meshTerms)
  }

  /** After one author step, a name is missing exactly when it was missing before and
      differs from the name just resolved. */
  lemma AuthorStepMissing(db: Db, a: AuthorRecord, b: AuthorRecord)
    requires ResolveAuthor(db, a).Success?
    ensures NameMissing(ResolveAuthor(db, a).value.0.authors, b) <==>
              NameMissing(db.authors, b) && RowName(a) != RowName(b)
  {
    var d := ResolveAuthor(db, a).value.0;
    if d.authors == db.authors + [AuthorRow(a)] {
      FindKeyAppendMissing(db.authors, AuthorRow(a), AuthorName, RowName(b));
    } else {
      assert AuthorIdOf(db, a).Some?;
    }
  }

  lemma TermStepMissing(db: Db, t: string, u: string)
    requires ResolveTerm(db, t).Success?
    ensures TermMissing(ResolveTerm(db, t).value.0.terms, u) <==>
              TermMissing(db.terms, u) && Cut(t, TermWidth) != Cut(u, TermWidth)
  {
    var d := ResolveTerm(db, t).value.0;
    if d.terms == db.terms + [Cut(t, TermWidth)] {
      FindKeyAppendMissing(db.terms, Cut(t, TermWidth), TermText, Cut(u, TermWidth));
    }
  }

  /** The freshness of the remaining authors after a successful first step is the
      freshness of the whole list before it. */
  lemma FreshNamesStep(db: Db, authors: seq<AuthorRecord>)
    requires authors != [] && ResolveAuthor(db, authors[0]).Success?
    ensures FreshCutNames(ResolveAuthor(db, authors[0]).value.0.authors, authors[1..]) <==>
              FreshCutNames(db.authors, authors)
  {
    var a := authors[0];
    var rest := authors[1..];
    var rows := ResolveAuthor(db, a).value.0.authors;
    forall k | 0 <= k < |rest|
      ensures NameMissing(rows, rest[k]) <==> NameMissing(db.authors, rest[k]) && RowName(a) != RowName(rest[k])
    {
      AuthorStepMissing(db, a, rest[k]);
    }
    if FreshCutNames(db.authors, authors) {
      forall k | 0 <= k < |rest| && NameCut(rest[k])
        ensures NameMissing(rows, rest[k]) && forall j :: 0 <= j < k ==> RowName(rest[j]) != RowName(rest[k])
      {
        assert authors[k + 1] == rest[k];
        assert forall j :: 0 <= j < k ==> authors[j + 1] == rest[j];
      }
    }
    if FreshCutNames(rows, rest) {
      forall k | 0 <= k < |authors| && NameCut(authors[k])
        ensures NameMissing(db.authors, authors[k]) && forall j :: 0 <= j < k ==> RowName(authors[j]) != RowName(authors[k])
      {
        if k > 0 {
          assert authors[k] == rest[k - 1];
          assert forall j :: 0 < j < k ==> authors[j] == rest[j - 1];
        }
      }
    }
  }

  lemma FreshTermsStep(db: Db, terms: seq<string>)
    requires terms != [] && ResolveTerm(db, terms[0]).Success?
    ensures FreshCutTerms(ResolveTerm(db, terms[0]).value.0.terms, terms[1..]) <==>
              FreshCutTerms(db.terms, terms)
  {
    var t := terms[0];
    var rest := terms[1..];
    var rows := ResolveTerm(db, t).value.0.terms;
    forall k | 0 <= k < |rest|
      ensures TermMissing(rows, rest[k]) <==> TermMissing(db.terms, rest[k]) && Cut(t, TermWidth) != Cut(rest[k], TermWidth)
    {
      TermStepMissing(db, t, rest[k]);
    }
    if FreshCutTerms(db.terms, terms) {
      forall k | 0 <= k < |rest| && TermCut(rest[k])
        ensures TermMissing(rows, rest[k]) && forall j :: 0 <= j < k ==> Cut(rest[j], TermWidth) != Cut(rest[k], TermWidth)
      {
        assert terms[k + 1] == rest[k];
        assert forall j :: 0 <= j < k ==> terms[j + 1] == rest[j];
      }
    }
    if FreshCutTerms(rows, rest) {
      forall k | 0 <= k < |terms| && TermCut(terms[k])
        ensures TermMissing(db.terms, terms[k]) && forall j :: 0 <= j < k ==> Cut(terms[j], TermWidth) != Cut(terms[k], TermWidth)
      {
        if k > 0 {
          assert terms[k] == rest[k - 1];
          assert forall j :: 0 < j < k ==> terms[j] == rest[j - 1];
        }
      }
    }
  }

  /** Linking authors commits exactly when every author is accepted and every cut
      conflict key is new, to the store and within the list. */
  lemma {:induction false} LinkAuthorsCommits(db: Db, pmid: int, authors: seq<AuthorRecord>)
    ensures LinkAuthors(db, pmid, authors).Success? <==>
              (forall a :: a in authors ==> AuthorAccepted(a)) && FreshCutNames(db.authors, authors)
    decreases |authors|
  {
    if authors != [] {
      var a := authors[0];
      var rest := authors[1..];
      assert forall b :: b in authors <==> b == a || b in rest;
      if ResolveAuthor(db, a).Success? {
        var step := ResolveAuthor(db, a).value;
        var linked := step.0.(articleAuthors := step.0.articleAuthors + {(pmid, step.1)});
        assert LinkAuthors(db, pmid, authors) == LinkAuthors(linked, pmid, rest);
        LinkAuthorsCommits(linked, pmid, rest);
        FreshNamesStep(db, authors);
      } else if AuthorAccepted(a) {
        assert !FreshCutNames(db.authors, authors) by {
          assert NameCut(authors[0]) && !NameMissing(db.authors, authors[0]);
        }
      }
    }
  }

  lemma {:induction false} LinkTermsCommits(db: Db, pmid: int, terms: seq<string>)
    ensures LinkTerms(db, pmid, terms).Success? <==>
              (forall t :: t in terms ==> TermAccepted(t)) && FreshCutTerms(db.terms, terms)
    decreases |terms|
  {
    if terms != [] {
      var t := terms[0];
      var rest := terms[1..];
      assert forall u :: u in terms <==> u == t || u in rest;
      if ResolveTerm(db, t).Success? {
        var step := ResolveTerm(db, t).value;
        var linked := step.0.(articleTerms := step.0.articleTerms + {(pmid, step.1)});
        assert LinkTerms(db, pmid, terms) == LinkTerms(linked, pmid, rest);
        LinkTermsCommits(linked, pmid, rest);
        FreshTermsStep(db, terms);
      } else if TermAccepted(t) {
        assert !FreshCutTerms(db.terms, terms) by {
          assert TermCut(terms[0]) && !TermMissing(db.terms, terms[0]);
        }
      }
    }
  }

  /** The transaction commits exactly when every value is accepted and every cut
      conflict key is new. */
  lemma TransactionCommits(db: Db, rec: ArticleRecord)
    ensures Transaction(db, rec).Success? <==> Accepted(rec) && FreshCutKeys(db, rec)
  {
    var rj := ResolveJournal(db, rec.journalTitle, rec.journalIssn);
    if rj.Success? {
      var j := rj.value;
      var rp := PutArticle(j.0, rec, j.1);
      if rp.Success? {
        var withArticle := rp.value;
        LinkAuthorsCommits(withArticle, rec.pmid, rec.authors);
        var ra := LinkAuthors(withArticle, rec.pmid, rec.authors);
        if ra.Success? {
          LinkTermsCommits(ra.value, rec.pmid, rec.meshTerms);
        }
      }
    }
  }

  // ---------------------------------------------------------------------------
  // What a committed transaction leaves behind

  /** The article `pmid` is linked to an author row carrying the record's name as the
      row stores it. */
  ghost predicate HasAuthorLink(db: Db, pmid: int, a: AuthorRecord) {
    exists id :: (pmid, id) in db.articleAuthors && IsId(|db.authors|, id)
                 && AuthorName(db.authors[id - 1]) == RowName(a)
  }

  /** The record's name resolves to an author row, and that row is linked to `pmid`. */
  ghost predicate AuthorFoundAndLinked(db: Db, pmid: int, a: AuthorRecord) {
    && AuthorIdOf(db, a).Some?
    && (pmid, AuthorIdOf(db, a).value) in db.articleAuthors
  }

  /** The term resolves to a row, and that row is linked to `pmid`. */
  ghost predicate TermFoundAndLinked(db: Db, pmid: int, t: string) {
    && TermIdOf(db, t).Some?
    && (pmid, TermIdOf(db, t).value) in db.articleTerms
  }

  lemma AuthorLinkKept(d: Db, d': Db, pmid: int, a: AuthorRecord)
    requires HasAuthorLink(d, pmid, a)
    requires d.authors <= d'.authors && d.articleAuthors <= d'.articleAuthors
    ensures HasAuthorLink(d', pmid, a)
  {
    var id :| (pmid, id) in d.articleAuthors && IsId(|d.authors|, id)
              && AuthorName(d.authors[id - 1]) == RowName(a);
    assert d'.authors[id - 1] == d.authors[id - 1];
  }

  lemma AuthorFoundKept(d: Db, d': Db, pmid: int, a: AuthorRecord)
    requires AuthorFoundAndLinked(d, pmid, a)
    requires d.authors <= d'.authors && d.articleAuthors <= d'.articleAuthors
    ensures AuthorFoundAndLinked(d', pmid, a)
  {
    assert d'.authors == d.authors + d'.authors[|d.authors|..];
    FindKeyStable(d.authors, d'.authors[|d.authors|..], AuthorName, RowName(a));
  }

  lemma TermFoundKept(d: Db, d': Db, pmid: int, t: string)
    requires TermFoundAndLinked(d, pmid, t)
    requires d.terms <= d'.terms && d.articleTerms <= d'.articleTerms
    ensures TermFoundAndLinked(d', pmid, t)
  {
    assert d'.terms == d.terms + d'.terms[|d.terms|..];
    FindKeyStable(d.terms, d'.terms[|d.terms|..], TermText, Cut(t, TermWidth));
  }

  /** Every author of the list ends up linked to `pmid`; one with a non-null first name
      is linked through the row its name resolves to. */
  lemma {:induction false} LinkAuthorsLinks(db: Db, pmid: int, authors: seq<AuthorRecord>)
    requires LinkAuthors(db, pmid, authors).Success?
    ensures forall a :: a in authors ==> HasAuthorLink(LinkAuthors(db, pmid, authors).value, pmid, a)
    ensures forall a :: a in authors && a.firstName.Some? ==>
              AuthorFoundAndLinked(LinkAuthors(db, pmid, authors).value, pmid, a)
    decreases |authors|
  {
    if authors != [] {
      var a := authors[0];
      var step := ResolveAuthor(db, a).value;
      var linked := step.0.(articleAuthors := step.0.articleAuthors + {(pmid, step.1)});
      var d' := LinkAuthors(db, pmid, authors).value;
      assert LinkAuthors(linked, pmid, authors[1..]) == Success(d');
      LinkAuthorsLinks(linked, pmid, authors[1..]);
      assert HasAuthorLink(linked, pmid, a);
      AuthorLinkKept(linked, d', pmid, a);
      if a.firstName.Some? {
        AuthorFoundKept(linked, d', pmid, a);
      }
    }
  }

  /** Every term of the list ends up linked to `pmid` through the row its text
      resolves to. */
  lemma {:induction false} LinkTermsLinks(db: Db, pmid: int, terms: seq<string>)
    requires LinkTerms(db, pmid, terms).Success?
    ensures forall t :: t in terms ==> TermFoundAndLinked(LinkTerms(db, pmid, terms).value, pmid, t)
    decreases |terms|
  {
    if terms != [] {
      var t := terms[0];
      var step := ResolveTerm(db, t).value;
      var linked := step.0.(articleTerms := step.0.articleTerms + {(pmid, step.1)});
      var d' := LinkTerms(db, pmid, terms).value;
      assert LinkTerms(linked, pmid, terms[1..]) == Success(d');
      LinkTermsLinks(linked, pmid, terms[1..]);
      TermFoundKept(linked, d', pmid, t);
    }
  }

  /** The effect of a committed transaction on journals and articles.
      A known title reuses its row (its ISSN is never changed); an unknown one adds
      exactly one journal carrying the record's values, cut to their columns. An
      existing pmid keeps its first-written row; a new pmid gets a row referencing the
      resolved journal. */
  lemma TransactionEffect(db: Db, rec: ArticleRecord)
    requires Transaction(db, rec).Success?
    ensures var d := Transaction(db, rec).value;
      && JournalIdOf(d, rec.journalTitle).Some?
      && (JournalIdOf(db, rec.journalTitle).Some? ==>
            d.journals == db.journals && JournalIdOf(d, rec.journalTitle) == JournalIdOf(db, rec.journalTitle))
      && (JournalIdOf(db, rec.journalTitle).None? ==>
            d.journals == db.journals + [JournalRow(rec.journalTitle, rec.journalIssn)])
      && (rec.pmid in db.articles ==> d.articles == db.articles)
      && (rec.pmid !in db.articles ==>
            d.articles == db.articles[rec.pmid := ArticleRow(rec, JournalIdOf(d, rec.journalTitle).value)])
  {
    var j := ResolveJournal(db, rec.journalTitle, rec.journalIssn).value;
    var withArticle := PutArticle(j.0, rec, j.1).value;
    var withAuthors := LinkAuthors(withArticle, rec.pmid, rec.authors).value;
    var d := LinkTerms(withAuthors, rec.pmid, rec.meshTerms).value;
    assert Transaction(db, rec) == Success(d);
  }

  /** A committed transaction links the article to every author and every term of the
      record, whether or not the pmid already existed; the only new links are the
      article's own. */
  lemma TransactionLinks(db: Db, rec: ArticleRecord)
    requires Transaction(db, rec).Success?
    ensures var d := Transaction(db, rec).value;
      && (forall a :: a in rec.authors ==> HasAuthorLink(d, rec.pmid, a))
      && (forall a :: a in rec.authors && a.firstName.Some? ==> AuthorFoundAndLinked(d, rec.pmid, a))
      && (forall t :: t in rec.meshTerms ==> TermFoundAndLinked(d, rec.pmid, t))
      && (forall l :: l in d.articleAuthors - db.articleAuthors ==> l.0 == rec.pmid)
      && (forall l :: l in d.articleTerms - db.articleTerms ==> l.0 == rec.pmid)
  {
    var j := ResolveJournal(db, rec.journalTitle, rec.journalIssn).value;
    var withArticle := PutArticle(j.0, rec, j.1).value;
    var withAuthors := LinkAuthors(withArticle, rec.pmid, rec.authors).value;
    var d := LinkTerms(withAuthors, rec.pmid, rec.meshTerms).value;
    assert Transaction(db, rec) == Success(d);
    LinkAuthorsLinks(withArticle, rec.pmid, rec.authors);
    LinkTermsLinks(withAuthors, rec.pmid, rec.meshTerms);
    forall a | a in rec.authors
      ensures HasAuthorLink(d, rec.pmid, a)
    {
      AuthorLinkKept(withAuthors, d, rec.pmid, a);
    }
  }

  // ---------------------------------------------------------------------------
  // Replays

  /** Linking authors that are all already resolved and linked changes nothing. */
  lemma {:induction false} LinkAuthorsNoop(db: Db, pmid: int, authors: seq<AuthorRecord>)
    requires forall a :: a in authors ==> AuthorAccepted(a) && a.firstName.Some? && !NameCut(a)
    requires forall a :: a in authors ==> AuthorFoundAndLinked(db, pmid, a)
    ensures LinkAuthors(db, pmid, authors) == Success(db)
    decreases |authors|
  {
    if authors != [] {
      var a := authors[0];
      assert a in authors;
      assert AuthorAccepted(a) && a.firstName.Some? && !NameCut(a) && AuthorFoundAndLinked(db, pmid, a);
      var id := AuthorIdOf(db, a).value;
      assert ResolveAuthor(db, a) == Success((db, id));
      assert (pmid, id) in db.articleAuthors;
      assert db.(articleAuthors := db.articleAuthors + {(pmid, id)}) == db;
      assert forall b :: b in authors[1..] ==> b in authors;
      LinkAuthorsNoop(db, pmid, authors[1..]);
    }
  }

  /** Linking terms that are all already resolved and linked changes nothing. */
  lemma {:induction false} LinkTermsNoop(db: Db, pmid: int, terms: seq<string>)
    requires forall t :: t in terms ==> TermAccepted(t) && !TermCut(t)
    requires forall t :: t in terms ==> TermFoundAndLinked(db, pmid, t)
    ensures LinkTerms(db, pmid, terms) == Success(db)
    decreases |terms|
  {
    if terms != [] {
      var t := terms[0];
      assert t in terms;
      assert TermAccepted(t) && !TermCut(t) && TermFoundAndLinked(db, pmid, t);
      var id := TermIdOf(db, t).value;
      assert ResolveTerm(db, t) == Success((db, id));
      assert (pmid, id) in db.articleTerms;
      assert db.(articleTerms := db.articleTerms + {(pmid, id)}) == db;
      assert forall u :: u in terms[1..] ==> u in terms;
      LinkTermsNoop(db, pmid, terms[1..]);
    }
  }

  /** A committed author whose conflict key was cut leaves it stored. */
  lemma CutNameStored(db: Db, rec: ArticleRecord, a: AuthorRecord)
    requires Transaction(db, rec).Success?
    requires a in rec.authors && NameCut(a)
    ensures !FreshCutNames(Transaction(db, rec).value.authors, rec.authors)
  {
    var d := Transaction(db, rec).value;
    var k :| 0 <= k < |rec.authors| && rec.authors[k] == a;
    TransactionLinks(db, rec);
    assert AuthorFoundAndLinked(d, rec.pmid, a);
    assert !NameMissing(d.authors, rec.authors[k]);
  }

  lemma CutTermStored(db: Db, rec: ArticleRecord, t: string)
    requires Transaction(db, rec).Success?
    requires t in rec.meshTerms && TermCut(t)
    ensures !FreshCutTerms(Transaction(db, rec).value.terms, rec.meshTerms)
  {
    var d := Transaction(db, rec).value;
    var k :| 0 <= k < |rec.meshTerms| && rec.meshTerms[k] == t;
    TransactionLinks(db, rec);
    assert TermFoundAndLinked(d, rec.pmid, t);
    assert !TermMissing(d.terms, rec.meshTerms[k]);
  }

  /** After a commit, every conflict key of the record names a stored row, so the
      record's cut keys are fresh exactly when there are none. */
  lemma FreshAfterCommit(db: Db, rec: ArticleRecord)
    requires Transaction(db, rec).Success?
    ensures FreshCutKeys(Transaction(db, rec).value, rec) <==> KeysUncut(rec)
  {
    if KeysUncut(rec) {
      forall k | 0 <= k < |rec.authors| ensures !NameCut(rec.authors[k]) {
        assert rec.authors[k] in rec.authors;
      }
      forall k | 0 <= k < |rec.meshTerms| ensures !TermCut(rec.meshTerms[k]) {
        assert rec.meshTerms[k] in rec.meshTerms;
      }
    } else if TitleCut(rec.journalTitle) {
      TransactionEffect(db, rec);
    } else if exists a :: a in rec.authors && NameCut(a) {
      var a :| a in rec.authors && NameCut(a);
      CutNameStored(db, rec, a);
    } else {
      var t :| t in rec.meshTerms && TermCut(t);
      CutTermStored(db, rec, t);
    }
  }

  /** Replaying a committed transaction changes nothing. It commits again exactly when
      no conflict key was cut: a cut key now names a stored row, which the fallback
      lookup with the key as given misses. Every author must have a non-null first name
      (see NullFirstNameDuplicates). */
  lemma TransactionReplay(db: Db, rec: ArticleRecord)
    requires Transaction(db, rec).Success?
    requires forall a :: a in rec.authors ==> a.firstName.Some?
    ensures var d := Transaction(db, rec).value;
      Transaction(d, rec).Success? <==> KeysUncut(rec)
    ensures var d := Transaction(db, rec).value;
      Transaction(d, rec).Success? ==> Transaction(d, rec).value == d
  {
    var d := Transaction(db, rec).value;
    TransactionCommits(d, rec);
    FreshAfterCommit(db, rec);
    if KeysUncut(rec) {
      TransactionEffect(db, rec);
      TransactionLinks(db, rec);
      var j := ResolveJournal(d, rec.journalTitle, rec.journalIssn).value;
      assert j.0 == d;
      assert PutArticle(d, rec, j.1) == Success(d);
      LinkAuthorsNoop(d, rec.pmid, rec.authors);
      LinkTermsNoop(d, rec.pmid, rec.meshTerms);
    }
  }

  /** Inserting the same record twice leaves the store as inserting it once. After a
      commit a second insert changes nothing, and returns `True` exactly when it does
      not fault and no conflict key of the record was cut. */
  lemma InsertTwice(db: Db, rec: ArticleRecord, fault: Fault, fault2: Fault)
    requires forall a :: a in rec.authors ==> a.firstName.Some?
    ensures var once := InsertArticleData(db, rec, fault);
      InsertArticleData(once.db, rec, fault).db == once.db
    ensures var once := InsertArticleData(db, rec, fault);
      var again := InsertArticleData(once.db, rec, fault2);
      once.Succeeded() ==> again.db == once.db && (again.Succeeded() <==> fault2.NoFault? && KeysUncut(rec))
  {
    if fault.NoFault? && Transaction(db, rec).Success? {
      TransactionReplay(db, rec);
      TransactionCommits(Transaction(db, rec).value, rec);
    }
  }

  /** With a NULL first name (an empty `ForeName` element) the DDL's uniqueness never
      fires, so replaying the same record adds a second author row. */
  lemma NullFirstNameDuplicates()
    ensures var rec := ArticleRecord(1, "T", "", None, "J", None,
                                     [AuthorRecord(Some("Smith"), None, Some(""), "Smith")], []);
            var once := InsertArticleData(EmptyDb, rec, NoFault);
            var twice := InsertArticleData(once.db, rec, NoFault);
            && once.Succeeded() && twice.Succeeded()
            && |once.db.authors| == 1 && |twice.db.authors| == 2
            && twice.db.authors[0] == twice.db.authors[1]
  {
    var a := AuthorRecord(Some("Smith"), None, Some(""), "Smith");
    var rec := ArticleRecord(1, "T", "", None, "J", None, [a], []);
    assert AuthorAccepted(a);
    assert Storable(rec);
    var once := InsertArticleData(EmptyDb, rec, NoFault);
    var twice := InsertArticleData(once.db, rec, NoFault);
    OneAuthorAppends(EmptyDb, 1, a);
    OneAuthorAppends(once.db, 1, a);
  }

  /** An author with a NULL first name always adds a row. */
  lemma OneAuthorAppends(db: Db, pmid: int, a: AuthorRecord)
    requires AuthorAccepted(a) && a.firstName.None?
    ensures LinkAuthors(db, pmid, [a]).Success?
    ensures LinkAuthors(db, pmid, [a]).value.authors == db.authors + [AuthorRow(a)]
  {
    var step := ResolveAuthor(db, a).value;
    var linked := step.0.(articleAuthors := step.0.articleAuthors + {(pmid, step.1)});
    assert [a][1..] == [];
    assert LinkAuthors(db, pmid, [a]) == LinkAuthors(linked, pmid, []);
  }

  // ---------------------------------------------------------------------------
  // The schema's constraints are kept

  lemma JournalRowFitsCut(title: string, issn: Option<string>)
    ensures JournalRowFits(JournalRow(title, issn))
  {
    CutFits(title, JournalTitleWidth);
    if issn.Some? {
      CutFits(issn.value, IssnWidth);
    }
  }

  lemma AuthorRowFitsCut(a: AuthorRecord)
    requires a.lastName.Some?
    ensures AuthorRowFits(AuthorRow(a))
  {
    CutFits(a.lastName.value, NameWidth);
    CutFits(a.fullName, FullNameWidth);
    if a.firstName.Some? {
      CutFits(a.firstName.value, NameWidth);
    }
    if a.middleName.Some? {
      CutFits(a.middleName.value, NameWidth);
    }
  }

  lemma ResolveJournalValid(db: Db, title: string, issn: Option<string>)
    requires Valid(db)
    requires ResolveJournal(db, title, issn).Success?
    ensures Valid(ResolveJournal(db, title, issn).value.0)
    ensures IsId(|ResolveJournal(db, title, issn).value.0.journals|, ResolveJournal(db, title, issn).value.1)
  {
    JournalRowFitsCut(title, issn);
  }

  lemma PutArticleValid(db: Db, rec: ArticleRecord, journalId: int)
    requires Valid(db) && IsId(|db.journals|, journalId)
    requires PutArticle(db, rec, journalId).Success?
    ensures Valid(PutArticle(db, rec, journalId).value)
    ensures rec.pmid in PutArticle(db, rec, journalId).value.articles
  {
  }

  lemma ResolveAuthorValid(db: Db, a: AuthorRecord)
    requires Valid(db)
    requires ResolveAuthor(db, a).Success?
    ensures Valid(ResolveAuthor(db, a).value.0)
  {
    var d := ResolveAuthor(db, a).value.0;
    AuthorRowFitsCut(a);
    if d != db {
      var row := AuthorRow(a);
      assert d.authors == db.authors + [row];
      forall i, j | 0 <= i < j < |d.authors| && d.authors[i].firstName.Some?
        ensures AuthorName(d.authors[i]) != AuthorName(d.authors[j])
      {
        if j == |db.authors| {
          assert d.authors[i] == db.authors[i];
        }
      }
    }
  }

  lemma ResolveTermValid(db: Db, t: string)
    requires Valid(db)
    requires ResolveTerm(db, t).Success?
    ensures Valid(ResolveTerm(db, t).value.0)
  {
    CutFits(t, TermWidth);
  }

  lemma {:induction false} LinkAuthorsValid(db: Db, pmid: int, authors: seq<AuthorRecord>)
    requires Valid(db) && pmid in db.articles
    requires LinkAuthors(db, pmid, authors).Success?
    ensures Valid(LinkAuthors(db, pmid, authors).value)
    decreases |authors|
  {
    if authors != [] {
      var step := ResolveAuthor(db, authors[0]).value;
      ResolveAuthorValid(db, authors[0]);
      var linked := step.0.(articleAuthors := step.0.articleAuthors + {(pmid, step.1)});
      LinkAuthorsValid(linked, pmid, authors[1..]);
    }
  }

  lemma {:induction false} LinkTermsValid(db: Db, pmid: int, terms: seq<string>)
    requires Valid(db) && pmid in db.articles
    requires LinkTerms(db, pmid, terms).Success?
    ensures Valid(LinkTerms(db, pmid, terms).value)
    decreases |terms|
  {
    if terms != [] {
      var step := ResolveTerm(db, terms[0]).value;
      ResolveTermValid(db, terms[0]);
      var linked := step.0.(articleTerms := step.0.articleTerms + {(pmid, step.1)});
      LinkTermsValid(linked, pmid, terms[1..]);
    }
  }

  /** Every insert keeps the DDL's keys, uniqueness, column and reference constraints. */
  lemma InsertKeepsValid(db: Db, rec: ArticleRecord, fault: Fault)
    requires Valid(db)
    ensures Valid(InsertArticleData(db, rec, fault).db)
  {
    if fault.NoFault? && Transaction(db, rec).Success? {
      var j := ResolveJournal(db, rec.journalTitle, rec.journalIssn).value;
      ResolveJournalValid(db, rec.journalTitle, rec.journalIssn);
      var withArticle := PutArticle(j.0, rec, j.1).value;
      PutArticleValid(j.0, rec, j.1);
      var withAuthors := LinkAuthors(withArticle, rec.pmid, rec.authors).value;
      LinkAuthorsValid(withArticle, rec.pmid, rec.authors);
      LinkTermsValid(withAuthors, rec.pmid, rec.meshTerms);
    }
  }

  // ---------------------------------------------------------------------------
  // Statistics

  /** `get_article_stats`: the four table totals and the year range. The MIN/MAX query
      always yields one row, so the range is always reported, as two NULLs on a store
      without years. */
  ghost function GetArticleStats(db: Db): (r: Stats)
    ensures r.yearRange.Some?
    ensures r.totalArticles == |db.articles| && r.totalAuthors == |db.authors|
    ensures r.totalJournals == |db.journals| && r.totalMeshTerms == |db.terms|
    ensures r.yearRange.value.0.None? <==> Years(db) == {}
    ensures r.yearRange.value.0.Some? ==> forall y :: y in Years(db) ==> r.yearRange.value.0.value <= y
    ensures r.yearRange.value.1.Some? ==> forall y :: y in Years(db) ==> y <= r.yearRange.value.1.value
  {
    var t := Totals(db);
    Stats(t.0, t.1, t.2, t.3, Some(YearSpan(db)))
  }

  /** A committed insert adds one article exactly when the pmid is new and one journal
      exactly when the title is new; terms and authors never shrink. */
  lemma InsertCounts(db: Db, rec: ArticleRecord, fault: Fault)
    requires InsertArticleData(db, rec, fault).Succeeded()
    ensures var before := GetArticleStats(db);
            var after := GetArticleStats(InsertArticleData(db, rec, fault).db);
      && after.totalArticles == before.totalArticles + (if rec.pmid in db.articles then 0 else 1)
      && after.totalJournals == before.totalJournals + (if JournalIdOf(db, rec.journalTitle).Some? then 0 else 1)
      && after.totalAuthors >= before.totalAuthors
      && after.totalMeshTerms >= before.totalMeshTerms
  {
    TransactionEffect(db, rec);
  }
}
