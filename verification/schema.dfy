/** The six relations of the persisted schema (`src/database/models.py` and the
    `create_tables` DDL of `src/database/database.py`) as one immutable store value,
    with the key, uniqueness, width and reference constraints the database enforces.

    Surrogate ids are SERIAL: the row at position `i` of a table has id `i + 1`.
    Articles are keyed by pmid; the association tables are sets of pairs, so a pair
    is present at most once by construction. */
module Schema {
  import opened Wrappers
  import Ranking

  /** PostgreSQL `INTEGER` bounds. */
  const Int4Min: int := -0x8000_0000
  const Int4Max: int := 0x7FFF_FFFF

  /** `VARCHAR` widths of the DDL. */
  const JournalTitleWidth: nat := 500
  const IssnWidth: nat := 20
  const NameWidth: nat := 100
  const FullNameWidth: nat := 300
  const TermWidth: nat := 200

  datatype Journal = Journal(title: string, issn: Option<string>)

  datatype Author = Author(
    lastName: Option<string>,
    firstName: Option<string>,
    middleName: Option<string>,
    fullName: string)

  /** An `articles` row without its key. `journalId` is the journal's surrogate id. */
  datatype Article = Article(
    title: string,
    abstractText: Option<string>,
    year: Option<int>,
    journalId: Option<int>)

  datatype Db = Db(
    journals: seq<Journal>,
    authors: seq<Author>,
    terms: seq<string>,
    articles: map<int, Article>,
    articleAuthors: set<(int, int)>,
    articleTerms: set<(int, int)>)

  /** The freshly created schema. */
  const EmptyDb := Db([], [], [], map[], {}, {})

  predicate Int4(x: int) {
    Int4Min <= x <= Int4Max
  }

  /** A stored value fits its `VARCHAR(width)` column; NULL always fits. */
  predicate FitsText(s: Option<string>, width: nat) {
    s.None? || |s.value| <= width
  }

  /** A value is longer than its column. */
  predicate Longer(s: Option<string>, width: nat) {
    s.Some? && |s.value| > width
  }

  /** Every character of `s` from position `width` on is a space. */
  predicate SpacesFrom(s: string, width: nat) {
    forall k :: width <= k < |s| ==> s[k] == ' '
  }

  /** The string holds no U+0000. psycopg2 refuses to send a string holding it, and no
      PostgreSQL text value can hold it, so such a parameter makes its statement raise. */
  predicate NoNul(s: string) {
    forall k :: 0 <= k < |s| ==> s[k] != '\0'
  }

  /** PostgreSQL accepts a value into a `VARCHAR(width)` column: it holds no U+0000, and
      a longer string is an error unless every character past the width is a space.
      NULL is accepted. */
  predicate Assignable(s: Option<string>, width: nat) {
    s.None? || (NoNul(s.value) && SpacesFrom(s.value, width))
  }

  /** What a `VARCHAR(width)` column stores for an accepted string: the characters past
      the width, all spaces, are cut off. */
  function Cut(s: string, width: nat): (r: string)
    ensures |r| <= width && |r| <= |s| && r == s[..|r|]
    ensures r == s <==> |s| <= width
    ensures SpacesFrom(s, width) ==> forall k :: |r| <= k < |s| ==> s[k] == ' '
  {
    if |s| <= width then s else s[..width]
  }

  function CutOpt(s: Option<string>, width: nat): Option<string> {
    match s
    case None => None
    case Some(v) => Some(Cut(v, width))
  }

  /** A cut value fits its column, and cutting it again changes nothing. */
  lemma CutFits(s: string, width: nat)
    ensures FitsText(Some(Cut(s, width)), width)
    ensures Cut(Cut(s, width), width) == Cut(s, width)
  {
  }

  /** The fallback `SELECT ... WHERE key = %s` compares the key as given. When every
      stored key fits its column, it finds the row the cut key names exactly when the
      key was not cut, and finds nothing otherwise. */
  lemma UncutLookup<T>(rows: seq<T>, key: T -> string, s: string, width: nat)
    requires forall i :: 0 <= i < |rows| ==> |key(rows[i])| <= width
    ensures FindKey(rows, key, s) == if |s| <= width then FindKey(rows, key, Cut(s, width)) else None
  {
  }

  /** `id` is the surrogate id of a row of a table with `n` rows. */
  predicate IsId(n: nat, id: int) {
    1 <= id <= n
  }

  function JournalTitle(j: Journal): string {
    j.title
  }

  /** The author columns that `UNIQUE(last_name, first_name)` and the lookups compare. */
  function AuthorName(a: Author): (Option<string>, Option<string>) {
    (a.lastName, a.firstName)
  }

  function TermText(t: string): string {
    t
  }

  /** The id of the first row whose key is `k`: what `SELECT id ... WHERE key = k`
      returns when keys are unique. */
  function FindKey<T, K(==)>(rows: seq<T>, key: T -> K, k: K): (r: Option<int>)
    ensures r.Some? ==> IsId(|rows|, r.value) && key(rows[r.value - 1]) == k
    ensures r.Some? ==> forall i :: 0 <= i < r.value - 1 ==> key(rows[i]) != k
    ensures r.None? <==> forall i :: 0 <= i < |rows| ==> key(rows[i]) != k
  {
    if rows == [] then None
    else if key(rows[0]) == k then Some(1)
    else
      match FindKey(rows[1..], key, k)
      case None => None
      case Some(i) => Some(i + 1)
  }

  /** Adding rows at the end never changes which row a present key resolves to. */
  lemma FindKeyStable<T, K>(rows: seq<T>, more: seq<T>, key: T -> K, k: K)
    requires FindKey(rows, key, k).Some?
    ensures FindKey(rows + more, key, k) == FindKey(rows, key, k)
  {
    var i := FindKey(rows, key, k).value;
    var r := FindKey(rows + more, key, k);
    assert key((rows + more)[i - 1]) == k;
  }

  /** A key missing from a table resolves to the row appended with it. */
  lemma FindKeyAppendNew<T, K>(rows: seq<T>, x: T, key: T -> K, k: K)
    requires FindKey(rows, key, k).None?
    requires key(x) == k
    ensures FindKey(rows + [x], key, k) == Some(|rows| + 1)
  {
    assert (rows + [x])[|rows|] == x;
  }

  /** A key is missing after appending a row exactly when it was missing before and the
      new row carries another key. */
  lemma FindKeyAppendMissing<T, K>(rows: seq<T>, x: T, key: T -> K, k: K)
    ensures FindKey(rows + [x], key, k).None? <==> FindKey(rows, key, k).None? && key(x) != k
  {
    var ext := rows + [x];
    assert ext[|rows|] == x;
    assert forall i :: 0 <= i < |rows| ==> ext[i] == rows[i];
  }

  /** No two rows share a key. */
  ghost predicate UniqueKeys<T, K>(rows: seq<T>, key: T -> K) {
    forall i, j :: 0 <= i < j < |rows| ==> key(rows[i]) != key(rows[j])
  }

  /** `UNIQUE(last_name, first_name)`: SQL NULLs are distinct, so only rows whose
      first name is non-null are constrained. */
  ghost predicate UniqueNonNullNames(authors: seq<Author>) {
    forall i, j :: 0 <= i < j < |authors| && authors[i].firstName.Some? ==>
      AuthorName(authors[i]) != AuthorName(authors[j])
  }

  predicate JournalRowFits(j: Journal) {
    FitsText(Some(j.title), JournalTitleWidth) && FitsText(j.issn, IssnWidth)
  }

  /** `last_name` is NOT NULL and every name column fits its width. */
  predicate AuthorRowFits(a: Author) {
    && a.lastName.Some?
    && FitsText(a.lastName, NameWidth)
    && FitsText(a.firstName, NameWidth)
    && FitsText(a.middleName, NameWidth)
    && FitsText(Some(a.fullName), FullNameWidth)
  }

  /** pmid and year are `INTEGER`s; title and abstract are `TEXT` without U+0000. */
  predicate ArticleRowFits(pmid: int, a: Article) {
    && Int4(pmid)
    && (a.year.Some? ==> Int4(a.year.value))
    && NoNul(a.title)
    && (a.abstractText.Some? ==> NoNul(a.abstractText.value))
  }

  /** Every row satisfies its column constraints. */
  ghost predicate RowsFit(db: Db) {
    && (forall i :: 0 <= i < |db.journals| ==> JournalRowFits(db.journals[i]))
    && (forall i :: 0 <= i < |db.authors| ==> AuthorRowFits(db.authors[i]))
    && (forall i :: 0 <= i < |db.terms| ==> |db.terms[i]| <= TermWidth)
    && (forall p :: p in db.articles ==> ArticleRowFits(p, db.articles[p]))
  }

  /** Foreign keys: article → journal, and both sides of every association row. */
  ghost predicate ReferencesResolve(db: Db) {
    && (forall p :: p in db.articles && db.articles[p].journalId.Some? ==>
          IsId(|db.journals|, db.articles[p].journalId.value))
    && (forall l :: l in db.articleAuthors ==> l.0 in db.articles && IsId(|db.authors|, l.1))
    && (forall l :: l in db.articleTerms ==> l.0 in db.articles && IsId(|db.terms|, l.1))
  }

  /** The constraints of the models (`models.py`): unique journal titles and term texts,
      column constraints and foreign keys. Authors carry no uniqueness there. */
  ghost predicate ModelValid(db: Db) {
    && UniqueKeys(db.journals, JournalTitle)
    && UniqueKeys(db.terms, TermText)
    && RowsFit(db)
    && ReferencesResolve(db)
  }

  /** The constraints of the `create_tables` DDL: those of the models plus
      `UNIQUE(last_name, first_name)`. */
  ghost predicate Valid(db: Db) {
    ModelValid(db) && UniqueNonNullNames(db.authors)
  }

  /** `after` only adds to `before`: existing rows, articles and links are unchanged.
      This is the append-only lifecycle of every relation. */
  ghost predicate Extends(before: Db, after: Db) {
    && before.journals <= after.journals
    && before.authors <= after.authors
    && before.terms <= after.terms
    && (forall p :: p in before.articles ==> p in after.articles && after.articles[p] == before.articles[p])
    && before.articleAuthors <= after.articleAuthors
    && before.articleTerms <= after.articleTerms
  }

  lemma ExtendsTransitive(a: Db, b: Db, c: Db)
    requires Extends(a, b) && Extends(b, c)
    ensures Extends(a, c)
  {
  }

  lemma EmptyIsValid()
    ensures Valid(EmptyDb)
  {
  }

  // ---------------------------------------------------------------------------
  // Aggregates read by both stores' `get_article_stats`

  /** The counts and the publication-year range. `yearRange` holds MIN and MAX of the
      non-null years, each `None` when there is no such year. */
  datatype Stats = Stats(
    totalArticles: nat,
    totalAuthors: nat,
    totalJournals: nat,
    totalMeshTerms: nat,
    yearRange: Option<(Option<int>, Option<int>)>)

  /** The non-null publication years. */
  ghost function Years(db: Db): set<int> {
    set p | p in db.articles && db.articles[p].year.Some? :: db.articles[p].year.value
  }

  /** `SELECT MIN(publication_year), MAX(publication_year) ... WHERE publication_year
      IS NOT NULL`: always one row, NULLs when no article has a year. */
  ghost function YearSpan(db: Db): (r: (Option<int>, Option<int>))
    ensures r.0.None? <==> Years(db) == {}
    ensures r.1.None? <==> Years(db) == {}
    ensures r.0.Some? ==> r.0.value in Years(db) && forall y :: y in Years(db) ==> r.0.value <= y
    ensures r.1.Some? ==> r.1.value in Years(db) && forall y :: y in Years(db) ==> y <= r.1.value
  {
    var ys := Years(db);
    if ys == {} then (None, None) else (Some(Ranking.Least(ys)), Some(Ranking.Greatest(ys)))
  }

  /** The four `COUNT(*)` totals. */
  function Totals(db: Db): (nat, nat, nat, nat) {
    (|db.articles|, |db.authors|, |db.journals|, |db.terms|)
  }
}
