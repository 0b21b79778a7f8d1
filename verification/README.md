# PubMed ingest core, modelled in Dafny

This project models the ingest core of a PubMed ETL application: the path that turns
PubMed article documents into rows of a relational store, and the small checks
around it.

- **Document mapper** (`Mapper`, over the element tree of `Xml`): one parsed
  `PubmedArticle` element becomes a flat record (title, abstract, year, journal title
  and ISSN, authors, MeSH terms). Every field falls back to `""`, `None` or `[]` and
  mapping never fails. Python's whitespace handling (`strip`, `re.sub(r'\s+', ' ', …)`)
  lives in `Text`. Python's `int()`/`str()` live in `PyInt`.
- **Batch orchestrator** (`Pipeline`): the counting loop of `process_articles`. It is
  generic over the store's insert function.
- **Reconciling stores** (`Schema`, `Store`, `OrmStore`):
  - `Schema` holds the six relations and the constraints of the DDL and of the ORM models.
  - `Store` is the live `ON CONFLICT DO NOTHING` transaction of `database.py`.
  - `OrmStore` is the get-or-create variant of `db_manager.py`, which short-circuits on a
    duplicate pmid.
  - The store is an immutable value. Surrogate ids are positions in a table; articles are a
    pmid-keyed map; association tables are sets of pairs.
  - In the live store, a statement that raises inside the `try` on a working connection
    (a constraint, a fallback `SELECT` that finds no row, a deadlock) rolls the whole
    transaction back and returns `False`. Opening the connection or the cursor
    (`database.py:85-86`) happens outside the `try`, and a connection lost inside the
    `try` makes the `rollback()` of the `except` raise; both are one fault that raises out
    of the call. `process_articles` catches nothing, so it ends the batch. The inserts
    committed before it stay committed.
  - The ORM session connects lazily inside its `try`, so every failure there returns
    `False`.
  - `VARCHAR(n)` columns follow PostgreSQL: a longer value is an error, unless
    everything past the width is spaces, which are cut off.
  - No string sent as a parameter may hold U+0000: psycopg2 refuses it, so the statement
    (or the ORM's lookup or flush) raises inside the `try`.
- **Read side** (`Queries`, with the generic ordering of `Ranking`): `search_articles`
  (ILIKE term and journal filters, year filter, ordering, limit), `get_article_by_pmid`
  and the three top-N counts.
- **Checks**:
  - `Validation` holds the four input validators.
  - `Health` holds the three probes and the status fold of `run_all_checks`.
  - `Settings` holds the four field validators, the defaults and the loading of the groups.

Behaviours worth knowing, each proved:
- **Replaying an insert on the live store.** It is a no-op only when every author has a
  first name. An empty `ForeName` element gives a NULL first name
  (`Mapper.EmptyForeNameExample`). NULLs never collide under
  `UNIQUE(last_name, first_name)`, so each replay adds another author row
  (`Store.NullFirstNameDuplicates`). The ORM store compares with `IS NULL` instead, and
  a replay there never changes anything (`OrmStore.InsertTwice`).
- **Keys padded with spaces past their column.** PostgreSQL stores them cut. The
  conflict check compares the cut key, but the fallback `SELECT` compares the key as
  given and finds no row, so the live insert fails. A committed record with such a key
  therefore fails when it is inserted again (`Store.TransactionReplay`,
  `Store.InsertTwice`). The ORM store looks the key up as given too. A cut title then
  breaks the unique title on a replay (`OrmStore.InsertTwice`). A cut author name has no
  uniqueness to break, so the same author is added once per article
  (`OrmStore.PaddedNameDuplicates`).
- **A failed connection ends the live batch.** The first fetched record whose
  connection fails aborts `process_articles`. Every insert before it stays committed
  (`Pipeline.LiveBatch`). The ORM store returns `False` instead and the batch goes on
  (`OrmStore.VariantsAgreeOnNewArticles`).
- **`int()` strips only what Python calls whitespace.** U+001C–U+001F count as
  whitespace for `str.strip()` but not for `int()`, so `"5\x1c"` is not a year
  (`PyInt.SeparatorsAreNotStripped`).
- **Duplicate pmids.** On the live store the existing article keeps its first-written
  row, but the new record's authors and terms are still linked to it. On the ORM store
  the call leaves no trace (`OrmStore.VariantsDifferOnDuplicates`).
- **The SQL guard matches keywords as plain substrings.** A `created_at` column is
  rejected as `CREATE` (`Validation.CreatedAtIsRejected`). `EXEC` is tried before
  `EXECUTE` and is part of it, so no query is ever rejected naming `EXECUTE`
  (`Validation.ExecuteNeverNamed`).
- **The ILIKE filters do not escape the user's text.** `_` and `%` act as wildcards
  (`Queries.UnderscoreIsWildcard`).
- **The two `get_article_stats` disagree.** The live store always reports the year range
  (two NULLs on an empty store). The ORM one omits it when either end is falsy, a year 0
  included.

Boundaries taken as parameters:
- the HTML stripper of `_clean_text` is `markup: string -> string`;
- the parsed HTTP replies are `Option<Element>`;
- each insert's exception that the record's values do not cause is a `fault`: none, a
  failure inside the transaction, or a failed connection;
- the health probes' observations are given values.

## Model

| member | source | states |
|---|---|---|
| Mapper.CleanText | src/etl/pubmed_etl.py:153-162 | falsy text (None or "") gives "" whatever the markup step does |
| Mapper.CleanTextPlain | src/etl/pubmed_etl.py:153-158 | on text without markup the cleaned text has no surrounding whitespace and no whitespace runs, and holds the same words in the same order |
| Mapper.CleanTextIdempotent | src/etl/pubmed_etl.py:153-162 | cleaning already-cleaned text (no markup) changes nothing |
| Mapper.CleanTextFalsy | src/etl/pubmed_etl.py:154-155 | None and "" both clean to "" |
| Mapper.CleanedOrEmpty | src/etl/pubmed_etl.py:81-91 | a missing element gives "" for its cleaned text |
| Mapper.ExtractYear | src/etl/pubmed_etl.py:93-100 | a year is produced only from a present, non-empty PubDate/Year text |
| Mapper.YearRoundTrip | src/etl/pubmed_etl.py:93-100 | a PubDate/Year text spelling the integer n gives year n |
| Mapper.YearNotNumeric | src/etl/pubmed_etl.py:96-99 | a year text holding, once stripped, anything but digits, underscores and one leading sign gives no year: the ValueError is swallowed |
| Mapper.NamePart | src/etl/pubmed_etl.py:120-126 | a missing name element yields "" for that part |
| Mapper.MissingNamePartsAreEmpty | src/etl/pubmed_etl.py:120-130 | an author with no name elements maps to three "" parts and an empty full name, without failing |
| Mapper.EmptyForeNameIsNull | src/etl/pubmed_etl.py:121-130 | a ForeName element without text gives a NULL first name, not "", and the full name skips it |
| Mapper.EmptyForeNameExample | src/etl/pubmed_etl.py:119-137 | `<Author><LastName>Smith</LastName><ForeName/></Author>` maps to last name Smith, a NULL first name, middle "" and full name "Smith" |
| Mapper.Present | src/etl/pubmed_etl.py:129-130 | the kept name parts are exactly the truthy ones: every kept part is non-empty, and a string is kept iff it is a non-empty given part |
| Mapper.FullNameSplits | src/etl/pubmed_etl.py:128-130 | the full name splits back into exactly the non-empty parts in first, middle, last order (parts without whitespace): non-empty parts joined by single spaces |
| Mapper.FullNameSurnameOnly | src/etl/pubmed_etl.py:128-130 | empty first and middle names are skipped, giving the last name alone |
| Mapper.FullNameAllParts | src/etl/pubmed_etl.py:128-130 | first, middle and last are joined in that order with single spaces |
| Mapper.AuthorsOf | src/etl/pubmed_etl.py:119-137 | one author record per Author element, in document order |
| Mapper.TermsOfAppend | src/etl/pubmed_etl.py:141-151 | MeSH terms follow document order: the terms of concatenated headings are the concatenated terms |
| Mapper.TermsOfOne | src/etl/pubmed_etl.py:146-149 | a heading contributes its cleaned DescriptorName text, or nothing when the descriptor is missing or empty |
| Mapper.MissingFieldsDefault | src/etl/pubmed_etl.py:81-151 | with none of the looked-up elements present, the record is all defaults: "" texts, None year and ISSN, empty lists |
| Mapper.EmptyElementGivesEmptyLists | src/etl/pubmed_etl.py:114-151 | a childless element yields no authors and no MeSH terms |
| Mapper.MapArticle | src/etl/pubmed_etl.py:64-75 | the record carries the requested pmid |
| Mapper.FetchDetails | src/etl/pubmed_etl.py:53-79 | details exist iff the reply parsed and holds a PubmedArticle, and then carry the requested pmid |
| Xml.FirstTagged | src/etl/pubmed_etl.py:116-122 | find returns the first element with the tag in document order, and None iff none has it |
| Xml.Tagged | src/etl/pubmed_etl.py:119 | findall keeps exactly the children with the tag, and never more elements than there are children |
| Xml.TaggedAppend | src/etl/pubmed_etl.py:119 | findall keeps document order: the tagged elements of a concatenation are those of the first part followed by those of the second |
| Xml.TaggedOne | src/etl/pubmed_etl.py:119 | a single child is kept exactly when it carries the tag |
| Xml.LeafHasNoDescendants | src/etl/pubmed_etl.py:114-151 | a childless element finds nothing at any depth |
| PyInt.ParseInt | src/etl/pubmed_etl.py:96-99 | int() yields a number only from a text that, with surrounding whitespace stripped, is non-empty, holds a digit and has only digits, underscores and one leading sign; a negative number only from a leading "-" |
| PyInt.ShowNat | src/etl/pubmed_etl.py:97 | the decimal spelling of n is a well-formed digit string whose value is n |
| PyInt.ParseShowInt | src/etl/pubmed_etl.py:97 | int(str(n)) == n for every integer n |
| PyInt.SeparatorsAreNotStripped | src/etl/pubmed_etl.py:97 | int() does not strip U+001C, which str.strip() treats as whitespace, so "5\x1c" is rejected; a leading no-break space is stripped |
| Text.Squeeze | src/utils/validation.py:61-62 | strip-then-collapse yields the words of the input joined by single spaces, and has no surrounding whitespace or runs |
| Text.SqueezeKeepsWords | src/etl/pubmed_etl.py:158 | strip-then-collapse keeps the words of the input, in order |
| Text.SqueezeIdempotent | src/utils/validation.py:61-62 | strip-then-collapse applied twice equals once |
| Text.Strip | src/utils/validation.py:23 | the result of str.strip() neither starts nor ends with whitespace |
| Text.StripKeepsInner | src/utils/validation.py:23 | str.strip() keeps an inner slice of its input and drops only whitespace before and after it |
| Text.StripOfTrimmed | src/utils/validation.py:42 | str.strip() leaves a string without surrounding whitespace unchanged |
| Text.Upper | src/utils/validation.py:42 | the ASCII letters a–z map to A–Z, character by character, and every other character is unchanged |
| Text.UpperIdempotent | src/config/settings.py:55-57 | upper-casing twice equals upper-casing once |
| Pipeline.Run | src/etl/pubmed_etl.py:176-193 | a finished run counts successes plus errors equal to the visits; an aborted run stopped at a visit that had a record to insert |
| Pipeline.FetchAll | src/etl/pubmed_etl.py:45-79 | one fetch per id, in order; every fetched record carries its own id |
| Pipeline.AbortSticks | src/etl/pubmed_etl.py:179-193 | nothing catches an exception in the loop: once a run has aborted, later ids are never visited |
| Pipeline.ProcessArticles | src/etl/pubmed_etl.py:164-193 | an empty id list returns before any fetch; otherwise the ids are visited once each in order; the counters sum to the number of ids unless an insert raised, and then the report names that index and the store its earlier commits left |
| Pipeline.MissingAreErrors | src/etl/pubmed_etl.py:184-190 | every id whose fetch found nothing is counted as an error |
| Pipeline.RunFinishes | src/etl/pubmed_etl.py:179-193 | with a store that raises only on a failed connection, a run meeting no failed connection finishes |
| Pipeline.NeverAborts | src/etl/pubmed_etl.py:179-193 | with a store that never raises, every run finishes |
| Pipeline.ConnectFaultAborts | src/etl/pubmed_etl.py:179-193 | with a store that raises on a failed connection, a run in which a fetched record meets one aborts |
| Pipeline.AbortedAtRaise | src/etl/pubmed_etl.py:179-193 | an aborted run ran every earlier visit to completion, and its store is the one the raising insert left |
| Pipeline.AllStoredNoErrors | src/etl/pubmed_etl.py:184-188 | when every fetch succeeds and every insert commits, all ids are successes and there are no errors |
| Pipeline.NothingFetched | src/etl/pubmed_etl.py:189-190 | a run that fetches nothing leaves the store unchanged and counts every id as an error |
| Pipeline.AllFaultsChangeNothing | src/database/database.py:171-174 | with a rolling-back store, a batch whose every insert fails inside its transaction changes nothing and counts every id as an error |
| Pipeline.RunAppendOnly | src/etl/pubmed_etl.py:179-193 | a batch only adds to the store, whether it finishes or aborts |
| Pipeline.RunKeepsValid | src/etl/pubmed_etl.py:179-193 | a batch keeps every schema constraint when each insert does |
| Pipeline.LiveStoreQualifies | src/database/database.py:84-174 | the live insert rolls back when it does not return True, is append-only, keeps the DDL constraints, commits every storable record (every value fits its column and holds no U+0000) and raises exactly on a failed connection |
| Pipeline.OrmStoreQualifies | src/database/db_manager.py:46-122 | the ORM insert rolls back when it does not return True, is append-only, commits every storable record (every value fits its column and holds no U+0000) and never raises |
| Pipeline.LiveBatch | src/etl/pubmed_etl.py:164-193 | from a valid store a live batch leaves a valid, extended store; it finishes, counting every id once, iff no fetched record meets a failed connection; otherwise it aborts at the first that does, keeping the earlier commits |
| Schema.FindKey | src/database/database.py:100 | the lookup by natural key returns the first row with that key, and None iff no row has it |
| Schema.FindKeyStable | src/database/database.py:97-101 | appending rows never changes the id a present key resolves to |
| Schema.FindKeyAppendNew | src/database/database.py:89-101 | a missing key resolves to the row appended with it |
| Schema.Cut | src/database/database.py:23-24 | a VARCHAR column stores a prefix of the value no longer than the width, and the value itself iff it fits |
| Schema.UncutLookup | src/database/database.py:100 | with every stored key fitting its column, an equality lookup with the key as given finds what the cut key finds when the key fits, and nothing when it is longer |
| Schema.FindKeyAppendMissing | src/database/database.py:97-101 | after appending a row, a key is missing iff it was missing before and the new row has another key |
| Schema.EmptyIsValid | src/database/database.py:16-79 | the freshly created schema satisfies every constraint |
| Schema.YearSpan | src/database/database.py:197-200 | MIN and MAX over the non-null years are None iff there is no year, and otherwise bound every year and are attained |
| Store.ResolveJournal | src/database/database.py:89-101 | succeeds iff the title and ISSN are accepted by their columns (no U+0000, no excess but spaces) and a cut title is not already stored; then the title resolves to the id; a known title changes nothing (its ISSN included); an unknown one appends exactly one journal, cut to its columns |
| Store.PutArticle | src/database/database.py:104-114 | a new pmid gets its row; an existing pmid keeps its first-written row (first write wins); fails iff pmid or year is not an INTEGER or the title or abstract holds U+0000 |
| Store.ResolveAuthor | src/database/database.py:116-136 | succeeds iff the row is accepted (NOT NULL last name, widths, no U+0000) and a cut name is not already stored; a non-null (last, first) pair resolves to its row and a known pair changes nothing (middle and full name are never updated); a NULL first name always appends a row |
| Store.ResolveTerm | src/database/database.py:145-159 | succeeds iff the term is accepted by its column (no U+0000, no excess but spaces) and a cut term is not already stored; the term resolves to its id, reusing a known row or appending exactly one |
| Store.LinkAuthors | src/database/database.py:116-143 | fails only if some author row is not accepted; succeeds when every row is accepted and no name is cut; adds only author rows and links of this article |
| Store.LinkTerms | src/database/database.py:145-166 | fails only if some term is not accepted; succeeds when every term is accepted and none is cut; adds only term rows and links of this article |
| Store.Transaction | src/database/database.py:87-166 | a commit needs every value accepted by its column; every record that is accepted with no cut key commits; a commit only adds to the store |
| Store.InsertArticleData | src/database/database.py:84-174 | raises iff the connection fails; returns True iff no fault strikes, every value is accepted and every cut key is new; a storable record commits; anything but True leaves the store exactly as before; a commit only adds |
| Store.JournalFallback | src/database/database.py:96-101 | after a conflict, the fallback SELECT with the title as given finds the conflicting row when the title was not cut, and no row when it was |
| Store.AuthorFallback | src/database/database.py:130-136 | the same for a (last, first) pair: a row when neither part was cut, no row otherwise |
| Store.TermFallback | src/database/database.py:154-159 | the same for a MeSH term |
| Store.LinkAuthorsCommits | src/database/database.py:116-143 | linking authors succeeds iff every author row is accepted and every cut name is new, to the store and within the list |
| Store.LinkTermsCommits | src/database/database.py:145-166 | linking terms succeeds iff every term is accepted and every cut term is new |
| Store.TransactionCommits | src/database/database.py:87-169 | the transaction commits iff every value is accepted and every cut key is new |
| Store.LinkAuthorsLinks | src/database/database.py:116-143 | every author ends up linked to the article; one with a first name through the row its name resolves to |
| Store.LinkTermsLinks | src/database/database.py:145-166 | every term ends up linked to the article through the row its text resolves to |
| Store.TransactionEffect | src/database/database.py:89-114 | a known title keeps the journals and its id; an unknown one adds one journal with the record's ISSN; an existing pmid keeps its articles entry; a new one references the resolved journal |
| Store.TransactionLinks | src/database/database.py:116-166 | even on an existing pmid, every author and term of the record is linked to the article, and the only new links are the article's |
| Store.LinkAuthorsNoop | src/database/database.py:139-143 | re-linking authors already resolved and linked changes nothing: link rows are never duplicated |
| Store.LinkTermsNoop | src/database/database.py:162-166 | re-linking terms already resolved and linked changes nothing |
| Store.FreshAfterCommit | src/database/database.py:87-166 | after a commit, every key of the record names a stored row, so its cut keys are new iff it has none |
| Store.TransactionReplay | src/database/database.py:89-166 | replaying a committed transaction whose authors all have first names changes nothing, and commits iff no key of the record was cut |
| Store.InsertTwice | src/database/database.py:84-174 | inserting a record twice leaves the store as inserting it once, when every author has a first name; after a commit the second call returns True iff it does not fault and no key was cut |
| Store.NullFirstNameDuplicates | src/database/database.py:38 | with a NULL first name the uniqueness constraint never fires: a replay adds a second, identical author row |
| Store.OneAuthorAppends | src/database/database.py:118-122 | an author with a NULL first name always adds a row |
| Store.ResolveJournalValid | src/database/database.py:20-27 | resolving a journal keeps title uniqueness and the column constraints, and yields an existing id |
| Store.PutArticleValid | src/database/database.py:43-52 | putting an article that references an existing journal keeps every constraint |
| Store.ResolveAuthorValid | src/database/database.py:30-40 | resolving an author keeps UNIQUE(last_name, first_name) over non-null first names |
| Store.ResolveTermValid | src/database/database.py:55-61 | resolving a term keeps term uniqueness and width |
| Store.LinkAuthorsValid | src/database/database.py:64-70 | linking authors keeps both foreign keys of article_authors |
| Store.LinkTermsValid | src/database/database.py:73-79 | linking terms keeps both foreign keys of article_mesh_terms |
| Store.InsertKeepsValid | src/database/database.py:16-174 | every insert keeps the DDL's keys, uniqueness, column widths and references |
| Store.GetArticleStats | src/database/database.py:190-204 | the four totals are the sizes of the articles, authors, journals and mesh_terms tables; the year range is always reported; it is two NULLs iff no article has a year, and otherwise bounds every year |
| Store.InsertCounts | src/database/database.py:193-196 | a committed insert adds one article iff the pmid is new and one journal iff the title is new; author and term totals never shrink |
| OrmStore.ResolveJournal | src/database/db_manager.py:50-57 | a title holding U+0000 fails the lookup; any other title found as given is reused with no change; otherwise the call succeeds iff the row is accepted by its columns and no stored title equals the cut title, and then appends exactly one journal with the next id |
| OrmStore.ResolveAuthor | src/database/db_manager.py:77-90 | a last or first name holding U+0000 fails the lookup; otherwise the lookup with the name as given matches NULLs too; a found author is reused unchanged; otherwise the call succeeds iff the row is accepted, and appends exactly one row; an accepted author always resolves |
| OrmStore.ResolveTerm | src/database/db_manager.py:97-103 | a term holding U+0000 fails the lookup; any other term found as given is reused; otherwise the call succeeds iff it is accepted and the cut text is not stored, and appends exactly one row; an accepted term that is not cut always resolves |
| OrmStore.LinkAuthors | src/database/db_manager.py:76-94 | succeeds when every author row is accepted; adds only author rows and links of this article |
| OrmStore.LinkTerms | src/database/db_manager.py:97-107 | succeeds when every term is accepted and none is cut; adds only term rows and links of this article |
| OrmStore.InsertArticleData | src/database/db_manager.py:46-122 | never raises; anything but True leaves the store as before; True needs no fault; a duplicate pmid leaves no trace and returns True iff no fault and the journal title, free of U+0000, is found or can be added; a new storable record commits; a new committed article holds the record's values, fits its INTEGER columns, references its journal and is linked to every author and term |
| OrmStore.GetArticleStats | src/database/db_manager.py:138-164 | the four totals are the table sizes; the year range is reported iff some year exists and neither MIN nor MAX is 0, and then bounds every year |
| OrmStore.InsertTwice | src/database/db_manager.py:46-122 | after a successful insert, a second insert of the same record changes nothing, whatever the first names; it returns True iff it does not fault, unless the pmid was new and the title was cut, in which case it returns False |
| OrmStore.JournalFallsThrough | src/database/db_manager.py:50-57 | with a valid store holding the cut title, the lookup with the title as given misses the row and adding the journal fails on the unique title |
| OrmStore.ResolveAuthorKeepsNames | src/database/db_manager.py:77-90 | for a name that fits its columns, the lookup keeps at most one author per (last, first), NULLs included |
| OrmStore.LinkAuthorsKeepsNames | src/database/db_manager.py:76-94 | for names that fit their columns, linking a record's authors keeps at most one author per name |
| OrmStore.InsertKeepsNamesUnique | src/database/models.py:34-41 | with no declared uniqueness, the lookup logic alone keeps author names unique as long as no name is longer than its column |
| OrmStore.PaddedNameDuplicates | src/database/db_manager.py:77-90 | a last name padded with spaces past its column is stored cut, missed by the next lookup, and added again for a second article |
| OrmStore.ResolveJournalModelValid | src/database/models.py:23-28 | resolving a journal keeps the model's title uniqueness and widths |
| OrmStore.ResolveAuthorModelValid | src/database/models.py:34-41 | adding an author keeps the model's column constraints |
| OrmStore.ResolveTermModelValid | src/database/models.py:62-66 | resolving a term keeps term uniqueness |
| OrmStore.LinkAuthorsModelValid | src/database/models.py:9-14 | the author links keep their composite key and references |
| OrmStore.LinkTermsModelValid | src/database/models.py:16-21 | the term links keep their composite key and references |
| OrmStore.InsertKeepsModelValid | src/database/models.py:9-70 | every insert keeps the models' keys, uniqueness, columns and references |
| OrmStore.LinkAuthorsLinks | src/database/db_manager.py:92-94 | every author of the list is linked to the article through a row carrying its name, as given or as stored |
| OrmStore.LinkTermsLinks | src/database/db_manager.py:97-107 | every term of the list is linked to the article through a row carrying its text, as given or as stored |
| OrmStore.AuthorsAgree | src/database/db_manager.py:76-94 | with accepted rows, first names present and no cut name, the ORM and live author steps agree |
| OrmStore.TermsAgree | src/database/db_manager.py:97-107 | with accepted terms, none cut, the ORM and live term steps agree |
| OrmStore.VariantsAgreeOnNewArticles | src/database/db_manager.py:46-122 | on a new pmid with a storable record and first names present, the two stores give the same outcome, except on a failed connection: the ORM returns False, the live store raises, both leaving the store unchanged |
| OrmStore.VariantsDifferOnDuplicates | src/database/db_manager.py:59-63 | on a duplicate pmid the live store links the new author to the existing article; the ORM store leaves everything as it was |
| Ranking.Least | src/database/database.py:197-200 | MIN of a non-empty set is an element below all others |
| Ranking.Greatest | src/database/database.py:197-200 | MAX of a non-empty set is an element above all others |
| Ranking.Rank | src/database/db_manager.py:197 | ORDER BY … LIMIT n yields min(n, count) distinct keys in order, each before every key left out |
| Ranking.RankAll | src/database/db_manager.py:197 | with a limit at least the count, every key is listed |
| Queries.LikeIsContains | src/database/db_manager.py:173-178 | LIKE '%t%' with a wildcard-free t holds iff t is a substring |
| Queries.ILikeIsContains | src/database/db_manager.py:173-178 | ILIKE '%t%' with a wildcard-free t is a case-insensitive substring test |
| Queries.UnderscoreIsWildcard | src/database/db_manager.py:174 | the user's _ is not escaped: "5_" matches "53", which does not contain "5_" |
| Queries.SplitOn | src/database/db_manager.py:183 | str.split pieces hold no separator and re-join to the input |
| Queries.CompileYearFilter | src/database/db_manager.py:181-189 | "All" applies no filter and is the only text that does; an integer is an equality test; a text with a dash but not exactly two parts raises |
| Queries.CompileRange | src/database/db_manager.py:182-187 | "x-y" with integer texts x and y is the inclusive range from int(x) to int(y) |
| Queries.YearRangeInclusive | src/database/db_manager.py:182-187 | "a-b" keeps exactly the years a ≤ y ≤ b and never a NULL year |
| Queries.ExactTest | src/database/db_manager.py:188-189 | a year text gives an equality test only when it reads as an INTEGER, and then on that integer |
| Queries.ExactShownYear | src/database/db_manager.py:181-189 | the decimal text of a year y ≥ 0 compiles to the equality test on y iff y is an INTEGER, and raises otherwise |
| Queries.JournalOf | src/database/db_manager.py:170 | the inner join finds the article's journal iff its reference resolves, and it is the journal that reference names |
| Queries.KeyBeforeOrder | src/database/db_manager.py:197 | the result order is total, transitive and antisymmetric |
| Queries.ResultOrder | src/database/db_manager.py:197 | ordering by year desc, then pmid desc, is a total preorder on pmids |
| Queries.SearchArticles | src/database/db_manager.py:166-206 | results are distinct matching articles in year-desc, pmid-desc order; there are min(limit, matches) of them, each before every match left out; a raising query gives [] |
| Queries.SearchComplete | src/database/db_manager.py:197 | with a large enough limit every match is returned |
| Queries.NoFiltersKeepJournalled | src/database/db_manager.py:170-173 | with no filters an article is kept iff it has a journal |
| Queries.TermIsSubstring | src/database/db_manager.py:173-178 | a wildcard-free term keeps an article without abstract iff it has a journal and its title contains the term, case-insensitively |
| Queries.ArticleReadBack | src/database/db_manager.py:208-218 | an article the live insert committed under a new pmid reads back as the record's row, under the journal its title resolves to and whose title is the record's, cut to its column; every other pmid reads as before |
| Queries.OrmArticleReadBack | src/database/db_manager.py:208-218 | an article the ORM insert committed under a new pmid reads back as the record's row, under a journal whose title is the record's as given or cut; every earlier article reads as before |
| Queries.TopCounts | src/database/db_manager.py:227-229 | GROUP BY … ORDER BY COUNT(*) DESC LIMIT n: at most n distinct groups with their counts, descending, each at least every group left out |
| Queries.GroupCountPositive | src/database/db_manager.py:227 | a key is a group iff it counts at least one row |
| Queries.TopGroups | src/database/db_manager.py:220-270 | each listed count is that group's COUNT(*) and is at least 1; counts descend; no group left out counts more |
| Queries.TopJournals | src/database/db_manager.py:220-236 | journal titles by number of articles, descending, at most limit of them |
| Queries.TopAuthors | src/database/db_manager.py:238-254 | author full names by number of links, descending; namesakes count together |
| Queries.CommonMeshTerms | src/database/db_manager.py:256-272 | term texts by number of links, descending |
| Validation.ValidatePmid | src/utils/validation.py:3-16 | accepted iff non-empty and int() gives 1..999999999; the message is "" iff accepted; empty, not a number, not positive and too large get their own messages |
| Validation.ValidateShownPmid | src/utils/validation.py:8-14 | the decimal text of n is accepted iff 1 ≤ n ≤ 999999999, with the positive and too-large messages otherwise |
| Validation.NonNumericTextRejected | src/utils/validation.py:8-16 | a non-empty text holding, once stripped, anything but digits, underscores and one leading sign is rejected as not a number |
| Validation.PmidExampleA | tests/test_validation.py:10-14 | "12345678" is accepted with an empty message |
| Validation.PmidExampleB | tests/test_validation.py:16-20 | "" is rejected as empty |
| Validation.PmidExampleC | tests/test_validation.py:22-26 | "-123" is rejected as not positive |
| Validation.PmidExampleD | tests/test_validation.py:28-32 | "abc123" is rejected as not a number |
| Validation.FirstContained | src/utils/validation.py:31-33 | the list entry found is the first that occurs; none is found iff none occurs |
| Validation.ValidateSearchTerm | src/utils/validation.py:18-35 | accepted iff non-empty, at least 2 stripped, at most 200 raw and free of every dangerous substring; checks in that order, with the first offender named |
| Validation.SearchTermNamesFirstOffender | src/utils/validation.py:30-33 | a term passing the length checks is rejected naming the first dangerous substring in list order |
| Validation.SearchExampleA | tests/test_validation.py:40-44 | "a" is rejected as too short |
| Validation.SearchExampleB | tests/test_validation.py:46-50 | "test<script>" is rejected naming "<" |
| Validation.ValidateSqlQuery | src/utils/validation.py:37-54 | accepted iff non-empty, starting with SELECT once stripped and upper-cased, and free of every keyword; empty, not-SELECT and the first keyword get their messages |
| Validation.KeywordRejects | src/utils/validation.py:49-52 | any keyword anywhere in a SELECT rejects it with the keyword message |
| Validation.ExecuteNeverFirst | src/utils/validation.py:49-52 | the keyword found first is never EXECUTE, because EXEC precedes it |
| Validation.ExecuteNeverNamed | src/utils/validation.py:49-52 | no query is rejected naming EXECUTE |
| Validation.CreatedAtIsRejected | src/utils/validation.py:49-52 | "SELECT created_at FROM articles" is rejected: CREATE occurs inside an identifier |
| Validation.NotSelectRejected | src/utils/validation.py:44-46 | a non-empty query not starting with SELECT is rejected as such, whatever else it holds |
| Validation.DropIsNotSelect | tests/test_validation.py:58-62 | "DROP TABLE articles" is rejected as not a SELECT |
| Validation.ChainedDropIsRejected | tests/test_validation.py:64-68 | a DROP chained after a SELECT is rejected with the keyword message |
| Validation.TrimmedQueryUpper | src/utils/validation.py:42 | a query without surrounding whitespace is only upper-cased |
| Validation.SanitizeInput | src/utils/validation.py:56-64 | "" stays ""; the result has no surrounding whitespace or runs and holds the input's words in order |
| Validation.SanitizeIdempotent | src/utils/validation.py:56-64 | sanitising twice equals sanitising once |
| Health.CheckDatabase | src/api/health.py:22-33 | healthy iff the database answered; an exception is unhealthy with its text; a reply without a row returns nothing |
| Health.CheckPubmedApi | src/api/health.py:35-47 | healthy iff status 200; otherwise unhealthy with the status or the exception text |
| Health.CheckGeminiApi | src/api/health.py:49-62 | warning iff no key, with no call made; healthy iff a key and an answer |
| Health.Combine | src/api/health.py:73-76 | unhealthy wins; the result is healthy iff both are healthy |
| Health.RunAllChecks | src/api/health.py:64-81 | overall is unhealthy iff some check is, warning iff none is unhealthy and some warns, healthy iff all are healthy; every check is recorded under its name; a missing result raises |
| Health.GetHealthStatus | src/api/health.py:83-86 | the three registered checks are run and recorded under their names; overall is healthy iff all three succeed and warning iff only the Gemini key is missing; the report exists iff the database check returned one |
| Settings.ValidatePort | src/config/settings.py:16-20 | accepted iff 1 ≤ port ≤ 65535, unchanged |
| Settings.ValidateApiKey | src/config/settings.py:27-31 | rejected iff non-empty and shorter than 10 |
| Settings.ValidateMaxArticles | src/config/settings.py:39-45 | accepted iff 1 ≤ v ≤ 10000; non-positive and too-high get their own messages |
| Settings.ValidateLogLevel | src/config/settings.py:52-57 | accepted iff the upper-cased text is one of the five levels, returned upper-cased |
| Settings.LogLevelIdempotent | src/config/settings.py:52-57 | normalising an accepted level again gives the same result |
| Settings.LowerCaseLevelsAccepted | src/config/settings.py:54-57 | every level is accepted in lower case and normalised back |
| Settings.DefaultsValid | src/config/settings.py:11 | the defaults 5432, 150 and "INFO" pass their validators |
| Settings.LoadSettings | src/config/settings.py:59-69 | loading succeeds iff every given field passes; the fields are the given or default values, the log level upper-cased; a bad port fails with its message |
| Settings.LoadDefaults | src/config/settings.py:59-69 | with nothing set every field takes its default |

## Left out

- HTTP and XML parsing: `search_articles` and the request, status check and
  `ET.fromstring` of `fetch_article_details` are I/O. A search is a given list of pmids;
  a fetch is a given `Option<Element>` (None when the request or the parse raised).
- BeautifulSoup's `get_text()` is a foreign library: it is the parameter `markup`, applied
  after the whitespace step. No claim is made that the final cleaned text is trimmed
  unless `markup` is the identity on it.
- `time.sleep` and `request_delay`: timing only.
- Database drivers, sessions, `execute_query` and `create_tables` execution: replaced by
  the in-memory store. An exception that the record's values do not cause is the `fault`
  value. Errors that the values do cause are a `DbError`: a string holding U+0000 (refused
  by psycopg2 before it reaches PostgreSQL), a VARCHAR excess that is not all spaces, a
  NULL last name, a value outside INTEGER, a fallback `SELECT` without a row, and the ORM's
  unique title or term.
- OrmStore.InsertArticleData: a connection lost inside the session's `try` is taken to
  return `False`, as SQLAlchemy's `session.rollback()` discards a broken connection
  instead of raising; a failure of that rollback itself is not modelled.
- SERIAL gaps: a sequence value consumed by a conflicting or rolled-back insert is not
  modelled; ids are dense.
- pmids are integers throughout. The ETL passes the text id and PostgreSQL casts it; that
  cast is not modelled.
- Text.Upper: maps only the ASCII letters a–z. Python's `str.upper()` is Unicode-wide and
  can change the length ('ß' becomes "SS"), and it maps 'ſ' to 'S', so `"ſelect"` passes
  the SELECT test in Python but not in the model. PostgreSQL's `lower` in ILIKE is
  Unicode too, and so is `Text.Lower`'s Python counterpart.
- PyInt.ParseInt: `int()` also accepts non-ASCII decimal digits (Arabic-Indic, fullwidth
  and so on). The model accepts ASCII digits only. Python 3.11 and later also reject
  texts of more than 4300 digits; no Python version is pinned, so that limit is not
  modelled. The whitespace `int()` strips is modelled: Python's whitespace except
  U+001C–U+001F.
- Queries.ExactTest: PostgreSQL reads the text as an `INTEGER` by its own rules, which
  differ from `int()` on non-ASCII whitespace and, before PostgreSQL 16, on underscores.
  The model reads it with `int()`'s rules and the `INTEGER` range.
- OrmStore.InsertKeepsNamesUnique: holds only for names that fit their columns. A name
  padded with spaces past its column is stored cut and added again
  (`OrmStore.PaddedNameDuplicates`).
- OrmStore.ResolveAuthorKeepsNames: needs names that fit their columns, for the same
  reason.
- OrmStore.LinkAuthorsKeepsNames: needs names that fit their columns, for the same
  reason.
- OrmStore.InsertArticleData: for a new pmid, the contract promises `True` for every
  storable record without a fault, and `True` needs no fault. It does not give the exact
  condition under which a record that is not storable still commits. An author found by
  the lookup is reused even when the record's other columns would not fit.
- Store.TransactionReplay: a replay is a no-op only when every author has a first name
  (`Store.NullFirstNameDuplicates`), and it commits only when no key was cut.
- `process_articles` also calls `create_tables` and `get_article_stats`, each opening its
  own connection. Their failures, and the DDL being re-run, are outside the batch model.
  `create_tables` is `Schema.EmptyDb` on a fresh store and does nothing on an existing one.
- Health probes: the connection, HTTP request and Gemini call are I/O and are given as
  their observations.
- Settings: the environment parsing and type coercion of pydantic, the
  `Configuration error` re-wrapping of the exception message, and `validate_all`
  (which cannot fail) are left out.
- The dashboard, the Gemini client, the logger, `config.py` and the scripts are UI or
  environment glue.
- Concurrency: a single sequential writer is assumed.
- Queries.TopCounts: the order among equal counts is left open, as SQL leaves it.
  The contract states only what every order satisfies.
- Queries.SearchArticles: NULL years are placed first, PostgreSQL's default for `DESC`.
  Among equal keys the order is open.
- Validation.ValidateSearchTerm: the accepted example `"machine learning"` is covered by
  the general if-and-only-if, not by a lemma of its own.
- Validation.ValidateSqlQuery: the accepted example `"SELECT * FROM articles"` is covered
  by the general if-and-only-if, not by a lemma of its own.
- Validation.SanitizeInput: the example `"  hello   world  "` is covered by the statement
  about words and canonical form, not by a lemma of its own.
- Mapper.CleanTextPlain: the example `"  Hello   World  \n\n  "` is covered by the general
  statement, not by a lemma of its own.
