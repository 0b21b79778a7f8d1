/** The read side of `src/database/db_manager.py`: `search_articles`, `get_article_by_pmid`
    and the three top-N queries, over the store of `Schema`.

    A query that raises returns the empty list; here that is the `[]` result of a
    year filter that does not parse and of a negative `LIMIT`. */
module Queries {
  import opened Wrappers
  import Text
  import PyInt
  import opened Schema
  import Ranking
  import Mapper
  import Store
  import OrmStore

  // ---------------------------------------------------------------------------
  // LIKE and ILIKE

  /** PostgreSQL `s LIKE p`: `%` matches any run of characters, `_` any one character,
      and a backslash makes the next pattern character literal. The patterns the
      queries build end in `%`, so a backslash never ends one. */
  predicate Like(s: string, p: string)
    decreases |p|, |s|
  {
    if p == [] then s == []
    else if p[0] == '%' then Like(s, p[1..]) || (s != [] && Like(s[1..], p))
    else if p[0] == '_' then s != [] && Like(s[1..], p[1..])
    else if p[0] == '\\' then |p| >= 2 && s != [] && s[0] == p[1] && Like(s[1..], p[2..])
    else s != [] && s[0] == p[0] && Like(s[1..], p[1..])
  }

  /** `s ILIKE p`: `LIKE` after lower-casing both sides. */
  predicate ILike(s: string, p: string) {
    Like(Text.Lower(s), Text.Lower(p))
  }

  /** The pattern `%t%` that the filters build from a user's text. */
  function Surround(t: string): string {
    "%" + t + "%"
  }

  /** `t` holds no character that `LIKE` interprets. */
  predicate Literal(t: string) {
    forall i :: 0 <= i < |t| ==> t[i] != '%' && t[i] != '_' && t[i] != '\\'
  }

  lemma {:induction false} LikeAnything(s: string)
    ensures Like(s, "%")
    decreases |s|
  {
    if s != [] {
      LikeAnything(s[1..]);
    }
  }

  /** A leading `%` lets the rest of the pattern match any suffix. */
  lemma {:induction false} LikePercent(s: string, q: string)
    ensures Like(s, "%" + q) <==> exists k :: 0 <= k <= |s| && Like(s[k..], q)
    decreases |s|
  {
    var p := "%" + q;
    assert p[1..] == q;
    assert s[0..] == s;
    if s != [] {
      LikePercent(s[1..], q);
      if Like(s[1..], p) {
        var k :| 0 <= k <= |s[1..]| && Like(s[1..][k..], q);
        assert s[1..][k..] == s[k + 1..];
      }
      if k :| 0 <= k <= |s| && Like(s[k..], q) {
        if k > 0 {
          assert s[1..][k - 1..] == s[k..];
        }
      }
    }
  }

  /** A literal prefix of the pattern must start the string. */
  lemma {:induction false} LikeLiteral(s: string, t: string, q: string)
    requires Literal(t)
    ensures Like(s, t + q) <==> Text.StartsWith(s, t) && Like(s[|t|..], q)
    decreases |t|
  {
    if t == [] {
      assert t + q == q;
    } else {
      var p := t + q;
      assert p[0] == t[0] && p[1..] == t[1..] + q;
      if s != [] {
        LikeLiteral(s[1..], t[1..], q);
        if |t| <= |s| {
          assert s[1..][|t| - 1..] == s[|t|..];
          assert s[..|t|] == [s[0]] + s[1..][..|t| - 1];
        }
      }
    }
  }

  /** For a term free of wildcards, `LIKE '%t%'` is the substring test. */
  lemma LikeIsContains(s: string, t: string)
    requires Literal(t)
    ensures Like(s, Surround(t)) <==> Text.Contains(s, t)
  {
    assert Surround(t) == "%" + (t + "%");
    LikePercent(s, t + "%");
    forall k | 0 <= k <= |s|
      ensures Like(s[k..], t + "%") <==> Text.StartsWith(s[k..], t)
    {
      LikeLiteral(s[k..], t, "%");
      if |t| <= |s| - k {
        LikeAnything(s[k..][|t|..]);
      }
    }
  }

  lemma LowerSurround(t: string)
    ensures Text.Lower(Surround(t)) == Surround(Text.Lower(t))
  {
  }

  /** For a term free of wildcards, `ILIKE '%t%'` is a case-insensitive substring test. */
  lemma ILikeIsContains(s: string, t: string)
    requires Literal(t)
    ensures ILike(s, Surround(t)) <==> Text.Contains(Text.Lower(s), Text.Lower(t))
  {
    LowerSurround(t);
    LikeIsContains(Text.Lower(s), Text.Lower(t));
  }

  /** A `_` or `%` in the user's text is not escaped: `"5_"` matches `"53"`. */
  lemma UnderscoreIsWildcard()
    ensures ILike("53", Surround("5_"))
    ensures !Text.Contains("53", "5_")
  {
    assert Surround("5_") == "%5_%";
    assert Like("53", "5_%") by {
      LikeAnything("");
    }
    assert "53"[0..] == "53";
  }

  // ---------------------------------------------------------------------------
  // The year filter

  /** The `year_filter` argument: a string from the UI, or an integer. */
  datatype YearFilter = YearText(text: string) | YearNumber(n: int)

  /** What the year filter keeps. */
  datatype YearTest = AnyYear | Between(lo: int, hi: int) | Exactly(y: int)

  /** Python's `s.split(c)`: the pieces between occurrences of `c`. */
  function SplitOn(s: string, c: char): (r: seq<string>)
    ensures |r| >= 1
    ensures forall i :: 0 <= i < |r| ==> c !in r[i]
    ensures JoinWith(r, c) == s
  {
    if s == [] then [[]]
    else
      var rest := SplitOn(s[1..], c);
      if s[0] == c then
        assert ([[]] + rest)[1..] == rest;
        [[]] + rest
      else
        var r := [[s[0]] + rest[0]] + rest[1..];
        assert r[1..] == rest[1..];
        assert c !in [s[0]] + rest[0];
        r
  }

  /** `c.join(ws)`. */
  function JoinWith(ws: seq<string>, c: char): string
    requires |ws| >= 1
  {
    if |ws| == 1 then ws[0] else ws[0] + [c] + JoinWith(ws[1..], c)
  }

  lemma SplitOnNone(s: string, c: char)
    requires c !in s
    ensures SplitOn(s, c) == [s]
  {
  }

  lemma {:induction false} SplitOnOne(a: string, b: string, c: char)
    requires c !in a
    ensures SplitOn(a + [c] + b, c) == [a] + SplitOn(b, c)
    decreases |a|
  {
    if a == [] {
      assert (a + [c] + b)[1..] == b;
    } else {
      assert (a + [c] + b)[1..] == a[1..] + [c] + b;
      SplitOnOne(a[1..], b, c);
      assert [a[0]] + a[1..] == a;
    }
  }

  /** The year filter as `search_articles` applies it; `None` when building the query
      raises (wrong number of `-`-separated parts, a bound that is not an integer, or
      a text PostgreSQL cannot read as an `INTEGER`). */
  function CompileYearFilter(f: YearFilter): (r: Option<YearTest>)
    ensures f == YearText("All") ==> r == Some(AnyYear)
    ensures f.YearNumber? ==> r == Some(Exactly(f.n))
    ensures f.YearText? && f != YearText("All") && '-' in f.text && |SplitOn(f.text, '-')| != 2 ==> r == None
    ensures r == Some(AnyYear) ==> f == YearText("All")
  {
    match f
    case YearNumber(n) => Some(Exactly(n))
    case YearText(t) =>
      if t == "All" then Some(AnyYear)
      else if '-' in t then RangeTest(SplitOn(t, '-'))
      else ExactTest(t)
  }

  /** `start_year, end_year = parts` and the two `int()` calls. */
  function RangeTest(parts: seq<string>): (r: Option<YearTest>)
    ensures r.Some? ==> r.value.Between?
  {
    if |parts| != 2 then None
    else
      match (PyInt.ParseInt(parts[0]), PyInt.ParseInt(parts[1]))
      case (Some(lo), Some(hi)) => Some(Between(lo, hi))
      case _ => None
  }

  /** `publication_year = 'text'`: PostgreSQL reads the text as an `INTEGER`. */
  function ExactTest(t: string): (r: Option<YearTest>)
    ensures r.Some? ==> r.value.Exactly? && Int4(r.value.y)
  {
    match PyInt.ParseInt(t)
    case Some(y) => if Int4(y) then Some(Exactly(y)) else None
    case None => None
  }

  /** The decimal text of a year is an equality test on that year exactly when the year
      is a PostgreSQL `INTEGER`; a negative year's `-` makes it a range instead. */
  lemma ExactShownYear(y: int)
    requires 0 <= y
    ensures CompileYearFilter(YearText(PyInt.ShowInt(y))) == if Int4(y) then Some(Exactly(y)) else None
  {
    var s := PyInt.ShowInt(y);
    ShownNatHasNoDash(y);
    PyInt.ParseShowInt(y);
    assert s != "All" by {
      assert PyInt.IsDigit(s[0]);
    }
  }

  /** A NULL year fails every comparison. */
  predicate KeepsYear(test: YearTest, year: Option<int>) {
    match test
    case AnyYear => true
    case Between(lo, hi) => year.Some? && lo <= year.value <= hi
    case Exactly(y) => year == Some(y)
  }

  /** A text splitting at its one `-` into two integers is a range. */
  lemma CompileRange(x: string, y: string, lo: int, hi: int)
    requires '-' !in x && '-' !in y
    requires PyInt.ParseInt(x) == Some(lo) && PyInt.ParseInt(y) == Some(hi)
    ensures CompileYearFilter(YearText(x + "-" + y)) == Some(Between(lo, hi))
  {
    var t := x + "-" + y;
    assert t[|x|] == '-';
    assert t != "All";
    SplitOnOne(x, y, '-');
    SplitOnNone(y, '-');
    assert SplitOn(t, '-') == [x, y];
    assert RangeTest([x, y]) == Some(Between(lo, hi));
  }

  /** A non-negative number prints without a `-`. */
  lemma ShownNatHasNoDash(n: nat)
    ensures '-' !in PyInt.ShowInt(n)
  {
    var s := PyInt.ShowInt(n);
    assert forall i :: 0 <= i < |s| ==> PyInt.IsDigit(s[i]);
  }

  /** `"a-b"` keeps the years from `a` to `b`, both included. */
  lemma YearRangeInclusive(a: nat, b: nat)
    ensures CompileYearFilter(YearText(PyInt.ShowInt(a) + "-" + PyInt.ShowInt(b))) == Some(Between(a, b))
    ensures forall y :: KeepsYear(Between(a, b), Some(y)) <==> a <= y <= b
    ensures !KeepsYear(Between(a, b), None)
  {
    assert CompileYearFilter(YearText(PyInt.ShowInt(a) + "-" + PyInt.ShowInt(b))) == Some(Between(a, b)) by {
      var sa := PyInt.ShowInt(a);
      var sb := PyInt.ShowInt(b);
      ShownNatHasNoDash(a);
      ShownNatHasNoDash(b);
      PyInt.ParseShowInt(a);
      PyInt.ParseShowInt(b);
      CompileRange(sa, sb, a, b);
    }
  }

  // ---------------------------------------------------------------------------
  // search_articles

  /** The inner join with `journals`: the article's journal, when its reference resolves. */
  function JournalOf(db: Db, pmid: int): (r: Option<Journal>)
    requires pmid in db.articles
    ensures r.Some? <==> db.articles[pmid].journalId.Some? && IsId(|db.journals|, db.articles[pmid].journalId.value)
    ensures r.Some? ==> r.value == db.journals[db.articles[pmid].journalId.value - 1]
  {
    var a := db.articles[pmid];
    if a.journalId.Some? && IsId(|db.journals|, a.journalId.value) then Some(db.journals[a.journalId.value - 1])
    else None
  }

  /** The `WHERE` clause: an empty term or journal filter is skipped; a NULL abstract
      never matches. */
  predicate Matches(db: Db, term: string, test: YearTest, journalFilter: string, pmid: int)
    requires pmid in db.articles
  {
    var a := db.articles[pmid];
    && JournalOf(db, pmid).Some?
    && (term == "" || ILike(a.title, Surround(term))
        || (a.abstractText.Some? && ILike(a.abstractText.value, Surround(term))))
    && KeepsYear(test, a.year)
    && (journalFilter == "" || ILike(JournalOf(db, pmid).value.title, Surround(journalFilter)))
  }

  /** The sort key: `publication_year DESC` with NULLs first (PostgreSQL's default for
      `DESC`), then `pmid DESC`. */
  function SortKey(db: Db, pmid: int): (Option<int>, int) {
    (if pmid in db.articles then db.articles[pmid].year else None, pmid)
  }

  predicate KeyBefore(a: (Option<int>, int), b: (Option<int>, int)) {
    match (a.0, b.0)
    case (None, Some(_)) => true
    case (Some(_), None) => false
    case (None, None) => a.1 >= b.1
    case (Some(x), Some(y)) => x > y || (x == y && a.1 >= b.1)
  }

  lemma KeyBeforeOrder(a: (Option<int>, int), b: (Option<int>, int), c: (Option<int>, int))
    ensures KeyBefore(a, b) || KeyBefore(b, a)
    ensures KeyBefore(a, b) && KeyBefore(b, c) ==> KeyBefore(a, c)
    ensures KeyBefore(a, b) && KeyBefore(b, a) ==> a == b
  {
  }

  /** The order of the results, on pmids. */
  function ResultBefore(db: Db): (int, int) -> bool {
    (p: int, q: int) => KeyBefore(SortKey(db, p), SortKey(db, q))
  }

  lemma ResultOrder(db: Db)
    ensures Ranking.TotalPreorder(ResultBefore(db))
  {
    forall p: int, q: int
      ensures ResultBefore(db)(p, q) || ResultBefore(db)(q, p)
    {
      KeyBeforeOrder(SortKey(db, p), SortKey(db, q), SortKey(db, q));
    }
    forall p: int, q: int, o: int | ResultBefore(db)(p, q) && ResultBefore(db)(q, o)
      ensures ResultBefore(db)(p, o)
    {
      KeyBeforeOrder(SortKey(db, p), SortKey(db, q), SortKey(db, o));
    }
  }

  /** The pmids the `WHERE` clause keeps. */
  ghost function Matching(db: Db, term: string, test: YearTest, journalFilter: string): set<int> {
    set p | p in db.articles && Matches(db, term, test, journalFilter, p)
  }

  /** `search_articles`, returning the pmids of the result rows in order. */
  ghost function SearchArticles(db: Db, term: string, yearFilter: YearFilter, journalFilter: string, limit: int): (r: seq<int>)
    ensures limit < 0 || CompileYearFilter(yearFilter).None? ==> r == []
    ensures forall i :: 0 <= i < |r| ==> r[i] in db.articles
    ensures forall i :: 0 <= i < |r| ==> Matches(db, term, CompileYearFilter(yearFilter).value, journalFilter, r[i])
    ensures forall i, j :: 0 <= i < j < |r| ==> r[i] != r[j]
    ensures forall i, j :: 0 <= i < j < |r| ==> KeyBefore(SortKey(db, r[i]), SortKey(db, r[j]))
    ensures limit >= 0 && CompileYearFilter(yearFilter).Some? ==>
              var m := Matching(db, term, CompileYearFilter(yearFilter).value, journalFilter);
              && |r| == (if limit < |m| then limit else |m|)
              && forall i, p :: 0 <= i < |r| && p in m && p !in r ==> KeyBefore(SortKey(db, r[i]), SortKey(db, p))
  {
    match CompileYearFilter(yearFilter)
    case None => []
    case Some(test) =>
      if limit < 0 then []
      else
        ResultOrder(db);
        Ranking.Rank(Matching(db, term, test, journalFilter), ResultBefore(db), limit as nat)
  }

  /** With a limit at least the number of matches, every match is returned. */
  lemma SearchComplete(db: Db, term: string, test: YearTest, journalFilter: string, limit: nat)
    requires |Matching(db, term, test, journalFilter)| <= limit
    ensures forall p :: p in db.articles && Matches(db, term, test, journalFilter, p) <==>
              p in Ranking.Rank(Matching(db, term, test, journalFilter), ResultBefore(db), limit)
  {
    ResultOrder(db);
    Ranking.RankAll(Matching(db, term, test, journalFilter), ResultBefore(db), limit);
  }

  /** With no filters at all, the search keeps every article that has a journal. */
  lemma NoFiltersKeepJournalled(db: Db, pmid: int)
    requires pmid in db.articles
    ensures Matches(db, "", AnyYear, "", pmid) <==> JournalOf(db, pmid).Some?
  {
  }

  /** The title test of a wildcard-free term is a case-insensitive substring test. */
  lemma TermIsSubstring(db: Db, term: string, pmid: int)
    requires pmid in db.articles && term != "" && Literal(term)
    requires db.articles[pmid].abstractText.None?
    ensures Matches(db, term, AnyYear, "", pmid) <==>
              JournalOf(db, pmid).Some? && Text.Contains(Text.Lower(db.articles[pmid].title), Text.Lower(term))
  {
    ILikeIsContains(db.articles[pmid].title, term);
  }

  // ---------------------------------------------------------------------------
  // get_article_by_pmid

  function ArticleByPmid(db: Db, pmid: int): (r: Option<Article>)
    ensures r.Some? <==> pmid in db.articles
    ensures r.Some? ==> r.value == db.articles[pmid]
  {
    if pmid in db.articles then Some(db.articles[pmid]) else None
  }

  /** An article the live store committed reads back with the record's values and the
      journal its title names; every other pmid reads as before. */
  lemma {:induction false} ArticleReadBack(db: Db, rec: Mapper.ArticleRecord, fault: Store.Fault)
    requires rec.pmid !in db.articles && Store.InsertArticleData(db, rec, fault).Succeeded()
    ensures var d := Store.InsertArticleData(db, rec, fault).db;
      && Store.JournalIdOf(d, rec.journalTitle).Some?
      && ArticleByPmid(d, rec.pmid) == Some(Store.ArticleRow(rec, Store.JournalIdOf(d, rec.journalTitle).value))
      && JournalOf(d, rec.pmid).Some?
      && JournalOf(d, rec.pmid).value.title == Cut(rec.journalTitle, JournalTitleWidth)
      && forall p :: p != rec.pmid ==> ArticleByPmid(d, p) == ArticleByPmid(db, p)
  {
    Store.TransactionEffect(db, rec);
  }

  /** An article the ORM committed reads back with the record's values, under a journal
      whose title is the record's as given or cut; every earlier article reads as before. */
  lemma {:induction false} OrmArticleReadBack(db: Db, rec: Mapper.ArticleRecord, fault: Store.Fault)
    requires rec.pmid !in db.articles && OrmStore.InsertArticleData(db, rec, fault).ok
    ensures var d := OrmStore.InsertArticleData(db, rec, fault).db;
      && ArticleByPmid(d, rec.pmid).Some?
      && ArticleByPmid(d, rec.pmid).value.journalId.Some?
      && ArticleByPmid(d, rec.pmid) == Some(Store.ArticleRow(rec, ArticleByPmid(d, rec.pmid).value.journalId.value))
      && JournalOf(d, rec.pmid).Some?
      && JournalOf(d, rec.pmid).value.title in {rec.journalTitle, Cut(rec.journalTitle, JournalTitleWidth)}
      && forall p :: p in db.articles ==> ArticleByPmid(d, p) == ArticleByPmid(db, p)
  {
  }

  // ---------------------------------------------------------------------------
  // The top-N queries

  /** `GROUP BY key ORDER BY COUNT(*) DESC LIMIT limit` over the groups `keys`: pairs of
      a key and its count, at most `limit` of them, by count descending; the order of
      equal counts is left open, as in SQL. */
  ghost function TopCounts<K(!new)>(keys: set<K>, count: K -> nat, limit: int): (r: seq<(K, nat)>)
    ensures limit < 0 ==> r == []
    ensures limit >= 0 ==> |r| == if limit < |keys| then limit else |keys|
    ensures forall i :: 0 <= i < |r| ==> r[i].0 in keys && r[i].1 == count(r[i].0)
    ensures forall i, j :: 0 <= i < j < |r| ==> r[i].0 != r[j].0
    ensures forall i, j :: 0 <= i < j < |r| ==> r[i].1 >= r[j].1
    ensures forall i, k :: 0 <= i < |r| && k in keys && k !in Keys(r) ==> r[i].1 >= count(k)
  {
    if limit < 0 then []
    else
      var above := (a: K, b: K) => count(a) >= count(b);
      var ks := Ranking.Rank(keys, above, limit as nat);
      var r := seq(|ks|, i requires 0 <= i < |ks| => (ks[i], count(ks[i])));
      assert Keys(r) == ks;
      r
  }

  /** The keys of a top-N list, in order. */
  function Keys<K>(r: seq<(K, nat)>): (ks: seq<K>)
    ensures |ks| == |r| && forall i :: 0 <= i < |r| ==> ks[i] == r[i].0
  {
    seq(|r|, i requires 0 <= i < |r| => r[i].0)
  }

  /** The groups of `GROUP BY`: the keys of the rows that have one. */
  ghost function Groups<T, K>(rows: set<T>, key: T -> Option<K>): set<K> {
    set x | x in rows && key(x).Some? :: key(x).value
  }

  /** `COUNT(*)` of the group `k`. */
  ghost function GroupCount<T, K>(rows: set<T>, key: T -> Option<K>, k: K): nat {
    |set x | x in rows && key(x) == Some(k)|
  }

  /** Every group has a row; a key that is no group counts nothing. */
  lemma GroupCountPositive<T, K>(rows: set<T>, key: T -> Option<K>, k: K)
    ensures k in Groups(rows, key) <==> GroupCount(rows, key, k) >= 1
  {
    var members := set x | x in rows && key(x) == Some(k);
    if k in Groups(rows, key) {
      var x :| x in rows && key(x).Some? && key(x).value == k;
      assert x in members;
    } else {
      assert members == {};
    }
  }

  /** `SELECT key, COUNT(*) ... GROUP BY key ORDER BY COUNT(*) DESC LIMIT limit`. */
  ghost function TopGroups<T, K(!new)>(rows: set<T>, key: T -> Option<K>, limit: int): (r: seq<(K, nat)>)
    ensures limit < 0 ==> r == []
    ensures limit >= 0 ==> |r| == if limit < |Groups(rows, key)| then limit else |Groups(rows, key)|
    ensures forall i :: 0 <= i < |r| ==> r[i].1 >= 1 && r[i].1 == GroupCount(rows, key, r[i].0)
    ensures forall i, j :: 0 <= i < j < |r| ==> r[i].1 >= r[j].1 && r[i].0 != r[j].0
    ensures forall i, k :: 0 <= i < |r| && k !in Keys(r) ==> r[i].1 >= GroupCount(rows, key, k)
  {
    var r := TopCounts(Groups(rows, key), k => GroupCount(rows, key, k), limit);
    forall i | 0 <= i < |r|
      ensures r[i].1 >= 1
    {
      GroupCountPositive(rows, key, r[i].0);
    }
    forall i, k | 0 <= i < |r| && k !in Keys(r)
      ensures r[i].1 >= GroupCount(rows, key, k)
    {
      GroupCountPositive(rows, key, k);
    }
    r
  }

  /** The title of the article's journal, through the inner join. */
  function JournalTitleOf(db: Db, pmid: int): Option<string> {
    if pmid in db.articles && JournalOf(db, pmid).Some? then Some(JournalOf(db, pmid).value.title) else None
  }

  function ByJournalTitle(db: Db): int -> Option<string> {
    p => JournalTitleOf(db, p)
  }

  /** The number of articles whose journal has the title `t`. */
  ghost function JournalArticleCount(db: Db, t: string): nat {
    GroupCount(db.articles.Keys, ByJournalTitle(db), t)
  }

  /** `get_top_journals`: articles grouped by their journal's title. */
  ghost function TopJournals(db: Db, limit: int): (r: seq<(string, nat)>)
    ensures limit < 0 ==> r == []
    ensures limit >= 0 ==> |r| == if limit < |Groups(db.articles.Keys, ByJournalTitle(db))| then limit else |Groups(db.articles.Keys, ByJournalTitle(db))|
    ensures forall i :: 0 <= i < |r| ==> r[i].1 >= 1 && r[i].1 == JournalArticleCount(db, r[i].0)
    ensures forall i, j :: 0 <= i < j < |r| ==> r[i].1 >= r[j].1 && r[i].0 != r[j].0
    ensures forall i, t :: 0 <= i < |r| && t !in Keys(r) ==> r[i].1 >= JournalArticleCount(db, t)
  {
    TopGroups(db.articles.Keys, ByJournalTitle(db), limit)
  }

  /** The full name of the author of an `article_authors` row, when both ends exist. */
  function LinkedAuthorName(db: Db, l: (int, int)): Option<string> {
    if l.0 in db.articles && IsId(|db.authors|, l.1) then Some(db.authors[l.1 - 1].fullName) else None
  }

  function ByFullName(db: Db): ((int, int)) -> Option<string> {
    l => LinkedAuthorName(db, l)
  }

  /** The number of link rows whose author has the full name `n`. */
  ghost function AuthorArticleCount(db: Db, n: string): nat {
    GroupCount(db.articleAuthors, ByFullName(db), n)
  }

  /** `get_top_authors`: link rows grouped by the author's full name, so two authors
      sharing one are counted together. */
  ghost function TopAuthors(db: Db, limit: int): (r: seq<(string, nat)>)
    ensures limit < 0 ==> r == []
    ensures limit >= 0 ==> |r| == if limit < |Groups(db.articleAuthors, ByFullName(db))| then limit else |Groups(db.articleAuthors, ByFullName(db))|
    ensures forall i :: 0 <= i < |r| ==> r[i].1 >= 1 && r[i].1 == AuthorArticleCount(db, r[i].0)
    ensures forall i, j :: 0 <= i < j < |r| ==> r[i].1 >= r[j].1 && r[i].0 != r[j].0
    ensures forall i, n :: 0 <= i < |r| && n !in Keys(r) ==> r[i].1 >= AuthorArticleCount(db, n)
  {
    TopGroups(db.articleAuthors, ByFullName(db), limit)
  }

  /** The text of the term of an `article_mesh_terms` row, when both ends exist. */
  function LinkedTerm(db: Db, l: (int, int)): Option<string> {
    if l.0 in db.articles && IsId(|db.terms|, l.1) then Some(db.terms[l.1 - 1]) else None
  }

  function ByTerm(db: Db): ((int, int)) -> Option<string> {
    l => LinkedTerm(db, l)
  }

  /** The number of link rows whose term has the text `t`. */
  ghost function TermArticleCount(db: Db, t: string): nat {
    GroupCount(db.articleTerms, ByTerm(db), t)
  }

  /** `get_common_mesh_terms`: link rows grouped by the term's text. */
  ghost function CommonMeshTerms(db: Db, limit: int): (r: seq<(string, nat)>)
    ensures limit < 0 ==> r == []
    ensures limit >= 0 ==> |r| == if limit < |Groups(db.articleTerms, ByTerm(db))| then limit else |Groups(db.articleTerms, ByTerm(db))|
    ensures forall i :: 0 <= i < |r| ==> r[i].1 >= 1 && r[i].1 == TermArticleCount(db, r[i].0)
    ensures forall i, j :: 0 <= i < j < |r| ==> r[i].1 >= r[j].1 && r[i].0 != r[j].0
    ensures forall i, t :: 0 <= i < |r| && t !in Keys(r) ==> r[i].1 >= TermArticleCount(db, t)
  {
    TopGroups(db.articleTerms, ByTerm(db), limit)
  }
}
