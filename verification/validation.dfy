/** The input checks of `src/utils/validation.py`. Each validator returns the pair
    `(is_valid, message)`; the message is `""` exactly when the input is accepted. */
module Validation {
  import opened Wrappers
  import Text
  import PyInt

  /** The `(is_valid, message)` pair. */
  datatype Verdict = Verdict(ok: bool, message: string)

  const Accepted := Verdict(true, "")

  /** The index of the first of `items` that occurs in `s`: the loops that return on
      the first offending entry of a fixed list. */
  function FirstContained(s: string, items: seq<string>): (r: Option<nat>)
    ensures r.None? <==> forall i :: 0 <= i < |items| ==> !Text.Contains(s, items[i])
    ensures r.Some? ==> r.value < |items| && Text.Contains(s, items[r.value])
    ensures r.Some? ==> forall i :: 0 <= i < r.value ==> !Text.Contains(s, items[i])
  {
    FirstContainedFrom(s, items, 0)
  }

  function FirstContainedFrom(s: string, items: seq<string>, k: nat): (r: Option<nat>)
    requires k <= |items|
    ensures r.None? <==> forall i :: k <= i < |items| ==> !Text.Contains(s, items[i])
    ensures r.Some? ==> k <= r.value < |items| && Text.Contains(s, items[r.value])
    ensures r.Some? ==> forall i :: k <= i < r.value ==> !Text.Contains(s, items[i])
    decreases |items| - k
  {
    if k == |items| then None
    else if Text.Contains(s, items[k]) then Some(k)
    else FirstContainedFrom(s, items, k + 1)
  }

  lemma ContainsAt(s: string, sub: string, k: nat)
    requires k + |sub| <= |s| && s[k..k + |sub|] == sub
    ensures Text.Contains(s, sub)
  {
    assert Text.StartsWith(s[k..], sub);
  }

  /** An entry that occurs, with none before it occurring, is the one found first. */
  lemma FirstContainedIs(s: string, items: seq<string>, i: nat)
    requires i < |items| && Text.Contains(s, items[i])
    requires forall j :: 0 <= j < i ==> !Text.Contains(s, items[j])
    ensures FirstContained(s, items) == Some(i)
  {
    var r := FirstContained(s, items);
    assert r.Some?;
    assert r.value <= i;
    assert !(r.value < i);
  }

  /** When no entry is found, no member of the list occurs. */
  lemma NoneContained(s: string, items: seq<string>)
    requires FirstContained(s, items).None?
    ensures forall d :: d in items ==> !Text.Contains(s, d)
  {
    forall d | d in items
      ensures !Text.Contains(s, d)
    {
      var i :| 0 <= i < |items| && items[i] == d;
    }
  }

  /** Equal strings with a common prefix have equal remainders. */
  lemma AppendCancel(p: string, x: string, y: string)
    ensures p + x == p + y ==> x == y
  {
    assert (p + x)[|p|..] == x;
    assert (p + y)[|p|..] == y;
  }

  // ---------------------------------------------------------------------------
  // validate_pmid

  /** The argument of `validate_pmid`: the UI passes text, other callers an integer. */
  datatype PmidInput = PmidText(text: string) | PmidNumber(n: int)

  const MaxPmid: int := 999999999

  const PmidEmpty := "PMID cannot be empty"
  const PmidNotPositive := "PMID must be a positive number"
  const PmidTooLarge := "PMID seems too large"
  const PmidNotNumber := "PMID must be a number"

  /** Python's `not pmid`. */
  predicate Falsy(p: PmidInput) {
    p == PmidText("") || p == PmidNumber(0)
  }

  /** `int(pmid)`, `None` when it raises `ValueError`. */
  function PmidValue(p: PmidInput): Option<int> {
    match p
    case PmidText(s) => PyInt.ParseInt(s)
    case PmidNumber(n) => Some(n)
  }

  function ValidatePmid(p: PmidInput): (r: Verdict)
    ensures r.ok <==> !Falsy(p) && PmidValue(p).Some? && 1 <= PmidValue(p).value <= MaxPmid
    ensures r.ok <==> r.message == ""
    ensures Falsy(p) ==> r.message == PmidEmpty
    ensures !Falsy(p) && PmidValue(p).None? ==> r.message == PmidNotNumber
    ensures !Falsy(p) && PmidValue(p).Some? && PmidValue(p).value <= 0 ==> r.message == PmidNotPositive
    ensures !Falsy(p) && PmidValue(p).Some? && PmidValue(p).value > MaxPmid ==> r.message == PmidTooLarge
  {
    if Falsy(p) then Verdict(false, PmidEmpty)
    else
      match PmidValue(p)
      case None => Verdict(false, PmidNotNumber)
      case Some(v) =>
        if v <= 0 then Verdict(false, PmidNotPositive)
        else if v > MaxPmid then Verdict(false, PmidTooLarge)
        else Accepted
  }

  /** The decimal text of an integer is accepted exactly when the integer is between 1
      and 999999999; `"0"` is not empty, so it is rejected as not positive. */
  lemma ValidateShownPmid(n: int)
    ensures ValidatePmid(PmidText(PyInt.ShowInt(n))).ok <==> 1 <= n <= MaxPmid
    ensures n <= 0 ==> ValidatePmid(PmidText(PyInt.ShowInt(n))).message == PmidNotPositive
    ensures n > MaxPmid ==> ValidatePmid(PmidText(PyInt.ShowInt(n))).message == PmidTooLarge
  {
    PyInt.ParseShowInt(n);
    assert PyInt.ShowInt(n) != "";
  }

  /** A non-empty text that, once stripped, holds anything but digits, underscores and
      one leading sign is rejected as not a number. */
  lemma NonNumericTextRejected(s: string, i: nat)
    requires s != "" && i < |PyInt.IntStrip(s)| && !PyInt.NumberChar(PyInt.IntStrip(s), i)
    ensures ValidatePmid(PmidText(s)) == Verdict(false, PmidNotNumber)
  {
    PyInt.NotNumberText(s, i);
  }

  /** `str(12345678)`, one digit at a time. */
  lemma ShowExamplePmid()
    ensures PyInt.ShowInt(12345678) == "12345678"
  {
    assert PyInt.ShowNat(1) == "1";
    assert PyInt.ShowNat(12) == "12";
    assert PyInt.ShowNat(123) == "123";
    assert PyInt.ShowNat(1234) == "1234";
    assert PyInt.ShowNat(12345) == "12345";
    assert PyInt.ShowNat(123456) == "123456";
    assert PyInt.ShowNat(1234567) == "1234567";
  }

  lemma PmidExampleA()
    ensures ValidatePmid(PmidText("12345678")) == Accepted
  {
    ShowExamplePmid();
    ValidateShownPmid(12345678);
  }

  lemma PmidExampleB()
    ensures ValidatePmid(PmidText("")).message == PmidEmpty
  {
  }

  lemma PmidExampleC()
    ensures ValidatePmid(PmidText("-123")).message == PmidNotPositive
  {
    assert PyInt.ShowInt(-123) == "-123";
    ValidateShownPmid(-123);
  }

  lemma PmidExampleD()
    ensures ValidatePmid(PmidText("abc123")).message == PmidNotNumber
  {
    var s := "abc123";
    PyInt.PrintableNotSpace(s[0]);
    PyInt.PrintableNotSpace(s[|s| - 1]);
    PyInt.IntStripOfTrimmed(s);
    NonNumericTextRejected(s, 0);
  }

  // ---------------------------------------------------------------------------
  // validate_search_term

  const MaxSearchTerm: nat := 200

  /** The substrings a search term may not hold, in the order they are tried. */
  const DangerousChars: seq<string> := ["<", ">", "\"", "'", ";", "--", "/*", "*/"]

  const SearchEmpty := "Search term cannot be empty"
  const SearchTooShort := "Search term must be at least 2 characters"
  const SearchTooLong := "Search term too long (max 200 characters)"
  const SearchInvalidPrefix := "Search term contains invalid character: "

  /** The checks in order: empty, shorter than 2 once stripped, longer than 200 as
      given, then the first dangerous substring. */
  function ValidateSearchTerm(s: string): (r: Verdict)
    ensures r.ok <==> && s != ""
                      && |Text.Strip(s)| >= 2
                      && |s| <= MaxSearchTerm
                      && forall d :: d in DangerousChars ==> !Text.Contains(s, d)
    ensures r.ok <==> r.message == ""
    ensures s == "" ==> r.message == SearchEmpty
    ensures s != "" && |Text.Strip(s)| < 2 ==> r.message == SearchTooShort
    ensures s != "" && |Text.Strip(s)| >= 2 && |s| > MaxSearchTerm ==> r.message == SearchTooLong
    ensures !r.ok && s != "" && |Text.Strip(s)| >= 2 && |s| <= MaxSearchTerm ==>
              && FirstContained(s, DangerousChars).Some?
              && r.message == SearchInvalidPrefix + DangerousChars[FirstContained(s, DangerousChars).value]
  {
    if s == "" then Verdict(false, SearchEmpty)
    else if |Text.Strip(s)| < 2 then Verdict(false, SearchTooShort)
    else if |s| > MaxSearchTerm then Verdict(false, SearchTooLong)
    else
      match FirstContained(s, DangerousChars)
      case Some(i) => Verdict(false, SearchInvalidPrefix + DangerousChars[i])
      case None =>
        NoneContained(s, DangerousChars);
        Accepted
  }

  /** A term that passes the length checks and holds a dangerous substring is
      rejected naming the first such substring in list order. */
  lemma SearchTermNamesFirstOffender(s: string, i: nat)
    requires s != "" && |Text.Strip(s)| >= 2 && |s| <= MaxSearchTerm
    requires i < |DangerousChars| && Text.Contains(s, DangerousChars[i])
    requires forall j :: 0 <= j < i ==> !Text.Contains(s, DangerousChars[j])
    ensures ValidateSearchTerm(s) == Verdict(false, SearchInvalidPrefix + DangerousChars[i])
  {
    FirstContainedIs(s, DangerousChars, i);
    assert !ValidateSearchTerm(s).ok;
  }

  lemma SearchExampleA()
    ensures ValidateSearchTerm("a").message == SearchTooShort
  {
    PyInt.PrintableNotSpace('a');
    Text.StripOfTrimmed("a");
  }

  /** The unit-test case `"test<script>"`: rejected naming `<`, the first entry. */
  lemma SearchExampleB(s: string)
    requires s == "test<script>"
    ensures ValidateSearchTerm(s) == Verdict(false, SearchInvalidPrefix + "<")
  {
    assert Text.Strip(s) == s by {
      PyInt.PrintableNotSpace(s[0]);
      PyInt.PrintableNotSpace(s[|s| - 1]);
      Text.StripOfTrimmed(s);
    }
    assert s[4..5] == "<";
    ContainsAt(s, "<", 4);
    SearchTermNamesFirstOffender(s, 0);
  }

  // ---------------------------------------------------------------------------
  // validate_sql_query

  /** The keywords a query may not hold, in the order they are tried. */
  const DangerousKeywords: seq<string> :=
    ["DROP", "DELETE", "UPDATE", "INSERT", "ALTER", "CREATE", "TRUNCATE", "EXEC", "EXECUTE"]

  const QueryEmpty := "Query cannot be empty"
  const QueryNotSelect := "Only SELECT queries are allowed"
  const QueryKeywordPrefix := "Dangerous keyword not allowed: "

  /** The query as the checks see it: stripped, then upper-cased. */
  function QueryUpper(q: string): string {
    Text.Upper(Text.Strip(q))
  }

  function ValidateSqlQuery(q: string): (r: Verdict)
    ensures r.ok <==> && q != ""
                      && Text.StartsWith(QueryUpper(q), "SELECT")
                      && forall k :: k in DangerousKeywords ==> !Text.Contains(QueryUpper(q), k)
    ensures r.ok <==> r.message == ""
    ensures q == "" ==> r.message == QueryEmpty
    ensures q != "" && !Text.StartsWith(QueryUpper(q), "SELECT") ==> r.message == QueryNotSelect
    ensures !r.ok && q != "" && Text.StartsWith(QueryUpper(q), "SELECT") ==>
              && FirstContained(QueryUpper(q), DangerousKeywords).Some?
              && r.message == QueryKeywordPrefix + DangerousKeywords[FirstContained(QueryUpper(q), DangerousKeywords).value]
  {
    if q == "" then Verdict(false, QueryEmpty)
    else
      var u := QueryUpper(q);
      if !Text.StartsWith(u, "SELECT") then Verdict(false, QueryNotSelect)
      else
        match FirstContained(u, DangerousKeywords)
        case Some(i) => Verdict(false, QueryKeywordPrefix + DangerousKeywords[i])
        case None =>
          NoneContained(u, DangerousKeywords);
          Accepted
  }

  /** A `SELECT` query holding any of the keywords, anywhere and in any case, is
      rejected. */
  lemma KeywordRejects(q: string, k: string)
    requires q != "" && Text.StartsWith(QueryUpper(q), "SELECT")
    requires k in DangerousKeywords && Text.Contains(QueryUpper(q), k)
    ensures !ValidateSqlQuery(q).ok
    ensures Text.StartsWith(ValidateSqlQuery(q).message, QueryKeywordPrefix)
  {
    var u := QueryUpper(q);
    assert FirstContained(u, DangerousKeywords).Some?;
    PrefixStartsWith(QueryKeywordPrefix, DangerousKeywords[FirstContained(u, DangerousKeywords).value]);
  }

  lemma PrefixStartsWith(p: string, x: string)
    ensures Text.StartsWith(p + x, p)
  {
    assert (p + x)[..|p|] == p;
  }

  /** `EXEC` is tried before `EXECUTE` and occurs in it, so the keyword found first is
      never `EXECUTE`. */
  lemma ExecuteNeverFirst(u: string)
    ensures FirstContained(u, DangerousKeywords).Some? ==> FirstContained(u, DangerousKeywords).value < 8
  {
    if Text.Contains(u, "EXECUTE") {
      var k :| 0 <= k <= |u| - 7 && Text.StartsWith(u[k..], "EXECUTE");
      assert u[k..][..4] == "EXEC";
      ContainsAt(u, "EXEC", k);
      assert Text.Contains(u, DangerousKeywords[7]);
    }
  }

  /** Hence no query is rejected naming `EXECUTE`. */
  lemma ExecuteNeverNamed(q: string)
    ensures ValidateSqlQuery(q).message != QueryKeywordPrefix + "EXECUTE"
  {
    var r := ValidateSqlQuery(q);
    var u := QueryUpper(q);
    assert |QueryKeywordPrefix + "EXECUTE"| == 38;
    if !r.ok && q != "" && Text.StartsWith(u, "SELECT") {
      ExecuteNeverFirst(u);
      var i := FirstContained(u, DangerousKeywords).value;
      assert r.message == QueryKeywordPrefix + DangerousKeywords[i];
      EarlierKeywordsDiffer(i);
      AppendCancel(QueryKeywordPrefix, DangerousKeywords[i], "EXECUTE");
    }
  }

  /** None of the first eight keywords has seven letters, as `EXECUTE` has. */
  lemma EarlierKeywordsDiffer(i: nat)
    requires i < 8
    ensures DangerousKeywords[i] != "EXECUTE"
  {
    assert |DangerousKeywords[i]| != 7;
  }

  /** A query without surrounding whitespace is only upper-cased before the checks. */
  lemma TrimmedQueryUpper(q: string)
    requires q != [] && '!' <= q[0] <= '~' && '!' <= q[|q| - 1] <= '~'
    ensures QueryUpper(q) == Text.Upper(q)
  {
    PyInt.PrintableNotSpace(q[0]);
    PyInt.PrintableNotSpace(q[|q| - 1]);
    Text.StripOfTrimmed(q);
  }

  /** Upper-casing `q` from index `k + j` on gives `w[j..]`. */
  predicate UpperMatchesFrom(q: string, k: nat, w: string, j: nat)
    requires j <= |w|
    decreases |w| - j
  {
    && k + |w| <= |q|
    && (j == |w| || (Text.UpperChar(q[k + j]) == w[j] && UpperMatchesFrom(q, k, w, j + 1)))
  }

  lemma {:induction false} UpperMatchesFromChars(q: string, k: nat, w: string, j: nat)
    requires j <= |w| && UpperMatchesFrom(q, k, w, j)
    ensures k + |w| <= |q|
    ensures forall i :: j <= i < |w| ==> Text.UpperChar(q[k + i]) == w[i]
    decreases |w| - j
  {
    if j < |w| {
      UpperMatchesFromChars(q, k, w, j + 1);
    }
  }

  /** A query without surrounding whitespace upper-cases character by character. */
  lemma TrimmedQueryChars(q: string)
    requires q != [] && '!' <= q[0] <= '~' && '!' <= q[|q| - 1] <= '~'
    ensures |QueryUpper(q)| == |q|
    ensures forall i :: 0 <= i < |q| ==> QueryUpper(q)[i] == Text.UpperChar(q[i])
  {
    TrimmedQueryUpper(q);
  }

  /** A string that upper-cases `q` character by character spells `w` at `k`. */
  lemma SpellsAt(q: string, u: string, w: string, k: nat)
    requires |u| == |q| && forall i :: 0 <= i < |q| ==> u[i] == Text.UpperChar(q[i])
    requires UpperMatchesFrom(q, k, w, 0)
    ensures Text.Contains(u, w)
    ensures k == 0 ==> Text.StartsWith(u, w)
  {
    UpperMatchesFromChars(q, k, w, 0);
    assert u[k..k + |w|] == w;
    ContainsAt(u, w, k);
  }

  /** A trimmed query that upper-cases to `SELECT` at its start and to `w` at `k`
      reaches the keyword check holding `w`. */
  lemma SelectHolding(q: string, w: string, k: nat)
    requires q != [] && '!' <= q[0] <= '~' && '!' <= q[|q| - 1] <= '~'
    requires UpperMatchesFrom(q, 0, "SELECT", 0) && UpperMatchesFrom(q, k, w, 0)
    ensures Text.StartsWith(QueryUpper(q), "SELECT") && Text.Contains(QueryUpper(q), w)
  {
    TrimmedQueryChars(q);
    SpellsAt(q, QueryUpper(q), "SELECT", 0);
    SpellsAt(q, QueryUpper(q), w, k);
  }

  /** `q` starts with `SELECT` in any case. */
  lemma SelectAtStart(q: string)
    requires |q| >= 6
    requires Text.UpperChar(q[0]) == 'S' && Text.UpperChar(q[1]) == 'E' && Text.UpperChar(q[2]) == 'L'
    requires Text.UpperChar(q[3]) == 'E' && Text.UpperChar(q[4]) == 'C' && Text.UpperChar(q[5]) == 'T'
    ensures UpperMatchesFrom(q, 0, "SELECT", 0)
  {
    assert UpperMatchesFrom(q, 0, "SELECT", 6);
    assert UpperMatchesFrom(q, 0, "SELECT", 5);
    assert UpperMatchesFrom(q, 0, "SELECT", 4);
    assert UpperMatchesFrom(q, 0, "SELECT", 3);
    assert UpperMatchesFrom(q, 0, "SELECT", 2);
    assert UpperMatchesFrom(q, 0, "SELECT", 1);
  }

  lemma CreatedAtSpellsCreate(q: string)
    requires q == "SELECT created_at FROM articles"
    ensures UpperMatchesFrom(q, 7, "CREATE", 0)
  {
    var w := "CREATE";
    assert UpperMatchesFrom(q, 7, w, 6);
    assert UpperMatchesFrom(q, 7, w, 5);
    assert UpperMatchesFrom(q, 7, w, 4);
    assert UpperMatchesFrom(q, 7, w, 3);
    assert UpperMatchesFrom(q, 7, w, 2);
    assert UpperMatchesFrom(q, 7, w, 1);
  }

  lemma CreatedAtFacts(q: string)
    requires q == "SELECT created_at FROM articles"
    ensures q != "" && Text.StartsWith(QueryUpper(q), "SELECT") && Text.Contains(QueryUpper(q), "CREATE")
  {
    SelectAtStart(q);
    CreatedAtSpellsCreate(q);
    SelectHolding(q, "CREATE", 7);
  }

  /** Keywords are matched as substrings: a `created_at` column reads as `CREATE`. */
  lemma CreatedAtIsRejected(q: string)
    requires q == "SELECT created_at FROM articles"
    ensures !ValidateSqlQuery(q).ok
  {
    CreatedAtFacts(q);
    KeywordRejects(q, "CREATE");
  }

  /** A query whose stripped, upper-cased form does not start with `SELECT` is
      rejected as such, whatever else it holds. */
  lemma NotSelectRejected(q: string)
    requires q != "" && !Text.StartsWith(QueryUpper(q), "SELECT")
    ensures ValidateSqlQuery(q) == Verdict(false, QueryNotSelect)
  {
  }

  /** A trimmed query whose first letter is not `s` or `S` is not a `SELECT`. */
  lemma NotSelectByFirst(q: string)
    requires q != [] && '!' <= q[0] <= '~' && '!' <= q[|q| - 1] <= '~'
    requires Text.UpperChar(q[0]) != 'S'
    ensures !Text.StartsWith(QueryUpper(q), "SELECT")
  {
    TrimmedQueryUpper(q);
    assert QueryUpper(q)[0] == Text.UpperChar(q[0]);
  }

  lemma DropFacts(q: string)
    requires q == "DROP TABLE articles"
    ensures q != "" && !Text.StartsWith(QueryUpper(q), "SELECT")
  {
    NotSelectByFirst(q);
  }

  /** The unit-test case `"DROP TABLE articles"`: not a `SELECT`. */
  lemma DropIsNotSelect(q: string)
    requires q == "DROP TABLE articles"
    ensures ValidateSqlQuery(q) == Verdict(false, QueryNotSelect)
  {
    DropFacts(q);
    NotSelectRejected(q);
  }

  lemma ChainedFacts(q: string)
    requires q == "SELECT * FROM articles; DROP TABLE articles"
    ensures q != "" && Text.StartsWith(QueryUpper(q), "SELECT") && Text.Contains(QueryUpper(q), "DROP")
  {
    SelectAtStart(q);
    ChainedSpellsDrop(q);
    SelectHolding(q, "DROP", 24);
  }

  lemma ChainedSpellsDrop(q: string)
    requires q == "SELECT * FROM articles; DROP TABLE articles"
    ensures UpperMatchesFrom(q, 24, "DROP", 0)
  {
    var w := "DROP";
    assert UpperMatchesFrom(q, 24, w, 4);
    assert UpperMatchesFrom(q, 24, w, 3);
    assert UpperMatchesFrom(q, 24, w, 2);
    assert UpperMatchesFrom(q, 24, w, 1);
  }

  /** The unit-test case of a `DROP` chained after a `SELECT`: rejected with the
      keyword message. */
  lemma ChainedDropIsRejected(q: string)
    requires q == "SELECT * FROM articles; DROP TABLE articles"
    ensures !ValidateSqlQuery(q).ok
    ensures Text.StartsWith(ValidateSqlQuery(q).message, QueryKeywordPrefix)
  {
    ChainedFacts(q);
    KeywordRejects(q, "DROP");
  }

  // ---------------------------------------------------------------------------
  // sanitize_input

  /** `""` stays `""`; otherwise surrounding whitespace goes and every inner run of
      whitespace becomes one space. */
  function SanitizeInput(text: string): (r: string)
    ensures text == "" ==> r == ""
    ensures Text.Canonical(r)
    ensures Text.Words(r) == Text.Words(text)
  {
    if text == "" then ""
    else
      Text.SqueezeCanonicalWords(text);
      Text.Squeeze(text)
  }

  lemma SanitizeIdempotent(text: string)
    ensures SanitizeInput(SanitizeInput(text)) == SanitizeInput(text)
  {
    if text != "" {
      Text.SqueezeIdempotent(text);
    }
  }
}
