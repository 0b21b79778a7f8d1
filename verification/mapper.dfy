/** The document mapper of `src/etl/pubmed_etl.py`: one `PubmedArticle` element tree
    becomes a flat article record. Every field has a default (`""`, `None` or `[]`),
    so mapping never fails. */
module Mapper {
  import opened Wrappers
  import Text
  import PyInt
  import opened Xml

  /** One entry of the record's `authors` list. A part is `Some("")` when its element
      is missing and `None` when the element is present but holds no text. */
  datatype AuthorRecord = AuthorRecord(
    lastName: Option<string>,
    firstName: Option<string>,
    middleName: Option<string>,
    fullName: string)

  /** The dictionary `fetch_article_details` builds. The identifier is carried as the
      integer it denotes. */
  datatype ArticleRecord = ArticleRecord(
    pmid: int,
    title: string,
    abstractText: string,
    year: Option<int>,
    journalTitle: string,
    journalIssn: Option<string>,
    authors: seq<AuthorRecord>,
    meshTerms: seq<string>)

  /** Python truthiness of an optional string: `None` and `""` are false. */
  predicate Truthy(t: Option<string>) {
    t.Some? && t.value != ""
  }

  /** `_clean_text`: falsy input gives `""`; otherwise whitespace is stripped and
      collapsed, then `markup` (the HTML parser's `get_text()`) is applied. */
  function CleanText(markup: string -> string, text: Option<string>): (r: string)
    ensures !Truthy(text) ==> r == ""
  {
    if !Truthy(text) then "" else markup(Text.Squeeze(text.value))
  }

  /** The text of an optional element with `elem.text or ""`, cleaned; `""` when absent. */
  function CleanedOrEmpty(markup: string -> string, o: Option<Element>): (r: string)
    ensures o.None? ==> r == ""
  {
    match o
    case None => ""
    case Some(e) => CleanText(markup, Some(e.text.GetOr("")))
  }

  function ExtractTitle(markup: string -> string, article: Element): string {
    CleanedOrEmpty(markup, FindDeep(article, "ArticleTitle"))
  }

  function ExtractAbstract(markup: string -> string, article: Element): string {
    CleanedOrEmpty(markup, FindDeep(article, "AbstractText"))
  }

  function ExtractJournalTitle(markup: string -> string, article: Element): string {
    CleanedOrEmpty(markup, FindDeepChild(article, "Journal", "Title"))
  }

  /** The ISSN text is taken raw: no cleaning, `None` when the element is missing. */
  function ExtractJournalIssn(article: Element): Option<string> {
    TextOf(FindDeepChild(article, "Journal", "ISSN"))
  }

  /** `int()` of the `PubDate/Year` text; absent, empty or unparsable text gives `None`. */
  function ExtractYear(article: Element): (r: Option<int>)
    ensures r.Some? ==> Truthy(TextOf(FindDeepChild(article, "PubDate", "Year")))
  {
    var t := TextOf(FindDeepChild(article, "PubDate", "Year"));
    if Truthy(t) then PyInt.ParseInt(t.value) else None
  }

  /** One name part: the child's text, or `""` when the child is missing. */
  function NamePart(author: Element, tag: string): (r: Option<string>)
    ensures Find(author, tag).None? ==> r == Some("")
  {
    match Find(author, tag)
    case None => Some("")
    case Some(e) => e.text
  }

  /** The truthy parts, in order. */
  function Present(parts: seq<Option<string>>): (r: seq<string>)
    ensures forall i :: 0 <= i < |r| ==> r[i] != ""
    ensures forall w :: w in r <==> Some(w) in parts && w != ""
  {
    if parts == [] then []
    else if Truthy(parts[0]) then [parts[0].value] + Present(parts[1..])
    else Present(parts[1..])
  }

  /** The display name: the truthy parts of first, middle and last name joined by
      single spaces. */
  function FullName(first: Option<string>, middle: Option<string>, last: Option<string>): string {
    Text.JoinSpaces(Present([first, middle, last]))
  }

  function AuthorOf(author: Element): AuthorRecord {
    var last := NamePart(author, "LastName");
    var first := NamePart(author, "ForeName");
    var middle := NamePart(author, "MiddleName");
    AuthorRecord(last, first, middle, FullName(first, middle, last))
  }

  function AuthorsOf(authors: seq<Element>): (r: seq<AuthorRecord>)
    ensures |r| == |authors|
    ensures forall i :: 0 <= i < |authors| ==> r[i] == AuthorOf(authors[i])
  {
    if authors == [] then [] else [AuthorOf(authors[0])] + AuthorsOf(authors[1..])
  }

  /** `_extract_authors`: one record per `Author` child of the first `AuthorList`. */
  function ExtractAuthors(article: Element): seq<AuthorRecord> {
    match FindDeep(article, "AuthorList")
    case None => []
    case Some(list) => AuthorsOf(FindAll(list, "Author"))
  }

  /** The text of a heading's `DescriptorName` child, when that child exists and its
      text is non-empty. */
  function DescriptorText(heading: Element): Option<string> {
    var t := TextOf(Find(heading, "DescriptorName"));
    if Truthy(t) then t else None
  }

  function TermsOf(markup: string -> string, headings: seq<Element>): seq<string> {
    if headings == [] then []
    else
      var rest := TermsOf(markup, headings[1..]);
      match DescriptorText(headings[0])
      case None => rest
      case Some(d) => [CleanText(markup, Some(d))] + rest
  }

  /** `_extract_mesh_terms`: the cleaned descriptor of each `MeshHeading` child of the
      first `MeshHeadingList`. */
  function ExtractMeshTerms(markup: string -> string, article: Element): seq<string> {
    match FindDeep(article, "MeshHeadingList")
    case None => []
    case Some(list) => TermsOf(markup, FindAll(list, "MeshHeading"))
  }

  /** The record built from a `PubmedArticle` element. */
  function MapArticle(markup: string -> string, pmid: int, article: Element): (r: ArticleRecord)
    ensures r.pmid == pmid
  {
    ArticleRecord(
      pmid,
      ExtractTitle(markup, article),
      ExtractAbstract(markup, article),
      ExtractYear(article),
      ExtractJournalTitle(markup, article),
      ExtractJournalIssn(article),
      ExtractAuthors(article),
      ExtractMeshTerms(markup, article))
  }

  /** `fetch_article_details` after the HTTP call: `response` is the parsed reply, or
      `None` when the request or the parse raised. */
  function FetchDetails(markup: string -> string, pmid: int, response: Option<Element>): (r: Option<ArticleRecord>)
    ensures r.Some? ==> r.value.pmid == pmid
    ensures r.Some? <==> response.Some? && FindDeep(response.value, "PubmedArticle").Some?
  {
    match response
    case None => None
    case Some(root) =>
      match FindDeep(root, "PubmedArticle")
      case None => None
      case Some(article) => Some(MapArticle(markup, pmid, article))
  }

  // ---------------------------------------------------------------------------
  // Properties

  /** Cleaning text without markup gives a whitespace-canonical string holding the
      same words as the input, in order. */
  lemma CleanTextPlain(markup: string -> string, t: string)
    requires t != ""
    requires markup(Text.Squeeze(t)) == Text.Squeeze(t)
    ensures Text.Canonical(CleanText(markup, Some(t)))
    ensures Text.Words(CleanText(markup, Some(t))) == Text.Words(t)
  {
    Text.SqueezeKeepsWords(t);
  }

  /** Cleaning is idempotent on text without markup. */
  lemma CleanTextIdempotent(t: string)
    ensures CleanText(s => s, Some(CleanText(s => s, Some(t)))) == CleanText(s => s, Some(t))
  {
    if t != "" {
      Text.SqueezeIdempotent(t);
    }
  }

  /** Falsy input gives the empty string, whatever the markup step does. */
  lemma CleanTextFalsy(markup: string -> string)
    ensures CleanText(markup, None) == ""
    ensures CleanText(markup, Some("")) == ""
  {
  }

  /** Missing elements give the documented defaults: `""` for the texts, `None` for the
      ISSN and the year, `[]` for both lists. */
  lemma MissingFieldsDefault(markup: string -> string, pmid: int, article: Element)
    requires forall x :: x in Descendants(article) ==> x.tag !in {"ArticleTitle", "AbstractText", "Journal", "PubDate", "AuthorList", "MeshHeadingList"}
    ensures MapArticle(markup, pmid, article)
         == ArticleRecord(pmid, "", "", None, "", None, [], [])
  {
  }

  /** An element with no children, as in the unit tests, maps to empty lists. */
  lemma EmptyElementGivesEmptyLists(markup: string -> string)
    ensures ExtractAuthors(Element("article", None, [])) == []
    ensures ExtractMeshTerms(markup, Element("article", None, [])) == []
  {
  }

  /** A missing name element yields `""` for that part, and the author still maps. */
  lemma MissingNamePartsAreEmpty(author: Element)
    requires Find(author, "LastName").None?
    requires Find(author, "ForeName").None?
    requires Find(author, "MiddleName").None?
    ensures AuthorOf(author) == AuthorRecord(Some(""), Some(""), Some(""), "")
  {
  }

  /** An empty `ForeName` element (present, without text) gives a NULL first name,
      unlike a missing one, which gives `""`; the display name then skips it. */
  lemma EmptyForeNameIsNull(author: Element)
    requires Find(author, "ForeName").Some? && Find(author, "ForeName").value.text.None?
    ensures AuthorOf(author).firstName.None?
    ensures AuthorOf(author).fullName == FullName(None, NamePart(author, "MiddleName"), NamePart(author, "LastName"))
  {
  }

  /** `<Author><LastName>Smith</LastName><ForeName/></Author>` maps to the record with a
      NULL first name that the live store adds again on every insert. */
  lemma EmptyForeNameExample()
    ensures AuthorOf(Element("Author", None, [Element("LastName", Some("Smith"), []), Element("ForeName", None, [])]))
            == AuthorRecord(Some("Smith"), None, Some(""), "Smith")
  {
    var author := Element("Author", None, [Element("LastName", Some("Smith"), []), Element("ForeName", None, [])]);
    assert author.children[1..][1..] == [];
    assert Find(author, "ForeName") == Some(Element("ForeName", None, []));
    assert Find(author, "MiddleName").None?;
    var parts := [None, Some(""), Some("Smith")];
    assert parts[1..][1..] == [Some("Smith")];
    assert Present(parts[1..][1..]) == ["Smith"];
    assert Present(parts) == ["Smith"];
  }

  /** The year is the integer the `PubDate/Year` text spells. */
  lemma YearRoundTrip(article: Element, n: int)
    requires TextOf(FindDeepChild(article, "PubDate", "Year")) == Some(PyInt.ShowInt(n))
    ensures ExtractYear(article) == Some(n)
  {
    PyInt.ParseShowInt(n);
  }

  /** A year text that, once stripped, holds anything but digits, underscores and one
      leading sign yields no year. */
  lemma YearNotNumeric(article: Element, i: nat)
    requires TextOf(FindDeepChild(article, "PubDate", "Year")).Some?
    requires var t := TextOf(FindDeepChild(article, "PubDate", "Year")).value;
             i < |PyInt.IntStrip(t)| && !PyInt.NumberChar(PyInt.IntStrip(t), i)
    ensures ExtractYear(article).None?
  {
    PyInt.NotNumberText(TextOf(FindDeepChild(article, "PubDate", "Year")).value, i);
  }

  lemma SpaceIsSpace()
    ensures Text.IsSpace(' ')
  {
    assert Text.SpaceFrom(' ', 0);
  }

  /** A display name splits back into exactly the non-empty name parts, in the order
      first, middle, last, when no part holds whitespace. */
  lemma FullNameSplits(first: Option<string>, middle: Option<string>, last: Option<string>)
    requires forall p :: p in [first, middle, last] && p.Some? ==> Text.NoneIn(Text.IsSpace, p.value)
    ensures Text.Words(FullName(first, middle, last)) == Present([first, middle, last])
  {
    var ps := Present([first, middle, last]);
    assert Text.AreRuns(Text.IsSpace, ps) by {
      forall i | 0 <= i < |ps|
        ensures ps[i] != [] && Text.NoneIn(Text.IsSpace, ps[i])
      {
        assert Some(ps[i]) in [first, middle, last];
      }
    }
    SpaceIsSpace();
    Text.SplitOfJoin(Text.IsSpace, ps);
  }

  /** Empty first and middle names are skipped: the display name is the last name alone. */
  lemma FullNameSurnameOnly()
    ensures FullName(Some(""), Some(""), Some("Smith")) == "Smith"
  {
    var parts := [Some(""), Some(""), Some("Smith")];
    assert parts[1..][1..] == [Some("Smith")];
    assert Present(parts[1..][1..]) == ["Smith"];
    assert Present(parts) == ["Smith"];
  }

  /** All three parts present: joined in first, middle, last order. */
  lemma FullNameAllParts()
    ensures FullName(Some("John"), Some("A"), Some("Smith")) == "John A Smith"
  {
    var parts := [Some("John"), Some("A"), Some("Smith")];
    assert parts[1..][1..] == [Some("Smith")];
    assert Present(parts[1..][1..]) == ["Smith"];
    assert Present(parts[1..]) == ["A", "Smith"];
    assert Present(parts) == ["John", "A", "Smith"];
  }

  /** Term extraction follows document order: the terms of a concatenation of headings
      are the terms of the first part followed by those of the second. */
  lemma {:induction false} TermsOfAppend(markup: string -> string, a: seq<Element>, b: seq<Element>)
    ensures TermsOf(markup, a + b) == TermsOf(markup, a) + TermsOf(markup, b)
    decreases |a|
  {
    if a == [] {
      assert a + b == b;
    } else {
      assert (a + b)[1..] == a[1..] + b;
      TermsOfAppend(markup, a[1..], b);
    }
  }

  /** A single heading contributes its cleaned descriptor, or nothing when the
      descriptor is missing or empty. */
  lemma TermsOfOne(markup: string -> string, h: Element)
    ensures DescriptorText(h).None? ==> TermsOf(markup, [h]) == []
    ensures DescriptorText(h).Some? ==> TermsOf(markup, [h]) == [CleanText(markup, DescriptorText(h))]
  {
  }
}
