/** The parsed XML tree the document mapper reads, and the three ElementTree path
    lookups it uses: `find('Tag')` (first child), `find('.//Tag')` (first proper
    descendant in document order), `find('.//Parent/Tag')` (first `Tag` child of a
    `Parent` descendant) and `findall('Tag')` (all children). */
module Xml {
  import opened Wrappers

  /** An element: its tag, its `.text` (`None` when the element holds no text before
      its first child) and its children in document order. Attributes and tails are
      never read by the mapper and are not represented. */
  datatype Element = Element(tag: string, text: Option<string>, children: seq<Element>)

  /** The elements of `es` and all their descendants, in document (pre-)order. */
  function Flatten(es: seq<Element>): (r: seq<Element>)
    ensures |r| >= |es|
    ensures forall e :: e in es ==> e in r
    decreases es
  {
    if es == [] then []
    else
      var rest := Flatten(es[1..]);
      assert forall e :: e in es[1..] ==> e in rest;
      [es[0]] + Flatten(es[0].children) + rest
  }

  /** The proper descendants of `e` in document order: what `.//` ranges over. */
  function Descendants(e: Element): seq<Element> {
    Flatten(e.children)
  }

  /** The elements of `es` whose tag is `tag`, in order. */
  function Tagged(es: seq<Element>, tag: string): (r: seq<Element>)
    ensures forall x :: x in r <==> x in es && x.tag == tag
    ensures |r| <= |es|
  {
    if es == [] then []
    else if es[0].tag == tag then [es[0]] + Tagged(es[1..], tag)
    else Tagged(es[1..], tag)
  }

  /** Filtering keeps document order: the tagged elements of a concatenation are those
      of each part, one part after the other. */
  lemma {:induction false} TaggedAppend(a: seq<Element>, b: seq<Element>, tag: string)
    ensures Tagged(a + b, tag) == Tagged(a, tag) + Tagged(b, tag)
    decreases |a|
  {
    if a == [] {
      assert a + b == b;
    } else {
      var h := if a[0].tag == tag then [a[0]] else [];
      calc {
        Tagged(a + b, tag);
      == { assert a + b == [a[0]] + (a[1..] + b); TaggedCons(a[0], a[1..] + b, tag); }
        h + Tagged(a[1..] + b, tag);
      == { TaggedAppend(a[1..], b, tag); }
        h + (Tagged(a[1..], tag) + Tagged(b, tag));
      == { assert a == [a[0]] + a[1..]; TaggedCons(a[0], a[1..], tag); }
        Tagged(a, tag) + Tagged(b, tag);
      }
    }
  }

  lemma TaggedCons(x: Element, rest: seq<Element>, tag: string)
    ensures Tagged([x] + rest, tag) == (if x.tag == tag then [x] else []) + Tagged(rest, tag)
  {
    assert ([x] + rest)[0] == x;
    assert ([x] + rest)[1..] == rest;
  }

  /** One element is kept exactly when it carries the tag. */
  lemma TaggedOne(x: Element, tag: string)
    ensures Tagged([x], tag) == if x.tag == tag then [x] else []
  {
    assert [x][1..] == [];
  }

  /** The first element of `es` whose tag is `tag`. */
  function FirstTagged(es: seq<Element>, tag: string): (r: Option<Element>)
    ensures r.None? <==> forall x :: x in es ==> x.tag != tag
    ensures r.Some? ==> exists i :: 0 <= i < |es| && es[i] == r.value && r.value.tag == tag
                                      && forall j :: 0 <= j < i ==> es[j].tag != tag
  {
    if es == [] then None
    else if es[0].tag == tag then Some(es[0])
    else
      var r := FirstTagged(es[1..], tag);
      assert forall x :: x in es[1..] ==> x in es;
      assert r.Some? ==> exists i :: 0 <= i < |es| && es[i] == r.value && r.value.tag == tag
                                       && forall j :: 0 <= j < i ==> es[j].tag != tag by {
        if r.Some? {
          var i :| 0 <= i < |es[1..]| && es[1..][i] == r.value && r.value.tag == tag
                   && forall j :: 0 <= j < i ==> es[1..][j].tag != tag;
          assert es[i + 1] == r.value;
          forall j | 0 <= j < i + 1
            ensures es[j].tag != tag
          {
            if j > 0 {
              assert es[j] == es[1..][j - 1];
            }
          }
        }
      }
      r
  }

  /** The children with tag `tag` of each element of `es`, concatenated. */
  function ChildrenOfAll(es: seq<Element>, tag: string): seq<Element> {
    if es == [] then [] else Tagged(es[0].children, tag) + ChildrenOfAll(es[1..], tag)
  }

  /** `e.findall(tag)`. */
  function FindAll(e: Element, tag: string): seq<Element> {
    Tagged(e.children, tag)
  }

  /** `e.find(tag)`. */
  function Find(e: Element, tag: string): Option<Element> {
    FirstTagged(e.children, tag)
  }

  /** `e.find('.//' + tag)`. */
  function FindDeep(e: Element, tag: string): Option<Element> {
    FirstTagged(Descendants(e), tag)
  }

  /** `e.find('.//' + parent + '/' + tag)`. */
  function FindDeepChild(e: Element, parent: string, tag: string): Option<Element> {
    FirstTagged(ChildrenOfAll(Tagged(Descendants(e), parent), tag), tag)
  }

  /** The text of the element when it exists, as `elem.text`. */
  function TextOf(o: Option<Element>): Option<string> {
    match o
    case Some(e) => e.text
    case None => None
  }

  /** An element without children has no descendants at all. */
  lemma LeafHasNoDescendants(e: Element, tag: string)
    requires e.children == []
    ensures FindDeep(e, tag) == None
    ensures FindAll(e, tag) == []
  {
  }
}
