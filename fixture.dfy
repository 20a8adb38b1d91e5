/** A two-page drawing in the shape of the repository's test drawing: each
    shape holds one Text element, page A has three texts starting with
    "Note" and page B two, plus shapes whose texts do not match. */
module Fixture {

  import opened Wrappers
  import opened Seqs
  import opened Text
  import opened Xml
  import opened Packaging
  import opened ShapeText
  import opened PageIndex
  import opened VisioSearch

  /** A shape whose only child is a Text element holding t. */
  function TextShape(t: string): Node {
    Element("Shape", map[], [Element("Text", map[], [TextNode(t)])])
  }

  function TextShapes(ts: seq<string>): (r: seq<Node>)
    ensures |r| == |ts| && forall i :: 0 <= i < |ts| ==> r[i] == TextShape(ts[i])
  {
    seq(|ts|, i requires 0 <= i < |ts| => TextShape(ts[i]))
  }

  /** The page contents of a page with these shapes at top level. */
  function PageDocument(shapes: seq<Node>): Document {
    Document([Element("PageContents", map[], [Element("Shapes", map[], shapes)])])
  }

  /** The Text element of a text shape is its only text, and its value is t. */
  lemma TextShapeText(t: string)
    ensures TextsOf(TextShape(t)) == [Element("Text", map[], [TextNode(t)])]
    ensures Value(Element("Text", map[], [TextNode(t)])) == t
  {
    var text := Element("Text", map[], [TextNode(t)]);
    ElementsByNameOfOne(text, "Text");
    assert ElementsByName([TextNode(t)], "Text") == [] by {
      assert Descendants([TextNode(t)]) == [] by {
        assert [TextNode(t)][1..] == [];
      }
    }
    assert ValueOf([TextNode(t)]) == t + ValueOf([]);
  }

  /** A text shape matches exactly when its trimmed text starts with the prefix. */
  lemma TextShapeTexts(t: string, searchText: string)
    requires IsTrimmed(t)
    ensures MatchingTexts(TextsOf(TextShape(t)), searchText, Trim) == if StartsWith(t, searchText) then [t] else []
  {
    var text := Element("Text", map[], [TextNode(t)]);
    TextShapeText(t);
    TrimUnique([], t, []);
    assert [] + t + [] == t;
    var vs := TrimmedValues([text], Trim);
    assert vs == [t];
    assert vs[1..] == [];
  }

  /** Text shapes hold no shapes below them. */
  lemma TextShapeHasNoShapes(t: string)
    ensures ElementsByName(Children(TextShape(t)), "Shape") == []
  {
    var text := Element("Text", map[], [TextNode(t)]);
    ElementsByNameOfOne(text, "Shape");
    assert Descendants([TextNode(t)]) == [] by {
      assert [TextNode(t)][1..] == [];
    }
  }

  /** The shapes of a page made of text shapes are those shapes. */
  lemma {:induction false} ShapesOfTextShapes(ts: seq<string>)
    ensures ElementsByName(TextShapes(ts), "Shape") == TextShapes(ts)
  {
    if ts != [] {
      var shapes := TextShapes(ts);
      assert shapes == [shapes[0]] + shapes[1..];
      assert shapes[1..] == TextShapes(ts[1..]);
      ShapesOfTextShapes(ts[1..]);
      ElementsByNameAppend([shapes[0]], shapes[1..], "Shape");
      ElementsByNameOfOne(shapes[0], "Shape");
      TextShapeHasNoShapes(ts[0]);
    }
  }

  /** On such a page the extractor keeps exactly the texts that start with the prefix. */
  lemma {:induction false} PrefixedOfTextShapes(ts: seq<string>, searchText: string)
    requires forall i :: 0 <= i < |ts| ==> IsTrimmed(ts[i])
    ensures PrefixedTexts(TextShapes(ts), searchText, Trim) == Filter(ts, (t: string) => StartsWith(t, searchText))
  {
    if ts != [] {
      var shapes := TextShapes(ts);
      assert shapes[1..] == TextShapes(ts[1..]);
      PrefixedOfTextShapes(ts[1..], searchText);
      TextShapeTexts(ts[0], searchText);
    }
  }

  /** The page contents and the shapes elements around the shapes add no shapes. */
  lemma ShapesOfPage(shapes: seq<Node>)
    ensures GetShapesXml(PageDocument(shapes)) == ElementsByName(shapes, "Shape")
  {
    var inner := Element("Shapes", map[], shapes);
    var outer := Element("PageContents", map[], [inner]);
    ElementsByNameOfOne(outer, "Shape");
    ElementsByNameOfOne(inner, "Shape");
  }

  const PageATexts: seq<string> := ["Start", "Note one", "Note two", "Decision", "Note three"]
  const PageBTexts: seq<string> := ["Note four", "End", "Note five"]

  function PageA(): Part {
    Part("/visio/pages/page1.xml", "application/vnd.ms-visio.page+xml", Some(PageDocument(TextShapes(PageATexts))))
  }

  function PageB(): Part {
    Part("/visio/pages/page2.xml", "application/vnd.ms-visio.page+xml", Some(PageDocument(TextShapes(PageBTexts))))
  }

  /** What a page made of text shapes yields for a prefix. */
  lemma PageOfTextShapes(ts: seq<string>, uri: string, contentType: string, searchText: string)
    requires forall i :: 0 <= i < |ts| ==> IsTrimmed(ts[i])
    ensures PageTexts(Part(uri, contentType, Some(PageDocument(TextShapes(ts)))), searchText)
            == Ok(Filter(ts, (t: string) => StartsWith(t, searchText)))
  {
    ShapesOfPage(TextShapes(ts));
    ShapesOfTextShapes(ts);
    PrefixedOfTextShapes(ts, searchText);
  }

  lemma FilterPageA()
    ensures Filter(PageATexts, (t: string) => StartsWith(t, "Note")) == ["Note one", "Note two", "Note three"]
  {
    var s := PageATexts;
    assert s[0][..4] == "Star" && s[3][..4] == "Deci";
    assert s[1][..4] == "Note" && s[2][..4] == "Note" && s[4][..4] == "Note";
    assert s[1..] == ["Note one", "Note two", "Decision", "Note three"];
    assert s[1..][1..] == ["Note two", "Decision", "Note three"];
    assert s[1..][1..][1..] == ["Decision", "Note three"];
    assert s[1..][1..][1..][1..] == ["Note three"];
    assert s[1..][1..][1..][1..][1..] == [];
  }

  lemma FilterPageB()
    ensures Filter(PageBTexts, (t: string) => StartsWith(t, "Note")) == ["Note four", "Note five"]
  {
    var s := PageBTexts;
    assert s[0][..4] == "Note" && s[2][..4] == "Note";
    assert s[1..] == ["End", "Note five"];
    assert s[1..][1..] == ["Note five"];
    assert s[1..][1..][1..] == [];
  }

  lemma PageATextsFound()
    ensures PageTexts(PageA(), "Note") == Ok(["Note one", "Note two", "Note three"])
  {
    assert forall i :: 0 <= i < |PageATexts| ==> IsTrimmed(PageATexts[i]);
    PageOfTextShapes(PageATexts, "/visio/pages/page1.xml", "application/vnd.ms-visio.page+xml", "Note");
    FilterPageA();
  }

  lemma PageBTextsFound()
    ensures PageTexts(PageB(), "Note") == Ok(["Note four", "Note five"])
  {
    assert forall i :: 0 <= i < |PageBTexts| ==> IsTrimmed(PageBTexts[i]);
    PageOfTextShapes(PageBTexts, "/visio/pages/page2.xml", "application/vnd.ms-visio.page+xml", "Note");
    FilterPageB();
  }

  /** Two pages with matches, two names: the first name goes to the first
      page, the second to the second. */
  lemma TwoMatchingPages(pa: Part, pb: Part, prefixText: string, na: string, nb: string, a: seq<string>, b: seq<string>)
    requires PageTexts(pa, prefixText) == Ok(a) && PageTexts(pb, prefixText) == Ok(b)
    requires |a| > 0 && |b| > 0 && na != nb
    ensures SearchPages(PageSet([na, nb], [pa, pb]), prefixText) == Ok([Entry(na, a), Entry(nb, b)])
  {
    var names := [na, nb];
    var results := PageResults([pa, pb], prefixText);
    assert results == [Ok(a), Ok(b)];
    var tail := results[1..];
    assert tail == [Ok(b)] && tail[1..] == [];
    var none: seq<Entry> := [];
    assert none + [Entry(na, a)] == [Entry(na, a)];
    assert Keys([]) == [] && Keys([Entry(na, a)]) == [na];
    assert [Entry(na, a)] + [Entry(nb, b)] == [Entry(na, a), Entry(nb, b)];
    assert Collect(results, names, 0, []) == Collect(tail, names, 1, [Entry(na, a)]);
    assert Collect(tail, names, 1, [Entry(na, a)]) == Collect([], names, 2, [Entry(na, a), Entry(nb, b)]);
  }

  /** Searching the two pages for "Note" files page A's three texts under
      MyPageA and then page B's two under MyPageB. */
  lemma TwoPageSearch()
    ensures SearchPages(PageSet(["MyPageA", "MyPageB"], [PageA(), PageB()]), "Note")
            == Ok([Entry("MyPageA", ["Note one", "Note two", "Note three"]),
                   Entry("MyPageB", ["Note four", "Note five"])])
  {
    PageATextsFound();
    PageBTextsFound();
    TwoMatchingPages(PageA(), PageB(), "Note", "MyPageA", "MyPageB",
                     ["Note one", "Note two", "Note three"], ["Note four", "Note five"]);
  }
}
