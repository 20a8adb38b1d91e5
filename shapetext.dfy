/** The shape text extractor of VisioHelper: every Text element below every
    Shape element of a page, its value trimmed, kept when it starts with the
    prefix. The trimming function is a parameter of the specification so that
    the variant that only trims the end can share it. */
module ShapeText {

  import opened Wrappers
  import opened Seqs
  import opened Text
  import opened Xml
  import opened Packaging

  /** GetShapesXml: the Shape elements of a page at any depth, in document order. */
  function GetShapesXml(pageXml: Document): seq<Node> {
    ElementsByName(pageXml.nodes, "Shape")
  }

  /** GetXElementsByName(shape, "Text"): the Text elements anywhere below a shape. */
  function TextsOf(shape: Node): seq<Node> {
    ElementsByName(Children(shape), "Text")
  }

  /** texts.Select(t => trim(t.Value)). */
  function TrimmedValues(texts: seq<Node>, trim: string -> string): (r: seq<string>)
    ensures |r| == |texts| && forall j :: 0 <= j < |texts| ==> r[j] == trim(Value(texts[j]))
  {
    seq(|texts|, j requires 0 <= j < |texts| => trim(Value(texts[j])))
  }

  /** texts.Select(t => trim(t.Value)).Where(t => t.StartsWith(searchText)). */
  function MatchingTexts(texts: seq<Node>, searchText: string, trim: string -> string): seq<string> {
    Filter(TrimmedValues(texts, trim), (v: string) => StartsWith(v, searchText))
  }

  /** A value is kept exactly when it is the trimmed value of one of the texts and starts with the prefix. */
  lemma MatchingTextsExact(texts: seq<Node>, searchText: string, trim: string -> string, x: string)
    ensures x in MatchingTexts(texts, searchText, trim)
            <==> exists j :: 0 <= j < |texts| && x == trim(Value(texts[j])) && StartsWith(x, searchText)
  {
    var vs := TrimmedValues(texts, trim);
    FilterMembership(vs, (v: string) => StartsWith(v, searchText), x);
    if x in MatchingTexts(texts, searchText, trim) {
      var j :| 0 <= j < |vs| && vs[j] == x;
    }
  }

  /** What GetPrefixedTextsFromShapes returns: each shape's matching texts, shape by shape. */
  function PrefixedTexts(shapes: seq<Node>, searchText: string, trim: string -> string): seq<string> {
    if shapes == [] then []
    else MatchingTexts(TextsOf(shapes[0]), searchText, trim) + PrefixedTexts(shapes[1..], searchText, trim)
  }

  /** One step of the loop in GetPrefixedTextsFromShapes. */
  lemma PrefixedTextsStep(shapes: seq<Node>, i: nat, searchText: string, trim: string -> string, done: seq<string>)
    requires i < |shapes|
    requires done + PrefixedTexts(shapes[i..], searchText, trim) == PrefixedTexts(shapes, searchText, trim)
    ensures (done + MatchingTexts(TextsOf(shapes[i]), searchText, trim)) + PrefixedTexts(shapes[i + 1..], searchText, trim)
            == PrefixedTexts(shapes, searchText, trim)
    ensures |TextsOf(shapes[i])| == 0 ==> done + PrefixedTexts(shapes[i + 1..], searchText, trim) == PrefixedTexts(shapes, searchText, trim)
  {
    assert shapes[i..][1..] == shapes[i + 1..];
    var m := MatchingTexts(TextsOf(shapes[i]), searchText, trim);
    var rest := PrefixedTexts(shapes[i + 1..], searchText, trim);
    assert PrefixedTexts(shapes[i..], searchText, trim) == m + rest;
    assert (done + m) + rest == done + (m + rest);
    if |TextsOf(shapes[i])| == 0 {
      assert m == [];
      assert m + rest == rest;
    }
  }

  /** GetPrefixedTextsFromShapes(shapesXML, searchText). The texts.Any() guard
      only skips shapes that would contribute nothing. */
  method GetPrefixedTextsFromShapes(shapesXML: seq<Node>, searchText: string) returns (result: seq<string>)
    ensures result == PrefixedTexts(shapesXML, searchText, Trim)
  {
    result := [];
    assert shapesXML[0..] == shapesXML;
    for i := 0 to |shapesXML|
      invariant result + PrefixedTexts(shapesXML[i..], searchText, Trim) == PrefixedTexts(shapesXML, searchText, Trim)
    {
      PrefixedTextsStep(shapesXML, i, searchText, Trim, result);
      var texts := TextsOf(shapesXML[i]);
      if |texts| > 0 {
        var filteredTexts := MatchingTexts(texts, searchText, Trim);
        result := result + filteredTexts;
      }
    }
    assert shapesXML[|shapesXML|..] == [];
  }

  /** The trimmed value of the j-th Text element below the i-th shape. */
  function ShapeText(shapes: seq<Node>, i: nat, j: nat, trim: string -> string): string
    requires i < |shapes| && j < |TextsOf(shapes[i])|
  {
    trim(Value(TextsOf(shapes[i])[j]))
  }

  /** Only trimmed Text values below a shape that start with the prefix are returned. */
  lemma {:induction false} PrefixedTextsSound(shapes: seq<Node>, searchText: string, trim: string -> string, x: string)
    requires x in PrefixedTexts(shapes, searchText, trim)
    ensures exists i, j :: 0 <= i < |shapes| && 0 <= j < |TextsOf(shapes[i])|
                           && x == ShapeText(shapes, i, j, trim) && StartsWith(x, searchText)
  {
    var texts := TextsOf(shapes[0]);
    assert PrefixedTexts(shapes, searchText, trim)
           == MatchingTexts(texts, searchText, trim) + PrefixedTexts(shapes[1..], searchText, trim);
    if x in MatchingTexts(texts, searchText, trim) {
      MatchingTextsExact(texts, searchText, trim, x);
      var j :| 0 <= j < |texts| && x == trim(Value(texts[j])) && StartsWith(x, searchText);
      assert x == ShapeText(shapes, 0, j, trim);
    } else {
      PrefixedTextsSound(shapes[1..], searchText, trim, x);
      var i, j :| 0 <= i < |shapes[1..]| && 0 <= j < |TextsOf(shapes[1..][i])|
                  && x == ShapeText(shapes[1..], i, j, trim) && StartsWith(x, searchText);
      assert shapes[i + 1] == shapes[1..][i];
      assert x == ShapeText(shapes, i + 1, j, trim);
    }
  }

  /** Every trimmed Text value below a shape that starts with the prefix is returned. */
  lemma {:induction false} PrefixedTextsComplete(shapes: seq<Node>, searchText: string, trim: string -> string, i: nat, j: nat)
    requires i < |shapes| && j < |TextsOf(shapes[i])|
    requires StartsWith(ShapeText(shapes, i, j, trim), searchText)
    ensures ShapeText(shapes, i, j, trim) in PrefixedTexts(shapes, searchText, trim)
  {
    var x := ShapeText(shapes, i, j, trim);
    if i == 0 {
      MatchingTextsExact(TextsOf(shapes[0]), searchText, trim, x);
    } else {
      assert shapes[1..][i - 1] == shapes[i];
      assert ShapeText(shapes[1..], i - 1, j, trim) == x;
      PrefixedTextsComplete(shapes[1..], searchText, trim, i - 1, j);
    }
  }

  /** A string is returned exactly when it is the trimmed value of a Text
      element below one of the shapes and starts with the prefix. */
  lemma PrefixedTextsExact(shapes: seq<Node>, searchText: string, trim: string -> string, x: string)
    ensures x in PrefixedTexts(shapes, searchText, trim)
            <==> exists i, j :: 0 <= i < |shapes| && 0 <= j < |TextsOf(shapes[i])|
                                && x == ShapeText(shapes, i, j, trim) && StartsWith(x, searchText)
  {
    if x in PrefixedTexts(shapes, searchText, trim) {
      PrefixedTextsSound(shapes, searchText, trim, x);
    }
    if exists i, j :: 0 <= i < |shapes| && 0 <= j < |TextsOf(shapes[i])|
                      && x == ShapeText(shapes, i, j, trim) && StartsWith(x, searchText) {
      var i, j :| 0 <= i < |shapes| && 0 <= j < |TextsOf(shapes[i])|
                  && x == ShapeText(shapes, i, j, trim) && StartsWith(x, searchText);
      PrefixedTextsComplete(shapes, searchText, trim, i, j);
    }
  }

  /** With String.Trim, every returned string starts with the prefix and
      carries no leading or trailing whitespace. */
  lemma PrefixedTextsAreTrimmedMatches(shapes: seq<Node>, searchText: string)
    ensures forall x :: x in PrefixedTexts(shapes, searchText, Trim) ==> StartsWith(x, searchText) && IsTrimmed(x)
  {
    forall x | x in PrefixedTexts(shapes, searchText, Trim)
      ensures StartsWith(x, searchText) && IsTrimmed(x)
    {
      PrefixedTextsSound(shapes, searchText, Trim, x);
    }
  }

  /** `inner` wrapped in k Shape elements, each the only child of the next. */
  function Tower(k: nat, inner: Node): Node {
    if k == 0 then inner else Element("Shape", map[], [Tower(k - 1, inner)])
  }

  /** The shapes of a tower, outermost first. */
  function Levels(k: nat, inner: Node): seq<Node> {
    if k == 0 then [inner] else [Tower(k, inner)] + Levels(k - 1, inner)
  }

  /** m repeated n times. */
  function Repeat(m: seq<string>, n: nat): (r: seq<string>)
    ensures |r| == n * |m|
  {
    if n == 0 then [] else m + Repeat(m, n - 1)
  }

  /** GetShapesXml finds every shape of a tower, outermost first. */
  lemma {:induction false} TowerShapes(k: nat, inner: Node)
    requires inner.Element? && inner.name == "Shape" && ElementsByName(inner.children, "Shape") == []
    ensures ElementsByName([Tower(k, inner)], "Shape") == Levels(k, inner)
  {
    ElementsByNameOfOne(Tower(k, inner), "Shape");
    if k > 0 {
      TowerShapes(k - 1, inner);
    }
  }

  /** Every shape of a tower sees the innermost shape's Text elements. */
  lemma {:induction false} TowerTexts(k: nat, inner: Node)
    requires inner.Element? && inner.name == "Shape"
    ensures TextsOf(Tower(k, inner)) == TextsOf(inner)
  {
    if k > 0 {
      ElementsByNameOfOne(Tower(k - 1, inner), "Text");
      TowerTexts(k - 1, inner);
    }
  }

  /** The i-th level of a tower is the tower of height k - i. */
  lemma {:induction false} LevelsAt(k: nat, inner: Node)
    ensures |Levels(k, inner)| == k + 1
    ensures forall i :: 0 <= i <= k ==> Levels(k, inner)[i] == Tower(k - i, inner)
  {
    if k > 0 {
      LevelsAt(k - 1, inner);
    }
  }

  /** Shapes that all see the same Text elements yield those matches once per shape. */
  lemma {:induction false} SameTextsRepeat(shapes: seq<Node>, texts: seq<Node>, searchText: string, trim: string -> string)
    requires forall i :: 0 <= i < |shapes| ==> TextsOf(shapes[i]) == texts
    ensures PrefixedTexts(shapes, searchText, trim) == Repeat(MatchingTexts(texts, searchText, trim), |shapes|)
  {
    if shapes != [] {
      assert TextsOf(shapes[0]) == texts;
      SameTextsRepeat(shapes[1..], texts, searchText, trim);
    }
  }

  lemma LevelsTexts(k: nat, inner: Node, searchText: string)
    requires inner.Element? && inner.name == "Shape"
    ensures PrefixedTexts(Levels(k, inner), searchText, Trim) == Repeat(MatchingTexts(TextsOf(inner), searchText, Trim), k + 1)
  {
    var ls := Levels(k, inner);
    LevelsAt(k, inner);
    forall i | 0 <= i < |ls|
      ensures TextsOf(ls[i]) == TextsOf(inner)
    {
      TowerTexts(k - i, inner);
    }
    SameTextsRepeat(ls, TextsOf(inner), searchText, Trim);
  }

  /** Shapes nested in shapes: the texts of a shape with k enclosing shapes
      are found through each of the k + 1 shapes, so each match appears
      k + 1 times. */
  lemma NestedShapeTexts(k: nat, inner: Node, searchText: string)
    requires inner.Element? && inner.name == "Shape" && ElementsByName(inner.children, "Shape") == []
    ensures PrefixedTexts(GetShapesXml(Document([Tower(k, inner)])), searchText, Trim)
            == Repeat(MatchingTexts(TextsOf(inner), searchText, Trim), k + 1)
  {
    TowerShapes(k, inner);
    LevelsTexts(k, inner, searchText);
  }

  /** GetPagePrefixedTexts(prefixText, page): the page's XML, its shapes, their matching texts. */
  function PageTexts(page: Part, prefixText: string): (r: Result<seq<string>>)
    ensures r.Err? <==> page.xml.None?
    ensures r.Err? ==> r.error == MalformedXml(page.uri)
  {
    var pageXml :- GetXMLFromPart(page);
    Ok(PrefixedTexts(GetShapesXml(pageXml), prefixText, Trim))
  }

  method GetPagePrefixedTexts(prefixText: string, page: Part) returns (r: Result<seq<string>>)
    ensures r == PageTexts(page, prefixText)
  {
    var pageXml := GetXMLFromPart(page);
    if pageXml.Err? {
      return Err(pageXml.error);
    }
    var shapesXml := GetShapesXml(pageXml.value);
    var texts := GetPrefixedTextsFromShapes(shapesXml, prefixText);
    return Ok(texts);
  }
}
