/** The page index of VisioHelper: the names of the foreground pages, read
    from the Pages part, and the page parts themselves, reached from the
    package root through the Document and Pages parts. */
module PageIndex {

  import opened Wrappers
  import opened Seqs
  import opened Text
  import opened Xml
  import opened Packaging
  import opened Navigator

  /** A Page element that GetPagesNames reports: it has no Background
      attribute and it does have a Name attribute. */
  predicate IsNamedForeground(page: Node) {
    Attribute(page, "Background").None? && Attribute(page, "Name").Some?
  }

  /** The trimmed Name attribute of a reported Page element. */
  function PageName(page: Node): string
    requires IsNamedForeground(page)
  {
    Trim(Attribute(page, "Name").value)
  }

  /** pageElements.Where(no Background).Select(Name).Where(not null).Select(Trim). */
  function PageNames(pageElements: seq<Node>): (r: seq<string>)
    ensures |r| == |Filter(pageElements, IsNamedForeground)|
    ensures forall k :: 0 <= k < |r| ==> IsTrimmed(r[k])
  {
    var named := Filter(pageElements, IsNamedForeground);
    seq(|named|, k requires 0 <= k < |named| => PageName(named[k]))
  }

  /** GetPagesNames(pagesPart): the names of the Page elements found at any depth of the Pages part. */
  function GetPagesNames(pagesPart: Part): (r: Result<seq<string>>)
    ensures r.Err? <==> pagesPart.xml.None?
    ensures r.Ok? ==> r.value == PageNames(ElementsByName(pagesPart.xml.value.nodes, "Page"))
  {
    var pagesXml :- GetXMLFromPart(pagesPart);
    Ok(PageNames(ElementsByName(pagesXml.nodes, "Page")))
  }

  /** The k-th name is the trimmed Name of the k-th reported Page element, the
      reported elements are exactly the named foreground ones, and they come
      in document order. */
  lemma PageNamesExact(pageElements: seq<Node>)
    ensures var idx := KeptIndices(pageElements, IsNamedForeground);
            && |PageNames(pageElements)| == |idx|
            && (forall k :: 0 <= k < |idx| ==>
                  IsNamedForeground(pageElements[idx[k]]) && PageNames(pageElements)[k] == PageName(pageElements[idx[k]]))
            && (forall k, l :: 0 <= k < l < |idx| ==> idx[k] < idx[l])
            && (forall i :: 0 <= i < |pageElements| && IsNamedForeground(pageElements[i]) ==> i in idx)
  {
    FilterAt(pageElements, IsNamedForeground);
    KeptIndicesAccepted(pageElements, IsNamedForeground);
    KeptIndicesAscending(pageElements, IsNamedForeground);
    KeptIndicesComplete(pageElements, IsNamedForeground);
  }

  /** Background pages are never named, whatever their Name attribute. */
  lemma BackgroundPagesUnnamed(fg: seq<Node>, bg: Node)
    requires Attribute(bg, "Background").Some?
    ensures PageNames([bg] + fg) == PageNames(fg)
  {
    var pages := [bg] + fg;
    assert pages[1..] == fg;
    assert !IsNamedForeground(pages[0]);
    assert Filter(pages, IsNamedForeground) == Filter(fg, IsNamedForeground);
  }

  /** GetDocumentPart followed by GetPagesCollection: Document, then Pages. */
  function GetPagesCollection(pkg: Package, resolve: Resolver): (r: Result<Part>)
    ensures RelationshipsByType(pkg, Root, DocumentRelationship) == []
            ==> r == Err(RelationshipNotFound(NoRelationshipMessage))
    ensures GetPackagePart(pkg, resolve, DocumentRelationship).Err?
            ==> r == Err(GetPackagePart(pkg, resolve, DocumentRelationship).error)
    ensures GetPackagePart(pkg, resolve, DocumentRelationship).Ok?
            ==> var documentPart := GetPackagePart(pkg, resolve, DocumentRelationship).value;
                && r == GetPackagePartOf(pkg, resolve, documentPart, PagesRelationship)
                && (RelationshipsByType(pkg, FromPart(documentPart.uri), PagesRelationship) == []
                    <==> r == Err(RelationshipNotFound(NoPackagePartMessage)))
  {
    var documentPart :- GetPackagePart(pkg, resolve, DocumentRelationship);
    GetPackagePartOf(pkg, resolve, documentPart, PagesRelationship)
  }

  /** GetPagesFromPagesCollection: the page parts, ordered by relationship id. */
  function GetPagesFromPagesCollection(pkg: Package, resolve: Resolver, pagesPart: Part): Result<seq<Part>> {
    PackageParts(pkg, resolve, pagesPart, PageRelationship)
  }

  /** What GetPages leaves in the fields on success: the page names and the page parts. */
  datatype PageSet = PageSet(names: seq<string>, pages: seq<Part>)

  /** GetPages: the page names are read before the page parts are resolved,
      so a Pages part without XML wins over a missing page part. */
  function Pages(pkg: Package, resolve: Resolver): (r: Result<PageSet>)
    ensures r.Ok? ==> GetPagesCollection(pkg, resolve).Ok?
    ensures r.Ok? ==> var pagesPart := GetPagesCollection(pkg, resolve).value;
      && pagesPart.xml.Some?
      && r.value.names == PageNames(ElementsByName(pagesPart.xml.value.nodes, "Page"))
      && |r.value.pages| == |RelationshipsByType(pkg, FromPart(pagesPart.uri), PageRelationship)|
      && Ok(r.value.pages) == PackageParts(pkg, resolve, pagesPart, PageRelationship)
    ensures r.Err? <==> || GetPagesCollection(pkg, resolve).Err?
                        || GetPagesNames(GetPagesCollection(pkg, resolve).value).Err?
                        || PackageParts(pkg, resolve, GetPagesCollection(pkg, resolve).value, PageRelationship).Err?
    ensures GetPagesCollection(pkg, resolve).Err? ==> r == Err(GetPagesCollection(pkg, resolve).error)
    ensures GetPagesCollection(pkg, resolve).Ok? ==> var pagesPart := GetPagesCollection(pkg, resolve).value;
      && (pagesPart.xml.None? ==> r == Err(MalformedXml(pagesPart.uri)))
      && (pagesPart.xml.Some? && PackageParts(pkg, resolve, pagesPart, PageRelationship).Err?
          ==> r == Err(PackageParts(pkg, resolve, pagesPart, PageRelationship).error))
  {
    var pagesCollection :- GetPagesCollection(pkg, resolve);
    var names :- GetPagesNames(pagesCollection);
    var pages :- GetPagesFromPagesCollection(pkg, resolve, pagesCollection);
    Ok(PageSet(names, pages))
  }
}
