/** The package edits of VisioHelper_NextSteps: RecalcDocument writes the
    RecalcDocument custom property into the custom properties part, and
    CreateNewPackagePart adds a part if it is absent and a root relationship
    to it in any case. The helper's package is a field that both update. */
module NextStepsPackage {

  import opened Wrappers
  import opened Xml
  import opened Packaging
  import opened NextSteps
  import Navigator

  const CustomPropertiesRelationship: string :=
    "http://schemas.openxmlformats.org/officeDocument/2006/relationships/custom-properties"

  /** The part URI the first root relationship of a type leads to, if there is one. */
  function RootTarget(pkg: Package, resolve: Resolver, relType: string): (r: Option<string>)
    ensures r.None? <==> RelationshipsByType(pkg, Root, relType) == []
  {
    var rels := RelationshipsByType(pkg, Root, relType);
    if rels == [] then None else Some(resolve("/", rels[0].target))
  }

  /** GetPackagePart(relationship) of VisioHelper_NextSteps: null instead of
      an exception when no relationship of the type exists; GetPart still
      throws on a missing target. */
  function GetPackagePart(pkg: Package, resolve: Resolver, relType: string): (r: Result<Option<Part>>)
    ensures r == Ok(None) <==> Navigator.GetPackagePart(pkg, resolve, relType) == Err(RelationshipNotFound(Navigator.NoRelationshipMessage))
    ensures r.Ok? && r.value.Some? <==> Navigator.GetPackagePart(pkg, resolve, relType).Ok?
    ensures r.Ok? && r.value.Some? ==> r.value.value == Navigator.GetPackagePart(pkg, resolve, relType).value
    ensures r.Err? ==> r == Navigator.GetPackagePart(pkg, resolve, relType).PropagateFailure()
  {
    match RootTarget(pkg, resolve, relType)
    case None => Ok(None)
    case Some(uri) =>
      var part :- GetPart(pkg, uri);
      Ok(Some(part))
  }

  /** What RecalcDocument does to the package: a null part (no custom
      properties relationship) throws in GetXMLFromPart; otherwise the part
      is saved back with the updated document. */
  function PackageWithRecalc(pkg: Package, resolve: Resolver): (r: Result<Package>)
    ensures r.Ok? ==> r.value.relationships == pkg.relationships
    ensures r.Ok? ==> r.value.parts.Keys == pkg.parts.Keys
    ensures RootTarget(pkg, resolve, CustomPropertiesRelationship).None? ==> r == Err(NullReference)
    ensures RootTarget(pkg, resolve, CustomPropertiesRelationship).Some? ==>
              var uri := RootTarget(pkg, resolve, CustomPropertiesRelationship).value;
              && (uri !in pkg.parts ==> r == Err(PartNotFound(uri)))
              && (uri in pkg.parts && pkg.parts[uri].xml.None? ==> r == Err(MalformedXml(pkg.parts[uri].uri)))
              && (uri in pkg.parts && pkg.parts[uri].xml.Some? && WithRecalc(pkg.parts[uri].xml.value).Err?
                  ==> r == Err(WithRecalc(pkg.parts[uri].xml.value).error))
    ensures r.Ok? ==> var uri := RootTarget(pkg, resolve, CustomPropertiesRelationship).value;
              && uri in pkg.parts && pkg.parts[uri].xml.Some? && WithRecalc(pkg.parts[uri].xml.value).Ok?
              && r.value.parts[uri] == pkg.parts[uri].(xml := Some(WithRecalc(pkg.parts[uri].xml.value).value))
  {
    match RootTarget(pkg, resolve, CustomPropertiesRelationship)
    case None => Err(NullReference)
    case Some(uri) =>
      var customPart :- GetPart(pkg, uri);
      var customPartXml :- GetXMLFromPart(customPart);
      var updated :- WithRecalc(customPartXml);
      Ok(pkg.(parts := pkg.parts[uri := customPart.(xml := Some(updated))]))
  }

  /** Only the custom properties part changes, and it then asks for
      recalculation; a package that already did is left as it is. */
  lemma PackageWithRecalcChanges(pkg: Package, resolve: Resolver)
    requires PackageWithRecalc(pkg, resolve).Ok?
    ensures var uri := RootTarget(pkg, resolve, CustomPropertiesRelationship).value;
            var after := PackageWithRecalc(pkg, resolve).value;
            && (forall u :: u in pkg.parts && u != uri ==> after.parts[u] == pkg.parts[u])
            && after.parts[uri].xml.Some?
            && HasRecalcProperty(after.parts[uri].xml.value)
            && (HasRecalcProperty(pkg.parts[uri].xml.value) ==> after == pkg)
            && after.parts[uri] == pkg.parts[uri].(xml := Some(WithRecalc(pkg.parts[uri].xml.value).value))
  {
    var uri := RootTarget(pkg, resolve, CustomPropertiesRelationship).value;
    var doc := pkg.parts[uri].xml.value;
    var part := pkg.parts[uri].(xml := Some(WithRecalc(doc).value));
    assert PackageWithRecalc(pkg, resolve).value == pkg.(parts := pkg.parts[uri := part]);
    RecalcAdds(doc);
    if HasRecalcProperty(doc) {
      RecalcKeepsExisting(doc);
      assert pkg.parts[uri].(xml := Some(doc)) == pkg.parts[uri];
      assert pkg.parts[uri := pkg.parts[uri]] == pkg.parts;
    }
  }

  /** The properties of the custom properties part survive RecalcDocument:
      every `property` element below its root is still there. */
  lemma PackageWithRecalcKeepsProperties(pkg: Package, resolve: Resolver)
    requires PackageWithRecalc(pkg, resolve).Ok?
    ensures var uri := RootTarget(pkg, resolve, CustomPropertiesRelationship).value;
            var before := pkg.parts[uri].xml.value;
            var after := PackageWithRecalc(pkg, resolve).value.parts[uri].xml;
            && after.Some?
            && forall p :: p in ElementsByName(before.nodes, "property") && p !in before.nodes
                           ==> p in ElementsByName(after.value.nodes, "property")
  {
    var uri := RootTarget(pkg, resolve, CustomPropertiesRelationship).value;
    var doc := pkg.parts[uri].xml.value;
    assert PackageWithRecalc(pkg, resolve).value.parts[uri].xml == Some(WithRecalc(doc).value);
    RecalcAdds(doc);
  }

  /** RecalcDocument twice is RecalcDocument once. */
  lemma PackageWithRecalcIdempotent(pkg: Package, resolve: Resolver)
    requires PackageWithRecalc(pkg, resolve).Ok?
    ensures PackageWithRecalc(PackageWithRecalc(pkg, resolve).value, resolve) == PackageWithRecalc(pkg, resolve)
  {
    var after := PackageWithRecalc(pkg, resolve).value;
    var uri := RootTarget(pkg, resolve, CustomPropertiesRelationship).value;
    var doc := pkg.parts[uri].xml.value;
    var updated := WithRecalc(doc).value;
    var part := pkg.parts[uri].(xml := Some(updated));
    assert after == pkg.(parts := pkg.parts[uri := part]);
    assert RootTarget(after, resolve, CustomPropertiesRelationship) == Some(uri) by {
      assert RelationshipsOf(after, Root) == RelationshipsOf(pkg, Root);
    }
    assert GetPart(after, uri) == Ok(part);
    RecalcIdempotent(doc);
    assert WithRecalc(updated) == Ok(updated);
    assert part.(xml := Some(updated)) == part;
    assert after.parts[uri := part] == after.parts;
  }

  /** What CreateNewPackagePart does to the package. The relationship id is
      the one the packaging library generates, a parameter here. */
  function WithNewPart(pkg: Package, partXml: Document, location: string, contentType: string,
                       relType: string, relId: string): Package
  {
    var parts := if location in pkg.parts then pkg.parts
                 else pkg.parts[location := Part(location, contentType, Some(partXml))];
    Package(parts, pkg.relationships[Root := RelationshipsOf(pkg, Root) + [Relationship(relId, relType, location)]])
  }

  /** Create-if-absent: an existing part is kept as it is, a missing one is
      added with the document; no other part changes. */
  lemma NewPartCreatedIfAbsent(pkg: Package, partXml: Document, location: string, contentType: string,
                               relType: string, relId: string)
    ensures var after := WithNewPart(pkg, partXml, location, contentType, relType, relId);
            && after.parts.Keys == pkg.parts.Keys + {location}
            && (location in pkg.parts ==> after.parts == pkg.parts)
            && (location !in pkg.parts ==> after.parts[location] == Part(location, contentType, Some(partXml)))
            && (forall u :: u in pkg.parts ==> after.parts[u] == pkg.parts[u])
  {
  }

  /** A root relationship to the location is appended in every case, and
      the relationships of the parts stay as they are. */
  lemma NewPartRelationship(pkg: Package, partXml: Document, location: string, contentType: string,
                            relType: string, relId: string)
    ensures var after := WithNewPart(pkg, partXml, location, contentType, relType, relId);
            && RelationshipsOf(after, Root) == RelationshipsOf(pkg, Root) + [Relationship(relId, relType, location)]
            && (forall src :: src != Root ==> RelationshipsOf(after, src) == RelationshipsOf(pkg, src))
  {
  }

  /** Adding the same part twice keeps the part map of the first call but
      leaves two relationships to it. */
  lemma NewPartTwice(pkg: Package, partXml: Document, location: string, contentType: string,
                     relType: string, id1: string, id2: string)
    ensures var once := WithNewPart(pkg, partXml, location, contentType, relType, id1);
            var twice := WithNewPart(once, partXml, location, contentType, relType, id2);
            && twice.parts == once.parts
            && RelationshipsOf(twice, Root)
               == RelationshipsOf(pkg, Root) + [Relationship(id1, relType, location), Relationship(id2, relType, location)]
  {
    var once := WithNewPart(pkg, partXml, location, contentType, relType, id1);
    NewPartRelationship(pkg, partXml, location, contentType, relType, id1);
    NewPartRelationship(once, partXml, location, contentType, relType, id2);
  }

  /** The object of VisioHelper_NextSteps with the package it edits. */
  class VisioHelperNextSteps {
    var visioPackage: Option<Package>

    constructor(pkg: Option<Package>)
      ensures visioPackage == pkg
    {
      visioPackage := pkg;
    }

    /** RecalcDocument(): fetch the custom properties part, pick the pid,
        add the property unless the pid is -1, save the part. */
    method RecalcDocument(resolve: Resolver) returns (r: Outcome)
      requires visioPackage.Some?
      modifies this
      ensures var after := PackageWithRecalc(old(visioPackage.value), resolve);
              && (r.Pass? <==> after.Ok?)
              && (after.Ok? ==> visioPackage == Some(after.value))
              && (after.Err? ==> r == Fail(after.error) && visioPackage == old(visioPackage))
    {
      var pkg := visioPackage.value;
      var target := RootTarget(pkg, resolve, CustomPropertiesRelationship);
      if target.None? {
        return Fail(NullReference);
      }
      var customPart := GetPart(pkg, target.value);
      if customPart.Err? {
        return Fail(customPart.error);
      }
      var customPartXml := GetXMLFromPart(customPart.value);
      if customPartXml.Err? {
        return Fail(customPartXml.error);
      }
      var pidValue := CheckForRecalc(customPartXml.value);
      if pidValue.Err? {
        return Fail(pidValue.error);
      }
      var updated := customPartXml.value;
      if pidValue.value > -1 {
        var nodes := AddToRoot(updated.nodes, RecalcProperty(pidValue.value));
        if nodes.Err? {
          return Fail(nodes.error);
        }
        updated := Document(nodes.value);
      }
      visioPackage := Some(pkg.(parts := pkg.parts[target.value := customPart.value.(xml := Some(updated))]));
      return Pass;
    }

    /** CreateNewPackagePart(_visioPackage, partXML, packageLocation,
        contentType, relationship): PartExists, CreatePart, then
        CreateRelationship from the package root. */
    method CreateNewPackagePart(partXml: Document, location: string, contentType: string,
                                relType: string, relId: string)
      requires visioPackage.Some?
      modifies this
      ensures visioPackage == Some(WithNewPart(old(visioPackage.value), partXml, location, contentType, relType, relId))
    {
      var pkg := visioPackage.value;
      var parts := pkg.parts;
      if location !in parts {
        parts := parts[location := Part(location, contentType, Some(partXml))];
      }
      var rootRels := RelationshipsOf(pkg, Root) + [Relationship(relId, relType, location)];
      visioPackage := Some(Package(parts, pkg.relationships[Root := rootRels]));
    }
  }
}
