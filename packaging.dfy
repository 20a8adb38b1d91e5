/** The package the search reads, reduced to what the navigator needs: parts
    by URI, each holding its already-parsed XML, and the relationships of the
    package root and of each part. Opening the zip and parsing the streams
    happen outside the model; their outcomes are part of the state. */
module Packaging {

  import opened Wrappers
  import opened Xml
  import opened Seqs

  /** The relationship types that lead from the package root to the pages. */
  const DocumentRelationship: string := "http://schemas.microsoft.com/visio/2010/relationships/document"
  const PagesRelationship: string := "http://schemas.microsoft.com/visio/2010/relationships/pages"
  const PageRelationship: string := "http://schemas.microsoft.com/visio/2010/relationships/page"

  /** A PackageRelationship: its id ("rId3"), its type, and its target URI as stored (not yet resolved). */
  datatype Relationship = Relationship(id: string, relType: string, target: string)

  /** Where relationships start: the package root, or the part with this URI. */
  datatype Source = Root | FromPart(uri: string)

  /** A PackagePart: its URI, its content type, and its stream parsed as XML
      (None when the stream is not well-formed XML). */
  datatype Part = Part(uri: string, contentType: string, xml: Option<Document>)

  /** An opened Package. */
  datatype Package = Package(parts: map<string, Part>, relationships: map<Source, seq<Relationship>>)

  /** PackUriHelper.ResolvePartUri(sourceUri, targetUri): the part URI a
      relationship target denotes, seen from its source. It belongs to the
      packaging library, so the model takes it as a parameter. */
  type Resolver = (string, string) -> string

  /** The file system: the paths that exist, each holding a package, or
      None when the file cannot be opened as one. */
  type FileSystem = map<string, Option<Package>>

  /** Every relationship from src, in the package's enumeration order. */
  function RelationshipsOf(pkg: Package, src: Source): seq<Relationship> {
    if src in pkg.relationships then pkg.relationships[src] else []
  }

  /** GetRelationshipsByType(relType) on src. */
  function RelationshipsByType(pkg: Package, src: Source, relType: string): (r: seq<Relationship>)
    ensures forall i :: 0 <= i < |r| ==> r[i].relType == relType
  {
    Filter(RelationshipsOf(pkg, src), (rel: Relationship) => rel.relType == relType)
  }

  /** GetRelationshipsByType finds exactly the relationships of that type. */
  lemma RelationshipsByTypeMembership(pkg: Package, src: Source, relType: string, rel: Relationship)
    ensures rel in RelationshipsByType(pkg, src, relType) <==> rel in RelationshipsOf(pkg, src) && rel.relType == relType
  {
    FilterMembership(RelationshipsOf(pkg, src), (rel: Relationship) => rel.relType == relType, rel);
  }

  /** Package.GetPart(uri): the part, or InvalidOperationException when there is none. */
  function GetPart(pkg: Package, uri: string): (r: Result<Part>)
    ensures r.Ok? <==> uri in pkg.parts
    ensures r.Ok? ==> r.value == pkg.parts[uri]
    ensures r.Err? ==> r.error == PartNotFound(uri)
  {
    if uri in pkg.parts then Ok(pkg.parts[uri]) else Err(PartNotFound(uri))
  }

  /** GetXMLFromPart: XDocument.Load of the part's stream. */
  function GetXMLFromPart(part: Part): (r: Result<Document>)
    ensures r.Ok? <==> part.xml.Some?
    ensures r.Ok? ==> r.value == part.xml.value
    ensures r.Err? ==> r.error == MalformedXml(part.uri)
  {
    match part.xml
    case Some(d) => Ok(d)
    case None => Err(MalformedXml(part.uri))
  }

  /** OpenPackage: FileNotFoundException when the file does not exist, before
      anything is read; otherwise Package.Open, which fails on a file that is
      not a package. */
  function OpenPackage(fs: FileSystem, filePath: string): (r: Result<Package>)
    ensures filePath !in fs ==> r == Err(FileNotFound(filePath))
    ensures r.Ok? <==> filePath in fs && fs[filePath].Some?
    ensures r.Ok? ==> r.value == fs[filePath].value
  {
    if filePath !in fs then Err(FileNotFound(filePath))
    else if fs[filePath].None? then Err(OpenFailed(filePath))
    else Ok(fs[filePath].value)
  }
}
