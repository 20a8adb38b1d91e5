# VisioHelper: shape text search and package edits, modelled in Dafny

VisioHelper opens a Visio drawing (`.vsdx`), which is an Open Packaging
Conventions package. It follows the package relationships from the root to
the Document part, the Pages part, and the one part per page. For a prefix,
it collects the text of every `Text` element below each `Shape` of a page,
trimmed, that starts with the prefix. Each page with at least one match is
filed in a dictionary under the next page name in order; a repeated name
makes the search fail. The page names are
read from the `Page` elements of the Pages part: background pages are
skipped, and so are pages without a `Name`.

The second file, `VisioHelper_NextSteps`, does the same queries with small
differences. It only trims the end of texts. It returns a null where the
main file returns nothing. It keeps background pages in its list of names.
It also edits the package:

- `RecalcDocument` adds a `RecalcDocument` custom property. Its property
  id (pid) is the least integer from 2 on whose decimal string is not used
  yet.
- `CreateNewPackagePart` adds a part if it is absent, and always adds a
  relationship to it from the package root.

The model:

- `wrappers.dfy` holds `Option` and `Result`, plus one `Error` per
  exception the code raises.
- `text.dfy` holds .NET whitespace, `Trim`/`TrimStart`/`TrimEnd`, ordinal
  `StartsWith` and ordinal order, and `int.ToString()`.
- `seqs.dfy` holds LINQ `Where` and the positions it keeps.
- `xml.dfy` holds LINQ-to-XML trees, `Descendants()`, the
  `GetXElementsByName` query and `XElement.Value`.
- `packaging.dfy` holds parts, relationships, the package and the file
  system.
- `navigator.dfy` holds the `GetPackagePart` overloads and `GetPackageParts`,
  whose relationships are sorted by id (`OrderBy(i => i.Id)`).
- `pageindex.dfy` holds `GetPagesNames` and the walk Document → Pages → Page.
- `shapetext.dfy` holds the shape text extractor.
- `search.dfy` holds the class `VisioHelper`, with its three fields, and
  the specification of the page loop and its name cursor.
- `nextsteps.dfy` holds the query variants of `VisioHelper_NextSteps`,
  `CheckForRecalc` and the XML update of `RecalcDocument`.
- `nextsteps_package.dfy` holds the class `VisioHelperNextSteps` with its
  package field, plus `RecalcDocument` and `CreateNewPackagePart` as
  updates of that field.
- `fixture.dfy` holds a two-page drawing shaped like the one in the
  repository's unit test, and what the search yields on it.

Exceptions are `Err` results. A C# null is `None`. The library function
`PackUriHelper.ResolvePartUri` is a function parameter (`Resolver`). The
file system is a map from the paths that exist to the package each one
holds; `None` stands for a file that is not a package.

## Model

| member | source | states |
|---|---|---|
| Text.Trim | src/VisioHelper/VisioHelper.cs:186 | the result has no leading or trailing whitespace and is no longer than the input |
| Text.TrimEnd | src/VisioHelper/next_steps/VisioHelper_NextSteps.cs:99 | the result is a prefix of the input; everything cut off is whitespace; it does not end in whitespace |
| Text.TrimStart | src/VisioHelper/VisioHelper.cs:186 | the result is a suffix of the input; everything cut off is whitespace; it does not start with whitespace |
| Text.TrimUnique | src/VisioHelper/VisioHelper.cs:186 | when whitespace surrounds a trimmed core, Trim yields exactly that core |
| Text.TrimIdempotent | src/VisioHelper/VisioHelper.cs:172 | trimming a trimmed name changes nothing |
| Text.OrdinalTotal | src/VisioHelper/VisioHelper.cs:103 | the ordinal order on relationship ids is total |
| Text.OrdinalTransitive | src/VisioHelper/VisioHelper.cs:103 | the ordinal order on relationship ids is transitive |
| Text.OrdinalAntisymmetric | src/VisioHelper/VisioHelper.cs:103 | two ids ordered both ways are equal |
| Text.RelationshipIdsSortAsStrings | src/VisioHelper/VisioHelper.cs:103 | "rId10" sorts before "rId2" under string order, and not the other way round |
| Text.Decimal | src/VisioHelper/next_steps/VisioHelper_NextSteps.cs:355 | `id.ToString()` is a non-empty string of digits with no leading zero |
| Text.DecimalValue | src/VisioHelper/next_steps/VisioHelper_NextSteps.cs:355 | round trip: the digits of `id.ToString()` denote `id`, read most significant digit first |
| Text.DecimalInjective | src/VisioHelper/next_steps/VisioHelper_NextSteps.cs:355 | distinct ids have distinct decimal strings, so the pid test compares ids |
| Seqs.Filter | src/VisioHelper/VisioHelper.cs:187 | `Where` keeps only accepted elements and never grows the sequence |
| Seqs.FilterMembership | src/VisioHelper/VisioHelper.cs:187 | an element is kept exactly when it is in the input and accepted |
| Seqs.FilterAt | src/VisioHelper/VisioHelper.cs:171 | the k-th kept element is the element at the k-th accepted position, so order is kept |
| Seqs.KeptIndicesAscending | src/VisioHelper/VisioHelper.cs:171 | the accepted positions ascend |
| Seqs.KeptIndicesComplete | src/VisioHelper/VisioHelper.cs:171 | no accepted position is missed |
| Xml.Descendants | src/VisioHelper/VisioHelper.cs:133 | `Descendants()` yields elements only |
| Xml.ElementsByName | src/VisioHelper/VisioHelper.cs:130-138 | every element found has the requested local name |
| Xml.ElementsByNameMembership | src/VisioHelper/VisioHelper.cs:130-138 | an element is found exactly when it is a descendant with that local name |
| Xml.ElementsByNameAppend | src/VisioHelper/VisioHelper.cs:133 | matches come in document order: the first sibling run's matches before the second's |
| Xml.ElementsByNameExcludesSelf | src/VisioHelper/VisioHelper.cs:133 | a shape's search for Text never yields the shape itself |
| Xml.ElementsByNameOfOne | src/VisioHelper/VisioHelper.cs:133 | pre-order: below a single node, the node itself (if it matches) comes before its descendants' matches |
| Packaging.RelationshipsByType | src/VisioHelper/VisioHelper.cs:64 | every relationship returned has the requested type |
| Packaging.RelationshipsByTypeMembership | src/VisioHelper/VisioHelper.cs:103 | a relationship is returned exactly when it is from the source and has the type |
| Packaging.GetPart | src/VisioHelper/VisioHelper.cs:97 | the part with that URI, or PartNotFound exactly when the URI is absent |
| Packaging.GetXMLFromPart | src/VisioHelper/VisioHelper.cs:140-145 | the part's parsed document, or MalformedXml exactly when the stream does not parse |
| Packaging.OpenPackage | src/VisioHelper/VisioHelper.cs:37-55 | a missing file gives FileNotFound before anything is read; success exactly when the file holds a package |
| Navigator.GetPackagePartByUri | src/VisioHelper/VisioHelper.cs:94-99 | the part at the resolved URI, or PartNotFound exactly when that URI is absent |
| Navigator.GetPackagePart | src/VisioHelper/VisioHelper.cs:62-76 | "No relationship was found." exactly when the root has no relationship of the type; otherwise the lookup uses the FIRST such relationship: it succeeds exactly when that relationship's target, resolved against "/", is a part, returns that part, and otherwise fails with PartNotFound for that URI |
| Navigator.GetPackagePartOf | src/VisioHelper/VisioHelper.cs:78-92 | "No package part was found." exactly when the part has no relationship of the type; otherwise the lookup uses the FIRST such relationship: it succeeds exactly when that relationship's target, resolved against the source part's URI, is a part, returns that part, and otherwise fails with PartNotFound for that URI |
| Navigator.GetPackagePartUsesFirst | src/VisioHelper/VisioHelper.cs:64 | relationships recorded after the first one of the type do not change the root lookup |
| Navigator.GetPackagePartOfUsesFirst | src/VisioHelper/VisioHelper.cs:80 | relationships recorded after the first one of the type do not change the lookup from a part |
| Navigator.InsertById | src/VisioHelper/VisioHelper.cs:103 | one insertion step adds exactly the one relationship |
| Navigator.InsertByIdSorted | src/VisioHelper/VisioHelper.cs:103 | inserting into an id-sorted list keeps it sorted |
| Navigator.SortById | src/VisioHelper/VisioHelper.cs:103 | `OrderBy(i => i.Id)` gives a permutation of the relationships, sorted by id in string order |
| Navigator.InsertByIdStable | src/VisioHelper/VisioHelper.cs:103 | one insertion step never moves the relationship past another with the same id |
| Navigator.SortByIdStable | src/VisioHelper/VisioHelper.cs:103 | `OrderBy` is stable: relationships with equal ids keep their relative order |
| Navigator.ResolveAll | src/VisioHelper/VisioHelper.cs:107-112 | one part per relationship, in order, when every target exists; otherwise PartNotFound for the first missing target |
| Navigator.ResolveAllFirstMissing | src/VisioHelper/VisioHelper.cs:107-112 | when targets 0..i-1 exist and target i does not, the loop fails on target i |
| Navigator.PackageParts | src/VisioHelper/VisioHelper.cs:101-115 | no relationship of the type gives an empty list, not an error; success gives one part per relationship |
| Navigator.GetPackageParts | src/VisioHelper/VisioHelper.cs:101-115 | the foreach loop appending to the List computes PackageParts (the copy at VisioHelper_NextSteps.cs lines 204-218 is the same loop) |
| Navigator.PackagePartsOrder | src/VisioHelper/VisioHelper.cs:101-115 | the relationships visited are exactly those of the type, sorted by id; a part is returned for each, in that order, exactly when every target exists |
| Navigator.PageOrderIsStringOrder | src/VisioHelper/VisioHelper.cs:103 | a page with id rId10 is visited before a page with id rId2 |
| PageIndex.PageNames | src/VisioHelper/VisioHelper.cs:171-172 | one name per named foreground page; every name has no leading or trailing whitespace |
| PageIndex.GetPagesNames | src/VisioHelper/VisioHelper.cs:167-174 | fails exactly when the Pages part does not parse; otherwise the names of its Page elements at any depth |
| PageIndex.PageNamesExact | src/VisioHelper/VisioHelper.cs:167-174 | the k-th name is the trimmed Name of the k-th Page element with no Background and with a Name, in document order; no such element is missed |
| PageIndex.BackgroundPagesUnnamed | src/VisioHelper/VisioHelper.cs:171 | a background page contributes no name, whatever its Name attribute |
| PageIndex.GetPagesCollection | src/VisioHelper/VisioHelper.cs:149-160 | a failed Document lookup is passed on (without a Document relationship, "No relationship was found."); otherwise the result is the Pages lookup from the Document part, which fails with "No package part was found." exactly when that part has no Pages relationship |
| PageIndex.Pages | src/VisioHelper/VisioHelper.cs:147-155 | fails exactly when the Pages lookup, the names or a page part fails, passing on that error in that order; on success the names are those of the Pages part and the pages are exactly GetPackageParts of its Page relationships, in id order |
| ShapeText.TrimmedValues | src/VisioHelper/VisioHelper.cs:186 | `Select(t => t.Value.Trim())`: the j-th value is the j-th Text element's value, trimmed |
| ShapeText.MatchingTextsExact | src/VisioHelper/VisioHelper.cs:186-187 | a value is kept exactly when it is a trimmed Text value of the shape and starts with the prefix |
| ShapeText.PrefixedTextsStep | src/VisioHelper/VisioHelper.cs:180-190 | one pass of the loop appends the shape's matches; a shape with no Text elements appends nothing, so the `Any()` guard changes nothing |
| ShapeText.GetPrefixedTextsFromShapes | src/VisioHelper/VisioHelper.cs:176-192 | the loop returns each shape's matches, shape by shape in document order |
| ShapeText.PrefixedTextsSound | src/VisioHelper/VisioHelper.cs:176-192 | every string returned is the trimmed value of a Text element below one of the shapes and starts with the prefix |
| ShapeText.PrefixedTextsComplete | src/VisioHelper/VisioHelper.cs:176-192 | every trimmed Text value below a shape that starts with the prefix is returned |
| ShapeText.PrefixedTextsExact | src/VisioHelper/VisioHelper.cs:176-192 | both directions together: returned exactly when it is such a trimmed, matching value |
| ShapeText.PrefixedTextsAreTrimmedMatches | src/VisioHelper/VisioHelper.cs:186-187 | every string returned starts with the prefix and has no leading or trailing whitespace |
| ShapeText.TowerShapes | src/VisioHelper/VisioHelper.cs:125-128 | the shapes found in k nested shapes are all k + 1 of them, outermost first |
| ShapeText.TowerTexts | src/VisioHelper/VisioHelper.cs:133 | every shape of the nest finds the innermost shape's Text elements |
| ShapeText.LevelsTexts | src/VisioHelper/VisioHelper.cs:176-192 | the extractor over the k + 1 nested shapes returns the innermost matches k + 1 times |
| ShapeText.NestedShapeTexts | src/VisioHelper/VisioHelper.cs:125-138 | a shape with k enclosing shapes has its matches returned k + 1 times, once through each shape |
| ShapeText.PageTexts | src/VisioHelper/VisioHelper.cs:117-123 | fails exactly when the page does not parse, with that page's MalformedXml |
| ShapeText.GetPagePrefixedTexts | src/VisioHelper/VisioHelper.cs:117-123 | parse the page, take its shapes, extract their matching texts |
| VisioSearch.PageResults | src/VisioHelper/VisioHelper.cs:22-24 | one result per page part, in page order |
| VisioSearch.Search | src/VisioHelper/VisioHelper.cs:12-35 | a missing file gives FileNotFound; a file that is not a package gives its open error, and a failed Document → Pages → Page walk gives that walk's error, never an empty success; once the package opens and its pages are indexed, the result is the page loop over that index |
| VisioSearch.CollectExtends | src/VisioHelper/VisioHelper.cs:22-31 | the loop only appends to the dictionary, one entry at most per page; each new entry has a non-empty text list, under the name at the cursor, in cursor order |
| VisioSearch.DistinctSnoc | src/VisioHelper/VisioHelper.cs:29 | `Dictionary.Add` with a key already present is the only way keys stop being distinct |
| VisioSearch.FreshKeysDistinct | src/VisioHelper/VisioHelper.cs:29 | adding keys one by one never hits a present key exactly when all the keys together are distinct |
| VisioSearch.CollectTake | src/VisioHelper/VisioHelper.cs:26-29 | a page with matches and a fresh name at the cursor is one step: it is added under that name and the cursor advances |
| VisioSearch.CollectZips | src/VisioHelper/VisioHelper.cs:20-31 | with every page readable, the loop succeeds exactly when the matching pages fit the names and take distinct ones; it then pairs the names from the cursor with the matching pages' texts |
| VisioSearch.MatchedTextsAt | src/VisioHelper/VisioHelper.cs:26 | the k-th non-empty text list is that of the k-th page with matches |
| VisioSearch.NameGoesToNextMatchingPage | src/VisioHelper/VisioHelper.cs:26-29 | a page without matches takes no name, so the first name goes to the second page |
| VisioSearch.CollectSucceeds | src/VisioHelper/VisioHelper.cs:28-29 | with every page read, the loop succeeds exactly when there are at least as many names as matching pages and the names used are distinct |
| VisioSearch.CollectEntries | src/VisioHelper/VisioHelper.cs:28-29 | the k-th entry is the k-th name with the texts of the k-th matching page |
| VisioSearch.SearchResult | src/VisioHelper/VisioHelper.cs:20-31 | for readable pages, the conditions under which the search succeeds, and the entry at each position (name k, texts of matching page k) |
| VisioSearch.CollectBounds | src/VisioHelper/VisioHelper.cs:22-31 | a successful loop has at most one entry per page and per name; every entry has a non-empty text list and the k-th name as key |
| VisioSearch.SearchBounds | src/VisioHelper/VisioHelper.cs:22-31 | the same for the search of indexed pages, whatever the pages hold |
| VisioSearch.CollectOkAllOk | src/VisioHelper/VisioHelper.cs:22-31 | the page loop only succeeds when every page's texts could be read |
| VisioSearch.SearchNeedsReadablePages | src/VisioHelper/VisioHelper.cs:140-145 | a search that succeeds has parsed every page: a page `XDocument.Load` rejects makes the search fail |
| VisioSearch.VisioHelper.constructor | src/VisioHelper/VisioHelper.cs:8-10 | the three fields start out null |
| VisioSearch.VisioHelper.ThrowOnNoPages | src/VisioHelper/VisioHelper.cs:195-206 | passes exactly when both fields are set; otherwise the source's two messages, the pages checked first |
| VisioSearch.VisioHelper.GetPages | src/VisioHelper/VisioHelper.cs:147-155 | on success the fields hold the page names and page parts of the index; the names are stored before the parts are resolved, so a failure while resolving parts leaves the new names and the old parts |
| VisioSearch.VisioHelper.SearchForPrefixTextInVisioFile | src/VisioHelper/VisioHelper.cs:12-35 | the method returns Search's result and keeps the opened package in its field; a file that fails to open leaves every field unchanged |
| VisioSearch.VisioHelper.CollectPageTexts | src/VisioHelper/VisioHelper.cs:20-31 | the foreach loop with `currentPageIndex` computes the page loop of the specification |
| Fixture.PageOfTextShapes | src/VisioHelper/VisioHelper.cs:117-123 | on a page of shapes with one trimmed text each, the page's matches are those texts that start with the prefix, in order |
| Fixture.TwoMatchingPages | src/VisioHelper/VisioHelper.cs:22-31 | two matching pages and two distinct names: the first name goes to the first page, the second to the second |
| Fixture.PageATextsFound | src/VisioHelper.Tests/VisioHelperTests.cs:24-28 | page A yields "Note one", "Note two", "Note three" for "Note" |
| Fixture.PageBTextsFound | src/VisioHelper.Tests/VisioHelperTests.cs:30-33 | page B yields "Note four", "Note five" for "Note" |
| Fixture.TwoPageSearch | src/VisioHelper.Tests/VisioHelperTests.cs:19-33 | the two-page drawing searched for "Note" gives MyPageA with three texts, then MyPageB with two |
| NextSteps.ElementsByNameInDocument | src/VisioHelper/next_steps/VisioHelper_NextSteps.cs:230-239 | `DefaultIfEmpty(null)`: a single null exactly when nothing matches, otherwise the matches |
| NextSteps.NullOnlyWhenEmpty | src/VisioHelper/next_steps/VisioHelper_NextSteps.cs:238 | the document overload yields a null exactly when nothing matches |
| NextSteps.ElementsByNameInElement | src/VisioHelper/next_steps/VisioHelper_NextSteps.cs:241-251 | NullReference exactly when the element is null; otherwise its descendants with the name, possibly none |
| NextSteps.OverloadsOnSameContents | src/VisioHelper/next_steps/VisioHelper_NextSteps.cs:230-251 | on the same contents, the element overload is empty exactly when the document overload is [null]; otherwise the two agree |
| NextSteps.GetXElementByAttribute | src/VisioHelper/next_steps/VisioHelper_NextSteps.cs:253-265 | an element returned is one of the inputs and has the attribute value; the only failure is NullReference |
| NextSteps.ElementByAttributeAt | src/VisioHelper/next_steps/VisioHelper_NextSteps.cs:257-264 | first match: when every earlier element is non-null and lacks the value, element i decides; a null there throws |
| NextSteps.ElementByAttributeNull | src/VisioHelper/next_steps/VisioHelper_NextSteps.cs:253-265 | the result is null exactly when every element is non-null and none has the value |
| NextSteps.ElementByAttributeTotal | src/VisioHelper/next_steps/VisioHelper_NextSteps.cs:259 | non-null elements never make the lookup throw |
| NextSteps.PidValues | src/VisioHelper/next_steps/VisioHelper_NextSteps.cs:345-349 | the only failure is NullReference |
| NextSteps.PidValuesExact | src/VisioHelper/next_steps/VisioHelper_NextSteps.cs:345-349 | the strings read are exactly the pid attributes of the property elements |
| NextSteps.PidValuesOk | src/VisioHelper/next_steps/VisioHelper_NextSteps.cs:348 | reading succeeds exactly when every property element has a pid |
| NextSteps.TakenPidsBound | src/VisioHelper/next_steps/VisioHelper_NextSteps.cs:352-363 | pigeonhole: if the decimal strings of 2..n-1 are all taken, there are at least n-2 pid values, so the loop ends |
| NextSteps.FreshPid | src/VisioHelper/next_steps/VisioHelper_NextSteps.cs:352-363 | the least id from the start on whose decimal string is not taken: it is free, and every id below it from 2 is taken |
| NextSteps.RecalcPidAsWrittenThrowsWithoutProperties | src/VisioHelper/next_steps/VisioHelper_NextSteps.cs:329-333 | as written, a document without property elements makes CheckForRecalc throw NullReference |
| NextSteps.RecalcPidCorrected | src/VisioHelper/next_steps/VisioHelper_NextSteps.cs:329-333 | the corrected lookup gives pid 2 to such a document, and agrees with the code as written on every other document |
| NextSteps.RecalcPidExisting | src/VisioHelper/next_steps/VisioHelper_NextSteps.cs:332-340 | -1 exactly when a property named RecalcDocument exists |
| NextSteps.RecalcPidFresh | src/VisioHelper/next_steps/VisioHelper_NextSteps.cs:343-363 | otherwise success exactly when every property has a pid; the pid is at least 2, is not taken, and every pid from 2 below it is taken |
| NextSteps.CheckForRecalc | src/VisioHelper/next_steps/VisioHelper_NextSteps.cs:321-366 | the while loop with `id++` terminates and computes the corrected lookup |
| NextSteps.RecalcProperty | src/VisioHelper/next_steps/VisioHelper_NextSteps.cs:308-315 | the new element is a property named RecalcDocument whose pid is the decimal id |
| NextSteps.AddToRoot | src/VisioHelper/next_steps/VisioHelper_NextSteps.cs:297-315 | `Elements().ElementAt(0).Add(child)`: fails exactly when the document has no element, with index 0; otherwise the child is appended to the children of the first element, after its old children, and every other node is unchanged |
| NextSteps.AppendedKeepsDescendants | src/VisioHelper/next_steps/VisioHelper_NextSteps.cs:308-315 | appending to the root element keeps every element below the top-level nodes |
| NextSteps.RecalcKeepsExisting | src/VisioHelper/next_steps/VisioHelper_NextSteps.cs:294-316 | a document that already asks for recalculation is left as it is |
| NextSteps.RecalcAdds | src/VisioHelper/next_steps/VisioHelper_NextSteps.cs:294-316 | after the update the document asks for recalculation, a property that is added carries a free pid, and every `property` element below the root is still there |
| NextSteps.RecalcIdempotent | src/VisioHelper/next_steps/VisioHelper_NextSteps.cs:294-316 | a second update changes nothing |
| NextSteps.PrefixedTexts | src/VisioHelper/next_steps/VisioHelper_NextSteps.cs:89-106 | NullReference exactly when a shape reference is null |
| NextSteps.VariantStep | src/VisioHelper/next_steps/VisioHelper_NextSteps.cs:93-102 | one pass of the loop over non-null shapes: it finds the shape's Text elements and appends their end-trimmed matches; the `Any()` guard makes no difference to the result |
| NextSteps.GetPrefixedTextsFromShapes | src/VisioHelper/next_steps/VisioHelper_NextSteps.cs:89-106 | the loop computes the end-trimmed matches shape by shape, or throws on a null shape |
| NextSteps.PageWithoutShapes | src/VisioHelper/next_steps/VisioHelper_NextSteps.cs:84-87 | on a page without shapes the main extractor finds nothing; this one throws on the null that DefaultIfEmpty supplies |
| NextSteps.LeadingWhiteSpaceNeverMatches | src/VisioHelper/next_steps/VisioHelper_NextSteps.cs:99-100 | with only the end trimmed, a value that starts with whitespace never starts with a prefix that does not |
| NextSteps.VariantSkipsIndentedTexts | src/VisioHelper/next_steps/VisioHelper_NextSteps.cs:99-100 | each string this variant returns comes from a Text value that does not start with whitespace |
| NextSteps.IndentedNote | src/VisioHelper/next_steps/VisioHelper_NextSteps.cs:99-100 | " Note" matches "Note" in the main file but not in this one |
| NextSteps.GetPagesNames | src/VisioHelper/next_steps/VisioHelper_NextSteps.cs:132-138 | fails exactly when the part does not parse or has no Page element; otherwise one entry per Page element, null where Name is missing |
| NextSteps.PagesNamesVariantExtendsSearch | src/VisioHelper/next_steps/VisioHelper_NextSteps.cs:136 | the main file's k-th name is this variant's entry at the k-th named foreground page |
| NextSteps.BackgroundPageNamed | src/VisioHelper/next_steps/VisioHelper_NextSteps.cs:136 | a named background page has an entry here and none in the main file's names |
| NextStepsPackage.RootTarget | src/VisioHelper/next_steps/VisioHelper_NextSteps.cs:172-177 | there is no target exactly when the root has no relationship of the type |
| NextStepsPackage.GetPackagePart | src/VisioHelper/next_steps/VisioHelper_NextSteps.cs:170-182 | null exactly where the main file throws "No relationship was found."; otherwise the main file's part or its error |
| NextStepsPackage.PackageWithRecalc | src/VisioHelper/next_steps/VisioHelper_NextSteps.cs:284-319 | without a custom properties relationship, the null part throws NullReference; a missing part, an unparsable part or a failed update give their errors; a successful RecalcDocument keeps every relationship and the set of part URIs, and the custom properties part then holds WithRecalc of its old document |
| NextStepsPackage.PackageWithRecalcChanges | src/VisioHelper/next_steps/VisioHelper_NextSteps.cs:284-319 | only the custom properties part changes, its new document is WithRecalc of the old one and asks for recalculation, and a package that already did is returned unchanged |
| NextStepsPackage.PackageWithRecalcKeepsProperties | src/VisioHelper/next_steps/VisioHelper_NextSteps.cs:297-315 | every `property` element below the root of the custom properties part survives RecalcDocument |
| NextStepsPackage.PackageWithRecalcIdempotent | src/VisioHelper/next_steps/VisioHelper_NextSteps.cs:284-319 | RecalcDocument twice is RecalcDocument once |
| NextStepsPackage.NewPartCreatedIfAbsent | src/VisioHelper/next_steps/VisioHelper_NextSteps.cs:404-417 | an existing part is left as it is, a missing one is added with the document, and no other part changes |
| NextStepsPackage.NewPartRelationship | src/VisioHelper/next_steps/VisioHelper_NextSteps.cs:421-423 | one root relationship to the location is appended in every case; other sources' relationships stay |
| NextStepsPackage.NewPartTwice | src/VisioHelper/next_steps/VisioHelper_NextSteps.cs:401-424 | adding the same part twice keeps the first call's parts but leaves two relationships |
| NextStepsPackage.VisioHelperNextSteps.constructor | src/VisioHelper/next_steps/VisioHelper_NextSteps.cs:16 | the helper holds the package it edits |
| NextStepsPackage.VisioHelperNextSteps.RecalcDocument | src/VisioHelper/next_steps/VisioHelper_NextSteps.cs:284-319 | the method passes exactly when PackageWithRecalc succeeds and then holds its package; on failure the package is unchanged |
| NextStepsPackage.VisioHelperNextSteps.CreateNewPackagePart | src/VisioHelper/next_steps/VisioHelper_NextSteps.cs:401-424 | the package field becomes the create-if-absent update with a new root relationship |

## Left out

- File and stream I/O are left out: `FileInfo.Exists`, `Package.Open`, `GetStream`, `XDocument.Load`, `SaveXDocumentToPart`, and the stream writing in `CreateNewPackagePart`. The file system is a map from existing paths to packages. A part carries its parsed document, or `None` when it does not parse. Saving a part is an update of the part map.
- The `using` blocks and the disposal of the package are left out. Disposal has no effect on the values returned.
- `PackUriHelper.ResolvePartUri` (relative resolution, section 5.2 of RFC 3986) belongs to the library. It is the `Resolver` parameter.
- Zip and OPC internals are left out. The package is its part map plus, per source, its relationships in enumeration order.
- `StartsWith(string)` and `OrderBy` over strings are culture-sensitive in .NET. They are modelled as ordinal prefix and ordinal lexicographic order.
- Whitespace is the fixed set of characters for which `Char.IsWhiteSpace` holds, written out.
- XML namespaces and prefixes (`GetNamespaceOfPrefix`, `GetDefaultNamespace`) are left out. Only local names take part in the queries, and the added property is built with local names.
- Comments and processing instructions are left out, since no query reads them.
- `int` is unbounded in the model. The pid search in `CheckForRecalc` stays below the number of properties plus 2, so 32-bit overflow cannot occur for any package that fits in memory.
- The null check after `Package.Open` in the main `OpenPackage` is left out: `Package.Open` returns a package or throws, so that branch is dead. A file that exists but is not a package is `OpenFailed`.
- `IteratePackageParts` is left out. It only writes debug output.
- `CreateCustomUI` is left out. It builds a constant ribbon document, which `CreateNewPackagePart` takes as a parameter.
- `OpenVisioFile` is left out with its demo edits (`ReplaceWith`, `SetAttributeValue`, the ThemeIndex cell). They depend on one particular drawing.
- Of `VisioHelper_NextSteps`, these are left out: `GetPages`, `GetDocument`, `GetPagesCollection`, the page overload `GetPages`, the part overload of `GetPackagePart`, `OpenPackage` and `GetXMLFromPart`. They repeat the main file's walk, apart from returning null where the main file throws. The root overload of `GetPackagePart` is modelled to show that difference.
- The id that `Package.CreateRelationship` generates is a parameter of `CreateNewPackagePart`.
- `NextStepsPackage.VisioHelperNextSteps.CreateNewPackagePart` edits the helper's own package field. It does not edit a package passed as an argument: the one call site passes that field.
- `NextStepsPackage.VisioHelperNextSteps.RecalcDocument` uses the corrected `CheckForRecalc` (see Findings).
- `NextSteps.GetPagesNames` is a lazy LINQ sequence in the source. It is modelled as the sequence it yields when enumerated, and its failures are those of that enumeration.
- `Fixture.TwoPageSearch` starts from the page index of a two-page drawing with page contents of the same shape as the test's file. The `.vsdx` file itself is not available.
- `NextSteps.RecalcAdds` states that the `property` elements below the top-level nodes survive. The root element itself is a changed value, because it gains a child. A loaded document has one top-level element, and the source's root is `Properties`, not a `property`.
- The order of `Dictionary<string, IEnumerable<string>>` enumeration, which the test relies on through `ElementAt`, is modelled as insertion order. That holds for a dictionary that only ever has entries added.

## Findings

| source | as written | input that shows it | evidently intended | confidence | as-written member | corrected member |
|---|---|---|---|---|---|---|
| src/VisioHelper/next_steps/VisioHelper_NextSteps.cs:329-333 | `CheckForRecalc` queries the property elements through the document overload of `GetXElementsByName`, which ends in `DefaultIfEmpty(null)`. When the custom properties part holds no `property` element, `GetXElementByAttribute` then reads `Attribute` of that null and throws `NullReferenceException` | a custom properties document whose root element has no `property` children | an empty property list: no RecalcDocument property exists, and the first free pid, 2, is returned | medium; not executed | NextSteps.RecalcPidAsWrittenThrowsWithoutProperties | NextSteps.RecalcPidCorrected |
