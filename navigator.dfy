/** The relationship navigator of VisioHelper: from a source (the package root
    or a part) and a relationship type to the related part (the first
    relationship of that type) or to all related parts (ordered by
    relationship id as a string). */
module Navigator {

  import opened Wrappers
  import opened Seqs
  import opened Text
  import opened Packaging

  const NoRelationshipMessage: string := "No relationship was found."
  const NoPackagePartMessage: string := "No package part was found."

  /** GetPackagePart(sourceUri, targetUri): resolve the target against the
      source, then fetch that part. */
  function GetPackagePartByUri(pkg: Package, resolve: Resolver, sourceUri: string, targetUri: string): (r: Result<Part>)
    ensures r.Ok? <==> resolve(sourceUri, targetUri) in pkg.parts
    ensures r.Ok? ==> r.value == pkg.parts[resolve(sourceUri, targetUri)]
    ensures r.Err? ==> r.error == PartNotFound(resolve(sourceUri, targetUri))
  {
    GetPart(pkg, resolve(sourceUri, targetUri))
  }

  /** GetPackagePart(relationship) on the package root: the target of the
      first root relationship of that type, resolved against "/". */
  function GetPackagePart(pkg: Package, resolve: Resolver, relType: string): (r: Result<Part>)
    ensures RelationshipsByType(pkg, Root, relType) == [] <==> r == Err(RelationshipNotFound(NoRelationshipMessage))
    ensures r.Ok? ==> exists rel :: rel in RelationshipsOf(pkg, Root) && rel.relType == relType
                                    && resolve("/", rel.target) in pkg.parts && r.value == pkg.parts[resolve("/", rel.target)]
    ensures var rels := RelationshipsByType(pkg, Root, relType);
      rels != [] ==> (r.Ok? <==> resolve("/", rels[0].target) in pkg.parts)
                     && (r.Ok? ==> r.value == pkg.parts[resolve("/", rels[0].target)])
                     && (r.Err? ==> r.error == PartNotFound(resolve("/", rels[0].target)))
  {
    var rels := RelationshipsByType(pkg, Root, relType);
    if rels == [] then Err(RelationshipNotFound(NoRelationshipMessage))
    else
      RelationshipsByTypeMembership(pkg, Root, relType, rels[0]);
      GetPackagePartByUri(pkg, resolve, "/", rels[0].target)
  }

  /** GetPackagePart(sourcePart, relationship): the target of the first
      relationship of that type from the part, resolved against the part's URI. */
  function GetPackagePartOf(pkg: Package, resolve: Resolver, sourcePart: Part, relType: string): (r: Result<Part>)
    ensures RelationshipsByType(pkg, FromPart(sourcePart.uri), relType) == []
            <==> r == Err(RelationshipNotFound(NoPackagePartMessage))
    ensures r.Ok? ==> exists rel :: rel in RelationshipsOf(pkg, FromPart(sourcePart.uri)) && rel.relType == relType
                                    && resolve(sourcePart.uri, rel.target) in pkg.parts
                                    && r.value == pkg.parts[resolve(sourcePart.uri, rel.target)]
    ensures var rels := RelationshipsByType(pkg, FromPart(sourcePart.uri), relType);
      rels != [] ==> (r.Ok? <==> resolve(sourcePart.uri, rels[0].target) in pkg.parts)
                     && (r.Ok? ==> r.value == pkg.parts[resolve(sourcePart.uri, rels[0].target)])
                     && (r.Err? ==> r.error == PartNotFound(resolve(sourcePart.uri, rels[0].target)))
  {
    var rels := RelationshipsByType(pkg, FromPart(sourcePart.uri), relType);
    if rels == [] then Err(RelationshipNotFound(NoPackagePartMessage))
    else
      RelationshipsByTypeMembership(pkg, FromPart(sourcePart.uri), relType, rels[0]);
      GetPackagePartByUri(pkg, resolve, sourcePart.uri, rels[0].target)
  }

  /** The package with more relationships recorded after those of src. */
  function WithMoreRelationships(pkg: Package, src: Source, extra: seq<Relationship>): Package {
    pkg.(relationships := pkg.relationships[src := RelationshipsOf(pkg, src) + extra])
  }

  /** Only the first relationship of the type matters to the root lookup:
      relationships added after it change nothing. */
  lemma GetPackagePartUsesFirst(pkg: Package, resolve: Resolver, relType: string, extra: seq<Relationship>)
    requires RelationshipsByType(pkg, Root, relType) != []
    ensures GetPackagePart(WithMoreRelationships(pkg, Root, extra), resolve, relType) == GetPackagePart(pkg, resolve, relType)
  {
    var more := WithMoreRelationships(pkg, Root, extra);
    assert RelationshipsOf(more, Root) == RelationshipsOf(pkg, Root) + extra;
    FilterAppend(RelationshipsOf(pkg, Root), extra, (rel: Relationship) => rel.relType == relType);
  }

  /** The same for the lookup from a part. */
  lemma GetPackagePartOfUsesFirst(pkg: Package, resolve: Resolver, sourcePart: Part, relType: string, extra: seq<Relationship>)
    requires RelationshipsByType(pkg, FromPart(sourcePart.uri), relType) != []
    ensures GetPackagePartOf(WithMoreRelationships(pkg, FromPart(sourcePart.uri), extra), resolve, sourcePart, relType)
            == GetPackagePartOf(pkg, resolve, sourcePart, relType)
  {
    var src := FromPart(sourcePart.uri);
    var more := WithMoreRelationships(pkg, src, extra);
    assert RelationshipsOf(more, src) == RelationshipsOf(pkg, src) + extra;
    FilterAppend(RelationshipsOf(pkg, src), extra, (rel: Relationship) => rel.relType == relType);
  }

  /** Relationship ids ascend in ordinal string order. */
  predicate SortedById(s: seq<Relationship>) {
    forall i, j :: 0 <= i < j < |s| ==> OrdinalLessEq(s[i].id, s[j].id)
  }

  /** x put in front of the first element whose id is not smaller than its own. */
  function InsertById(x: Relationship, s: seq<Relationship>): (r: seq<Relationship>)
    ensures multiset(r) == multiset(s) + multiset{x}
  {
    if s == [] then [x]
    else if OrdinalLessEq(x.id, s[0].id) then [x] + s
    else
      assert s == [s[0]] + s[1..];
      [s[0]] + InsertById(x, s[1..])
  }

  lemma {:induction false} InsertByIdSorted(x: Relationship, s: seq<Relationship>)
    requires SortedById(s)
    ensures SortedById(InsertById(x, s))
  {
    if s != [] {
      var r := InsertById(x, s);
      if OrdinalLessEq(x.id, s[0].id) {
        forall j | 1 <= j < |r|
          ensures OrdinalLessEq(x.id, r[j].id)
        {
          if j > 1 {
            OrdinalTransitive(x.id, s[0].id, s[j - 1].id);
          }
        }
      } else {
        var t := InsertById(x, s[1..]);
        InsertByIdSorted(x, s[1..]);
        OrdinalTotal(x.id, s[0].id);
        assert r == [s[0]] + t;
        forall j | 0 <= j < |t|
          ensures OrdinalLessEq(s[0].id, t[j].id)
        {
          assert t[j] in multiset(t);
          if t[j] != x {
            assert t[j] in multiset(s[1..]);
            assert t[j] in s[1..];
          }
        }
      }
    }
  }

  /** OrderBy(i => i.Id): the relationships sorted by id, a permutation of the
      input; like OrderBy it is stable (SortByIdStable). */
  function SortById(rels: seq<Relationship>): (r: seq<Relationship>)
    ensures multiset(r) == multiset(rels)
    ensures SortedById(r)
  {
    if rels == [] then []
    else
      var t := SortById(rels[1..]);
      InsertByIdSorted(rels[0], t);
      assert rels == [rels[0]] + rels[1..];
      InsertById(rels[0], t)
  }

  /** The relationships with this id, in their order. */
  function WithId(rels: seq<Relationship>, id: string): seq<Relationship> {
    Filter(rels, (rel: Relationship) => rel.id == id)
  }

  /** Filtering by id, one element at the front. */
  lemma WithIdCons(x: Relationship, s: seq<Relationship>, id: string)
    ensures WithId([x] + s, id) == (if x.id == id then [x] else []) + WithId(s, id)
  {
    assert ([x] + s)[0] == x && ([x] + s)[1..] == s;
  }

  /** Insertion never moves x past a relationship with x's own id. */
  lemma {:induction false} InsertByIdStable(x: Relationship, s: seq<Relationship>, id: string)
    ensures WithId(InsertById(x, s), id) == WithId([x] + s, id)
  {
    if s != [] && !OrdinalLessEq(x.id, s[0].id) {
      var s', ins' := s[1..], InsertById(x, s[1..]);
      assert s == [s[0]] + s';
      assert InsertById(x, s) == [s[0]] + ins';
      var f0: seq<Relationship> := if s[0].id == id then [s[0]] else [];
      var fx: seq<Relationship> := if x.id == id then [x] else [];
      InsertByIdStable(x, s', id);
      WithIdCons(s[0], ins', id);
      WithIdCons(x, s', id);
      assert WithId(InsertById(x, s), id) == f0 + (fx + WithId(s', id));
      WithIdCons(x, s, id);
      WithIdCons(s[0], s', id);
      assert WithId([x] + s, id) == fx + (f0 + WithId(s', id));
      OrdinalTotal(x.id, x.id);
      if f0 == [] {
        assert f0 + (fx + WithId(s', id)) == fx + (f0 + WithId(s', id));
      } else {
        assert fx == [];
        assert f0 + (fx + WithId(s', id)) == fx + (f0 + WithId(s', id));
      }
    } else {
      assert InsertById(x, s) == [x] + s;
    }
  }

  /** OrderBy is stable: relationships with the same id keep their relative order. */
  lemma {:induction false} SortByIdStable(rels: seq<Relationship>, id: string)
    ensures WithId(SortById(rels), id) == WithId(rels, id)
  {
    if rels != [] {
      var t := SortById(rels[1..]);
      SortByIdStable(rels[1..], id);
      InsertByIdStable(rels[0], t, id);
      WithIdCons(rels[0], t, id);
      WithIdCons(rels[0], rels[1..], id);
      assert rels == [rels[0]] + rels[1..];
    }
  }

  /** Whether every relationship target, resolved against srcUri, is a part. */
  predicate AllTargetsExist(pkg: Package, resolve: Resolver, srcUri: string, rels: seq<Relationship>) {
    forall i :: 0 <= i < |rels| ==> resolve(srcUri, rels[i].target) in pkg.parts
  }

  /** The parts the relationships lead to, in their order; fails at the first missing part. */
  function ResolveAll(pkg: Package, resolve: Resolver, srcUri: string, rels: seq<Relationship>): (r: Result<seq<Part>>)
    ensures r.Ok? <==> AllTargetsExist(pkg, resolve, srcUri, rels)
    ensures r.Ok? ==> |r.value| == |rels|
                      && forall i :: 0 <= i < |rels| ==> r.value[i] == pkg.parts[resolve(srcUri, rels[i].target)]
    ensures r.Err? ==> exists i :: 0 <= i < |rels| && AllTargetsExist(pkg, resolve, srcUri, rels[..i])
                                   && resolve(srcUri, rels[i].target) !in pkg.parts
                                   && r.error == PartNotFound(resolve(srcUri, rels[i].target))
  {
    if rels == [] then Ok([])
    else
      var p :- GetPart(pkg, resolve(srcUri, rels[0].target));
      var rest := ResolveAll(pkg, resolve, srcUri, rels[1..]);
      if rest.Err? then
        assert exists i :: 0 <= i < |rels| && AllTargetsExist(pkg, resolve, srcUri, rels[..i])
                           && resolve(srcUri, rels[i].target) !in pkg.parts
                           && rest.error == PartNotFound(resolve(srcUri, rels[i].target)) by {
          var i :| 0 <= i < |rels[1..]| && AllTargetsExist(pkg, resolve, srcUri, rels[1..][..i])
                   && resolve(srcUri, rels[1..][i].target) !in pkg.parts
                   && rest.error == PartNotFound(resolve(srcUri, rels[1..][i].target));
          assert rels[..i + 1] == [rels[0]] + rels[1..][..i];
        }
        Err(rest.error)
      else
        Ok([p] + rest.value)
  }

  /** The relationships of GetPackageParts, in the order it visits them. */
  function OrderedRelationships(pkg: Package, sourcePart: Part, relType: string): seq<Relationship> {
    SortById(RelationshipsByType(pkg, FromPart(sourcePart.uri), relType))
  }

  /** What GetPackageParts returns. */
  function PackageParts(pkg: Package, resolve: Resolver, sourcePart: Part, relType: string): (r: Result<seq<Part>>)
    ensures RelationshipsByType(pkg, FromPart(sourcePart.uri), relType) == [] ==> r == Ok([])
    ensures r.Ok? ==> |r.value| == |RelationshipsByType(pkg, FromPart(sourcePart.uri), relType)|
  {
    var rels := OrderedRelationships(pkg, sourcePart, relType);
    assert |rels| == |multiset(rels)|;
    ResolveAll(pkg, resolve, sourcePart.uri, rels)
  }

  /** ResolveAll fails with the first missing part. */
  lemma {:induction false} ResolveAllFirstMissing(pkg: Package, resolve: Resolver, srcUri: string, rels: seq<Relationship>, i: nat)
    requires i < |rels| && forall k :: 0 <= k < i ==> resolve(srcUri, rels[k].target) in pkg.parts
    requires resolve(srcUri, rels[i].target) !in pkg.parts
    ensures ResolveAll(pkg, resolve, srcUri, rels) == Err(PartNotFound(resolve(srcUri, rels[i].target)))
  {
    if i > 0 {
      ResolveAllFirstMissing(pkg, resolve, srcUri, rels[1..], i - 1);
    }
  }

  /** GetPackageParts(sourcePart, relationship): one part per relationship of
      the type from sourcePart, ordered by relationship id; an empty list when
      there is none. */
  method GetPackageParts(pkg: Package, resolve: Resolver, sourcePart: Part, relType: string) returns (r: Result<seq<Part>>)
    ensures r == PackageParts(pkg, resolve, sourcePart, relType)
  {
    var packageRelCollection := OrderedRelationships(pkg, sourcePart, relType);
    var result: seq<Part> := [];
    for i := 0 to |packageRelCollection|
      invariant |result| == i
      invariant forall k :: 0 <= k < i ==>
        && resolve(sourcePart.uri, packageRelCollection[k].target) in pkg.parts
        && result[k] == pkg.parts[resolve(sourcePart.uri, packageRelCollection[k].target)]
    {
      var partUri := resolve(sourcePart.uri, packageRelCollection[i].target);
      var relatedPart := GetPart(pkg, partUri);
      if relatedPart.Err? {
        ResolveAllFirstMissing(pkg, resolve, sourcePart.uri, packageRelCollection, i);
        return Err(relatedPart.error);
      }
      result := result + [relatedPart.value];
    }
    var expected := ResolveAll(pkg, resolve, sourcePart.uri, packageRelCollection);
    assert expected.Ok? && result == expected.value;
    return Ok(result);
  }

  /** GetPackageParts returns one part per relationship of the type, each the
      target of the relationship at the same position once the relationships
      are sorted by id; the sorted relationships are exactly those of the type. */
  lemma PackagePartsOrder(pkg: Package, resolve: Resolver, sourcePart: Part, relType: string)
    ensures var rels := OrderedRelationships(pkg, sourcePart, relType);
      var r := PackageParts(pkg, resolve, sourcePart, relType);
      && multiset(rels) == multiset(RelationshipsByType(pkg, FromPart(sourcePart.uri), relType))
      && SortedById(rels)
      && (r.Ok? <==> AllTargetsExist(pkg, resolve, sourcePart.uri, rels))
      && (r.Ok? ==> |r.value| == |rels|
                    && forall i :: 0 <= i < |rels| ==> r.value[i] == pkg.parts[resolve(sourcePart.uri, rels[i].target)])
  {
  }

  /** Sibling pages are visited in string order of their relationship ids,
      so the page related by "rId10" comes before the one related by "rId2". */
  lemma PageOrderIsStringOrder(page2: string, page10: string)
    ensures SortById([Relationship("rId2", PageRelationship, page2), Relationship("rId10", PageRelationship, page10)])
            == [Relationship("rId10", PageRelationship, page10), Relationship("rId2", PageRelationship, page2)]
  {
    RelationshipIdsSortAsStrings();
  }
}
