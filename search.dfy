/** SearchForPrefixTextInVisioFile: open the file, index its pages, and map
    page names to the shape texts that start with the prefix. */
module VisioSearch {

  import opened Wrappers
  import opened Seqs
  import opened Text
  import opened Xml
  import opened Packaging
  import opened ShapeText
  import opened PageIndex

  /** Pages, step by step as GetPages takes the steps. */
  lemma PagesBySteps(pkg: Package, resolve: Resolver)
    ensures var c := GetPagesCollection(pkg, resolve);
      Pages(pkg, resolve)
      == if c.Err? then Err(c.error)
         else if GetPagesNames(c.value).Err? then Err(GetPagesNames(c.value).error)
         else if Navigator.PackageParts(pkg, resolve, c.value, PageRelationship).Err?
         then Err(Navigator.PackageParts(pkg, resolve, c.value, PageRelationship).error)
         else Ok(PageSet(GetPagesNames(c.value).value, Navigator.PackageParts(pkg, resolve, c.value, PageRelationship).value))
  {
  }

  /** One key/value pair of the result Dictionary<string, IEnumerable<string>>.
      The dictionary itself is the sequence of its pairs in insertion order,
      the order in which it enumerates them. */
  datatype Entry = Entry(pageName: string, texts: seq<string>)

  /** The keys of the dictionary, in insertion order. */
  function Keys(d: seq<Entry>): (r: seq<string>)
    ensures |r| == |d| && forall k :: 0 <= k < |d| ==> r[k] == d[k].pageName
  {
    seq(|d|, k requires 0 <= k < |d| => d[k].pageName)
  }

  /** What GetPagePrefixedTexts yields for each page, in page order. The loop
      reads the pages one by one, so an unreadable page only matters once the
      loop reaches it. */
  function PageResults(pages: seq<Part>, prefixText: string): (r: seq<Result<seq<string>>>)
    ensures |r| == |pages| && forall i :: 0 <= i < |pages| ==> r[i] == PageTexts(pages[i], prefixText)
  {
    if pages == [] then [] else [PageTexts(pages[0], prefixText)] + PageResults(pages[1..], prefixText)
  }

  /** The foreach loop of SearchForPrefixTextInVisioFile over the pages'
      results, with the name cursor at `cursor` and the dictionary so far
      `acc`. A page without matches is skipped without moving the cursor; a
      page with matches takes the next name (ElementAt throws past the last
      one) and is added under it (Dictionary.Add throws on a key already
      present). */
  function Collect(results: seq<Result<seq<string>>>, names: seq<string>, cursor: nat, acc: seq<Entry>): (r: Result<seq<Entry>>)
    decreases |results|
  {
    if results == [] then Ok(acc)
    else
      var texts :- results[0];
      if |texts| == 0 then Collect(results[1..], names, cursor, acc)
      else if cursor >= |names| then Err(IndexOutOfRange(cursor))
      else if names[cursor] in Keys(acc) then Err(DuplicateKey(names[cursor]))
      else Collect(results[1..], names, cursor + 1, acc + [Entry(names[cursor], texts)])
  }

  /** The foreach loop of SearchForPrefixTextInVisioFile over indexed pages. */
  function SearchPages(index: PageSet, prefixText: string): Result<seq<Entry>> {
    Collect(PageResults(index.pages, prefixText), index.names, 0, [])
  }

  /** SearchForPrefixTextInVisioFile(fileName, prefixText): a missing file
      fails before anything is read, then the pages are indexed, then searched. */
  function Search(fs: FileSystem, resolve: Resolver, fileName: string, prefixText: string): (r: Result<seq<Entry>>)
    ensures fileName !in fs ==> r == Err(FileNotFound(fileName))
    ensures OpenPackage(fs, fileName).Err? ==> r == Err(OpenPackage(fs, fileName).error)
    ensures OpenPackage(fs, fileName).Ok? && Pages(OpenPackage(fs, fileName).value, resolve).Err?
            ==> r == Err(Pages(OpenPackage(fs, fileName).value, resolve).error)
    ensures OpenPackage(fs, fileName).Ok? && Pages(OpenPackage(fs, fileName).value, resolve).Ok?
            ==> r == SearchPages(Pages(OpenPackage(fs, fileName).value, resolve).value, prefixText)
  {
    var pkg :- OpenPackage(fs, fileName);
    var index :- Pages(pkg, resolve);
    SearchPages(index, prefixText)
  }

  /** Whatever the pages hold, the loop only extends the dictionary: it keeps
      the earlier entries, adds at most one entry per page, adds only
      non-empty text lists, and takes the keys from the names in order,
      starting at the cursor. */
  lemma {:induction false} CollectExtends(results: seq<Result<seq<string>>>, names: seq<string>, cursor: nat, acc: seq<Entry>)
    requires cursor <= |names| && Collect(results, names, cursor, acc).Ok?
    ensures |acc| <= |Collect(results, names, cursor, acc).value| <= |acc| + |results|
    ensures Collect(results, names, cursor, acc).value[..|acc|] == acc
    ensures cursor + |Collect(results, names, cursor, acc).value| - |acc| <= |names|
    ensures var d := Collect(results, names, cursor, acc).value;
            forall k :: |acc| <= k < |d| ==> |d[k].texts| > 0 && d[k].pageName == names[cursor + k - |acc|]
    decreases |results|
  {
    if results != [] {
      var texts := results[0].value;
      if |texts| == 0 {
        CollectExtends(results[1..], names, cursor, acc);
      } else {
        var acc' := acc + [Entry(names[cursor], texts)];
        CollectExtends(results[1..], names, cursor + 1, acc');
        var d := Collect(results, names, cursor, acc).value;
        assert d[..|acc|] == d[..|acc'|][..|acc|];
      }
    }
  }

  /** Every page could be read. */
  predicate AllOk(results: seq<Result<seq<string>>>) {
    forall i :: 0 <= i < |results| ==> results[i].Ok?
  }

  /** The text lists of the pages that have matches, in page order. */
  function MatchedTexts(results: seq<Result<seq<string>>>): (m: seq<seq<string>>)
    requires AllOk(results)
    ensures |m| <= |results|
  {
    if results == [] then []
    else (if |results[0].value| > 0 then [results[0].value] else []) + MatchedTexts(results[1..])
  }

  /** The k-th name paired with the k-th list of texts. */
  function Zip(names: seq<string>, textLists: seq<seq<string>>): (r: seq<Entry>)
    requires |names| == |textLists|
    ensures |r| == |names| && forall k :: 0 <= k < |r| ==> r[k] == Entry(names[k], textLists[k])
  {
    seq(|names|, k requires 0 <= k < |names| => Entry(names[k], textLists[k]))
  }

  lemma ZipCons(n: string, names: seq<string>, t: seq<string>, textLists: seq<seq<string>>)
    requires |names| == |textLists|
    ensures Zip([n] + names, [t] + textLists) == [Entry(n, t)] + Zip(names, textLists)
  {
  }

  lemma KeysSnoc(acc: seq<Entry>, e: Entry)
    ensures Keys(acc + [e]) == Keys(acc) + [e.pageName]
  {
  }

  /** Adding the keys ns one after the other to a dictionary whose keys are
      ks never meets a key already present. */
  predicate FreshKeys(ks: seq<string>, ns: seq<string>)
    decreases |ns|
  {
    ns == [] || (ns[0] !in ks && FreshKeys(ks + [ns[0]], ns[1..]))
  }

  /** A key can be added to a duplicate-free key list exactly when it is new. */
  lemma DistinctSnoc(ks: seq<string>, n: string, rest: seq<string>)
    ensures Distinct(ks + ([n] + rest)) ==> n !in ks
    ensures Distinct(ks) && n !in ks ==> Distinct(ks + [n])
    ensures ks + ([n] + rest) == (ks + [n]) + rest
  {
    if n in ks {
      var i :| 0 <= i < |ks| && ks[i] == n;
      assert (ks + ([n] + rest))[i] == (ks + ([n] + rest))[|ks|];
    }
  }

  /** Starting from distinct keys, the added keys are all fresh exactly when
      all keys together are pairwise different. */
  lemma {:induction false} FreshKeysDistinct(ks: seq<string>, ns: seq<string>)
    requires Distinct(ks)
    ensures FreshKeys(ks, ns) <==> Distinct(ks + ns)
    decreases |ns|
  {
    if ns == [] {
      assert ks + ns == ks;
    } else {
      var n, rest := ns[0], ns[1..];
      assert ns == [n] + rest;
      DistinctSnoc(ks, n, rest);
      if n !in ks {
        FreshKeysDistinct(ks + [n], rest);
      }
    }
  }

  /** The first fact CollectZips states, for one starting point of the loop. */
  predicate ZipsOk(results: seq<Result<seq<string>>>, names: seq<string>, cursor: nat, acc: seq<Entry>)
    requires AllOk(results)
  {
    var m := MatchedTexts(results);
    Collect(results, names, cursor, acc).Ok?
    <==> cursor + |m| <= |names| && FreshKeys(Keys(acc), names[cursor..cursor + |m|])
  }

  /** The second fact CollectZips states, for one starting point of the loop. */
  predicate ZipsValue(results: seq<Result<seq<string>>>, names: seq<string>, cursor: nat, acc: seq<Entry>)
    requires AllOk(results)
  {
    var m := MatchedTexts(results);
    var r := Collect(results, names, cursor, acc);
    r.Ok? && cursor + |m| <= |names| ==> r.value == acc + Zip(names[cursor..cursor + |m|], m)
  }

  /** CollectZips when the first page has no matches. */
  lemma ZipsSkip(results: seq<Result<seq<string>>>, names: seq<string>, cursor: nat, acc: seq<Entry>)
    requires results != [] && AllOk(results) && |results[0].value| == 0 && AllOk(results[1..])
    requires ZipsOk(results[1..], names, cursor, acc) && ZipsValue(results[1..], names, cursor, acc)
    ensures ZipsOk(results, names, cursor, acc) && ZipsValue(results, names, cursor, acc)
  {
    assert MatchedTexts(results) == MatchedTexts(results[1..]);
    assert Collect(results, names, cursor, acc) == Collect(results[1..], names, cursor, acc);
  }

  /** CollectZips when the first page has matches but the names are used up
      or the next name is already a key. */
  lemma ZipsFail(results: seq<Result<seq<string>>>, names: seq<string>, cursor: nat, acc: seq<Entry>)
    requires results != [] && AllOk(results) && |results[0].value| > 0 && cursor <= |names|
    requires cursor == |names| || names[cursor] in Keys(acc)
    ensures ZipsOk(results, names, cursor, acc) && ZipsValue(results, names, cursor, acc)
  {
    var m := MatchedTexts(results);
    assert m == [results[0].value] + MatchedTexts(results[1..]);
    if cursor + |m| <= |names| {
      assert names[cursor..cursor + |m|][0] == names[cursor];
    }
  }

  /** CollectZips when the first page has matches and takes a new name: whether the loop succeeds. */
  lemma ZipsTakeOk(results: seq<Result<seq<string>>>, names: seq<string>, cursor: nat, acc: seq<Entry>)
    requires results != [] && AllOk(results) && |results[0].value| > 0
    requires cursor < |names| && names[cursor] !in Keys(acc)
    requires AllOk(results[1..])
    requires ZipsOk(results[1..], names, cursor + 1, acc + [Entry(names[cursor], results[0].value)])
    ensures ZipsOk(results, names, cursor, acc)
  {
    var t, n := results[0].value, names[cursor];
    var m, m' := MatchedTexts(results), MatchedTexts(results[1..]);
    assert m == [t] + m';
    var acc' := acc + [Entry(n, t)];
    assert Collect(results, names, cursor, acc) == Collect(results[1..], names, cursor + 1, acc');
    KeysSnoc(acc, Entry(n, t));
    assert |m| == |m'| + 1;
    if cursor + |m| <= |names| {
      var rest := names[cursor + 1..cursor + |m|];
      assert rest == names[cursor + 1..cursor + 1 + |m'|];
      assert names[cursor..cursor + |m|] == [n] + rest;
      assert FreshKeys(Keys(acc), [n] + rest) <==> FreshKeys(Keys(acc'), rest);
    }
  }

  /** Taking the first page with matches is one loop step. */
  lemma CollectTake(results: seq<Result<seq<string>>>, names: seq<string>, cursor: nat, acc: seq<Entry>)
    requires results != [] && AllOk(results) && |results[0].value| > 0
    requires cursor < |names| && names[cursor] !in Keys(acc)
    ensures AllOk(results[1..])
    ensures MatchedTexts(results) == [results[0].value] + MatchedTexts(results[1..])
    ensures Collect(results, names, cursor, acc)
            == Collect(results[1..], names, cursor + 1, acc + [Entry(names[cursor], results[0].value)])
  {
  }

  /** Pairing the names at the cursor with the matched lists is pairing the
      first of them, then the rest from the next cursor position. */
  lemma ZipAtCursor(names: seq<string>, cursor: nat, t: seq<string>, m': seq<seq<string>>, acc: seq<Entry>)
    requires cursor + 1 + |m'| <= |names|
    ensures acc + [Entry(names[cursor], t)] + Zip(names[cursor + 1..cursor + 1 + |m'|], m')
            == acc + Zip(names[cursor..cursor + 1 + |m'|], [t] + m')
  {
    var n, rest := names[cursor], names[cursor + 1..cursor + 1 + |m'|];
    assert names[cursor..cursor + 1 + |m'|] == [n] + rest;
    ZipCons(n, rest, t, m');
  }

  /** CollectZips when the first page has matches and takes a new name: the dictionary built. */
  lemma ZipsTakeValue(results: seq<Result<seq<string>>>, names: seq<string>, cursor: nat, acc: seq<Entry>)
    requires results != [] && AllOk(results) && |results[0].value| > 0
    requires cursor < |names| && names[cursor] !in Keys(acc)
    requires AllOk(results[1..])
    requires ZipsValue(results[1..], names, cursor + 1, acc + [Entry(names[cursor], results[0].value)])
    ensures ZipsValue(results, names, cursor, acc)
  {
    CollectTake(results, names, cursor, acc);
    var t := results[0].value;
    var acc' := acc + [Entry(names[cursor], t)];
    var m, m' := MatchedTexts(results), MatchedTexts(results[1..]);
    var r := Collect(results, names, cursor, acc);
    assert r == Collect(results[1..], names, cursor + 1, acc');
    if r.Ok? && cursor + |m| <= |names| {
      assert |m| == 1 + |m'| && m == [t] + m';
      assert r.value == acc' + Zip(names[cursor + 1..cursor + 1 + |m'|], m');
      ZipAtCursor(names, cursor, t, m', acc);
    }
  }

  /** The cursor at work: when every page can be read, the loop succeeds
      exactly when there are enough names left for the pages with matches
      and each of those names is new when it is added; the dictionary then
      pairs the next names, in order, with the matching pages' texts, in
      page order. Names go to matching pages, not to pages. */
  lemma {:induction false} CollectZips(results: seq<Result<seq<string>>>, names: seq<string>, cursor: nat, acc: seq<Entry>)
    requires AllOk(results) && cursor <= |names|
    ensures var m := MatchedTexts(results);
            Collect(results, names, cursor, acc).Ok?
            <==> cursor + |m| <= |names| && FreshKeys(Keys(acc), names[cursor..cursor + |m|])
    ensures var m := MatchedTexts(results);
            Collect(results, names, cursor, acc).Ok? && cursor + |m| <= |names|
            ==> Collect(results, names, cursor, acc).value == acc + Zip(names[cursor..cursor + |m|], m)
    decreases |results|
  {
    if results == [] {
      assert acc + Zip([], []) == acc;
    } else {
      assert AllOk(results[1..]);
      if |results[0].value| == 0 {
        CollectZips(results[1..], names, cursor, acc);
        ZipsSkip(results, names, cursor, acc);
      } else if cursor == |names| || names[cursor] in Keys(acc) {
        ZipsFail(results, names, cursor, acc);
      } else {
        CollectZips(results[1..], names, cursor + 1, acc + [Entry(names[cursor], results[0].value)]);
        ZipsTakeOk(results, names, cursor, acc);
        ZipsTakeValue(results, names, cursor, acc);
      }
    }
  }

  /** A page result that adds an entry: the page was read and has matches. */
  predicate HasMatches(r: Result<seq<string>>) {
    r.Ok? && |r.value| > 0
  }

  /** The k-th matched list is the texts of the k-th page with matches. */
  lemma {:induction false} MatchedTextsAt(results: seq<Result<seq<string>>>)
    requires AllOk(results)
    ensures |MatchedTexts(results)| == |KeptIndices(results, HasMatches)|
    ensures forall k :: 0 <= k < |MatchedTexts(results)| ==>
              MatchedTexts(results)[k] == results[KeptIndices(results, HasMatches)[k]].value
  {
    if results != [] {
      assert AllOk(results[1..]);
      MatchedTextsAt(results[1..]);
      var rest := KeptIndices(results[1..], HasMatches);
      var h: seq<nat> := if HasMatches(results[0]) then [0] else [];
      var idx := KeptIndices(results, HasMatches);
      assert idx == h + Shift(rest);
      var m, m' := MatchedTexts(results), MatchedTexts(results[1..]);
      assert m == (if HasMatches(results[0]) then [results[0].value] else []) + m';
      forall k | 0 <= k < |m|
        ensures m[k] == results[idx[k]].value
      {
        if k >= |h| {
          assert idx[k] == rest[k - |h|] + 1;
          assert results[idx[k]] == results[1..][rest[k - |h|]];
        }
      }
    }
  }

  /** Two pages, the first without matches: the second page's texts are filed
      under the first page's name. */
  lemma NameGoesToNextMatchingPage(first: string, second: string, texts: seq<string>)
    requires |texts| > 0
    ensures Collect([Ok([]), Ok(texts)], [first, second], 0, []) == Ok([Entry(first, texts)])
  {
    var results: seq<Result<seq<string>>> := [Ok([]), Ok(texts)];
    var names := [first, second];
    assert results[1..] == [Ok(texts)] && results[1..][1..] == [];
    assert Keys([]) == [];
    assert Collect(results, names, 0, []) == Collect(results[1..], names, 0, []);
    var tail := results[1..];
    assert tail[0] == Ok(texts) && tail[1..] == [];
    assert names[0] == first && first !in Keys([]);
    var none: seq<Entry> := [];
    assert none + [Entry(first, texts)] == [Entry(first, texts)];
    assert Collect(tail, names, 0, []) == Collect([], names, 1, [Entry(first, texts)]);
  }

  /** Every page can be read from the package. */
  predicate PagesReadable(pages: seq<Part>) {
    forall i :: 0 <= i < |pages| ==> pages[i].xml.Some?
  }

  /** With every page read, the loop from the start succeeds exactly when
      the names cover the pages with matches (idx) and the first |idx| names
      are pairwise different. */
  lemma CollectSucceeds(results: seq<Result<seq<string>>>, names: seq<string>)
    requires AllOk(results)
    ensures var idx := KeptIndices(results, HasMatches);
            Collect(results, names, 0, []).Ok? <==> |idx| <= |names| && Distinct(names[..|idx|])
  {
    var m := MatchedTexts(results);
    CollectZips(results, names, 0, []);
    MatchedTextsAt(results);
    if |m| <= |names| {
      FreshKeysDistinct([], names[..|m|]);
      assert [] + names[..|m|] == names[..|m|];
      assert Keys([]) == [];
      assert names[0..|m|] == names[..|m|];
    }
  }

  /** With every page read, a successful loop files the texts of the k-th
      page with matches under the k-th name. */
  lemma CollectEntries(results: seq<Result<seq<string>>>, names: seq<string>)
    requires AllOk(results) && Collect(results, names, 0, []).Ok?
    ensures var idx := KeptIndices(results, HasMatches);
            var d := Collect(results, names, 0, []).value;
            && |d| == |idx| && |d| <= |names|
            && forall k :: 0 <= k < |d| ==> d[k] == Entry(names[k], results[idx[k]].value)
  {
    var m := MatchedTexts(results);
    CollectZips(results, names, 0, []);
    MatchedTextsAt(results);
    assert [] + Zip(names[0..|m|], m) == Zip(names[0..|m|], m);
  }

  /** The search of indexed, readable pages. With idx the positions of the
      pages that have matches (in page order, and every page with matches,
      by KeptIndicesAscending and KeptIndicesComplete): the search succeeds
      exactly when there are at least |idx| names and the first |idx| of
      them are pairwise different, and its k-th entry is then the k-th name
      with the texts of the page at position idx[k]. */
  lemma SearchResult(index: PageSet, prefixText: string)
    requires PagesReadable(index.pages)
    ensures var results := PageResults(index.pages, prefixText);
            var idx := KeptIndices(results, HasMatches);
            && (SearchPages(index, prefixText).Ok? <==> |idx| <= |index.names| && Distinct(index.names[..|idx|]))
            && (SearchPages(index, prefixText).Ok? ==>
                  var d := SearchPages(index, prefixText).value;
                  && |d| == |idx|
                  && forall k :: 0 <= k < |d| ==> d[k] == Entry(index.names[k], results[idx[k]].value))
  {
    var results := PageResults(index.pages, prefixText);
    assert AllOk(results);
    CollectSucceeds(results, index.names);
    if SearchPages(index, prefixText).Ok? {
      CollectEntries(results, index.names);
    }
  }

  /** A successful collection has at most one entry per result, only
      non-empty text lists, and the names in their order as keys. */
  lemma CollectBounds(results: seq<Result<seq<string>>>, names: seq<string>)
    requires Collect(results, names, 0, []).Ok?
    ensures var d := Collect(results, names, 0, []).value;
            && |d| <= |results|
            && |d| <= |names|
            && forall k :: 0 <= k < |d| ==> |d[k].texts| > 0 && d[k].pageName == names[k]
  {
    var none: seq<Entry> := [];
    CollectExtends(results, names, 0, none);
    var d := Collect(results, names, 0, none).value;
    forall k | 0 <= k < |d|
      ensures |d[k].texts| > 0 && d[k].pageName == names[k]
    {
      assert 0 + k - |none| == k;
    }
  }

  /** Whatever the pages hold, a successful search has at most one entry per
      page, only non-empty text lists, and the names in their order as keys. */
  lemma SearchBounds(index: PageSet, prefixText: string)
    requires SearchPages(index, prefixText).Ok?
    ensures var d := SearchPages(index, prefixText).value;
            && |d| <= |index.pages|
            && |d| <= |index.names|
            && forall k :: 0 <= k < |d| ==> |d[k].texts| > 0 && d[k].pageName == index.names[k]
  {
    CollectBounds(PageResults(index.pages, prefixText), index.names);
  }

  /** The loop only succeeds when every page could be read: an exception
      of XDocument.Load inside the foreach ends the search. */
  lemma {:induction false} CollectOkAllOk(results: seq<Result<seq<string>>>, names: seq<string>, cursor: nat, acc: seq<Entry>)
    requires Collect(results, names, cursor, acc).Ok?
    ensures AllOk(results)
    decreases |results|
  {
    if results != [] {
      var texts := results[0].value;
      if |texts| == 0 {
        CollectOkAllOk(results[1..], names, cursor, acc);
      } else {
        CollectOkAllOk(results[1..], names, cursor + 1, acc + [Entry(names[cursor], texts)]);
      }
      forall i | 0 <= i < |results|
        ensures results[i].Ok?
      {
        if i > 0 {
          assert results[i] == results[1..][i - 1];
        }
      }
    }
  }

  /** A search that succeeds has read every page. */
  lemma SearchNeedsReadablePages(index: PageSet, prefixText: string)
    requires SearchPages(index, prefixText).Ok?
    ensures PagesReadable(index.pages)
  {
    var results := PageResults(index.pages, prefixText);
    CollectOkAllOk(results, index.names, 0, []);
    forall i | 0 <= i < |index.pages|
      ensures index.pages[i].xml.Some?
    {
      assert results[i] == PageTexts(index.pages[i], prefixText);
    }
  }

  /** The object of SearchForPrefixTextInVisioFile with its three fields:
      the page parts, the page names, and the open package. */
  class VisioHelper {
    var pages: Option<seq<Part>>
    var pagesNames: Option<seq<string>>
    var visioPackage: Option<Package>

    constructor()
      ensures pages == None && pagesNames == None && visioPackage == None
    {
      pages := None;
      pagesNames := None;
      visioPackage := None;
    }

    /** ThrowOnNoPages: fails when GetPages has not set the fields. */
    method ThrowOnNoPages() returns (r: Outcome)
      ensures r.Pass? <==> pages.Some? && pagesNames.Some?
      ensures pages.None? ==> r == Fail(NoPagesFound("No pages were found."))
      ensures pages.Some? && pagesNames.None? ==> r == Fail(NoPagesFound("No pages names were found."))
    {
      if pages.None? {
        return Fail(NoPagesFound("No pages were found."));
      }
      if pagesNames.None? {
        return Fail(NoPagesFound("No pages names were found."));
      }
      return Pass;
    }

    /** GetPages: Document, Pages, the page names (stored first), the page
        parts (stored next), then ThrowOnNoPages. */
    method GetPages(resolve: Resolver) returns (r: Outcome)
      requires visioPackage.Some?
      modifies this
      ensures visioPackage == old(visioPackage)
      ensures var index := Pages(visioPackage.value, resolve);
              && (r.Pass? <==> index.Ok?)
              && (index.Ok? ==> pagesNames == Some(index.value.names) && pages == Some(index.value.pages))
              && (index.Err? ==> r == Fail(index.error))
      ensures var collection := GetPagesCollection(visioPackage.value, resolve);
              && (collection.Err? || GetPagesNames(collection.value).Err?
                  ==> pages == old(pages) && pagesNames == old(pagesNames))
              && (collection.Ok? && GetPagesNames(collection.value).Ok? ==>
                    pagesNames == Some(GetPagesNames(collection.value).value))
      ensures r.Fail? ==> pages == old(pages)
    {
      var pkg := visioPackage.value;
      PagesBySteps(pkg, resolve);
      var pagesCollection := GetPagesCollection(pkg, resolve);
      if pagesCollection.Err? {
        return Fail(pagesCollection.error);
      }
      var names := GetPagesNames(pagesCollection.value);
      if names.Err? {
        return Fail(names.error);
      }
      pagesNames := Some(names.value);
      var pageParts := Navigator.GetPackageParts(pkg, resolve, pagesCollection.value, PageRelationship);
      if pageParts.Err? {
        return Fail(pageParts.error);
      }
      pages := Some(pageParts.value);
      r := ThrowOnNoPages();
    }

    /** SearchForPrefixTextInVisioFile(fileName, prefixText). */
    method SearchForPrefixTextInVisioFile(fs: FileSystem, resolve: Resolver, fileName: string, prefixText: string)
      returns (r: Result<seq<Entry>>)
      modifies this
      ensures r == Search(fs, resolve, fileName, prefixText)
      ensures OpenPackage(fs, fileName).Ok? ==> visioPackage == Some(OpenPackage(fs, fileName).value)
      ensures OpenPackage(fs, fileName).Err? ==>
                visioPackage == old(visioPackage) && pages == old(pages) && pagesNames == old(pagesNames)
    {
      var openResult := OpenPackage(fs, fileName);
      if openResult.Err? {
        return Err(openResult.error);
      }
      visioPackage := Some(openResult.value);
      var got := GetPages(resolve);
      if got.Fail? {
        return Err(got.error);
      }
      r := CollectPageTexts(pages.value, pagesNames.value, prefixText);
    }

    /** The foreach loop of SearchForPrefixTextInVisioFile: the name cursor
        currentPageIndex moves only past pages with matches. */
    method CollectPageTexts(ps: seq<Part>, names: seq<string>, prefixText: string) returns (r: Result<seq<Entry>>)
      ensures r == SearchPages(PageSet(names, ps), prefixText)
    {
      ghost var results := PageResults(ps, prefixText);
      var result: seq<Entry> := [];
      var currentPageIndex: nat := 0;
      assert results[0..] == results;
      for i := 0 to |ps|
        invariant Collect(results[i..], names, currentPageIndex, result) == Collect(results, names, 0, [])
      {
        assert results[i..][0] == results[i];
        assert results[i..][1..] == results[i + 1..];
        var texts := GetPagePrefixedTexts(prefixText, ps[i]);
        if texts.Err? {
          return Err(texts.error);
        }
        if |texts.value| > 0 {
          if currentPageIndex >= |names| {
            return Err(IndexOutOfRange(currentPageIndex));
          }
          var pageName := names[currentPageIndex];
          currentPageIndex := currentPageIndex + 1;
          if pageName in Keys(result) {
            return Err(DuplicateKey(pageName));
          }
          result := result + [Entry(pageName, texts.value)];
        }
      }
      assert results[|ps|..] == [];
      return Ok(result);
    }
  }
}
