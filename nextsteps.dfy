/** The query helpers of VisioHelper_NextSteps, where they differ from those
    of VisioHelper: the document overload of GetXElementsByName yields a
    single null when nothing matches, the shape text extractor trims only
    the end of each value and throws on a null shape, the page names keep
    background pages and nulls, and CheckForRecalc picks a fresh property
    id for the RecalcDocument custom property. */
module NextSteps {

  import opened Wrappers
  import opened Seqs
  import opened Text
  import opened Xml
  import opened Packaging
  import ShapeText
  import PageIndex

  /** Non-null references to the given elements. */
  function Refs(es: seq<Node>): (r: seq<Option<Node>>)
    ensures |r| == |es| && forall i :: 0 <= i < |es| ==> r[i] == Some(es[i])
  {
    if es == [] then [] else [Some(es[0])] + Refs(es[1..])
  }

  /** No reference in the sequence is null. */
  predicate NoNull(refs: seq<Option<Node>>) {
    forall i :: 0 <= i < |refs| ==> refs[i].Some?
  }

  /** The elements behind references none of which is null. */
  function Deref(refs: seq<Option<Node>>): (r: seq<Node>)
    requires NoNull(refs)
    ensures |r| == |refs| && forall i :: 0 <= i < |refs| ==> refs[i] == Some(r[i])
  {
    if refs == [] then [] else [refs[0].value] + Deref(refs[1..])
  }

  // ---------------------------------------------------------------------
  // GetXElementsByName, both overloads
  // ---------------------------------------------------------------------

  /** GetXElementsByName(XDocument, name): the document's descendants of
      that local name, then DefaultIfEmpty(null). */
  function ElementsByNameInDocument(doc: Document, name: string): (r: seq<Option<Node>>)
    ensures r == [None] <==> ElementsByName(doc.nodes, name) == []
    ensures ElementsByName(doc.nodes, name) != [] ==> r == Refs(ElementsByName(doc.nodes, name))
  {
    var es := ElementsByName(doc.nodes, name);
    if es == [] then [None]
    else
      assert Refs(es)[0] == Some(es[0]);
      Refs(es)
  }

  /** The document overload yields a null exactly when nothing matches. */
  lemma NullOnlyWhenEmpty(doc: Document, name: string)
    ensures NoNull(ElementsByNameInDocument(doc, name)) <==> ElementsByName(doc.nodes, name) != []
  {
    if ElementsByName(doc.nodes, name) == [] {
      assert ElementsByNameInDocument(doc, name)[0] == None;
    }
  }

  /** GetXElementsByName(XElement, name): the element's descendants of that
      local name, possibly none (the `??` never applies); a null element
      throws. */
  function ElementsByNameInElement(e: Option<Node>, name: string): (r: Result<seq<Node>>)
    ensures r.Err? <==> e.None?
    ensures r.Err? ==> r.error == NullReference
    ensures r.Ok? ==> r.value == ElementsByName(Children(e.value), name)
  {
    match e
    case None => Err(NullReference)
    case Some(n) => Ok(ElementsByName(Children(n), name))
  }

  /** On the same contents the overloads agree when something matches, and
      differ when nothing does: a single null against an empty sequence. */
  lemma OverloadsOnSameContents(e: Node, name: string)
    requires e.Element?
    ensures var inDoc := ElementsByNameInDocument(Document(e.children), name);
            var inElement := ElementsByNameInElement(Some(e), name).value;
            && (inElement == [] <==> inDoc == [None])
            && (inElement != [] ==> inDoc == Refs(inElement))
  {
  }

  // ---------------------------------------------------------------------
  // GetXElementByAttribute
  // ---------------------------------------------------------------------

  /** el.Attribute(attrName)?.Value == attrValue for a non-null el. */
  predicate HasAttributeValue(e: Node, attrName: string, attrValue: string) {
    Attribute(e, attrName) == Some(attrValue)
  }

  /** GetXElementByAttribute: the first element, in sequence order, whose
      attribute has the value, or null when none has. The query reads the
      elements only up to that one, and a null read on the way throws. */
  function GetXElementByAttribute(elements: seq<Option<Node>>, attrName: string, attrValue: string): (r: Result<Option<Node>>)
    ensures r.Ok? && r.value.Some? ==> r.value in elements && HasAttributeValue(r.value.value, attrName, attrValue)
    ensures r.Err? ==> r.error == NullReference
  {
    if elements == [] then Ok(None)
    else if elements[0].None? then Err(NullReference)
    else if HasAttributeValue(elements[0].value, attrName, attrValue) then Ok(elements[0])
    else GetXElementByAttribute(elements[1..], attrName, attrValue)
  }

  /** Scanning up to position i: when every earlier element is non-null and
      lacks the value, the i-th element decides the result. */
  lemma {:induction false} ElementByAttributeAt(elements: seq<Option<Node>>, attrName: string, attrValue: string, i: nat)
    requires i < |elements|
    requires forall j :: 0 <= j < i ==> elements[j].Some? && !HasAttributeValue(elements[j].value, attrName, attrValue)
    ensures elements[i].None? ==> GetXElementByAttribute(elements, attrName, attrValue) == Err(NullReference)
    ensures elements[i].Some? && HasAttributeValue(elements[i].value, attrName, attrValue) ==>
              GetXElementByAttribute(elements, attrName, attrValue) == Ok(elements[i])
  {
    if i > 0 {
      var rest := elements[1..];
      assert rest[i - 1] == elements[i];
      assert forall j :: 0 <= j < i - 1 ==> rest[j] == elements[j + 1];
      ElementByAttributeAt(rest, attrName, attrValue, i - 1);
    }
  }

  /** The result is null exactly when every element is non-null and none
      has the value. */
  lemma {:induction false} ElementByAttributeNull(elements: seq<Option<Node>>, attrName: string, attrValue: string)
    ensures GetXElementByAttribute(elements, attrName, attrValue) == Ok(None)
            <==> forall j :: 0 <= j < |elements| ==> elements[j].Some? && !HasAttributeValue(elements[j].value, attrName, attrValue)
  {
    if elements != [] {
      var rest := elements[1..];
      ElementByAttributeNull(rest, attrName, attrValue);
      assert forall j :: 0 <= j < |rest| ==> rest[j] == elements[j + 1];
      if forall j :: 0 <= j < |rest| ==> rest[j].Some? && !HasAttributeValue(rest[j].value, attrName, attrValue) {
        if elements[0].Some? && !HasAttributeValue(elements[0].value, attrName, attrValue) {
          forall j | 0 <= j < |elements|
            ensures elements[j].Some? && !HasAttributeValue(elements[j].value, attrName, attrValue)
          {
            if j > 0 {
              assert elements[j] == rest[j - 1];
            }
          }
        }
      }
    }
  }

  /** Non-null elements never make the lookup throw. */
  lemma {:induction false} ElementByAttributeTotal(elements: seq<Option<Node>>, attrName: string, attrValue: string)
    requires NoNull(elements)
    ensures GetXElementByAttribute(elements, attrName, attrValue).Ok?
  {
    if elements != [] {
      assert NoNull(elements[1..]) by {
        assert forall j :: 0 <= j < |elements[1..]| ==> elements[1..][j] == elements[j + 1];
      }
      ElementByAttributeTotal(elements[1..], attrName, attrValue);
    }
  }

  // ---------------------------------------------------------------------
  // CheckForRecalc
  // ---------------------------------------------------------------------

  const RecalcName: string := "RecalcDocument"
  const RecalcFmtId: string := "{D5CDD505-2E9C-101B-9397-08002B2CF9AE}"

  /** from prop in props where prop.Name.LocalName == "property" select
      prop.Attribute("pid").Value, read to the end by ToArray: a null
      property or a property without pid throws. */
  function PidValues(props: seq<Option<Node>>): (r: Result<seq<string>>)
    ensures r.Err? ==> r.error == NullReference
    decreases |props|
  {
    if props == [] then Ok([])
    else if props[0].None? then Err(NullReference)
    else if !(props[0].value.Element? && props[0].value.name == "property") then PidValues(props[1..])
    else if Attribute(props[0].value, "pid").None? then Err(NullReference)
    else
      var rest :- PidValues(props[1..]);
      Ok([Attribute(props[0].value, "pid").value] + rest)
  }

  /** The pid values read are exactly the pid attributes of the property elements. */
  lemma {:induction false} PidValuesExact(props: seq<Option<Node>>, s: string)
    requires PidValues(props).Ok?
    ensures s in PidValues(props).value
            <==> exists i :: 0 <= i < |props| && props[i].Some? && props[i].value.Element?
                             && props[i].value.name == "property" && Attribute(props[i].value, "pid") == Some(s)
  {
    if props != [] {
      var rest := props[1..];
      PidValuesExact(rest, s);
      assert forall i :: 0 <= i < |rest| ==> rest[i] == props[i + 1];
      if exists i :: 0 <= i < |props| && props[i].Some? && props[i].value.Element?
                     && props[i].value.name == "property" && Attribute(props[i].value, "pid") == Some(s) {
        var i :| 0 <= i < |props| && props[i].Some? && props[i].value.Element?
                 && props[i].value.name == "property" && Attribute(props[i].value, "pid") == Some(s);
        if i > 0 {
          assert rest[i - 1] == props[i];
        }
      }
    }
  }

  /** Every property element has a pid exactly when reading them succeeds. */
  lemma {:induction false} PidValuesOk(props: seq<Option<Node>>)
    requires NoNull(props)
    ensures PidValues(props).Ok?
            <==> forall i :: 0 <= i < |props| && props[i].value.Element? && props[i].value.name == "property"
                             ==> Attribute(props[i].value, "pid").Some?
  {
    if props != [] {
      var rest := props[1..];
      assert forall i :: 0 <= i < |rest| ==> rest[i] == props[i + 1];
      assert NoNull(rest);
      PidValuesOk(rest);
    }
  }

  /** The decimal strings of the integers 2 .. n-1. */
  function Decimals(n: nat): set<string>
    decreases n
  {
    if n <= 2 then {} else Decimals(n - 1) + {Decimal(n - 1)}
  }

  /** No integer from n on has its decimal string among them. */
  lemma {:induction false} DecimalsBelow(n: nat, m: nat)
    requires n <= m
    ensures Decimal(m) !in Decimals(n)
    decreases n
  {
    if n > 2 {
      DecimalsBelow(n - 1, m);
      if Decimal(m) == Decimal(n - 1) {
        DecimalInjective(m, n - 1);
      }
    }
  }

  /** They are n-2 different strings. */
  lemma {:induction false} DecimalsCount(n: nat)
    requires 2 <= n
    ensures |Decimals(n)| == n - 2
  {
    if n > 2 {
      DecimalsCount(n - 1);
      DecimalsBelow(n - 1, n - 1);
      assert |Decimals(n - 1) + {Decimal(n - 1)}| == |Decimals(n - 1)| + 1;
    }
  }

  /** A set holding the decimal strings of 2 .. n-1 holds all of them. */
  lemma {:induction false} DecimalsWithin(n: nat, taken: set<string>)
    requires forall k :: 2 <= k < n ==> Decimal(k) in taken
    ensures Decimals(n) <= taken
  {
    if n > 2 {
      DecimalsWithin(n - 1, taken);
    }
  }

  /** Pigeonholes: when the decimal strings of 2 .. n-1 are all taken, there
      are at least n-2 taken strings. */
  lemma TakenPidsBound(ids: seq<string>, n: nat)
    requires 2 <= n
    requires forall k :: 2 <= k < n ==> Decimal(k) in ids
    ensures n - 2 <= |ids|
  {
    var values := set x | x in ids;
    DecimalsCount(n);
    DecimalsWithin(n, values);
    assert |values| == |Decimals(n)| + |values - Decimals(n)|;
    ValuesBound(ids);
  }

  /** The loop of CheckForRecalc from id on, once 2 .. id-1 are known to be
      taken: the least id, from there, whose decimal string is free. */
  function FreshPid(ids: seq<string>, id: nat): (r: nat)
    requires 2 <= id
    requires forall k :: 2 <= k < id ==> Decimal(k) in ids
    ensures id <= r && Decimal(r) !in ids
    ensures forall k :: 2 <= k < r ==> Decimal(k) in ids
    decreases |ids| + 2 - id
  {
    if Decimal(id) in ids then
      TakenPidsBound(ids, id + 1);
      FreshPid(ids, id + 1)
    else
      id
  }

  /** CheckForRecalc after its props query: -1 when a RecalcDocument
      property exists, otherwise the least free id from 2 on. */
  function RecalcPidFrom(props: seq<Option<Node>>): (r: Result<int>)
  {
    var recalcProp :- GetXElementByAttribute(props, "name", RecalcName);
    if recalcProp.Some? then Ok(-1)
    else
      var ids :- PidValues(props);
      Ok(FreshPid(ids, 2) as int)
  }

  /** CheckForRecalc as written: the property elements come from the
      document overload of GetXElementsByName, DefaultIfEmpty included. */
  function RecalcPidAsWritten(doc: Document): Result<int> {
    RecalcPidFrom(ElementsByNameInDocument(doc, "property"))
  }

  /** CheckForRecalc as intended: the property elements, possibly none. */
  function RecalcPid(doc: Document): Result<int> {
    RecalcPidFrom(Refs(ElementsByName(doc.nodes, "property")))
  }

  /** A RecalcDocument property is already present. */
  predicate HasRecalcProperty(doc: Document) {
    exists p :: p in ElementsByName(doc.nodes, "property") && HasAttributeValue(p, "name", RecalcName)
  }

  /** Some property element carries this pid. */
  predicate PidTaken(doc: Document, s: string) {
    exists p :: p in ElementsByName(doc.nodes, "property") && Attribute(p, "pid") == Some(s)
  }

  /** The as-written lookup throws on a document without property elements:
      DefaultIfEmpty hands the single null to GetXElementByAttribute. */
  lemma RecalcPidAsWrittenThrowsWithoutProperties(doc: Document)
    requires ElementsByName(doc.nodes, "property") == []
    ensures RecalcPidAsWritten(doc) == Err(NullReference)
  {
  }

  /** The intended lookup gives pid 2 to a document without property
      elements, and agrees with the as-written one on any other document. */
  lemma RecalcPidCorrected(doc: Document)
    ensures ElementsByName(doc.nodes, "property") == [] ==> RecalcPid(doc) == Ok(2)
    ensures ElementsByName(doc.nodes, "property") != [] ==> RecalcPidAsWritten(doc) == RecalcPid(doc)
  {
    if ElementsByName(doc.nodes, "property") == [] {
      assert Decimal(2) == "2";
    }
  }

  /** CheckForRecalc returns -1 exactly when a RecalcDocument property exists. */
  lemma RecalcPidExisting(doc: Document)
    ensures HasRecalcProperty(doc) <==> RecalcPid(doc) == Ok(-1)
  {
    var es := ElementsByName(doc.nodes, "property");
    var props := Refs(es);
    ElementByAttributeTotal(props, "name", RecalcName);
    ElementByAttributeNull(props, "name", RecalcName);
    if HasRecalcProperty(doc) {
      var p :| p in es && HasAttributeValue(p, "name", RecalcName);
      var j :| 0 <= j < |es| && es[j] == p;
      assert props[j] == Some(p);
    }
  }

  /** Without a RecalcDocument property, CheckForRecalc succeeds exactly
      when every property element has a pid, and then returns the least
      integer from 2 on whose decimal string no property uses. */
  lemma RecalcPidFresh(doc: Document)
    requires !HasRecalcProperty(doc)
    ensures RecalcPid(doc).Ok?
            <==> forall p :: p in ElementsByName(doc.nodes, "property") ==> Attribute(p, "pid").Some?
    ensures RecalcPid(doc).Ok? ==>
              && RecalcPid(doc).value >= 2
              && !PidTaken(doc, Decimal(RecalcPid(doc).value))
              && forall k :: 2 <= k < RecalcPid(doc).value ==> PidTaken(doc, Decimal(k))
  {
    var es := ElementsByName(doc.nodes, "property");
    var props := Refs(es);
    RecalcPidExisting(doc);
    ElementByAttributeTotal(props, "name", RecalcName);
    assert GetXElementByAttribute(props, "name", RecalcName) == Ok(None);
    PidValuesOk(props);
    if forall p :: p in es ==> Attribute(p, "pid").Some? {
      assert forall i :: 0 <= i < |props| && props[i].value.Element? && props[i].value.name == "property"
                         ==> Attribute(props[i].value, "pid").Some? by {
        assert forall i :: 0 <= i < |props| ==> props[i].value == es[i] && es[i] in es;
      }
    } else {
      var p :| p in es && Attribute(p, "pid").None?;
      var i :| 0 <= i < |es| && es[i] == p;
      assert props[i].value == p;
    }
    if RecalcPid(doc).Ok? {
      var ids := PidValues(props).value;
      var pid := FreshPid(ids, 2);
      forall s
        ensures s in ids <==> PidTaken(doc, s)
      {
        PidValuesExact(props, s);
        if s in ids {
          var i :| 0 <= i < |props| && props[i].Some? && props[i].value.Element?
                   && props[i].value.name == "property" && Attribute(props[i].value, "pid") == Some(s);
          assert es[i] in es;
        }
        if PidTaken(doc, s) {
          var p :| p in es && Attribute(p, "pid") == Some(s);
          var i :| 0 <= i < |es| && es[i] == p;
          assert props[i] == Some(p);
        }
      }
    }
  }

  /** CheckForRecalc(customPropsXDoc), with the intended property lookup.
      The while loop stops because only |propIDs| ids can be taken. */
  method CheckForRecalc(customPropsXDoc: Document) returns (r: Result<int>)
    ensures r == RecalcPid(customPropsXDoc)
  {
    var props := Refs(ElementsByName(customPropsXDoc.nodes, "property"));
    var recalcProp := GetXElementByAttribute(props, "name", RecalcName);
    if recalcProp.Err? {
      return Err(recalcProp.error);
    }
    if recalcProp.value.Some? {
      return Ok(-1);
    }
    var propIDs := PidValues(props);
    if propIDs.Err? {
      return Err(propIDs.error);
    }
    var ids := propIDs.value;
    var pidValue: int := -1;
    var id: nat := 2;
    while pidValue == -1
      invariant 2 <= id <= |ids| + 2
      invariant forall k :: 2 <= k < id ==> Decimal(k) in ids
      invariant pidValue == -1 || (pidValue == id && Decimal(id) !in ids)
      decreases |ids| + 2 - id + (if pidValue == -1 then 1 else 0)
    {
      if Decimal(id) in ids {
        TakenPidsBound(ids, id + 1);
        id := id + 1;
      } else {
        pidValue := id;
      }
    }
    assert FreshPid(ids, 2) == pidValue;
    return Ok(pidValue);
  }

  // ---------------------------------------------------------------------
  // RecalcDocument: the tree update
  // ---------------------------------------------------------------------

  /** The property element RecalcDocument adds (local names only). */
  function RecalcProperty(pid: nat): (p: Node)
    ensures p.Element? && p.name == "property"
    ensures HasAttributeValue(p, "name", RecalcName) && Attribute(p, "pid") == Some(Decimal(pid))
  {
    Element("property", map["pid" := Decimal(pid), "name" := RecalcName, "fmtid" := RecalcFmtId],
            [Element("bool", map[], [TextNode("true")])])
  }

  /** customPartXML.Elements().ElementAt(0).Add(child): the child appended
      to the first top-level element; ElementAt throws when there is none. */
  function AddToRoot(nodes: seq<Node>, child: Node): (r: Result<seq<Node>>)
    requires child.Element?
    ensures r.Err? <==> forall i :: 0 <= i < |nodes| ==> !nodes[i].Element?
    ensures r.Err? ==> r.error == IndexOutOfRange(0)
    ensures r.Ok? ==> |r.value| == |nodes| && child in Descendants(r.value)
    ensures r.Ok? ==> exists i :: 0 <= i < |nodes| && AppendedAt(nodes, i, child, r.value)
  {
    if nodes == [] then Err(IndexOutOfRange(0))
    else if nodes[0].Element? then
      var root := nodes[0].(children := nodes[0].children + [child]);
      AddedChildIsDescendant(root, nodes[0].children, child, nodes[1..]);
      assert AppendedAt(nodes, 0, child, [root] + nodes[1..]);
      Ok([root] + nodes[1..])
    else
      var rest :- AddToRoot(nodes[1..], child);
      assert forall i :: 0 <= i < |nodes[1..]| ==> nodes[1..][i] == nodes[i + 1];
      DescendantsAppend([nodes[0]], rest);
      AppendedAtCons(nodes, child, rest);
      Ok([nodes[0]] + rest)
  }

  /** r is nodes with child appended to the children of nodes[i], the first
      element among the nodes; every other node is unchanged. */
  predicate AppendedAt(nodes: seq<Node>, i: nat, child: Node, r: seq<Node>) {
    && i < |nodes| && nodes[i].Element?
    && (forall j :: 0 <= j < i ==> !nodes[j].Element?)
    && r == nodes[..i] + [nodes[i].(children := nodes[i].children + [child])] + nodes[i + 1..]
  }

  /** The frame of AddToRoot carried past a leading non-element node. */
  lemma AppendedAtCons(nodes: seq<Node>, child: Node, rest: seq<Node>)
    requires nodes != [] && !nodes[0].Element?
    requires exists i :: 0 <= i < |nodes[1..]| && AppendedAt(nodes[1..], i, child, rest)
    ensures exists i :: 0 <= i < |nodes| && AppendedAt(nodes, i, child, [nodes[0]] + rest)
  {
    var i :| 0 <= i < |nodes[1..]| && AppendedAt(nodes[1..], i, child, rest);
    assert nodes[1..][..i] == nodes[1..i + 1];
    assert nodes[1..][i + 1..] == nodes[i + 2..];
    assert [nodes[0]] + nodes[1..i + 1] == nodes[..i + 1];
    assert forall j :: 0 <= j < i + 1 ==> !nodes[j].Element? by {
      forall j | 0 <= j < i + 1 ensures !nodes[j].Element? {
        if j > 0 { assert nodes[j] == nodes[1..][j - 1]; }
      }
    }
    assert AppendedAt(nodes, i + 1, child, [nodes[0]] + rest);
  }

  /** Appending below the first element keeps every element that lies below
      the top-level nodes, and every top-level node other than that element. */
  lemma AppendedKeepsDescendants(nodes: seq<Node>, i: nat, child: Node, r: seq<Node>, d: Node)
    requires AppendedAt(nodes, i, child, r)
    requires d in Descendants(nodes) && d != nodes[i]
    ensures d in Descendants(r)
  {
    var root := nodes[i];
    var root' := root.(children := root.children + [child]);
    assert nodes == nodes[..i] + [root] + nodes[i + 1..];
    DescendantsAppend(nodes[..i] + [root], nodes[i + 1..]);
    DescendantsAppend(nodes[..i], [root]);
    DescendantsAppend(r[..i] + [root'], r[i + 1..]);
    assert r == r[..i] + [root'] + r[i + 1..];
    DescendantsAppend(nodes[..i], [root']);
    assert r[..i] == nodes[..i] && r[i + 1..] == nodes[i + 1..];
    assert [root][1..] == [] && [root'][1..] == [];
    assert Descendants([root]) == [root] + Descendants(root.children);
    assert Descendants([root']) == [root'] + Descendants(root.children + [child]);
    DescendantsAppend(root.children, [child]);
  }

  /** A child appended to an element is among the descendants of any forest
      that starts with that element. */
  lemma AddedChildIsDescendant(root: Node, children: seq<Node>, child: Node, rest: seq<Node>)
    requires root.Element? && root.children == children + [child] && child.Element?
    ensures child in Descendants([root] + rest)
  {
    DescendantsAppend([root], rest);
    DescendantsAppend(children, [child]);
    assert [root][1..] == [] && [child][1..] == [];
    assert Descendants([root]) == [root] + Descendants(children + [child]);
    assert Descendants([child]) == [child] + Descendants(child.children);
  }

  /** What RecalcDocument does to the custom properties document: add the
      property with the pid CheckForRecalc picked, or nothing on -1. */
  function WithRecalc(doc: Document): Result<Document> {
    var pid :- RecalcPid(doc);
    if pid > -1 then
      var nodes :- AddToRoot(doc.nodes, RecalcProperty(pid));
      Ok(Document(nodes))
    else
      Ok(doc)
  }

  /** A document that already asks for recalculation is left as it is. */
  lemma RecalcKeepsExisting(doc: Document)
    requires HasRecalcProperty(doc)
    ensures WithRecalc(doc) == Ok(doc)
  {
    RecalcPidExisting(doc);
  }

  /** After a successful update the document asks for recalculation, under
      a pid no other property used. */
  lemma RecalcAdds(doc: Document)
    requires WithRecalc(doc).Ok?
    ensures HasRecalcProperty(WithRecalc(doc).value)
    ensures !HasRecalcProperty(doc) ==>
              RecalcPid(doc).Ok? && RecalcPid(doc).value >= 2 && !PidTaken(doc, Decimal(RecalcPid(doc).value))
    ensures forall p :: p in ElementsByName(doc.nodes, "property") && p !in doc.nodes
                        ==> p in ElementsByName(WithRecalc(doc).value.nodes, "property")
  {
    RecalcPidExisting(doc);
    var nodes := WithRecalc(doc).value.nodes;
    if !HasRecalcProperty(doc) {
      RecalcPidFresh(doc);
      var p := RecalcProperty(RecalcPid(doc).value);
      ElementsByNameMembership(nodes, "property", p);
      var i :| 0 <= i < |doc.nodes| && AppendedAt(doc.nodes, i, p, nodes);
      forall q | q in ElementsByName(doc.nodes, "property") && q !in doc.nodes
        ensures q in ElementsByName(nodes, "property")
      {
        ElementsByNameMembership(doc.nodes, "property", q);
        AppendedKeepsDescendants(doc.nodes, i, p, nodes, q);
        ElementsByNameMembership(nodes, "property", q);
      }
    }
  }

  /** RecalcDocument is idempotent: a second update changes nothing. */
  lemma RecalcIdempotent(doc: Document)
    requires WithRecalc(doc).Ok?
    ensures WithRecalc(WithRecalc(doc).value) == WithRecalc(doc)
  {
    RecalcAdds(doc);
    RecalcKeepsExisting(WithRecalc(doc).value);
  }

  // ---------------------------------------------------------------------
  // The shape text extractor variant
  // ---------------------------------------------------------------------

  /** GetShapesXml of VisioHelper_NextSteps: the page's Shape elements, or a
      single null when there is none. */
  function GetShapesXml(pageXml: Document): seq<Option<Node>> {
    ElementsByNameInDocument(pageXml, "Shape")
  }

  /** What this GetPrefixedTextsFromShapes returns: the matches of the
      search's extractor with TrimEnd in place of Trim, or the exception a
      null shape raises. */
  function PrefixedTexts(shapes: seq<Option<Node>>, searchText: string): (r: Result<seq<string>>)
    ensures r.Err? <==> !NoNull(shapes)
    ensures r.Err? ==> r.error == NullReference
  {
    if NoNull(shapes) then Ok(ShapeText.PrefixedTexts(Deref(shapes), searchText, TrimEnd))
    else Err(NullReference)
  }

  /** One pass of its loop over non-null shapes: the i-th shape's Text
      elements are found, and their matches are appended when there are any. */
  lemma VariantStep(shapesXML: seq<Option<Node>>, i: nat, searchText: string, result: seq<string>)
    requires NoNull(shapesXML) && i < |shapesXML|
    requires result + ShapeText.PrefixedTexts(Deref(shapesXML)[i..], searchText, TrimEnd)
             == ShapeText.PrefixedTexts(Deref(shapesXML), searchText, TrimEnd)
    ensures ElementsByNameInElement(shapesXML[i], "Text") == Ok(ShapeText.TextsOf(Deref(shapesXML)[i]))
    ensures var texts := ShapeText.TextsOf(Deref(shapesXML)[i]);
            (if |texts| > 0 then result + ShapeText.MatchingTexts(texts, searchText, TrimEnd) else result)
            + ShapeText.PrefixedTexts(Deref(shapesXML)[i + 1..], searchText, TrimEnd)
            == ShapeText.PrefixedTexts(Deref(shapesXML), searchText, TrimEnd)
  {
    ShapeText.PrefixedTextsStep(Deref(shapesXML), i, searchText, TrimEnd, result);
  }

  /** GetPrefixedTextsFromShapes(shapesXML, searchText) of VisioHelper_NextSteps. */
  method GetPrefixedTextsFromShapes(shapesXML: seq<Option<Node>>, searchText: string) returns (r: Result<seq<string>>)
    ensures r == PrefixedTexts(shapesXML, searchText)
  {
    var result: seq<string> := [];
    for i := 0 to |shapesXML|
      invariant forall j :: 0 <= j < i ==> shapesXML[j].Some?
      invariant NoNull(shapesXML) ==>
                  result + ShapeText.PrefixedTexts(Deref(shapesXML)[i..], searchText, TrimEnd)
                  == ShapeText.PrefixedTexts(Deref(shapesXML), searchText, TrimEnd)
    {
      var texts := ElementsByNameInElement(shapesXML[i], "Text");
      if texts.Err? {
        return Err(texts.error);
      }
      if NoNull(shapesXML) {
        VariantStep(shapesXML, i, searchText, result);
      }
      if |texts.value| > 0 {
        var filteredTexts := ShapeText.MatchingTexts(texts.value, searchText, TrimEnd);
        result := result + filteredTexts;
      }
    }
    assert NoNull(shapesXML);
    assert Deref(shapesXML)[|shapesXML|..] == [];
    assert result + [] == result;
    return Ok(result);
  }

  /** A page without shapes: the search's extractor finds nothing, this one
      throws on the null that DefaultIfEmpty supplies. */
  lemma PageWithoutShapes(pageXml: Document, searchText: string)
    requires ElementsByName(pageXml.nodes, "Shape") == []
    ensures ShapeText.PrefixedTexts(ShapeText.GetShapesXml(pageXml), searchText, Trim) == []
    ensures PrefixedTexts(GetShapesXml(pageXml), searchText) == Err(NullReference)
  {
    NullOnlyWhenEmpty(pageXml, "Shape");
  }

  /** With only the end trimmed, a value that starts with whitespace never
      matches a prefix that does not. */
  lemma LeadingWhiteSpaceNeverMatches(v: string, prefix: string)
    requires v != [] && IsWhiteSpace(v[0])
    requires prefix != [] && !IsWhiteSpace(prefix[0])
    ensures !StartsWith(TrimEnd(v), prefix)
  {
  }

  /** So the variant drops every such text: each string it returns is the
      end-trimmed value of a Text element that does not start with
      whitespace, when the prefix does not. */
  lemma VariantSkipsIndentedTexts(shapes: seq<Node>, prefix: string, x: string)
    requires prefix != [] && !IsWhiteSpace(prefix[0])
    requires x in ShapeText.PrefixedTexts(shapes, prefix, TrimEnd)
    ensures exists i, j :: 0 <= i < |shapes| && 0 <= j < |ShapeText.TextsOf(shapes[i])|
                           && x == TrimEnd(Value(ShapeText.TextsOf(shapes[i])[j]))
                           && (Value(ShapeText.TextsOf(shapes[i])[j]) == [] || !IsWhiteSpace(Value(ShapeText.TextsOf(shapes[i])[j])[0]))
  {
    ShapeText.PrefixedTextsSound(shapes, prefix, TrimEnd, x);
    var i, j :| 0 <= i < |shapes| && 0 <= j < |ShapeText.TextsOf(shapes[i])|
                && x == ShapeText.ShapeText(shapes, i, j, TrimEnd) && StartsWith(x, prefix);
    var v := Value(ShapeText.TextsOf(shapes[i])[j]);
    if v != [] && IsWhiteSpace(v[0]) {
      LeadingWhiteSpaceNeverMatches(v, prefix);
    }
  }

  /** " Note" matches "Note" once trimmed at both ends, not once trimmed at the end only. */
  lemma IndentedNote()
    ensures StartsWith(Trim(" Note"), "Note")
    ensures !StartsWith(TrimEnd(" Note"), "Note")
  {
    TrimUnique(" ", "Note", "");
    assert " " + "Note" + "" == " Note";
    LeadingWhiteSpaceNeverMatches(" Note", "Note");
  }

  // ---------------------------------------------------------------------
  // GetPagesNames variant
  // ---------------------------------------------------------------------

  /** p.Attribute("Name")?.Value.Trim() for a non-null page. */
  function TrimmedName(page: Node): Option<string> {
    match Attribute(page, "Name")
    case None => None
    case Some(n) => Some(Trim(n))
  }

  /** GetPagesNames(pagesPart) of VisioHelper_NextSteps, as its sequence
      reads when enumerated: one entry per Page element, background pages
      included, null for a page without Name; the null that DefaultIfEmpty
      supplies when there is no Page element throws. */
  function GetPagesNames(pagesPart: Part): (r: Result<seq<Option<string>>>)
    ensures r.Err? <==> pagesPart.xml.None? || ElementsByName(pagesPart.xml.value.nodes, "Page") == []
    ensures r.Ok? ==>
              var pes := ElementsByName(pagesPart.xml.value.nodes, "Page");
              && |r.value| == |pes|
              && forall i :: 0 <= i < |pes| ==> r.value[i] == TrimmedName(pes[i])
  {
    var pagesXml :- GetXMLFromPart(pagesPart);
    var pageElements := ElementsByNameInDocument(pagesXml, "Page");
    NullOnlyWhenEmpty(pagesXml, "Page");
    if NoNull(pageElements) then
      var pes := Deref(pageElements);
      Ok(seq(|pes|, i requires 0 <= i < |pes| => TrimmedName(pes[i])))
    else
      assert pageElements == [None];
      Err(NullReference)
  }

  /** The names the search reports are this variant's entries at the
      positions of the named foreground pages. */
  lemma PagesNamesVariantExtendsSearch(pagesPart: Part)
    requires GetPagesNames(pagesPart).Ok?
    ensures var pes := ElementsByName(pagesPart.xml.value.nodes, "Page");
            var idx := KeptIndices(pes, PageIndex.IsNamedForeground);
            var names := GetPagesNames(pagesPart).value;
            && |PageIndex.PageNames(pes)| == |idx|
            && forall k :: 0 <= k < |idx| ==> names[idx[k]] == Some(PageIndex.PageNames(pes)[k])
  {
    var pes := ElementsByName(pagesPart.xml.value.nodes, "Page");
    PageIndex.PageNamesExact(pes);
  }

  /** A background page with a Name has an entry here and none in the search's names. */
  lemma BackgroundPageNamed(pagesPart: Part, i: nat)
    requires GetPagesNames(pagesPart).Ok?
    requires i < |ElementsByName(pagesPart.xml.value.nodes, "Page")|
    requires var page := ElementsByName(pagesPart.xml.value.nodes, "Page")[i];
             Attribute(page, "Background").Some? && Attribute(page, "Name").Some?
    ensures GetPagesNames(pagesPart).value[i].Some?
    ensures i !in KeptIndices(ElementsByName(pagesPart.xml.value.nodes, "Page"), PageIndex.IsNamedForeground)
  {
    var pes := ElementsByName(pagesPart.xml.value.nodes, "Page");
    KeptIndicesAccepted(pes, PageIndex.IsNamedForeground);
  }
}
