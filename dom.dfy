/** The parsed element tree the extractor reads. The document is a finite
    sequence of elements; an element's identity is its position in that
    sequence. Every element lists its element children in order, and a
    child always sits after its parent, which is what makes every walk
    downwards finite. Positions are taken to follow document order, as the
    parser's element list does; `Valid` enforces only the parent-before-child
    part of that convention, and "in document order" below means "in
    increasing position". */
module Dom {

  /** The attributes the extractor reads, by their HTML names: the
      microdata attributes, `id`, and the attributes a scalar value can
      come from. No other attribute influences the result, so the others
      are not represented. */
  datatype AttrName =
    | AtItemScope  // itemscope
    | AtItemProp   // itemprop
    | AtItemRef    // itemref
    | AtItemType   // itemtype
    | AtItemId     // itemid
    | AtId         // id
    | AtContent    // content
    | AtSrc        // src
    | AtHref       // href
    | AtData       // data
    | AtValue      // value
    | AtDatetime   // datetime

  datatype Node = Node(
    tag: string,                        // the element's tag name, as the parser reports it
    attributes: map<AttrName, string>,  // present attributes only
    children: seq<nat>,               // element children, in document order
    textContent: string)              // the element's `textContent`, taken as given

  datatype Document = Document(nodes: seq<Node>)

  /** Every child reference names an element of the document that comes
      after its parent. */
  predicate Valid(doc: Document) {
    forall n, k :: 0 <= n < |doc.nodes| && 0 <= k < |doc.nodes[n].children| ==>
      n < doc.nodes[n].children[k] < |doc.nodes|
  }

  /** `hasAttribute(name)`: presence only, whatever the value. */
  predicate HasAttr(doc: Document, n: nat, name: AttrName)
    requires n < |doc.nodes|
  {
    name in doc.nodes[n].attributes
  }

  /** `getAttribute(name)`: an absent attribute reads as the empty string. */
  function Attr(doc: Document, n: nat, name: AttrName): (r: string)
    requires n < |doc.nodes|
    ensures !HasAttr(doc, n, name) ==> r == ""
    ensures HasAttr(doc, n, name) ==> r == doc.nodes[n].attributes[name]
  {
    if name in doc.nodes[n].attributes then doc.nodes[n].attributes[name] else ""
  }

  /** The direct element children of `n`, in order: the query for the
      element children of the node's path. Each comes after `n`. */
  function Children(doc: Document, n: nat): (r: seq<nat>)
    requires Valid(doc) && n < |doc.nodes|
    ensures forall k :: 0 <= k < |r| ==> n < r[k] < |doc.nodes|
  {
    doc.nodes[n].children
  }

  /** The elements among the first `upTo` that satisfy `keep`, in document
      order: the shape of every "all elements matching a predicate" query
      the extractor runs. */
  function Select(doc: Document, keep: Node -> bool, upTo: nat): (r: seq<nat>)
    requires upTo <= |doc.nodes|
    ensures forall x: int :: x in r <==> 0 <= x < upTo && keep(doc.nodes[x])
    ensures forall i :: 0 <= i < |r| ==> r[i] < upTo
    ensures forall i, j :: 0 <= i < j < |r| ==> r[i] < r[j]
    decreases upTo
  {
    if upTo == 0 then []
    else
      var before := Select(doc, keep, upTo - 1);
      assert forall i :: 0 <= i < |before| ==> before[i] in before;
      if keep(doc.nodes[upTo - 1]) then before + [upTo - 1] else before
  }

  /** The query for all elements with `@id` equal to `id`: every element
      whose `id` attribute is present and equal to `id`, in document order. */
  function ElementsWithId(doc: Document, id: string): (r: seq<nat>)
    ensures forall x: int :: x in r <==> 0 <= x < |doc.nodes| && HasAttr(doc, x, AtId) && Attr(doc, x, AtId) == id
    ensures forall i :: 0 <= i < |r| ==> r[i] < |doc.nodes|
    ensures forall i, j :: 0 <= i < j < |r| ==> r[i] < r[j]
  {
    Select(doc, (nd: Node) => AtId in nd.attributes && nd.attributes[AtId] == id, |doc.nodes|)
  }
}
