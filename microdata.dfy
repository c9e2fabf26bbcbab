/** Item resolution and top-level extraction. `ItemOf` is what
    `getItems($item, $history)` returns, defined together with the value of
    each property element (`ValueOf`) and the contributions the property
    elements make to the property map (`Contributions`). The methods
    `GetItems` and `Extract` are the loops of the extractor, proved equal
    to these functions. */
module Microdata {
  import opened PhpString
  import opened Dom
  import opened PropertyResolver
  import opened Items
  import opened SeqFacts

  // ---------------------------------------------------------------------
  // Type and id.

  /** `type`: null when the trimmed `itemtype` is empty in PHP's sense,
      otherwise its single-space split. */
  function TypeOf(doc: Document, item: nat): Option<seq<string>>
    requires item < |doc.nodes|
  {
    var s := Trim(Attr(doc, item, AtItemType));
    if IsPhpEmpty(s) then None else Some(Split(s))
  }

  /** `id`: null when the trimmed `itemid` is empty in PHP's sense,
      otherwise the trimmed value. */
  function IdOf(doc: Document, item: nat): Option<string>
    requires item < |doc.nodes|
  {
    var s := Trim(Attr(doc, item, AtItemId));
    if IsPhpEmpty(s) then None else Some(s)
  }

  /** The type is null exactly when the trimmed `itemtype` is "" or "0";
      otherwise it is a list of space-free tokens that joined by single
      spaces give back the trimmed value. The id is null under the same
      rule for `itemid`, and otherwise it is the trimmed value, which
      neither starts nor ends with a character `trim` strips. An absent
      attribute gives null. */
  lemma TypeAndId(doc: Document, item: nat)
    requires item < |doc.nodes|
    ensures TypeOf(doc, item) == None <==> IsPhpEmpty(Trim(Attr(doc, item, AtItemType)))
    ensures TypeOf(doc, item).Some? ==>
              |TypeOf(doc, item).value| >= 1
              && Join(TypeOf(doc, item).value) == Trim(Attr(doc, item, AtItemType))
              && forall i :: 0 <= i < |TypeOf(doc, item).value| ==> ' ' !in TypeOf(doc, item).value[i]
    ensures IdOf(doc, item) == None <==> IsPhpEmpty(Trim(Attr(doc, item, AtItemId)))
    ensures IdOf(doc, item).Some? ==>
              var id := IdOf(doc, item).value;
              id == Trim(Attr(doc, item, AtItemId))
              && id != "" && id != "0" && !IsTrimmable(id[0]) && !IsTrimmable(id[|id| - 1])
    ensures !HasAttr(doc, item, AtItemType) ==> TypeOf(doc, item) == None
    ensures !HasAttr(doc, item, AtItemId) ==> IdOf(doc, item) == None
  {
    TrimSpec(Attr(doc, item, AtItemType));
    TrimSpec(Attr(doc, item, AtItemId));
    SplitSpec(Trim(Attr(doc, item, AtItemType)));
  }

  // ---------------------------------------------------------------------
  // Scalar values.

  /** The attribute a tag takes its value from, after lower-casing: the
      table of section 5.2.4 ("Values") of the WHATWG HTML Living Standard
      as far as the extractor implements it. Any other tag takes its value
      from its text content. */
  function TagAttribute(tag: string): Option<AttrName>
  {
    match tag
    case "meta" => Some(AtContent)
    case "audio" => Some(AtSrc)
    case "embed" => Some(AtSrc)
    case "iframe" => Some(AtSrc)
    case "img" => Some(AtSrc)
    case "source" => Some(AtSrc)
    case "track" => Some(AtSrc)
    case "video" => Some(AtSrc)
    case "a" => Some(AtHref)
    case "area" => Some(AtHref)
    case "link" => Some(AtHref)
    case "object" => Some(AtData)
    case "data" => Some(AtValue)
    case "time" => Some(AtDatetime)
    case _ => None
  }

  /** The value branch for a property element, as the code computes it:
      start from the text content, replace it by null when the element has
      no property name and by the element itself when it has `itemscope`,
      then let the tag rules override it. */
  function ScalarValue(doc: Document, e: nat): Value
    requires e < |doc.nodes|
  {
    var value :=
      if IsItemScope(doc, e) then Element(e)
      else if |Prop(doc, e)| == 0 then Null
      else Text(doc.nodes[e].textContent);
    var tag := ToLower(doc.nodes[e].tag);
    if tag == "meta" then Text(Attr(doc, e, AtContent))
    else if tag in ["audio", "embed", "iframe", "img", "source", "track", "video"] then Text(Attr(doc, e, AtSrc))
    else if tag in ["a", "area", "link"] then Text(Attr(doc, e, AtHref))
    else if tag == "object" then Text(Attr(doc, e, AtData))
    else if tag == "data" then Text(Attr(doc, e, AtValue))
    else if tag == "time" then Text(Attr(doc, e, AtDatetime))
    else value
  }

  /** For an element with a property name and without `itemscope` (every
      element that reaches this branch), the value is the text of the
      attribute its lower-cased tag names in the table, an absent attribute
      reading as "", or else its text content. So the null and
      element-valued assignments never survive. */
  lemma ScalarValueByTag(doc: Document, e: nat)
    requires e < |doc.nodes| && |Prop(doc, e)| > 0 && !IsItemScope(doc, e)
    ensures ScalarValue(doc, e) == Text(
              match TagAttribute(ToLower(doc.nodes[e].tag))
              case Some(a) => Attr(doc, e, a)
              case None => doc.nodes[e].textContent)
  {
  }

  // ---------------------------------------------------------------------
  // Item resolution.

  /** The elements not in the history: shrinks with every nested item
      resolved, which is what makes the resolution terminate on any
      `itemref` graph. */
  function Unresolved(doc: Document, history: seq<nat>): set<nat>
  {
    set i | 0 <= i < |doc.nodes| && i !in history
  }

  lemma UnresolvedShrinks(doc: Document, history: seq<nat>, item: nat)
    requires item < |doc.nodes|
    ensures item !in history ==> Unresolved(doc, history + [item]) < Unresolved(doc, history)
    ensures item in history ==> Unresolved(doc, history + [item]) == Unresolved(doc, history)
  {
    assert item !in history ==> item in Unresolved(doc, history);
  }

  /** `getItems($item, $history)`. */
  function ItemOf(doc: Document, item: nat, history: seq<nat>): Item
    requires Valid(doc) && item < |doc.nodes|
    decreases Unresolved(doc, history), if item in history then 1 else 0, 2, 0
  {
    var props := PropertiesOf(doc, item);
    PropertiesAreValued(doc, item);
    Item(TypeOf(doc, item), IdOf(doc, item), Accumulate(Contributions(doc, item, history, props, |props|)))
  }

  /** The elements of `props` are elements of the document other than
      `item` itself, as the property elements of `item` are. */
  predicate Valued(doc: Document, item: nat, props: seq<nat>) {
    forall i :: 0 <= i < |props| ==> props[i] < |doc.nodes| && props[i] != item
  }

  /** The names and value of each of the first `p` elements of `props`, in
      order. */
  function Contributions(doc: Document, item: nat, history: seq<nat>, props: seq<nat>, p: nat): seq<Contribution>
    requires Valid(doc) && item < |doc.nodes| && Valued(doc, item, props) && p <= |props|
    decreases Unresolved(doc, history), if item in history then 1 else 0, 1, p
  {
    if p == 0 then []
    else
      Contributions(doc, item, history, props, p - 1)
        + [Contribution(Prop(doc, props[p - 1]), ValueOf(doc, item, history, props[p - 1]))]
  }

  /** The value of property element `elem` of `item`: an element with
      `itemscope` already in the history gives the `'ERROR'` marker,
      another one the item it starts, resolved with `item` pushed on the
      history; any other element its scalar value. */
  function ValueOf(doc: Document, item: nat, history: seq<nat>, elem: nat): Value
    requires Valid(doc) && item < |doc.nodes| && elem < |doc.nodes| && elem != item
    decreases Unresolved(doc, history), if item in history then 1 else 0, 0, 0
  {
    if IsItemScope(doc, elem) then
      if elem in history then Text("ERROR")
      else
        UnresolvedShrinks(doc, history, item);
        Nested(ItemOf(doc, elem, history + [item]))
    else ScalarValue(doc, elem)
  }

  /** Every element `properties()` returns can be given a value. */
  lemma PropertiesAreValued(doc: Document, item: nat)
    requires Valid(doc) && item < |doc.nodes|
    ensures Valued(doc, item, PropertiesOf(doc, item))
  {
    var props := PropertiesOf(doc, item);
    assert forall i :: 0 <= i < |props| ==> props[i] in props;
  }

  // ---------------------------------------------------------------------
  // What an item holds.

  /** The contribution of each property element sits at that element's
      position: its names and its value. */
  lemma {:induction false} ContributionsAt(doc: Document, item: nat, history: seq<nat>, props: seq<nat>, p: nat)
    requires Valid(doc) && item < |doc.nodes| && Valued(doc, item, props) && p <= |props|
    ensures |Contributions(doc, item, history, props, p)| == p
    ensures forall i :: 0 <= i < p ==>
              Contributions(doc, item, history, props, p)[i]
              == Contribution(Prop(doc, props[i]), ValueOf(doc, item, history, props[i]))
  {
    if p > 0 {
      ContributionsAt(doc, item, history, props, p - 1);
    }
  }

  /** Every property name of the first `p` elements of `props`, element
      after element, with repetitions. */
  function PropertyNames(doc: Document, props: seq<nat>, p: nat): seq<string>
    requires p <= |props| && forall i :: 0 <= i < |props| ==> props[i] < |doc.nodes|
  {
    if p == 0 then [] else PropertyNames(doc, props, p - 1) + Prop(doc, props[p - 1])
  }

  lemma {:induction false} ContributedNames(doc: Document, item: nat, history: seq<nat>, props: seq<nat>, p: nat)
    requires Valid(doc) && item < |doc.nodes| && Valued(doc, item, props) && p <= |props|
    ensures AllNames(Contributions(doc, item, history, props, p)) == PropertyNames(doc, props, p)
  {
    if p > 0 {
      var cs := Contributions(doc, item, history, props, p - 1);
      var c := Contribution(Prop(doc, props[p - 1]), ValueOf(doc, item, history, props[p - 1]));
      ContributedNames(doc, item, history, props, p - 1);
      Snoc(cs + [c]);
    }
  }

  /** The property map of an item: its keys are the names of its property
      elements in first-seen order, each once; under each name sit the
      values of the elements carrying it, in property-element order and
      once per occurrence of the name; no list is empty. */
  lemma ItemProperties(doc: Document, item: nat, history: seq<nat>)
    requires Valid(doc) && item < |doc.nodes|
    ensures var props := PropertiesOf(doc, item);
            Valued(doc, item, props)
            && var es := ItemOf(doc, item, history).properties;
               Keys(es) == Dedup(PropertyNames(doc, props, |props|))
               && Distinct(Keys(es))
               && (forall k :: Lookup(es, k) == ValuesFor(Contributions(doc, item, history, props, |props|), k))
               && forall i :: 0 <= i < |es| ==> |es[i].values| >= 1
  {
    var props := PropertiesOf(doc, item);
    PropertiesAreValued(doc, item);
    var cs := Contributions(doc, item, history, props, |props|);
    AccumulateKeys(cs);
    AccumulateNonEmpty(cs);
    ContributedNames(doc, item, history, props, |props|);
    forall k ensures Lookup(Accumulate(cs), k) == ValuesFor(cs, k) {
      AccumulateLookup(cs, k);
    }
  }

  /** The value of a property element: never null and never the element
      itself. An element with `itemscope` gives the `'ERROR'` marker exactly
      when it is already in the history, and otherwise the nested item
      resolved with the outer item appended to the history; any other
      element gives the attribute its tag names in the table, or its text
      content. */
  lemma PropertyValue(doc: Document, item: nat, history: seq<nat>, x: nat)
    requires Valid(doc) && item < |doc.nodes| && x in PropertiesOf(doc, item)
    ensures x < |doc.nodes| && x != item && |Prop(doc, x)| > 0
    ensures IsItemScope(doc, x) ==> (ValueOf(doc, item, history, x) == Text("ERROR") <==> x in history)
    ensures IsItemScope(doc, x) && x !in history ==>
              ValueOf(doc, item, history, x) == Nested(ItemOf(doc, x, history + [item]))
    ensures !IsItemScope(doc, x) ==> ValueOf(doc, item, history, x) == Text(
              match TagAttribute(ToLower(doc.nodes[x].tag))
              case Some(a) => Attr(doc, x, a)
              case None => doc.nodes[x].textContent)
    ensures !ValueOf(doc, item, history, x).Null? && !ValueOf(doc, item, history, x).Element?
  {
    if !IsItemScope(doc, x) {
      ScalarValueByTag(doc, x);
    }
  }

  // ---------------------------------------------------------------------
  // Histories.

  /** A nested item is resolved, as the property's value, with the outer
      item appended to the history; that history is still free of
      repetitions and does not contain it, provided the outer call's
      history was free of repetitions and did not contain the outer item
      (as with the empty history of a top-level item). */
  lemma NestedHistory(doc: Document, item: nat, history: seq<nat>, x: nat)
    requires Valid(doc) && item < |doc.nodes| && Distinct(history) && item !in history
    requires x in PropertiesOf(doc, item) && IsItemScope(doc, x) && x !in history
    ensures ValueOf(doc, item, history, x) == Nested(ItemOf(doc, x, history + [item]))
    ensures Distinct(history + [item]) && x !in history + [item]
  {
    PropertyValue(doc, item, history, x);
  }

  /** With a history free of repetitions, the elements left to resolve
      number exactly the elements not yet in it, so no chain of nested
      items is longer than the document. */
  lemma {:induction false} UnresolvedCount(doc: Document, history: seq<nat>)
    requires Distinct(history) && forall i :: 0 <= i < |history| ==> history[i] < |doc.nodes|
    ensures |Unresolved(doc, history)| == |doc.nodes| - |history|
    ensures |history| <= |doc.nodes|
  {
    if history == [] {
      RangeCount(|doc.nodes|);
      assert Unresolved(doc, history) == Range(|doc.nodes|);
    } else {
      var init := history[..|history| - 1];
      var last := history[|history| - 1];
      UnresolvedCount(doc, init);
      assert history == init + [last];
      assert last in Unresolved(doc, init);
      assert Unresolved(doc, history) == Unresolved(doc, init) - {last};
    }
  }

  /** The element positions below `n`. */
  function Range(n: nat): set<nat>
  {
    if n == 0 then {} else Range(n - 1) + {n - 1}
  }

  lemma {:induction false} RangeCount(n: nat)
    ensures forall x: nat :: x in Range(n) <==> x < n
    ensures |Range(n)| == n
  {
    if n > 0 {
      RangeCount(n - 1);
      assert n - 1 !in Range(n - 1);
    }
  }

  // ---------------------------------------------------------------------
  // The loops.

  /** `getItems($item, $arr_history)`: the history is passed by value, the
      current item pushed before a nested call and popped after it. */
  method GetItems(doc: Document, item: nat, history: seq<nat>) returns (out: Item)
    requires Valid(doc) && item < |doc.nodes|
    ensures out == ItemOf(doc, item, history)
    decreases Unresolved(doc, history), if item in history then 1 else 0
  {
    var itemType: Option<seq<string>> := None;
    var id: Option<string> := None;
    var properties: seq<Entry> := [];

    var strType := Trim(Attr(doc, item, AtItemType));
    var strId := Trim(Attr(doc, item, AtItemId));
    if !IsPhpEmpty(strType) {
      itemType := Some(Split(strType));
    }
    if !IsPhpEmpty(strId) {
      id := Some(strId);
    }

    var arrHistory := history;
    var props: seq<nat>;
    ghost var rounds: nat;
    props, rounds := Properties(doc, item);
    PropertiesAreValued(doc, item);
    for p := 0 to |props|
      invariant arrHistory == history
      invariant properties == Accumulate(Contributions(doc, item, history, props, p))
    {
      var elem := props[p];
      var value: Value;
      if IsItemScope(doc, elem) {
        if elem in arrHistory {
          value := Text("ERROR");
        } else {
          arrHistory := arrHistory + [item];
          UnresolvedShrinks(doc, history, item);
          var nested := GetItems(doc, elem, arrHistory);
          value := Nested(nested);
          arrHistory := arrHistory[..|arrHistory| - 1];
        }
      } else {
        value := ScalarValue(doc, elem);
      }
      var names := Prop(doc, elem);
      ghost var before := properties;
      for q := 0 to |names|
        invariant properties == AddAll(before, names[..q], value)
      {
        PrefixStep(names, q);
        properties := Add(properties, names[q], value);
      }
      Whole(names);
      PropertyStep(doc, item, history, props, p, before, value, properties);
    }
    out := Item(itemType, id, properties);
  }

  /** One more property element accounted for: the bookkeeping of
      `GetItems`' loop. */
  lemma PropertyStep(doc: Document, item: nat, history: seq<nat>, props: seq<nat>, p: nat,
                     before: seq<Entry>, value: Value, after: seq<Entry>)
    requires Valid(doc) && item < |doc.nodes| && Valued(doc, item, props) && p < |props|
    requires before == Accumulate(Contributions(doc, item, history, props, p))
    requires value == ValueOf(doc, item, history, props[p])
    requires after == AddAll(before, Prop(doc, props[p]), value)
    ensures after == Accumulate(Contributions(doc, item, history, props, p + 1))
  {
    var cs := Contributions(doc, item, history, props, p);
    Snoc(cs + [Contribution(Prop(doc, props[p]), value)]);
  }

  /** The elements `extract()` starts from: every element with an
      `itemscope` attribute and without an `itemprop` attribute (presence
      only, whatever the values), in document order. */
  function TopLevel(doc: Document): (r: seq<nat>)
    ensures forall x: int :: x in r <==>
              0 <= x < |doc.nodes| && HasAttr(doc, x, AtItemScope) && !HasAttr(doc, x, AtItemProp)
    ensures forall i :: 0 <= i < |r| ==> r[i] < |doc.nodes|
    ensures forall i, j :: 0 <= i < j < |r| ==> r[i] < r[j]
  {
    Select(doc, (nd: Node) => AtItemScope in nd.attributes && AtItemProp !in nd.attributes, |doc.nodes|)
  }

  /** `extract()`: one item per top-level element, in document order, each
      resolved with an empty history. */
  method Extract(doc: Document) returns (items: seq<Item>)
    requires Valid(doc)
    ensures |items| == |TopLevel(doc)|
    ensures forall i :: 0 <= i < |items| ==> items[i] == ItemOf(doc, TopLevel(doc)[i], [])
  {
    items := [];
    var tops := TopLevel(doc);
    ghost var want := seq(|tops|, j requires 0 <= j < |tops| => ItemOf(doc, tops[j], []));
    for i := 0 to |tops|
      invariant items == want[..i]
    {
      var it := GetItems(doc, tops[i], []);
      Extend(want, i);
      items := items + [it];
    }
    Whole(want);
  }
}
