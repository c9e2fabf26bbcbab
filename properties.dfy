/** The property resolver: which elements are the properties of an item.
    `Prop` splits an element's `itemprop`; `Traverse` is the recursive walk
    over the work-list and the result list that the PHP code passes by
    reference; `Properties` drives it, first over the subtrees named by
    `itemref`, then over the item's own subtree. Each method is proved
    equal to a specification function (`Visited`, `Collected`,
    `PropertiesOf`) whose properties are proved as lemmas. */
module PropertyResolver {
  import opened PhpString
  import opened Dom
  import opened SeqFacts

  /** `prop()`: the element's property names, the trimmed `itemprop` split
      on single spaces (see `PropNames`). */
  function Prop(doc: Document, n: nat): seq<string>
    requires n < |doc.nodes|
  {
    var s := Trim(Attr(doc, n, AtItemProp));
    if |s| > 0 then Split(s) else []
  }

  /** No names when the trimmed `itemprop` is empty (in particular when the
      attribute is absent); otherwise the names joined by single spaces give
      back the trimmed value and no name contains a space, so two adjacent
      spaces make an empty name. */
  lemma PropNames(doc: Document, n: nat)
    requires n < |doc.nodes|
    ensures !HasAttr(doc, n, AtItemProp) ==> Prop(doc, n) == []
    ensures Prop(doc, n) == [] <==> Trim(Attr(doc, n, AtItemProp)) == ""
    ensures Prop(doc, n) != [] ==> Join(Prop(doc, n)) == Trim(Attr(doc, n, AtItemProp))
    ensures forall i :: 0 <= i < |Prop(doc, n)| ==> ' ' !in Prop(doc, n)[i]
  {
    var s := Trim(Attr(doc, n, AtItemProp));
    TrimSpec(Attr(doc, n, AtItemProp));
    SplitSpec(s);
  }

  /** Every entry of `vs` names an element of the document. */
  predicate AllNodes(doc: Document, vs: seq<nat>) {
    forall i :: 0 <= i < |vs| ==> vs[i] < |doc.nodes|
  }

  predicate IsItemScope(doc: Document, n: nat)
    requires n < |doc.nodes|
  {
    HasAttr(doc, n, AtItemScope)
  }

  /** The ids listed in `itemref`: nothing when the trimmed attribute is
      empty in PHP's sense (`""` or `"0"`), otherwise its split on single
      spaces (see `RefIdsSpec`). */
  function RefIds(doc: Document, root: nat): seq<string>
    requires root < |doc.nodes|
  {
    var s := Trim(Attr(doc, root, AtItemRef));
    if IsPhpEmpty(s) then [] else Split(s)
  }

  /** No ids exactly when the trimmed `itemref` is `""` or `"0"` (in
      particular when the attribute is absent); otherwise the ids joined by
      single spaces give back the trimmed value and no id contains a space.
      Only the space character separates ids, so a tab stays inside an id
      and two adjacent spaces give the empty id. */
  lemma RefIdsSpec(doc: Document, root: nat)
    requires root < |doc.nodes|
    ensures !HasAttr(doc, root, AtItemRef) ==> RefIds(doc, root) == []
    ensures RefIds(doc, root) == [] <==> IsPhpEmpty(Trim(Attr(doc, root, AtItemRef)))
    ensures RefIds(doc, root) != [] ==> Join(RefIds(doc, root)) == Trim(Attr(doc, root, AtItemRef))
    ensures forall i :: 0 <= i < |RefIds(doc, root)| ==> ' ' !in RefIds(doc, root)[i]
  {
    TrimSpec(Attr(doc, root, AtItemRef));
    SplitSpec(Trim(Attr(doc, root, AtItemRef)));
  }

  /** The walk does not descend below `n`: `n` is not the root and starts
      an item of its own. */
  predicate Stops(doc: Document, root: nat, n: nat)
    requires n < |doc.nodes|
  {
    n != root && IsItemScope(doc, n)
  }

  /** The walk appends `n` to the result: `n` is not the root and has at
      least one property name. */
  predicate Collects(doc: Document, root: nat, n: nat)
    requires n < |doc.nodes|
  {
    n != root && |Prop(doc, n)| > 0
  }

  /** Every element one `traverse($n, ..., $root)` call visits, in visiting
      order: `n` first, then, unless the walk stops at `n`, the visits of
      each child in turn. */
  function Visited(doc: Document, root: nat, n: nat): seq<nat>
    requires Valid(doc) && n < |doc.nodes|
    decreases |doc.nodes| - n, 1
  {
    [n] + (if Stops(doc, root, n) then [] else VisitedKids(doc, root, n, |Children(doc, n)|))
  }

  /** The visits of the first `k` children of `n`, one after the other. */
  function VisitedKids(doc: Document, root: nat, n: nat, k: nat): (r: seq<nat>)
    requires Valid(doc) && n < |doc.nodes| && k <= |Children(doc, n)|
    decreases |doc.nodes| - n, 0, k
  {
    if k == 0 then []
    else VisitedKids(doc, root, n, k - 1) + Visited(doc, root, Children(doc, n)[k - 1])
  }

  /** What one `traverse($n, ..., $root)` call appends to the result list:
      `n` itself when it is collected, then, unless the walk stops at `n`,
      what the walks of its children append, child after child. */
  function Found(doc: Document, root: nat, n: nat): seq<nat>
    requires Valid(doc) && n < |doc.nodes|
    decreases |doc.nodes| - n, 1
  {
    (if Collects(doc, root, n) then [n] else [])
      + (if Stops(doc, root, n) then [] else FoundKids(doc, root, n, |Children(doc, n)|))
  }

  function FoundKids(doc: Document, root: nat, n: nat, k: nat): seq<nat>
    requires Valid(doc) && n < |doc.nodes| && k <= |Children(doc, n)|
    decreases |doc.nodes| - n, 0, k
  {
    if k == 0 then []
    else FoundKids(doc, root, n, k - 1) + Found(doc, root, Children(doc, n)[k - 1])
  }

  /** The elements of `vs` that the walk collects, in order: the reference
      definition of the result list. */
  function Collected(doc: Document, root: nat, vs: seq<nat>): seq<nat>
  {
    if vs == [] then []
    else
      var last := vs[|vs| - 1];
      Collected(doc, root, vs[..|vs| - 1]) + (if last < |doc.nodes| && Collects(doc, root, last) then [last] else [])
  }

  /** The collected elements are exactly the listed ones that are not
      the root and carry a property name. */
  lemma {:induction false} CollectedMembers(doc: Document, root: nat, vs: seq<nat>)
    ensures forall x :: x in Collected(doc, root, vs) <==> x in vs && x < |doc.nodes| && Collects(doc, root, x)
  {
    if vs != [] {
      CollectedMembers(doc, root, vs[..|vs| - 1]);
      assert vs == vs[..|vs| - 1] + [vs[|vs| - 1]];
    }
  }

  lemma {:induction false} CollectedAppend(doc: Document, root: nat, a: seq<nat>, b: seq<nat>)
    ensures Collected(doc, root, a + b) == Collected(doc, root, a) + Collected(doc, root, b)
    decreases |b|
  {
    if b == [] {
      assert a + b == a;
    } else {
      var b' := b[..|b| - 1];
      assert (a + b)[..|a + b| - 1] == a + b';
      CollectedAppend(doc, root, a, b');
    }
  }

  /** A walk appends exactly the elements it visits that are collected,
      in visiting order. */
  lemma {:induction false} FoundIsCollected(doc: Document, root: nat, n: nat)
    requires Valid(doc) && n < |doc.nodes|
    ensures Found(doc, root, n) == Collected(doc, root, Visited(doc, root, n))
    decreases |doc.nodes| - n, 1
  {
    var kids := if Stops(doc, root, n) then [] else VisitedKids(doc, root, n, |Children(doc, n)|);
    assert Collected(doc, root, [n]) == if Collects(doc, root, n) then [n] else [] by {
      assert [n][..0] == [];
    }
    CollectedAppend(doc, root, [n], kids);
    if !Stops(doc, root, n) {
      FoundKidsIsCollected(doc, root, n, |Children(doc, n)|);
    }
  }

  lemma {:induction false} FoundKidsIsCollected(doc: Document, root: nat, n: nat, k: nat)
    requires Valid(doc) && n < |doc.nodes| && k <= |Children(doc, n)|
    ensures FoundKids(doc, root, n, k) == Collected(doc, root, VisitedKids(doc, root, n, k))
    decreases |doc.nodes| - n, 0, k
  {
    if k > 0 {
      var c := Children(doc, n)[k - 1];
      var prev := VisitedKids(doc, root, n, k - 1);
      var visits := Visited(doc, root, c);
      FoundKidsIsCollected(doc, root, n, k - 1);
      FoundIsCollected(doc, root, c);
      CollectedJoin(doc, root, prev, visits, FoundKids(doc, root, n, k - 1), Found(doc, root, c));
    }
  }

  lemma CollectedJoin(doc: Document, root: nat, a: seq<nat>, b: seq<nat>, fa: seq<nat>, fb: seq<nat>)
    requires fa == Collected(doc, root, a) && fb == Collected(doc, root, b)
    ensures fa + fb == Collected(doc, root, a + b)
  {
    CollectedAppend(doc, root, a, b);
  }

  /** What is left of a work-list once every element of `vs` has been
      unset from it, in the original order. */
  function Drop(ts: seq<nat>, vs: seq<nat>): seq<nat>
  {
    if ts == [] then []
    else
      var last := ts[|ts| - 1];
      Drop(ts[..|ts| - 1], vs) + (if last in vs then [] else [last])
  }

  /** Exactly the entries of `ts` not listed in `vs` survive. */
  lemma {:induction false} DropMembers(ts: seq<nat>, vs: seq<nat>)
    ensures forall x :: x in Drop(ts, vs) <==> x in ts && x !in vs
  {
    if ts != [] {
      DropMembers(ts[..|ts| - 1], vs);
      assert ts == ts[..|ts| - 1] + [ts[|ts| - 1]];
    }
  }

  lemma {:induction false} DropAppend(x: seq<nat>, y: seq<nat>, vs: seq<nat>)
    ensures Drop(x + y, vs) == Drop(x, vs) + Drop(y, vs)
    decreases |y|
  {
    if y == [] {
      assert x + y == x;
    } else {
      assert (x + y)[..|x + y| - 1] == x + y[..|y| - 1];
      DropAppend(x, y[..|y| - 1], vs);
    }
  }

  /** Unsetting `a` and then `b` leaves what unsetting `a + b` leaves. */
  lemma {:induction false} DropTwice(ts: seq<nat>, a: seq<nat>, b: seq<nat>)
    ensures Drop(Drop(ts, a), b) == Drop(ts, a + b)
    decreases |ts|
  {
    if ts != [] {
      var last := ts[|ts| - 1];
      DropTwice(ts[..|ts| - 1], a, b);
      DropAppend(Drop(ts[..|ts| - 1], a), if last in a then [] else [last], b);
    }
  }

  /** The `foreach ... unset` loop at the head of `traverse`: every
      work-list entry that is `node` itself goes, the others stay in order. */
  method UnsetNode(toTraverse: seq<nat>, node: nat) returns (kept: seq<nat>)
    ensures kept == Drop(toTraverse, [node])
    ensures node !in kept && forall x :: x in toTraverse && x != node ==> x in kept
  {
    kept := [];
    for i := 0 to |toTraverse|
      invariant kept == Drop(toTraverse[..i], [node])
    {
      assert toTraverse[..i + 1][..i] == toTraverse[..i];
      if toTraverse[i] != node {
        kept := kept + [toTraverse[i]];
      }
    }
    assert toTraverse[..|toTraverse|] == toTraverse;
    DropMembers(toTraverse, [node]);
  }

  /** `traverse($node, $arr_to_traverse, $arr_prop, $root)`: the work-list
      and the result list are passed by reference, so they come back as
      results. Afterwards every element the walk visited has been unset
      from the work-list, and what the walk collects has been appended to
      the result (`FoundIsCollected` says which elements those are). */
  method Traverse(doc: Document, node: nat, toTraverse: seq<nat>, found: seq<nat>, root: nat)
    returns (toTraverse': seq<nat>, found': seq<nat>)
    requires Valid(doc) && node < |doc.nodes|
    ensures toTraverse' == Drop(toTraverse, Visited(doc, root, node))
    ensures found' == found + Found(doc, root, node)
    decreases |doc.nodes| - node, 1
  {
    toTraverse' := UnsetNode(toTraverse, node);
    found' := found;

    if node != root {
      var names := Prop(doc, node);
      if |names| > 0 {
        found' := found' + [node];
      }
      if IsItemScope(doc, node) {
        StoppedWalk(doc, root, node, toTraverse, found, toTraverse', found');
        return;
      }
    }

    ghost var start := found';
    ghost var kept := toTraverse';
    toTraverse', found' := TraverseChildren(doc, node, toTraverse', found', root);
    DropStep(toTraverse, [node], VisitsOf(doc, root, Children(doc, node)), kept, toTraverse');
    FullWalk(doc, root, node, toTraverse, found, start, toTraverse', found');
  }

  /** The `foreach` over the children at the end of `traverse`: one walk
      per child, in order, threading the work-list and the result list. */
  method TraverseChildren(doc: Document, node: nat, toTraverse: seq<nat>, found: seq<nat>, root: nat)
    returns (toTraverse': seq<nat>, found': seq<nat>)
    requires Valid(doc) && node < |doc.nodes|
    ensures toTraverse' == Drop(toTraverse, VisitsOf(doc, root, Children(doc, node)))
    ensures found' == found + FoundOf(doc, root, Children(doc, node))
    decreases |doc.nodes| - node, 0
  {
    toTraverse', found' := toTraverse, found;
    var children := Children(doc, node);
    assert toTraverse' == Drop(toTraverse, []) by { DropNone(toTraverse); }
    assert found' == found + [];
    for k := 0 to |children|
      invariant toTraverse' == Drop(toTraverse, VisitsOf(doc, root, children[..k]))
      invariant found' == found + FoundOf(doc, root, children[..k])
    {
      ghost var tsIn, fIn := toTraverse', found';
      toTraverse', found' := Traverse(doc, children[k], toTraverse', found', root);
      EachStep(doc, root, children, k, toTraverse, found, tsIn, fIn, toTraverse', found');
    }
    Whole(children);
  }

  /** A walk that stops at `node`: only `node` is visited, and it is
      appended when it is collected. */
  lemma StoppedWalk(doc: Document, root: nat, node: nat, ts: seq<nat>, found: seq<nat>,
                    tsOut: seq<nat>, fOut: seq<nat>)
    requires Valid(doc) && node < |doc.nodes| && Stops(doc, root, node)
    requires tsOut == Drop(ts, [node])
    requires Collects(doc, root, node) ==> fOut == found + [node]
    requires !Collects(doc, root, node) ==> fOut == found
    ensures tsOut == Drop(ts, Visited(doc, root, node))
    ensures fOut == found + Found(doc, root, node)
  {
    assert Visited(doc, root, node) == [node];
    assert found + [] == found;
  }

  /** A walk that goes on below `node`: `node` and then every child's
      visits, with `node` appended first when it is collected. */
  lemma FullWalk(doc: Document, root: nat, node: nat, ts: seq<nat>, found: seq<nat>, start: seq<nat>,
                 tsOut: seq<nat>, fOut: seq<nat>)
    requires Valid(doc) && node < |doc.nodes| && !Stops(doc, root, node)
    requires Collects(doc, root, node) ==> start == found + [node]
    requires !Collects(doc, root, node) ==> start == found
    requires tsOut == Drop(ts, [node] + VisitsOf(doc, root, Children(doc, node)))
    requires fOut == start + FoundOf(doc, root, Children(doc, node))
    ensures tsOut == Drop(ts, Visited(doc, root, node))
    ensures fOut == found + Found(doc, root, node)
  {
    KidsAreVisits(doc, root, node, |Children(doc, node)|);
    Whole(Children(doc, node));
    var head := if Collects(doc, root, node) then [node] else [];
    assert start == found + head;
    Assoc(found, head, FoundKids(doc, root, node, |Children(doc, node)|));
  }

  /** The walks of the first `k` children of `n` are the walks from the
      target list made of those children. */
  lemma {:induction false} KidsAreVisits(doc: Document, root: nat, n: nat, k: nat)
    requires Valid(doc) && n < |doc.nodes| && k <= |Children(doc, n)|
    ensures VisitedKids(doc, root, n, k) == VisitsOf(doc, root, Children(doc, n)[..k])
    ensures FoundKids(doc, root, n, k) == FoundOf(doc, root, Children(doc, n)[..k])
  {
    if k > 0 {
      KidsAreVisits(doc, root, n, k - 1);
      PrefixStep(Children(doc, n), k - 1);
    }
  }

  lemma DropStep(ts: seq<nat>, a: seq<nat>, b: seq<nat>, tsIn: seq<nat>, tsOut: seq<nat>)
    requires tsIn == Drop(ts, a) && tsOut == Drop(tsIn, b)
    ensures tsOut == Drop(ts, a + b)
  {
    DropTwice(ts, a, b);
  }

  lemma AppendStep(start: seq<nat>, a: seq<nat>, b: seq<nat>, fIn: seq<nat>, fOut: seq<nat>)
    requires fIn == start + a && fOut == fIn + b
    ensures fOut == start + (a + b)
  {
    Assoc(start, a, b);
  }

  /** The elements matched by the `itemref` ids, id by id in `itemref`
      order, each id's matches in document order. */
  function RefTargets(doc: Document, ids: seq<string>): (r: seq<nat>)
    ensures AllNodes(doc, r)
  {
    if ids == [] then []
    else
      RefTargets(doc, ids[..|ids| - 1]) + ElementsWithId(doc, ids[|ids| - 1])
  }

  /** The visits of one walk per element of `ts`, one after the other. */
  function VisitsOf(doc: Document, root: nat, ts: seq<nat>): seq<nat>
    requires Valid(doc) && AllNodes(doc, ts)
  {
    if ts == [] then []
    else VisitsOf(doc, root, ts[..|ts| - 1]) + Visited(doc, root, ts[|ts| - 1])
  }

  /** What one walk per element of `ts` appends, one after the other. */
  function FoundOf(doc: Document, root: nat, ts: seq<nat>): seq<nat>
    requires Valid(doc) && AllNodes(doc, ts)
  {
    if ts == [] then []
    else FoundOf(doc, root, ts[..|ts| - 1]) + Found(doc, root, ts[|ts| - 1])
  }

  lemma {:induction false} FoundOfIsCollected(doc: Document, root: nat, ts: seq<nat>)
    requires Valid(doc) && AllNodes(doc, ts)
    ensures FoundOf(doc, root, ts) == Collected(doc, root, VisitsOf(doc, root, ts))
  {
    if ts != [] {
      var last := ts[|ts| - 1];
      FoundOfIsCollected(doc, root, ts[..|ts| - 1]);
      FoundIsCollected(doc, root, last);
      CollectedAppend(doc, root, VisitsOf(doc, root, ts[..|ts| - 1]), Visited(doc, root, last));
    }
  }

  /** Everything the walks from the `itemref` targets visit. */
  function RefVisits(doc: Document, root: nat): seq<nat>
    requires Valid(doc) && root < |doc.nodes|
  {
    VisitsOf(doc, root, RefTargets(doc, RefIds(doc, root)))
  }

  /** What `properties()` returns: nothing for an element without
      `itemscope`; otherwise what the walks from the `itemref` targets
      append, followed by what the walk over the root's own subtree
      appends, which is skipped when an `itemref` walk already went through
      the root. Every element returned is a visited element of the
      document, is not the root, and has at least one property name. */
  function PropertiesOf(doc: Document, root: nat): (r: seq<nat>)
    requires Valid(doc) && root < |doc.nodes|
    ensures !IsItemScope(doc, root) ==> r == []
    ensures forall x :: x in r ==> x < |doc.nodes| && Collects(doc, root, x)
    ensures forall x :: x in r ==> x in RefVisits(doc, root) || x in Visited(doc, root, root)
  {
    if !IsItemScope(doc, root) then []
    else
      var targets := RefTargets(doc, RefIds(doc, root));
      var refVisits := RefVisits(doc, root);
      var rest := if root in refVisits then [] else Visited(doc, root, root);
      FoundOfIsCollected(doc, root, targets);
      FoundIsCollected(doc, root, root);
      CollectedAppend(doc, root, refVisits, rest);
      CollectedMembers(doc, root, refVisits + rest);
      assert Collected(doc, root, []) == [];
      FoundOf(doc, root, targets) + (if root in refVisits then [] else Found(doc, root, root))
  }

  /** The result of `properties()` for an item is exactly the collected
      elements among everything its walks visit, in visiting order: first
      the visits of the `itemref` walks, then, unless those reached the
      root, the visits of the walk over the root's own subtree. */
  lemma PropertiesAreCollected(doc: Document, root: nat)
    requires Valid(doc) && root < |doc.nodes| && IsItemScope(doc, root)
    ensures var refVisits := RefVisits(doc, root);
            PropertiesOf(doc, root)
            == Collected(doc, root, refVisits + if root in refVisits then [] else Visited(doc, root, root))
  {
    var targets := RefTargets(doc, RefIds(doc, root));
    var refVisits := RefVisits(doc, root);
    var rest := if root in refVisits then [] else Visited(doc, root, root);
    FoundOfIsCollected(doc, root, targets);
    FoundIsCollected(doc, root, root);
    CollectedAppend(doc, root, refVisits, rest);
  }

  /** The inner `foreach` of `properties()`: one walk per element of `targets`, in order. */
  method TraverseEach(doc: Document, targets: seq<nat>, toTraverse: seq<nat>, found: seq<nat>, root: nat)
    returns (toTraverse': seq<nat>, found': seq<nat>)
    requires Valid(doc) && AllNodes(doc, targets)
    ensures toTraverse' == Drop(toTraverse, VisitsOf(doc, root, targets))
    ensures found' == found + FoundOf(doc, root, targets)
  {
    toTraverse', found' := toTraverse, found;
    assert toTraverse' == Drop(toTraverse, []) by { DropNone(toTraverse); }
    assert found' == found + [];
    for j := 0 to |targets|
      invariant toTraverse' == Drop(toTraverse, VisitsOf(doc, root, targets[..j]))
      invariant found' == found + FoundOf(doc, root, targets[..j])
    {
      ghost var tsIn, fIn := toTraverse', found';
      toTraverse', found' := Traverse(doc, targets[j], toTraverse', found', root);
      EachStep(doc, root, targets, j, toTraverse, found, tsIn, fIn, toTraverse', found');
    }
    assert targets[..|targets|] == targets;
  }

  lemma {:induction false} DropNone(ts: seq<nat>)
    ensures Drop(ts, []) == ts
  {
    if ts != [] {
      DropNone(ts[..|ts| - 1]);
    }
  }

  /** One more target walked: the bookkeeping of the loops of
      `TraverseEach` and `TraverseChildren`. */
  lemma EachStep(doc: Document, root: nat, targets: seq<nat>, j: nat, ts: seq<nat>, start: seq<nat>,
                 tsIn: seq<nat>, fIn: seq<nat>, tsOut: seq<nat>, fOut: seq<nat>)
    requires Valid(doc) && AllNodes(doc, targets) && j < |targets|
    requires tsIn == Drop(ts, VisitsOf(doc, root, targets[..j]))
    requires fIn == start + FoundOf(doc, root, targets[..j])
    requires tsOut == Drop(tsIn, Visited(doc, root, targets[j]))
    requires fOut == fIn + Found(doc, root, targets[j])
    ensures tsOut == Drop(ts, VisitsOf(doc, root, targets[..j + 1]))
    ensures fOut == start + FoundOf(doc, root, targets[..j + 1])
  {
    assert targets[..j + 1][..j] == targets[..j];
    DropStep(ts, VisitsOf(doc, root, targets[..j]), Visited(doc, root, targets[j]), tsIn, tsOut);
    AppendStep(start, FoundOf(doc, root, targets[..j]), Found(doc, root, targets[j]), fIn, fOut);
  }

  /** One more `itemref` id followed: the bookkeeping of `Properties`' outer loop. */
  lemma RefIdStep(doc: Document, root: nat, ids: seq<string>, i: nat,
                  tsIn: seq<nat>, fIn: seq<nat>, tsOut: seq<nat>, fOut: seq<nat>)
    requires Valid(doc) && i < |ids|
    requires tsIn == Drop([root], VisitsOf(doc, root, RefTargets(doc, ids[..i])))
    requires fIn == FoundOf(doc, root, RefTargets(doc, ids[..i]))
    requires tsOut == Drop(tsIn, VisitsOf(doc, root, ElementsWithId(doc, ids[i])))
    requires fOut == fIn + FoundOf(doc, root, ElementsWithId(doc, ids[i]))
    ensures tsOut == Drop([root], VisitsOf(doc, root, RefTargets(doc, ids[..i + 1])))
    ensures fOut == FoundOf(doc, root, RefTargets(doc, ids[..i + 1]))
  {
    var done := RefTargets(doc, ids[..i]);
    var targets := ElementsWithId(doc, ids[i]);
    assert RefTargets(doc, ids[..i + 1]) == done + targets by {
      assert ids[..i + 1][..i] == ids[..i];
    }
    AllNodesAppend(doc, done, targets);
    VisitsOfAppend(doc, root, done, targets);
    FoundOfAppend(doc, root, done, targets);
    DropStep([root], VisitsOf(doc, root, done), VisitsOf(doc, root, targets), tsIn, tsOut);
  }

  lemma AllNodesAppend(doc: Document, a: seq<nat>, b: seq<nat>)
    requires AllNodes(doc, a) && AllNodes(doc, b)
    ensures AllNodes(doc, a + b)
  {
    assert forall i :: 0 <= i < |a + b| ==> (a + b)[i] == if i < |a| then a[i] else b[i - |a|];
  }

  /** Walking from the targets `a + b` visits what walking from `a` and
      then from `b` visits. */
  lemma {:induction false} VisitsOfAppend(doc: Document, root: nat, a: seq<nat>, b: seq<nat>)
    requires Valid(doc) && AllNodes(doc, a) && AllNodes(doc, b) && AllNodes(doc, a + b)
    ensures VisitsOf(doc, root, a + b) == VisitsOf(doc, root, a) + VisitsOf(doc, root, b)
    decreases |b|
  {
    if b == [] {
      assert a + b == a;
    } else {
      var b' := b[..|b| - 1];
      assert (a + b)[..|a + b| - 1] == a + b';
      AllNodesAppend(doc, a, b');
      VisitsOfAppend(doc, root, a, b');
      Assoc(VisitsOf(doc, root, a), VisitsOf(doc, root, b'), Visited(doc, root, b[|b| - 1]));
    }
  }

  /** Walking from the targets `a + b` appends what walking from `a` and
      then from `b` appends. */
  lemma {:induction false} FoundOfAppend(doc: Document, root: nat, a: seq<nat>, b: seq<nat>)
    requires Valid(doc) && AllNodes(doc, a) && AllNodes(doc, b) && AllNodes(doc, a + b)
    ensures FoundOf(doc, root, a + b) == FoundOf(doc, root, a) + FoundOf(doc, root, b)
    decreases |b|
  {
    if b == [] {
      assert a + b == a;
    } else {
      var b' := b[..|b| - 1];
      assert (a + b)[..|a + b| - 1] == a + b';
      AllNodesAppend(doc, a, b');
      FoundOfAppend(doc, root, a, b');
      Assoc(FoundOf(doc, root, a), FoundOf(doc, root, b'), Found(doc, root, b[|b| - 1]));
    }
  }

  /** `properties()`. The ghost `rounds` counts the iterations of the final
      `while` loop: the work-list only ever holds the root, so that loop
      runs at most once, and not at all when an `itemref` walk reached the
      root. */
  method Properties(doc: Document, root: nat) returns (found: seq<nat>, ghost rounds: nat)
    requires Valid(doc) && root < |doc.nodes|
    ensures found == PropertiesOf(doc, root)
    ensures rounds <= 1
    ensures rounds == 1 <==> IsItemScope(doc, root) && root !in RefVisits(doc, root)
  {
    found := [];
    rounds := 0;
    if IsItemScope(doc, root) {
      var toTraverse := [root];
      var ids := RefIds(doc, root);

      for i := 0 to |ids|
        invariant toTraverse == Drop([root], VisitsOf(doc, root, RefTargets(doc, ids[..i])))
        invariant found == FoundOf(doc, root, RefTargets(doc, ids[..i]))
      {
        ghost var tsIn, fIn := toTraverse, found;
        var targets := ElementsWithId(doc, ids[i]);
        toTraverse, found := TraverseEach(doc, targets, toTraverse, found, root);
        RefIdStep(doc, root, ids, i, tsIn, fIn, toTraverse, found);
      }
      assert ids[..|ids|] == ids;

      ghost var refVisits := RefVisits(doc, root);
      ghost var fromRefs := found;
      assert toTraverse == (if root in refVisits then [] else [root]);
      assert fromRefs + [] == fromRefs;
      while |toTraverse| > 0
        invariant toTraverse == [] || toTraverse == [root]
        invariant root in refVisits ==> toTraverse == [] && rounds == 0
        invariant rounds <= 1 && (rounds == 1 <==> root !in refVisits && toTraverse == [])
        invariant found == fromRefs + (if rounds == 1 then Found(doc, root, root) else [])
        decreases |toTraverse|
      {
        toTraverse, found := Traverse(doc, toTraverse[0], toTraverse, found, root);
        rounds := rounds + 1;
      }
    }
  }

  /** Boundary: every visited element other than the walk's start was
      reached as a child of a visited element at which the walk does not
      stop, i.e. the root or an element without `itemscope`. A nested item
      may itself be collected, but nothing below it is reached through it. */
  lemma {:induction false} VisitedThroughOpenParent(doc: Document, root: nat, n: nat, m: nat)
    requires Valid(doc) && n < |doc.nodes|
    requires m in Visited(doc, root, n) && m != n
    ensures exists p :: p in Visited(doc, root, n) && p < |doc.nodes| && !Stops(doc, root, p) && m in Children(doc, p)
    decreases |doc.nodes| - n, 1
  {
    var kids := VisitedKids(doc, root, n, |Children(doc, n)|);
    assert !Stops(doc, root, n) && m in kids;
    KidsThroughOpenParent(doc, root, n, |Children(doc, n)|, m);
  }

  lemma {:induction false} KidsThroughOpenParent(doc: Document, root: nat, n: nat, k: nat, m: nat)
    requires Valid(doc) && n < |doc.nodes| && k <= |Children(doc, n)|
    requires !Stops(doc, root, n) && m in VisitedKids(doc, root, n, k)
    ensures exists p :: p in [n] + VisitedKids(doc, root, n, k) && p < |doc.nodes| && !Stops(doc, root, p) && m in Children(doc, p)
    decreases |doc.nodes| - n, 0, k
  {
    var c := Children(doc, n)[k - 1];
    var prev := VisitedKids(doc, root, n, k - 1);
    assert VisitedKids(doc, root, n, k) == prev + Visited(doc, root, c);
    if m in prev {
      KidsThroughOpenParent(doc, root, n, k - 1, m);
    } else if m == c {
      assert n in [n] + VisitedKids(doc, root, n, k);
    } else {
      VisitedThroughOpenParent(doc, root, c, m);
    }
  }

  /** Closure: every child of a visited element at which the walk does not
      stop is visited too. With `VisitedThroughOpenParent` this pins the
      visited set down as exactly the elements reachable from the start
      without passing below a nested item. */
  lemma {:induction false} VisitedClosed(doc: Document, root: nat, n: nat, p: nat, c: nat)
    requires Valid(doc) && n < |doc.nodes|
    requires p in Visited(doc, root, n) && p < |doc.nodes| && !Stops(doc, root, p) && c in Children(doc, p)
    ensures c in Visited(doc, root, n)
    decreases |doc.nodes| - n, 1
  {
    KidsClosed(doc, root, n, |Children(doc, n)|, p, c);
  }

  lemma {:induction false} KidsClosed(doc: Document, root: nat, n: nat, k: nat, p: nat, c: nat)
    requires Valid(doc) && n < |doc.nodes| && k <= |Children(doc, n)|
    requires !Stops(doc, root, n)
    requires p in [n] + VisitedKids(doc, root, n, k) && p < |doc.nodes| && !Stops(doc, root, p) && c in Children(doc, p)
    ensures c in Visited(doc, root, n)
    decreases |doc.nodes| - n, 0, k
  {
    var all := VisitedKids(doc, root, n, |Children(doc, n)|);
    assert Visited(doc, root, n) == [n] + all;
    if p == n {
      var j :| 0 <= j < |Children(doc, n)| && Children(doc, n)[j] == c;
      KidInKids(doc, root, n, |Children(doc, n)|, j);
    } else if k > 0 {
      var ck := Children(doc, n)[k - 1];
      var prev := VisitedKids(doc, root, n, k - 1);
      assert VisitedKids(doc, root, n, k) == prev + Visited(doc, root, ck);
      if p in [n] + prev {
        KidsClosed(doc, root, n, k - 1, p, c);
      } else {
        VisitedClosed(doc, root, ck, p, c);
        KidVisitsInKids(doc, root, n, |Children(doc, n)|, k - 1);
      }
    }
  }

  /** The visits of child `j` are part of the visits of the first `k > j`
      children. */
  lemma {:induction false} KidVisitsInKids(doc: Document, root: nat, n: nat, k: nat, j: nat)
    requires Valid(doc) && n < |doc.nodes| && j < k <= |Children(doc, n)|
    ensures forall x :: x in Visited(doc, root, Children(doc, n)[j]) ==> x in VisitedKids(doc, root, n, k)
    decreases k
  {
    if j < k - 1 {
      KidVisitsInKids(doc, root, n, k - 1, j);
    }
  }

  lemma KidInKids(doc: Document, root: nat, n: nat, k: nat, j: nat)
    requires Valid(doc) && n < |doc.nodes| && j < k <= |Children(doc, n)|
    ensures Children(doc, n)[j] in VisitedKids(doc, root, n, k)
  {
    KidVisitsInKids(doc, root, n, k, j);
  }
}
