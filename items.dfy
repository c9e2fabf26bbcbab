/** The result objects of the extractor and the way property values are
    accumulated into them. An item carries its optional type list, its
    optional id and its properties: an insertion-ordered map from property
    name to the list of values appended under that name, which is what
    `$out->properties[$prop][] = $value` builds. */
module Items {
  import opened SeqFacts

  datatype Option<T> = None | Some(value: T)

  /** A property value: a text value (including the `'ERROR'` cycle
      marker), a nested item, and the two values the code can assign but
      that no reachable path keeps (`null`, and the element itself). */
  datatype Value = Text(s: string) | Nested(item: Item) | Null | Element(node: nat)

  datatype Entry = Entry(name: string, values: seq<Value>)

  datatype Item = Item(itemType: Option<seq<string>>, id: Option<string>, properties: seq<Entry>)

  /** What one property element contributes: its names and its value. */
  datatype Contribution = Contribution(names: seq<string>, value: Value)

  /** The property names of `es`, in insertion order. */
  function Keys(es: seq<Entry>): seq<string>
  {
    if es == [] then [] else [es[0].name] + Keys(es[1..])
  }

  /** The values stored under `k`; no values when `k` is not a key. */
  function Lookup(es: seq<Entry>, k: string): seq<Value>
  {
    if es == [] then []
    else if es[0].name == k then es[0].values
    else Lookup(es[1..], k)
  }

  /** `$properties[$n][] = $v`: append `v` to the list under `n`, creating
      the list (at the end of the map) when `n` is new. */
  function Add(es: seq<Entry>, n: string, v: Value): seq<Entry>
  {
    if es == [] then [Entry(n, [v])]
    else if es[0].name == n then [Entry(n, es[0].values + [v])] + es[1..]
    else [es[0]] + Add(es[1..], n, v)
  }

  /** The inner `foreach` over an element's names: `v` appended under each
      name in turn. */
  function AddAll(es: seq<Entry>, names: seq<string>, v: Value): seq<Entry>
  {
    if names == [] then es
    else Add(AddAll(es, names[..|names| - 1], v), names[|names| - 1], v)
  }

  /** The property map built from the contributions of the property
      elements, in order. */
  function Accumulate(cs: seq<Contribution>): seq<Entry>
  {
    if cs == [] then []
    else
      var last := cs[|cs| - 1];
      AddAll(Accumulate(cs[..|cs| - 1]), last.names, last.value)
  }

  // ---------------------------------------------------------------------
  // Reference definitions: what the map should hold, stated without it.

  /** How many times `k` occurs in `names`. */
  function Count(names: seq<string>, k: string): nat
  {
    if names == [] then 0
    else Count(names[..|names| - 1], k) + (if names[|names| - 1] == k then 1 else 0)
  }

  /** `n` copies of `v`. */
  function Repeat(v: Value, n: nat): seq<Value>
  {
    if n == 0 then [] else Repeat(v, n - 1) + [v]
  }

  /** The values expected under `k`: each contribution's value once per
      occurrence of `k` among its names, contribution after contribution. */
  function ValuesFor(cs: seq<Contribution>, k: string): seq<Value>
  {
    if cs == [] then []
    else
      var last := cs[|cs| - 1];
      ValuesFor(cs[..|cs| - 1], k) + Repeat(last.value, Count(last.names, k))
  }

  /** Every name contributed, in order, with repetitions. */
  function AllNames(cs: seq<Contribution>): seq<string>
  {
    if cs == [] then [] else AllNames(cs[..|cs| - 1]) + cs[|cs| - 1].names
  }

  /** The first occurrence of every distinct element of `xs`, in order. */
  function Dedup(xs: seq<string>): seq<string>
  {
    if xs == [] then []
    else
      var last := xs[|xs| - 1];
      Dedup(xs[..|xs| - 1]) + (if last in xs[..|xs| - 1] then [] else [last])
  }

  // ---------------------------------------------------------------------
  // Properties of a single append.

  lemma {:induction false} AddKeys(es: seq<Entry>, n: string, v: Value)
    ensures Keys(Add(es, n, v)) == Keys(es) + (if n in Keys(es) then [] else [n])
  {
    if es != [] && es[0].name != n {
      AddKeys(es[1..], n, v);
    }
  }

  lemma {:induction false} AddLookup(es: seq<Entry>, n: string, v: Value, k: string)
    ensures Lookup(Add(es, n, v), k) == Lookup(es, k) + (if k == n then [v] else [])
  {
    if es != [] && es[0].name != n {
      AddLookup(es[1..], n, v, k);
    }
  }

  /** Appending never empties a list: every stored list keeps at least one
      value. */
  lemma {:induction false} AddNonEmpty(es: seq<Entry>, n: string, v: Value)
    requires forall i :: 0 <= i < |es| ==> |es[i].values| >= 1
    ensures forall i :: 0 <= i < |Add(es, n, v)| ==> |Add(es, n, v)[i].values| >= 1
  {
    if es != [] && es[0].name != n {
      AddNonEmpty(es[1..], n, v);
    }
  }

  /** Appending `v` under each of `names`: `k` gains one copy of `v` per
      occurrence of `k` among the names, and the keys grow by the names
      not seen before, in first-seen order. */
  lemma {:induction false} AddAllSpec(es: seq<Entry>, names: seq<string>, v: Value, k: string)
    ensures Lookup(AddAll(es, names, v), k) == Lookup(es, k) + Repeat(v, Count(names, k))
    decreases |names|
  {
    if names != [] {
      var init := names[..|names| - 1];
      AddAllSpec(es, init, v, k);
      AddLookup(AddAll(es, init, v), names[|names| - 1], v, k);
    }
  }

  lemma {:induction false} AddAllNonEmpty(es: seq<Entry>, names: seq<string>, v: Value)
    requires forall i :: 0 <= i < |es| ==> |es[i].values| >= 1
    ensures forall i :: 0 <= i < |AddAll(es, names, v)| ==> |AddAll(es, names, v)[i].values| >= 1
    decreases |names|
  {
    if names != [] {
      AddAllNonEmpty(es, names[..|names| - 1], v);
      AddNonEmpty(AddAll(es, names[..|names| - 1], v), names[|names| - 1], v);
    }
  }

  lemma {:induction false} AddAllKeys(es: seq<Entry>, names: seq<string>, v: Value, before: seq<string>)
    requires Keys(es) == Dedup(before)
    ensures Keys(AddAll(es, names, v)) == Dedup(before + names)
    decreases |names|
  {
    if names == [] {
      assert before + names == before;
    } else {
      var init := names[..|names| - 1];
      var last := names[|names| - 1];
      var prev := AddAll(es, init, v);
      var seen := before + init;
      AddAllKeys(es, init, v, before);
      AddKeys(prev, last, v);
      DedupHas(seen, last);
      Snoc(names);
      Assoc(before, init, [last]);
      DedupSnoc(seen, last);
    }
  }

  lemma DedupSnoc(xs: seq<string>, x: string)
    ensures Dedup(xs + [x]) == Dedup(xs) + (if x in xs then [] else [x])
  {
    assert (xs + [x])[..|xs|] == xs;
  }

  lemma {:induction false} DedupHas(xs: seq<string>, x: string)
    ensures x in Dedup(xs) <==> x in xs
  {
    if xs != [] {
      var init := xs[..|xs| - 1];
      DedupHas(init, x);
      assert xs == init + [xs[|xs| - 1]];
    }
  }

  /** `Dedup` keeps exactly the elements of `xs`, each once. */
  lemma {:induction false} DedupMembers(xs: seq<string>)
    ensures forall x :: x in Dedup(xs) <==> x in xs
    ensures Distinct(Dedup(xs))
  {
    if xs != [] {
      var init := xs[..|xs| - 1];
      DedupMembers(init);
      assert xs == init + [xs[|xs| - 1]];
    }
  }

  // ---------------------------------------------------------------------
  // The accumulated map against the reference definitions.

  /** The list under `k` holds each contribution's value once per
      occurrence of `k` among its names, in contribution order; a name
      never contributed has no values. */
  lemma {:induction false} AccumulateLookup(cs: seq<Contribution>, k: string)
    ensures Lookup(Accumulate(cs), k) == ValuesFor(cs, k)
  {
    if cs != [] {
      var last := cs[|cs| - 1];
      AccumulateLookup(cs[..|cs| - 1], k);
      AddAllSpec(Accumulate(cs[..|cs| - 1]), last.names, last.value, k);
    }
  }

  /** The keys are the contributed names in first-seen order, each once. */
  lemma {:induction false} AccumulateKeys(cs: seq<Contribution>)
    ensures Keys(Accumulate(cs)) == Dedup(AllNames(cs))
    ensures Distinct(Keys(Accumulate(cs)))
  {
    if cs != [] {
      var last := cs[|cs| - 1];
      AccumulateKeys(cs[..|cs| - 1]);
      AddAllKeys(Accumulate(cs[..|cs| - 1]), last.names, last.value, AllNames(cs[..|cs| - 1]));
    }
    DedupMembers(AllNames(cs));
  }

  /** Every stored property maps to a list with at least one value, even
      for a single occurrence. */
  lemma {:induction false} AccumulateNonEmpty(cs: seq<Contribution>)
    ensures forall i :: 0 <= i < |Accumulate(cs)| ==> |Accumulate(cs)[i].values| >= 1
  {
    if cs != [] {
      var last := cs[|cs| - 1];
      AccumulateNonEmpty(cs[..|cs| - 1]);
      AddAllNonEmpty(Accumulate(cs[..|cs| - 1]), last.names, last.value);
    }
  }
}
