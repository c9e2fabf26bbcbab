# Microdata extraction, modelled in Dafny

A model of the microdata extractor `Malenki\Microdata`. The extractor reads HTML microdata items out of an already-parsed element tree, after the Microdata chapter of the WHATWG HTML Living Standard:

- section 5.2.5, "Associating names with items";
- section 5.2.4, "Values";
- the JSON shape of section 5.4.1.

The code departs from section 5.2.4 in three ways, and the model follows the code:

- it has no rule for `meter`, which the standard reads from `value`;
- a `time` element without `datetime` gives `""`, where the standard takes its text;
- `src`, `href` and `data` are returned as the attribute's text, where the standard resolves them to an absolute URL (or `""` when that fails).

It also departs from section 5.2.5, and again the model follows the code:

- each `itemref` token walks every element carrying that `id`, where the standard takes only the first;
- there is no memory of elements already crawled, so the same element can be reached twice and then appears twice among the properties;
- the walks from the `itemref` targets come first and the item's own subtree last, with no final sort into tree order;
- `itemref` is trimmed and split on the space character alone, where the standard splits on ASCII whitespace: `itemref="a\tb"` is the single id `a\tb`, `itemref="0"` counts as empty and walks nothing (PHP's `empty()`), and `itemref="a  b"` also walks every element whose `id` is `""`.

`itemprop` and `itemtype` are split the same way, on single spaces, with no removal of repeated tokens.

It also departs from the JSON shape of section 5.4.1:

- an item without a type or without an id still has a `"type"` or `"id"` member, set to null, where the standard leaves the member out;
- the id is the trimmed `itemid` text, not resolved to an absolute URL.

The model covers the five routines that do the work:

- `prop()` splits an element's `itemprop`;
- `properties()` and `traverse()` find an item's property elements with a work-list and a depth-first walk;
- `getItems()` builds an item (its type, its id, and the property map, with nested items and a history that breaks cycles);
- `extract()` resolves every top-level item.

The modules:

- `PhpString` (`strings.dfy`): the PHP string primitives the code relies on.
  - `trim` with its default character list (space, tab, line feed, carriage return, NUL, vertical tab).
  - `explode(' ', ...)`, proved to round-trip with `implode(' ', ...)` in both directions.
  - The string case of `empty()`: `""` and `"0"`.
  - An ASCII `strtolower`.
- `Dom` (`dom.dfy`): the parsed document.
  - It is a sequence of elements, and an element's identity is its position, so `isSameNode` is equality of positions.
  - Each element has a tag, the attributes the extractor reads, its children in order, and its `textContent`.
  - `getAttribute` is the function `Attr`: the attribute's value when present, `""` when absent. It is part of the input's definition, so nothing is proved about it.
  - A child always comes after its parent, which `Valid` requires.
  - Positions are taken to follow document order, as in the parser's element list. This is a convention about the input: `Valid` enforces only the parent-before-child part. "In document order" below means "in increasing position".
  - The XPath queries become tree functions: "elements matching an attribute test, in document order", "elements whose `id` equals s" and "direct element children".
- `PropertyResolver` (`properties.dfy`): `prop()`, `traverse()` and `properties()`.
  - The work-list and the result list are passed by reference in PHP. In the model they are threaded through the methods as results.
  - Each method is proved equal to a specification function:
    - `Visited` is what one walk visits;
    - `Found` is what one walk appends;
    - `PropertiesOf` is what `properties()` returns.
  - `Found` is proved to equal `Collected`: the visited elements that are not the root and carry a property name, in visiting order.
  - The boundary lemmas pin the visited set down as exactly what is reachable without passing below a nested `itemscope`.
- `Items` (`items.dfy`): the result objects, and the accumulation of `$out->properties[$prop][] = $value`.
  - The map is an insertion-ordered list of entries.
  - It is proved against independent reference definitions:
    - the keys are the contributed names, deduplicated in first-seen order;
    - the values under a key are each contribution's value once per occurrence of the key among its names.
- `Microdata` (`microdata.dfy`): `getItems()` and `extract()`.
  - `ItemOf` is the item `getItems` returns, defined by mutual recursion with the value of each property element.
  - Its termination measure is the set of elements not yet in the history, which is what makes resolution finite on cyclic `itemref` graphs.
  - `GetItems` and `Extract` are the loops, proved equal to `ItemOf` and to one `ItemOf` per top-level element.
- `SeqFacts` (`seqs.dfy`): small sequence facts shared by the loop proofs.

Further facts about the code, which the model follows:

- **Values are always lists.** Every property maps to a list of values, even a name that occurs once.
- **Tag rules apply only to elements without `itemscope`.** The null branch and the element-valued branch of `getItems` (Microdata.php:111-117) are kept in `ScalarValue` and proved never to survive.
- **An element can be returned twice.** `properties()` can return the same element twice when an `itemref` target lies inside the item's own subtree: the `itemref` walk and the walk over the root's subtree both visit it. The model reproduces this (`PropertiesAreCollected` states the result as the collected elements of both walks, one after the other), and a property value can then be listed twice.
- **A self-reference does not give the error marker.** An item whose `itemref` names itself never visits itself as a property: the walk never collects the root. The `'ERROR'` marker therefore appears only for a nested item already in the history.
- **Nothing is validated.** There is no vocabulary validation, no type statistics and no caching; this code has none of them.

## Model

| member | source | states |
|---|---|---|
| PhpString.TrimSpec | src/Malenki/Microdata.php:160 | `trim` returns `s[i..j]`, where every character before `i` and from `j` on is one `trim` strips. The result neither starts nor ends with a stripped character. It is empty exactly when every character is one `trim` strips. A string with nothing to strip at either end is returned unchanged. |
| PhpString.SplitSpec | src/Malenki/Microdata.php:165 | `explode(' ', s)` gives at least one piece and no piece contains a space. Joining the pieces with single spaces gives back `s`. |
| PhpString.SplitJoin | src/Malenki/Microdata.php:165 | The other round trip: space-free pieces joined by single spaces split back into exactly those pieces. |
| PhpString.SplitAdjacentSpaces | src/Malenki/Microdata.php:165 | Two adjacent spaces anywhere in the string yield an empty piece. |
| PhpString.ToLowerSpec | src/Malenki/Microdata.php:119 | The result of `strtolower` holds no ASCII capital. A string without capitals is returned unchanged. Lower-casing twice gives the same result as once. Every character that is not a capital is kept, and each capital becomes the lower-case letter 32 code points above it. |
| Dom.Children | src/Malenki/Microdata.php:238-239 | The direct children of an element are elements of the document that come after it. |
| Dom.ElementsWithId | src/Malenki/Microdata.php:193 | The `@id` query returns exactly the elements whose `id` is present and equal to the token, each once, in document order. |
| PropertyResolver.PropNames | src/Malenki/Microdata.php:158-169 | `prop()` is empty when `itemprop` is absent or trims to `""`. Otherwise the names joined by single spaces give back the trimmed value, and no name contains a space. |
| PropertyResolver.RefIdsSpec | src/Malenki/Microdata.php:183-189 | The item has no `itemref` ids exactly when the trimmed `itemref` is `""` or `"0"`, which includes an absent attribute. Otherwise the ids joined by single spaces give back the trimmed value, and no id contains a space. |
| PropertyResolver.UnsetNode | src/Malenki/Microdata.php:214-220 | The unset loop removes every work-list entry that is the node and keeps every other entry, in order. |
| PropertyResolver.Traverse | src/Malenki/Microdata.php:212-245 | After `traverse(node)`, every element the walk visits (`Visited`) has been unset from the work-list, and what the walk collects (`Found`) has been appended to the result list, in visiting order. |
| PropertyResolver.TraverseChildren | src/Malenki/Microdata.php:238-244 | The loop over the children performs one walk per child, in order. Its unsets and appends are those of the children's walks, one after the other. |
| PropertyResolver.StoppedWalk | src/Malenki/Microdata.php:223-235 | At a non-root element with `itemscope` the walk visits only that element and appends it only if it has a property name. Nothing below it is walked. |
| PropertyResolver.FoundIsCollected | src/Malenki/Microdata.php:223-244 | A walk appends exactly the visited elements that are not the root and have a non-empty `prop()`, in visiting order. |
| PropertyResolver.CollectedMembers | src/Malenki/Microdata.php:223-230 | An element is collected from a visit list exactly when it is on the list, is not the root and has a property name. |
| PropertyResolver.DropMembers | src/Malenki/Microdata.php:214-220 | After unsetting a list of visited elements, exactly the work-list entries not on that list remain. |
| PropertyResolver.DropTwice | src/Malenki/Microdata.php:214-220 | Two successive walks leave the work-list as one walk over both visit lists would. |
| PropertyResolver.TraverseEach | src/Malenki/Microdata.php:195-198 | The loop over the elements matching one `itemref` id walks each of them in turn. Its unsets and appends are those of the individual walks, in order. |
| PropertyResolver.VisitsOfAppend | src/Malenki/Microdata.php:191-198 | Walking from the targets of several ids visits what walking id after id visits. |
| PropertyResolver.FoundOfAppend | src/Malenki/Microdata.php:191-198 | Walking from the targets of several ids appends what walking id after id appends. |
| PropertyResolver.FoundOfIsCollected | src/Malenki/Microdata.php:191-198 | The `itemref` walks together append exactly the collected elements among everything they visit, in visiting order. |
| PropertyResolver.PropertiesOf | src/Malenki/Microdata.php:173-208 | `properties()` is empty for an element without `itemscope`. Every element it returns is an element of the document, is not the root and has a non-empty `prop()`. Each one was visited by an `itemref` walk or by the walk over the root's subtree. |
| PropertyResolver.PropertiesAreCollected | src/Malenki/Microdata.php:173-208 | For an item, the result is the collected elements of the `itemref` walks (ids in `itemref` order, matches in document order), followed by those of the walk over the root's subtree. That second walk is skipped when an `itemref` walk reached the root. |
| PropertyResolver.Properties | src/Malenki/Microdata.php:173-208 | The method returns `PropertiesOf`. The final `while` loop runs at most once. It runs exactly when the element has `itemscope` and no `itemref` walk visited the root. |
| PropertyResolver.VisitedThroughOpenParent | src/Malenki/Microdata.php:232-244 | Every visited element other than the start is a child of a visited element at which the walk does not stop. Nothing is reached through a nested `itemscope`. |
| PropertyResolver.VisitedClosed | src/Malenki/Microdata.php:238-244 | Every child of a visited element at which the walk does not stop is visited. |
| Items.AddKeys | src/Malenki/Microdata.php:149 | `$properties[$n][] = $v` adds `n` as a new key at the end when it is new, and otherwise leaves the keys unchanged. |
| Items.AddLookup | src/Malenki/Microdata.php:149 | The list under `n` gains `v` at its end, and every other list is unchanged. |
| Items.AddAllSpec | src/Malenki/Microdata.php:147-150 | The inner loop appends `v` to the list under each name once per occurrence of that name among the element's names. |
| Items.AddAllKeys | src/Malenki/Microdata.php:147-150 | The inner loop adds the element's names not seen before as keys, in first-seen order, each once. |
| Items.AccumulateLookup | src/Malenki/Microdata.php:92-150 | Under each name sits each property element's value once per occurrence of the name among its names, in property-element order. |
| Items.AccumulateKeys | src/Malenki/Microdata.php:92-150 | The keys are the names of the property elements in first-seen order, with no repetitions. |
| Items.AccumulateNonEmpty | src/Malenki/Microdata.php:92-150 | Every key maps to a list with at least one value. |
| Microdata.TypeAndId | src/Malenki/Microdata.php:72-88 | `type` is null exactly when the trimmed `itemtype` is `""` or `"0"`. Otherwise it is a non-empty list of space-free tokens that join back to the trimmed value. `id` is null under the same rule for `itemid`, and otherwise it is the trimmed value. An absent attribute gives null. |
| Microdata.ScalarValueByTag | src/Malenki/Microdata.php:105-145 | For an element without `itemscope` that has a property name, the value is the text of the attribute named by the lower-cased tag's entry in the table (an absent attribute gives `""`), and otherwise the element's `textContent`. |
| Microdata.UnresolvedShrinks | src/Malenki/Microdata.php:100-101 | Pushing an item not yet in the history strictly shrinks the set of unresolved elements. |
| Microdata.PropertiesAreValued | src/Malenki/Microdata.php:92 | Every element `properties()` returns is an element of the document other than the item. |
| Microdata.ContributionsAt | src/Malenki/Microdata.php:92-150 | The i-th property element contributes its own names and its own value. |
| Microdata.ContributedNames | src/Malenki/Microdata.php:147-150 | The names contributed are the `prop()` lists of the property elements, one after the other. |
| Microdata.ItemProperties | src/Malenki/Microdata.php:92-151 | The property map's keys are the property elements' names in first-seen order, each once. Under each name sit the values of the elements carrying it, in order and once per occurrence. No list is empty. |
| Microdata.PropertyValue | src/Malenki/Microdata.php:94-145 | A property element with `itemscope` gives `'ERROR'` exactly when it is already in the history; otherwise it gives the nested item resolved with the current item appended to the history. Any other element gives its scalar value by tag. A value is never null and never the element itself. |
| Microdata.NestedHistory | src/Malenki/Microdata.php:94-103 | Starting from a history without repetitions that does not hold the item, a nested item's value is that item resolved with the item appended to the history, and that history is still without repetitions and does not hold the nested item. |
| Microdata.UnresolvedCount | src/Malenki/Microdata.php:94-103 | A history without repetitions is no longer than the document, so nested resolution is at most as deep as the number of elements. |
| Microdata.GetItems | src/Malenki/Microdata.php:69-154 | The loop, which pushes and pops the history, returns `ItemOf`: the type, the id and the accumulated property map described above. |
| Microdata.TopLevel | src/Malenki/Microdata.php:57 | The top-level query returns exactly the elements with an `itemscope` attribute and without an `itemprop` attribute (presence only), each once, in document order. |
| Microdata.Extract | src/Malenki/Microdata.php:52-65 | `extract()` returns one item per top-level element, in document order, each resolved with an empty history. |

## Left out

- The constructor (Microdata.php:42-48) is not modelled. It loads and parses HTML through `DOMDocument`, which is file and network I/O done by a foreign library. The parsed document is an input of the model instead.
- The XPath query strings (lines 57, 193, 239) are not modelled. The model uses the tree functions they compute. This includes the quoting problem when an `itemref` token contains `"`: the model matches the token literally.
- `__toString` and `json_encode` (lines 248-251) are serialisation and are not modelled.
- `test.php` is not part of this model. It is a command-line entry point.
- GetItems: the history test `in_array($elem, $arr_history)` uses PHP's loose comparison of objects. The model compares element identity.
- Items.Add: PHP turns numeric-string keys such as `"1"` into integer keys in `$out->properties`. The model keeps every name as a string.
- `textContent` is taken as given for each element. Whitespace handling by the parser (`preserveWhiteSpace`) is part of parsing and is not modelled.
- Dom.Node: only the attributes the extractor reads are represented (the microdata attributes, `id`, `content`, `src`, `href`, `data`, `value`, `datetime`). No other attribute affects the result.
- Dom.Valid: the document is any finite structure in which every child comes after its parent, so an element may be listed as the child of several elements. All results hold for that more general shape, and a tree is a special case.
- PropertyResolver.UnsetNode: the work-list is a sequence and `unset` removes entries. PHP keeps the remaining keys, so `$arr_to_traverse[0]` indexes by key. The two readings agree because the work-list only ever holds the root.
- Microdata.ValueOf: the `'ERROR'` marker is the text value `"ERROR"`, as in PHP. A scalar property whose text is `"ERROR"` cannot be told apart from it.
- PhpString.ToLower: `strtolower` is modelled as ASCII-only lower-casing. That is the behaviour of PHP 8.2 and later, and of the C locale. The locale-dependent lower-casing of earlier PHP versions is not modelled.
