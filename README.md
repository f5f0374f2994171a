# Habitat scraping: the DOM extraction core, modelled in Dafny

This project models the part of Habitat-Scraping's scrape controller
(`server/controllers/scrape.controller.js`) that turns a fetched page into results. The model covers these steps:

- `compactString`, the whitespace normaliser.
- `getElementReference`, the key an element is stored under.
- `traverseChildren`, the deep-mode builder. It writes nested JavaScript objects in place, stores a
  composite element's text under the reserved key `$text`, and deletes duplicate `$text` entries.
- `parseDOM`. It picks a mode for each matched element: complete markup, deep object, or shallow text. Then it drops the falsy results (`_.compact`).
- The `selector` query parameter. It falls back to a default and has every `$` turned into `#`.
- `scrapeHelper`. It splits the selector on `,` and makes one `{selector, count, events}` bundle per piece.
- `constructEventObject`. It zips the first three bundles into event records.
- `sendEvent`, the message it publishes for each record.

Module layout, one module per file:

| file | module | source |
|---|---|---|
| errors.dfy | `Errors` | the exceptions (`TypeError`, a selector syntax error), `Result`, `Option`, and `map` with a callback that may throw |
| dom.dfy | `Dom` | the parsed document: elements with tag, class, id and child nodes; `.children()` and `.text()` |
| string_util.dfy | `StringUtil` | one-character `replace(/c/g, d)`, `split` and `join` |
| compact_string.dfy | `CompactString` | `compactString` (line 7) |
| element_reference.dfy | `ElementReference` | `getElementReference` (line 55) |
| deep_tree.dfy | `DeepTree` | `traverseChildren` (lines 57-77): the object heap, the class `JsHeap` whose methods update it in place, and the function `Traverse` that specifies them |
| deep_tree_props.dfy | `DeepTreeProps` | what one traversal does to the objects it touches |
| deep_value.dfy | `DeepValueProps` | deep mode's result for one element (lines 87-89) |
| deep_success.dfy | `DeepSuccess` | when deep mode completes and when it throws (lines 57-77) |
| deep_compose.dfy | `DeepCompose` | how a child's deep value sits inside its parent's (lines 57-77) |
| parse_dom.dfy | `ParseDom` | the `.map` callback and `_.compact` (lines 80-95) |
| scrape.dfy | `Scrape` | the selector parameter (lines 100, 119-124) and the split into bundles (lines 189-193) |
| events.dfy | `Events` | `constructEventObject` (lines 161-181) and `sendEvent` (lines 143-158) |

How `traverseChildren` is modelled:

- The objects live in a heap, a sequence of maps. A property holds a string or a reference to a
  later object, so the object graph is acyclic.
- `JsHeap.TraverseChildren` and its loop over the children (`JsHeap.VisitKids`) change the heap
  the way lines 62, 65, 71 and 75 do.
- Each method is proved equal to `Traverse`, a function of the starting heap.
- `Traverse` reads, for each element, only the four things the code reads (a `Profile`):
  - the key
  - the raw text
  - the compacted text
  - the element children

The model follows the code in these points:

- The id is marked with `$`, not `#`. The class separator is `_`.
- A bundle's list is called `events`.
- The event zip checks no lengths. A missing title or description is `undefined` (`None`).
- The dedup rule deletes the `$text` of the grandparent element, not of the parent: a node deletes
  the `$text` of the map that holds its parent's entry. It compares its *raw* text with that *compacted* `$text`.
  So an element's `$text` goes exactly when some grandchild's raw text equals it
  (`DeepValueProps.DeepHoistedText`).
- A composite element can find a non-empty string already stored under its key. This happens when a
  leaf with that key was stored earlier in the same object. Line 62 then keeps the string, and writing
  `$text` or a child key on it throws in the module's strict mode. The model returns
  `Failure(TypeError)` for this. It is an error path, not a precondition, and it aborts the
  whole request as the rejected promise does. Deep mode throws on every element with such a pair of
  children (`DeepSuccess.DeepLeafThenCompositeThrows`), and never throws on an element no element of
  whose subtree, itself included, has two element children with one reference (`DeepSuccess.DeepSucceeds`).

Selector matching and markup serialisation are parameters of the model:

- `select` maps a selector piece to the matched elements, or to a selector error.
- `serialize` maps an element to its markup.

## Model

| member | source | states |
|---|---|---|
| CompactString.CompactShape | server/controllers/scrape.controller.js:7 | every result of `compactString` has no newline or tab, no whitespace at either end, only plain spaces as whitespace, and never two whitespace characters in a row |
| CompactString.CompactNonSpaces | server/controllers/scrape.controller.js:7 | `compactString` keeps every non-whitespace character of its input, in order, and adds none |
| CompactString.CompactFixedPoint | server/controllers/scrape.controller.js:7 | a string already of that shape is its own `compactString` |
| CompactString.CompactIdempotent | server/controllers/scrape.controller.js:7 | applying `compactString` twice gives the same as once |
| CompactString.NewlineOrTabDeleted | server/controllers/scrape.controller.js:7 | a newline or tab is deleted outright, not turned into a space |
| CompactString.NewlineJoins | server/controllers/scrape.controller.js:7 | two compact pieces joined by a newline or tab come out glued together with no space |
| CompactString.DropNewlinesTabsSpec | server/controllers/scrape.controller.js:7 | the first pass removes every newline and tab and keeps every other non-whitespace character |
| CompactString.CollapseSpacesShape | server/controllers/scrape.controller.js:7 | the second pass leaves single plain spaces only, and leaves an empty string empty and only an empty string empty |
| CompactString.CollapseSpacesNonSpaces | server/controllers/scrape.controller.js:7 | the second pass keeps the non-whitespace characters |
| CompactString.CollapseSingleSpaced | server/controllers/scrape.controller.js:7 | the second pass leaves an already single-spaced string unchanged |
| CompactString.TrimShape | server/controllers/scrape.controller.js:7 | `trim` of a single-spaced string has no whitespace at either end |
| CompactString.TrimNonSpaces | server/controllers/scrape.controller.js:7 | `trim` removes whitespace only |
| CompactString.TrimStartSpec | server/controllers/scrape.controller.js:7 | the start `trim` finds is the first non-whitespace position, and everything before it is whitespace |
| CompactString.TrimEndSpec | server/controllers/scrape.controller.js:7 | the end `trim` finds follows the last non-whitespace character, and everything after it is whitespace |
| CompactString.RunBecomesSpace | server/controllers/scrape.controller.js:7 | a run of whitespace that holds a character other than a newline or tab, between two pieces with non-whitespace, becomes exactly one space between their compacted forms |
| CompactString.LeadingSpaceVanishes | server/controllers/scrape.controller.js:7 | whitespace before the text vanishes: `compactString` of it followed by the text is `compactString` of the text |
| CompactString.TrailingSpaceVanishes | server/controllers/scrape.controller.js:7 | whitespace after the text vanishes in the same way |
| CompactString.CompactBlank | server/controllers/scrape.controller.js:7 | text without a non-whitespace character compacts to the empty string |
| CompactString.Compact | server/controllers/scrape.controller.js:7 | `compactString` as the three passes; its properties are the rows `CompactShape`, `CompactNonSpaces`, `CompactFixedPoint`, `CompactIdempotent`, `NewlineOrTabDeleted`, `NewlineJoins`, `RunBecomesSpace`, `LeadingSpaceVanishes`, `TrailingSpaceVanishes` and `CompactBlank` |
| ElementReference.ReferenceFormat | server/controllers/scrape.controller.js:55 | the key is the tag name, then `_` and the class with every space replaced by `_` when the class is non-empty, then `$` and the id when the id is non-empty |
| ElementReference.NotHoistKey | server/controllers/scrape.controller.js:55 | a key that starts with a tag name that does not start with `$` is never `$text` |
| ElementReference.SpacesAndUnderscoresCollide | server/controllers/scrape.controller.js:55 | keys are not unique: class `a b` and class `a_b` give the same key |
| ElementReference.ReferenceIgnoresContent | server/controllers/scrape.controller.js:55 | the key depends only on the tag name, the class and the id, never on the content |
| ElementReference.Reference | server/controllers/scrape.controller.js:55 | `getElementReference`; its format, what it ignores and where it collides are the rows `ReferenceFormat`, `ReferenceIgnoresContent` and `SpacesAndUnderscoresCollide` |
| StringUtil.ReplaceAllSpec | server/controllers/scrape.controller.js:55 | `replace(/c/g, d)` turns every `c` into `d` and leaves every other character in place |
| DeepTree.JsHeap.TraverseChildren | server/controllers/scrape.controller.js:57-77 | the in-place traversal ends in the heap `Traverse` computes from the old heap, and throws exactly when `Traverse` fails |
| DeepTree.JsHeap.VisitKids | server/controllers/scrape.controller.js:68 | the loop over the element children ends in the heap the traversal of all the children computes, or stops at the first throw |
| DeepTree.JsHeap.VisitKid | server/controllers/scrape.controller.js:68 | one child, traversed with `parentObj := obj` and `obj := node`, extends the traversal of the children before it |
| DeepTree.JsHeap.Enter | server/controllers/scrape.controller.js:62-66 | `obj[key]` becomes a new object unless it already refers to one; `$text` is set to the compacted text only when the raw text is non-empty; the object is returned |
| DeepTree.JsHeap.DeleteDuplicate | server/controllers/scrape.controller.js:74-76 | `$text` is removed from `parentObj` exactly when it equals the raw text |
| DeepTree.Traverse | server/controllers/scrape.controller.js:57-77 | the traversal keeps the heap acyclic and only adds objects; its only error is `TypeError` |
| DeepTree.KidsFailureSticks | server/controllers/scrape.controller.js:68 | once a child throws, the remaining children are not traversed |
| DeepTree.DeepExtract | server/controllers/scrape.controller.js:87-89 | a fresh `deepObj`, traversed and read back, is deep mode's value for the element |
| DeepTreeProps.DedupAllSpec | server/controllers/scrape.controller.js:74-76 | deleting duplicates removes `$text` and nothing else; `$text` survives exactly when no deleting element's raw text equals it |
| DeepTreeProps.EnterStepFrame | server/controllers/scrape.controller.js:62-66 | entering a composite element changes `obj[key]` and the node's `$text`, and no object older than `obj` |
| DeepTreeProps.TraverseFrame | server/controllers/scrape.controller.js:57-77 | a traversal changes no object older than `obj` except `parentObj`; `parentObj` can only lose its `$text`, when that equals the element's raw text; `obj[key]` ends holding the element's value, and `obj` can lose its `$text` to a child |
| DeepTreeProps.KidsFrame | server/controllers/scrape.controller.js:68 | the children touch no object older than the node except `obj`, from which each child may delete `$text` |
| DeepTreeProps.KidsNodeText | server/controllers/scrape.controller.js:64-65 | the node keeps the `$text` it was given exactly when no grandchild's raw text equals it |
| DeepTreeProps.KidsNodeKeys | server/controllers/scrape.controller.js:62 | the node's other keys are the keys it already had plus the children's keys; a key no child has keeps its value |
| DeepTreeProps.KidsLastLeafWins | server/controllers/scrape.controller.js:71 | of several children with one key, the last leaf's compacted text is what stays, unless a later child has that key |
| DeepTreeProps.WriteThenDedupKey | server/controllers/scrape.controller.js:71-75 | writing a key and then deleting duplicates leaves that key holding the value written and every other key but `$text` as it was |
| DeepValueProps.CompositeMerges | server/controllers/scrape.controller.js:62 | composite siblings with one key share one object: the reference stays, and the keys the first sibling wrote are kept |
| DeepValueProps.MaterializeFields | server/controllers/scrape.controller.js:87-89 | the result object has the heap object's keys, copies its strings and follows its references |
| DeepValueProps.RootComposite | server/controllers/scrape.controller.js:61-68 | at the root, `deepObj` holds only the element's key, and it refers to a node that holds `$text`, the compacted text, exactly when the raw text is non-empty and no grandchild's raw text equals the compacted text, and whose other keys are exactly the children's keys |
| DeepValueProps.GrandchildrenText | server/controllers/scrape.controller.js:74-76 | the grandchild test seen through profiles and seen through elements agree |
| DeepValueProps.ChildKeys | server/controllers/scrape.controller.js:59 | a key is some child's key exactly when some element child has that reference |
| DeepValueProps.DeepLeaf | server/controllers/scrape.controller.js:69-72 | deep mode on a leaf gives `{ [reference]: compactString(text) }` |
| DeepValueProps.DeepCompositeKeys | server/controllers/scrape.controller.js:61-68 | a composite that does not throw gives an object with one key, its reference, holding an object |
| DeepValueProps.DeepHoistedText | server/controllers/scrape.controller.js:63-66 | that inner object holds `$text`, the compacted text, exactly when the raw text is non-empty and no grandchild's raw text equals the compacted text |
| DeepValueProps.DeepChildKeys | server/controllers/scrape.controller.js:68 | the inner object's other keys are exactly the references of the element children |
| DeepValueProps.DeepLastLeafWins | server/controllers/scrape.controller.js:71 | a leaf child that no later sibling shares a reference with has its compacted text under its reference |
| DeepTree.DeepValue | server/controllers/scrape.controller.js:87-89 | deep mode on one element; its only error is `TypeError`, and its shape is stated by the `DeepValueProps`, `DeepSuccess` and `DeepCompose` rows |
| DeepSuccess.TraverseSucceeds | server/controllers/scrape.controller.js:57-77 | a traversal of a profile tree in which no element has two children with one key completes, when a composite root finds nothing under its key |
| DeepSuccess.KidsSucceed | server/controllers/scrape.controller.js:68 | the children of such a tree, traversed into a node holding at most `$text`, complete |
| DeepSuccess.DeepOfSucceeds | server/controllers/scrape.controller.js:87-89 | deep mode on a profile tree with distinct keys does not throw |
| DeepSuccess.DeepSucceeds | server/controllers/scrape.controller.js:87-89 | deep mode does not throw on an element no element of whose subtree, itself included, has two element children with one reference |
| DeepSuccess.LeafThenCompositeThrows | server/controllers/scrape.controller.js:62-71 | a leaf child with non-empty compacted text, followed by a composite child with its key and nothing of that key in between, makes the traversal throw `TypeError` |
| DeepSuccess.DeepLeafThenCompositeThrows | server/controllers/scrape.controller.js:62-71 | the same in element terms: deep mode throws `TypeError` on such an element, for instance `<div><p>a</p><p><b></b></p></div>` |
| DeepCompose.TraverseMoved | server/controllers/scrape.controller.js:57-77 | a traversal does not depend on where its objects sit in the heap: moved objects traverse alike, succeed alike and stay moved alike |
| DeepCompose.TraverseOutside | server/controllers/scrape.controller.js:57-77 | a traversal outside a region of objects reachable only through one property, never writing that property, leaves the region and the property alone |
| DeepCompose.KidsPrefixSucceeds | server/controllers/scrape.controller.js:68 | when the loop over all the children completes, so does the loop over the first few |
| DeepCompose.ChildComposes | server/controllers/scrape.controller.js:62-68 | a composite child whose key no sibling has holds, in its parent's node, exactly the object deep mode gives it alone |
| DeepCompose.DeepChildComposes | server/controllers/scrape.controller.js:62-68 | in element terms: a composite child whose reference no sibling shares appears in its parent's deep value exactly as in its own |
| ParseDom.ExtractOne | server/controllers/scrape.controller.js:80-93 | only deep mode can fail, only when complete mode is off, and only with `TypeError` |
| ParseDom.JsCompactMembers | server/controllers/scrape.controller.js:95 | `_.compact` keeps exactly the truthy values |
| ParseDom.JsCompactLength | server/controllers/scrape.controller.js:95 | `_.compact` leaves as many values as there are truthy ones |
| ParseDom.JsCompactConcat | server/controllers/scrape.controller.js:95 | `_.compact` distributes over concatenation |
| ParseDom.JsCompactAllTruthy | server/controllers/scrape.controller.js:95 | `_.compact` leaves a list without falsy values as it is |
| ParseDom.CompleteFirst | server/controllers/scrape.controller.js:82-84 | with `complete` set, `deep` makes no difference and nothing throws |
| ParseDom.CompleteResults | server/controllers/scrape.controller.js:82-84 | in complete mode the results are the compacted markups of the matched elements, one per element in match order, with the empty ones dropped |
| ParseDom.DeepKeepsAll | server/controllers/scrape.controller.js:85-89 | deep mode drops nothing: one object per matched element, in match order, each that element's deep value |
| ParseDom.DeepThrows | server/controllers/scrape.controller.js:85-89 | in deep mode one throwing element makes `parseDOM` throw |
| ParseDom.ShallowResults | server/controllers/scrape.controller.js:90-95 | shallow results are the compacted texts of the matched elements, one per element in match order, with the empty ones dropped; each is non-empty and compact |
| ParseDom.DeepSingleKey | server/controllers/scrape.controller.js:85-89 | each deep result has exactly one key, its element's reference |
| ParseDom.DeepModeSucceeds | server/controllers/scrape.controller.js:85-89 | in deep mode on elements no element of whose subtrees, the matched elements included, has two element children with one reference, `parseDOM` does not throw and gives each element's deep object, one per element in match order |
| ParseDom.ParseDOM | server/controllers/scrape.controller.js:53-96 | `parseDOM` on the matched elements: it fails only in deep mode with `complete` off, only with `TypeError`, and never gives more results than matches; the mode rows above state its results |
| Errors.MapResult | server/controllers/scrape.controller.js:80-94 | `map` with a callback that may throw succeeds exactly when every call succeeds, and then gives the results in order; a failure is one of the calls' failures |
| Scrape.DollarToHash | server/controllers/scrape.controller.js:100 | `replace(/\$/g, '#')` keeps the length, leaves no `$`, and changes nothing else |
| Scrape.PageSelectorSpec | server/controllers/scrape.controller.js:100 | the selector of `scrapePage` has no `$`; it is `body` when none is given, and otherwise the parameter with `$` turned into `#` |
| Scrape.PageSelector | server/controllers/scrape.controller.js:100 | the selector of `scrapePage` never contains `$`; `PageSelectorSpec` states the rest |
| Scrape.DollarToHashIdentity | server/controllers/scrape.controller.js:100 | a selector without `$` is left as it is |
| Scrape.UWDefaultPieces | server/controllers/scrape.controller.js:119-124 | the default selector of `scrapeUWFeds` splits into the date, title and description selectors, in that order |
| Scrape.UWSelectorSpec | server/controllers/scrape.controller.js:119-124 | the selector of `scrapeUWFeds` has no `$`; it is the three default selectors when none is given, and otherwise the parameter with `$` turned into `#` |
| Scrape.UWSelector | server/controllers/scrape.controller.js:119-124 | the selector of `scrapeUWFeds` never contains `$`; `UWSelectorSpec`, `UWDefaultPieces` and `DefaultBundleOrder` state its value |
| Scrape.BundleOf | server/controllers/scrape.controller.js:190-191 | a bundle carries its selector piece and `count` equals the number of its events |
| Scrape.OneBundlePerPiece | server/controllers/scrape.controller.js:189-193 | one bundle per piece of the split, in order, duplicates kept, one more than the commas, each holding `parseDOM`'s results for its piece |
| Scrape.SelectorsRoundTrip | server/controllers/scrape.controller.js:189 | the bundles' selectors joined with `,` give back the selector string |
| Scrape.FailurePropagates | server/controllers/scrape.controller.js:190-193 | one failing piece fails the whole request |
| Scrape.ScrapeResults | server/controllers/scrape.controller.js:189-193 | one bundle per piece of the split, bundle `i` carrying piece `i`; `OneBundlePerPiece` states the rest |
| StringUtil.SplitCount | server/controllers/scrape.controller.js:189 | `split` gives one more piece than there are separators |
| StringUtil.SplitPiecesFree | server/controllers/scrape.controller.js:189 | no piece contains the separator |
| StringUtil.JoinSplit | server/controllers/scrape.controller.js:189 | joining the pieces with the separator gives back the string |
| StringUtil.SplitJoin | server/controllers/scrape.controller.js:189 | splitting a join of separator-free pieces gives back the pieces |
| Events.ConstructEvents | server/controllers/scrape.controller.js:161-170 | the loop builds the records `EventsOf` specifies, and throws `TypeError` with fewer than three bundles |
| Events.EventsOf | server/controllers/scrape.controller.js:161-164 | the events exist exactly when there are at least three bundles, one per entry of the first; otherwise `TypeError` |
| Events.Zip | server/controllers/scrape.controller.js:166-170 | one record per date; `ZipSpec` and `ZipUnzip` state the records |
| Events.ZipSpec | server/controllers/scrape.controller.js:166-170 | record `i` has date `i`, and title and description `i` when those lists are long enough, `undefined` otherwise; extra titles and descriptions are ignored |
| Events.ZipUnzip | server/controllers/scrape.controller.js:166-170 | when the three lists have one length, projecting the records gives them back |
| Events.PublishSpec | server/controllers/scrape.controller.js:143-151 | one message per record, each on topic `Events`, partition 0, type `ADD`, carrying that record with its category |
| Events.Publish | server/controllers/scrape.controller.js:171-178 | one message per record; `PublishSpec` states each message |
| Events.SendEvent | server/controllers/scrape.controller.js:143-151 | the one-entry message list of `sendEvent`; `PublishSpec` states its topic, partition, type and payload |
| Events.DefaultBundleOrder | server/controllers/scrape.controller.js:119-124 | with the default selectors, the three bundles are dates, titles and descriptions, and there is one event per date |
| Events.FewPiecesThrow | server/controllers/scrape.controller.js:162-164 | a custom selector with fewer than two commas makes building the events throw, when line 134 runs lines 162-164 on fewer than three bundles |

## Left out

- Fetching the page with puppeteer (`getBrowser`, `fetchPageWithPuppeteer`, the wait time) is left out. It is I/O.
- Selector matching and markup serialisation (cheerio's `$(selector)` and `.toString()`) are left out. They are foreign code, so they are parameters of the model.
- The express plumbing, `res.json`, the timing with `Date.now()` and the 400 response are left out. They are I/O and clocks.
- The classification POST in `constructEventObject` is left out. It is network I/O, so its answer is a parameter (`classify`).
- The order in which the classifier's answers arrive, and so the order in which messages are sent, is not modelled. `Publish` lists them in record order.
- `producer.send`, `kafka.js` and the routes are left out. They are I/O.
- `JSON.stringify` of the message is left out. `KafkaRecord` holds the message as a value.
- `decodeURIComponent` is treated as the identity. It is not modelled, and neither is the error it raises on malformed input.
- The query flags `deep` and `complete` are booleans in the model. In the source, any non-empty query string is truthy, even `"false"`.
- JavaScript property order is not modelled. Objects are maps.
- Properties inherited from the object prototype are not modelled. Keys are own keys only.
- `$text` is taken to be distinct from every element key (`Key` has a separate `HoistKey`). This holds whenever the tag name does not start with `$` (`ElementReference.NotHoistKey`). The markup comes from a browser's `outerHTML`, whose element names never start with `$`.
- Strings are sequences of characters. UTF-16 code units are not modelled.
- Sloppy-mode behaviour is left out. The module is an ES module, so it runs in strict mode.
- Errors.MapResult: on failure it states that the error is that of some call, not that it is the first one's.
