/**
 * Deep mode (`traverseChildren`, scrape.controller.js lines 57-77). The JavaScript objects
 * the traversal builds and mutates live in a heap: object `i` is `objects[i]`, a map from
 * property names to values, and a value is either a string or a reference to another
 * object. The builder writes `obj[nodeRef]`, sets `.$text` and deletes `parentObj.$text` in
 * place; `Traverse` is the same computation as a function of the heap it starts from.
 */
module DeepTree {
  import opened Errors
  import opened Dom
  import opened CompactString
  import opened ElementReference

  /** A property name: the reserved `$text`, holding a composite element's hoisted text, or
      an element's key. (The markup comes from a browser's `outerHTML`, whose element names
      never start with `$`, so no element key is ever "$text"; `ElementReference.NotHoistKey`
      states this, and the two kinds of name are kept apart here.) */
  datatype Key = HoistKey | Named(name: string)

  /** What lines 57-77 read from an element: its key (line 60), its raw text (line 59), that
      text compacted (lines 65 and 71) and its element children (lines 61 and 68). */
  datatype Profile = Profile(key: Key, text: string, compact: string, kids: seq<Profile>)

  function ProfileOf(e: Element): (p: Profile)
    ensures |p.kids| == |Children(e)|
  {
    var cs := Children(e);
    var kids := seq(|cs|, i requires 0 <= i < |cs| => ChildInChildren(e, i); ProfileOf(cs[i]));
    Profile(Named(Reference(e)), TextContent(e), Compact(TextContent(e)), kids)
  }

  /** The fields of an element's profile. */
  lemma ProfileOfFields(e: Element)
    ensures var p := ProfileOf(e);
      p.key == Named(Reference(e)) && p.text == TextContent(e) && p.compact == Compact(p.text)
  {
  }

  /** Child `i` of an element's profile is the profile of its element child `i`. */
  lemma ProfileKid(e: Element, i: nat)
    requires i < |Children(e)|
    ensures ProfileOf(e).kids[i] == ProfileOf(Children(e)[i])
  {
  }

  datatype JsValue = Str(s: string) | Ref(id: nat)

  type JsObject = map<Key, JsValue>

  type Heap = seq<JsObject>

  /** Every reference held by object `i` points to an object allocated after it. */
  ghost predicate RefsForward(h: Heap, i: int)
    requires 0 <= i < |h|
  {
    forall k :: k in h[i] && h[i][k].Ref? ==> i < h[i][k].id < |h|
  }

  /** Every reference points to an object allocated later than the one holding it: the
      object graph is acyclic, as it is for objects only ever stored into older ones. */
  ghost predicate WellFormed(h: Heap)
  {
    forall i :: 0 <= i < |h| ==> RefsForward(h, i)
  }

  /** `deepObj = {}` (line 87) on its own. */
  lemma WellFormedFresh()
    ensures WellFormed([map[]])
  {
  }

  /** `h[o][k] = v` */
  function SetProp(h: Heap, o: nat, k: Key, v: JsValue): Heap
    requires o < |h|
  {
    h[o := h[o][k := v]]
  }

  /** Lines 74-76 on one object: `delete m.$text` when `$text` is exactly the string `text`. */
  function Dedup(m: JsObject, text: string): JsObject
  {
    if HoistKey in m && m[HoistKey] == Str(text) then m - {HoistKey} else m
  }

  /** Lines 74-76: `parentObj` is `undefined` at the root call, and `_.get` then yields
      `undefined`, which no string equals. */
  function DedupParent(h: Heap, parent: Option<nat>, text: string): Heap
    requires parent.Some? ==> parent.value < |h|
  {
    if parent.Some? then h[parent.value := Dedup(h[parent.value], text)] else h
  }

  lemma WellFormedAlloc(h: Heap)
    requires WellFormed(h)
    ensures WellFormed(h + [map[]])
  {
    var h': Heap := h + [map[]];
    forall i | 0 <= i < |h'| ensures RefsForward(h', i) {
      if i < |h| {
        assert RefsForward(h, i);
        assert h'[i] == h[i];
      }
    }
  }

  lemma WellFormedSetStr(h: Heap, o: nat, k: Key, s: string)
    requires WellFormed(h) && o < |h|
    ensures WellFormed(SetProp(h, o, k, Str(s)))
  {
    var h': Heap := SetProp(h, o, k, Str(s));
    forall i | 0 <= i < |h'| ensures RefsForward(h', i) {
      assert RefsForward(h, i);
    }
  }

  lemma WellFormedSetRef(h: Heap, o: nat, k: Key, j: nat)
    requires WellFormed(h) && o < j < |h|
    ensures WellFormed(SetProp(h, o, k, Ref(j)))
  {
    var h': Heap := SetProp(h, o, k, Ref(j));
    forall i | 0 <= i < |h'| ensures RefsForward(h', i) {
      assert RefsForward(h, i);
    }
  }

  lemma WellFormedDelete(h: Heap, o: nat, k: Key)
    requires WellFormed(h) && o < |h|
    ensures WellFormed(h[o := h[o] - {k}])
  {
    var h': Heap := h[o := h[o] - {k}];
    forall i | 0 <= i < |h'| ensures RefsForward(h', i) {
      assert RefsForward(h, i);
    }
  }

  lemma WellFormedDedup(h: Heap, parent: Option<nat>, text: string)
    requires WellFormed(h) && (parent.Some? ==> parent.value < |h|)
    ensures WellFormed(DedupParent(h, parent, text))
  {
    if parent.Some? && HoistKey in h[parent.value] && h[parent.value][HoistKey] == Str(text) {
      WellFormedDelete(h, parent.value, HoistKey);
    } else {
      assert DedupParent(h, parent, text) == h;
    }
  }

  /** A reference stored in a well-formed heap points forward. */
  lemma RefTarget(h: Heap, o: nat, k: Key)
    requires WellFormed(h) && o < |h| && k in h[o] && h[o][k].Ref?
    ensures o < h[o][k].id < |h|
  {
    assert RefsForward(h, o);
  }

  /** A leaf element (lines 69-72, then 74-76): its compacted text is stored under its key. */
  function LeafStep(h: Heap, parent: Option<nat>, obj: nat, p: Profile): (r: Heap)
    requires WellFormed(h) && obj < |h| && (parent.Some? ==> parent.value < |h|)
    ensures WellFormed(r) && |r| == |h|
  {
    WellFormedSetStr(h, obj, p.key, p.compact);
    WellFormedDedup(SetProp(h, obj, p.key, Str(p.compact)), parent, p.text);
    DedupParent(SetProp(h, obj, p.key, Str(p.compact)), parent, p.text)
  }

  /** Line 62 finds an object already stored under the key: composite siblings merge. */
  predicate Reuses(h: Heap, obj: nat, key: Key)
    requires obj < |h|
  {
    key in h[obj] && h[obj][key].Ref?
  }

  /** The object a composite element's children go into (line 62): the one already under its
      key when that is an object, otherwise a new empty one stored there. */
  function NodeOf(h: Heap, obj: nat, key: Key): nat
    requires obj < |h|
  {
    if Reuses(h, obj, key) then h[obj][key].id else |h|
  }

  lemma NodeOfBounds(h: Heap, obj: nat, key: Key)
    requires WellFormed(h) && obj < |h|
    ensures Reuses(h, obj, key) ==> obj < NodeOf(h, obj, key) < |h|
  {
    if Reuses(h, obj, key) {
      RefTarget(h, obj, key);
    }
  }

  /** Line 62 when `obj[nodeRef]` is not already an object: `obj[nodeRef] = {}`. */
  function AttachNew(h: Heap, obj: nat, key: Key): (r: Heap)
    requires WellFormed(h) && obj < |h|
    ensures WellFormed(r) && |r| == |h| + 1
  {
    WellFormedAlloc(h);
    WellFormedSetRef(h + [map[]], obj, key, |h|);
    SetProp(h + [map[]], obj, key, Ref(|h|))
  }

  /** Lines 62-66 for a composite element whose key does not hold a non-empty string: the
      heap once `obj[nodeRef]` is an object and `$text` is set when the text is non-empty. */
  function EnterStep(h: Heap, obj: nat, p: Profile): (r: Heap)
    requires WellFormed(h) && obj < |h|
    ensures WellFormed(r) && |h| <= |r| && obj < NodeOf(h, obj, p.key) < |r|
  {
    var node := NodeOf(h, obj, p.key);
    NodeOfBounds(h, obj, p.key);
    var h1 := if Reuses(h, obj, p.key) then h else AttachNew(h, obj, p.key);
    WellFormedSetStr(h1, node, HoistKey, p.compact);
    if |p.text| > 0 then SetProp(h1, node, HoistKey, Str(p.compact)) else h1
  }

  /** Line 62 meets a non-empty string under the key: strict mode then throws. */
  predicate StringInTheWay(h: Heap, obj: nat, key: Key)
    requires obj < |h|
  {
    key in h[obj] && h[obj][key].Str? && h[obj][key].s != ""
  }

  /** `traverseChildren(parentObj, obj, i, e)` run on heap `h`, for an element with profile
      `p`: the heap afterwards, or the TypeError strict mode raises when a composite element
      meets a non-empty string already stored under its key (writing `$text`, or a child's
      key, on a string primitive). */
  function Traverse(h: Heap, parent: Option<nat>, obj: nat, p: Profile): (r: Result<Heap>)
    requires WellFormed(h) && obj < |h| && (parent.Some? ==> parent.value < |h|)
    ensures r.Success? ==> WellFormed(r.value) && |h| <= |r.value|
    ensures r.Failure? ==> r.error == TypeError
    decreases p, 1
  {
    if p.kids == [] then
      Success(LeafStep(h, parent, obj, p))
    else if StringInTheWay(h, obj, p.key) then
      Failure(TypeError)
    else
      var h2 := EnterStep(h, obj, p);
      match TraverseKids(h2, obj, NodeOf(h, obj, p.key), p, |p.kids|)
      case Failure(err) => Failure(err)
      case Success(h3) =>
        WellFormedDedup(h3, parent, p.text);
        Success(DedupParent(h3, parent, p.text))
  }

  /** The first `i` element children traversed in order (line 68), each with
      `parentObj := obj` and `obj := node`. */
  function TraverseKids(h: Heap, obj: nat, node: nat, p: Profile, i: nat): (r: Result<Heap>)
    requires WellFormed(h) && obj < |h| && node < |h| && i <= |p.kids|
    ensures r.Success? ==> WellFormed(r.value) && |h| <= |r.value|
    ensures r.Failure? ==> r.error == TypeError
    decreases p, 0, i
  {
    if i == 0 then Success(h)
    else
      match TraverseKids(h, obj, node, p, i - 1)
      case Failure(err) => Failure(err)
      case Success(h') => Traverse(h', Some(obj), node, p.kids[i - 1])
  }

  /** Once a child has thrown, the traversal of the remaining children is not reached. */
  lemma {:induction false} KidsFailureSticks(h: Heap, obj: nat, node: nat, p: Profile, i: nat, j: nat)
    requires WellFormed(h) && obj < |h| && node < |h| && i <= j <= |p.kids|
    requires TraverseKids(h, obj, node, p, i).Failure?
    ensures TraverseKids(h, obj, node, p, j).Failure?
    decreases j
  {
    if j > i {
      KidsFailureSticks(h, obj, node, p, i, j - 1);
      var q := TraverseKids(h, obj, node, p, j - 1);
      assert q.Failure?;
      assert TraverseKids(h, obj, node, p, j) == Failure(q.error);
    }
  }

  /** One more child: the traversal of the first `i + 1` children is the `i`-th child's
      traversal run on the heap the first `i` leave. */
  lemma KidsStep(h: Heap, obj: nat, node: nat, p: Profile, i: nat)
    requires WellFormed(h) && obj < |h| && node < |h| && i < |p.kids|
    requires TraverseKids(h, obj, node, p, i).Success?
    ensures TraverseKids(h, obj, node, p, i + 1)
         == Traverse(TraverseKids(h, obj, node, p, i).value, Some(obj), node, p.kids[i])
  {
  }

  lemma ChildInChildren(e: Element, i: nat)
    requires i < |Children(e)|
    ensures Elem(Children(e)[i]) in e.children
  {
    assert Children(e)[i] in ElementsOf(e.children);
  }

  /** The heap in which `traverseChildren` runs. */
  class JsHeap {
    var objects: Heap

    ghost predicate Valid()
      reads this
    {
      WellFormed(objects)
    }

    /** A heap holding one empty object, `deepObj` (line 87), as object 0. */
    constructor ()
      ensures Valid() && objects == [map[]]
    {
      objects := [map[]];
    }

    /** Lines 62-66 for a composite element: makes `obj[key]` an object unless it already is
        one, sets its `$text` to `compact` when `text` is non-empty, and returns that object. */
    method Enter(obj: nat, key: Key, text: string, compact: string, ghost p: Profile) returns (node: nat)
      requires Valid() && obj < |objects| && !StringInTheWay(objects, obj, key)
      requires p.key == key && p.text == text && p.compact == compact
      modifies this
      ensures node == NodeOf(old(objects), obj, key)
      ensures objects == EnterStep(old(objects), obj, p) && Valid()
    {
      ghost var h0 := objects;
      // obj[nodeRef] = obj[nodeRef] || {}
      if key in objects[obj] && objects[obj][key].Ref? {
        node := objects[obj][key].id;
        RefTarget(objects, obj, key);
      } else {
        node := |objects|;
        objects := SetProp(objects + [map[]], obj, key, Ref(node));
        assert objects == AttachNew(h0, obj, key);
      }
      // obj[nodeRef].$text = compactString($node.text())
      if |text| > 0 {
        objects := SetProp(objects, node, HoistKey, Str(compact));
      }
    }

    /** Lines 74-76: `delete parentObj.$text` when it equals the element's raw text. */
    method DeleteDuplicate(parent: Option<nat>, text: string)
      requires Valid() && (parent.Some? ==> parent.value < |objects|)
      modifies this
      ensures objects == DedupParent(old(objects), parent, text) && Valid()
    {
      WellFormedDedup(objects, parent, text);
      if parent.Some? && HoistKey in objects[parent.value] && objects[parent.value][HoistKey] == Str(text) {
        objects := objects[parent.value := objects[parent.value] - {HoistKey}];
      }
    }

    /** Lines 57-77. Returns false when the traversal throws. */
    method TraverseChildren(parent: Option<nat>, obj: nat, e: Element) returns (ok: bool)
      requires Valid() && obj < |objects| && (parent.Some? ==> parent.value < |objects|)
      modifies this
      ensures ok == Traverse(old(objects), parent, obj, ProfileOf(e)).Success?
      ensures ok ==> objects == Traverse(old(objects), parent, obj, ProfileOf(e)).value && Valid()
      decreases e, 2
    {
      var key := Named(Reference(e));
      var text := TextContent(e);
      var compact := Compact(text);
      if |Children(e)| > 0 {
        if StringInTheWay(objects, obj, key) {
          return false;
        }
        var node := Enter(obj, key, text, compact, ProfileOf(e));
        ok := VisitKids(obj, node, e);
        if !ok {
          return;
        }
      } else {
        // obj[nodeRef] = compactString($node.text())
        WellFormedSetStr(objects, obj, key, compact);
        objects := SetProp(objects, obj, key, Str(compact));
      }
      DeleteDuplicate(parent, text);
      ok := true;
    }

    /** Line 68: `$node.children().each(...)`, each child traversed with `parentObj := obj`
        and `obj := node`. Returns false when a child's traversal throws. */
    method VisitKids(obj: nat, node: nat, e: Element) returns (ok: bool)
      requires Valid() && obj < |objects| && node < |objects|
      modifies this
      ensures ok == TraverseKids(old(objects), obj, node, ProfileOf(e), |ProfileOf(e).kids|).Success?
      ensures ok ==> objects == TraverseKids(old(objects), obj, node, ProfileOf(e), |ProfileOf(e).kids|).value && Valid()
      decreases e, 1
    {
      ghost var start := objects;
      ghost var p := ProfileOf(e);
      var n := |Children(e)|;
      var i := 0;
      while i < n
        invariant 0 <= i <= n == |p.kids|
        invariant TraverseKids(start, obj, node, p, i) == Success(objects)
        invariant Valid() && |start| <= |objects|
      {
        ok := VisitKid(obj, node, e, i, start);
        if !ok {
          KidsFailureSticks(start, obj, node, p, i + 1, n);
          return;
        }
        i := i + 1;
      }
      ok := true;
    }

    /** The body of the loop at line 68 for child `i`, after the children before it have
        been traversed from heap `start`. */
    method VisitKid(obj: nat, node: nat, e: Element, i: nat, ghost start: Heap) returns (ok: bool)
      requires WellFormed(start) && obj < |start| && node < |start| && i < |ProfileOf(e).kids|
      requires TraverseKids(start, obj, node, ProfileOf(e), i) == Success(objects)
      requires Valid() && |start| <= |objects|
      modifies this
      ensures ok == TraverseKids(start, obj, node, ProfileOf(e), i + 1).Success?
      ensures ok ==> TraverseKids(start, obj, node, ProfileOf(e), i + 1) == Success(objects)
      ensures ok ==> Valid() && |start| <= |objects|
      decreases e, 0
    {
      ChildInChildren(e, i);
      ProfileKid(e, i);
      KidsStep(start, obj, node, ProfileOf(e), i);
      ok := TraverseChildren(Some(obj), node, Children(e)[i]);
    }
  }

  /** A JSON-like value: what a deep-mode result object serialises to. */
  datatype Json = JStr(s: string) | JObj(fields: map<Key, Json>)

  /** The value of object `id`, references followed. */
  function Materialize(h: Heap, id: nat): Json
    requires WellFormed(h) && id < |h|
    decreases |h| - id, 1
  {
    JObj(map k | k in h[id] :: FieldValue(h, id, k))
  }

  /** The value of property `k` of object `id`, references followed. */
  function FieldValue(h: Heap, id: nat, k: Key): Json
    requires WellFormed(h) && id < |h| && k in h[id]
    decreases |h| - id, 0
  {
    match h[id][k]
    case Str(s) => JStr(s)
    case Ref(j) =>
      RefTarget(h, id, k);
      Materialize(h, j)
  }

  /** Lines 87-89 for an element with profile `p`: `deepObj = {}`, then
      `traverseChildren(undefined, deepObj, undefined, e)`. */
  function DeepOf(p: Profile): Result<Json>
  {
    WellFormedFresh();
    match Traverse([map[]], None, 0, p)
    case Failure(err) => Failure(err)
    case Success(h) => Success(Materialize(h, 0))
  }

  /** Deep mode's result for element `e`. */
  function DeepValue(e: Element): (r: Result<Json>)
    ensures r.Failure? ==> r.error == TypeError
  {
    DeepOf(ProfileOf(e))
  }

  /** Lines 87-89 run on a fresh heap. */
  method DeepExtract(e: Element) returns (r: Result<Json>)
    ensures r == DeepValue(e)
  {
    var heap := new JsHeap();
    var ok := heap.TraverseChildren(None, 0, e);
    if ok {
      r := Success(Materialize(heap.objects, 0));
    } else {
      r := Failure(TypeError);
    }
  }
}
