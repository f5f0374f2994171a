/**
 * What deep mode does to the objects it touches. A traversal of element `e` with
 * `parentObj` P and `obj` O writes `O[key]`, deletes `$text` from O once for every element
 * child of `e` whose raw text equals it (each such child deletes its own `parentObj.$text`,
 * and that is O), deletes `$text` from P when it equals `e`'s raw text, and leaves every other
 * object older than O alone.
 */
module DeepTreeProps {
  import opened Errors
  import opened Dom
  import opened CompactString
  import opened ElementReference
  import opened DeepTree

  /** `Dedup` once per element of `cs`, in order: what the children of an element do to the
      object holding that element's own key. */
  function DedupAll(m: JsObject, cs: seq<Profile>): JsObject
  {
    if cs == [] then m else Dedup(DedupAll(m, cs[..|cs| - 1]), cs[|cs| - 1].text)
  }

  /** The value line 62 or line 70 leaves under the element's key in `obj`. */
  function KeyValue(h: Heap, obj: nat, p: Profile): JsValue
    requires obj < |h|
  {
    if p.kids == [] then Str(p.compact) else Ref(NodeOf(h, obj, p.key))
  }

  /** The object the children of a composite element go into, before line 65 runs: the one
      found under its key, or a new empty one. */
  function NodeBefore(h: Heap, obj: nat, key: Key): JsObject
    requires WellFormed(h) && obj < |h|
  {
    NodeOfBounds(h, obj, key);
    if Reuses(h, obj, key) then h[NodeOf(h, obj, key)] else map[]
  }

  /** Deduplicating only ever removes `$text`: the object afterwards is either unchanged or
      lacks `$text`, and it still holds `$text` exactly when no element of `cs` has raw text
      equal to it. */
  lemma {:induction false} DedupAllSpec(m: JsObject, cs: seq<Profile>)
    ensures DedupAll(m, cs) == m || (HoistKey in m && DedupAll(m, cs) == m - {HoistKey})
    ensures HoistKey in DedupAll(m, cs) <==>
      HoistKey in m && forall k :: 0 <= k < |cs| ==> m[HoistKey] != Str(cs[k].text)
  {
    if cs != [] {
      var init := cs[..|cs| - 1];
      DedupAllSpec(m, init);
      assert forall k :: 0 <= k < |init| ==> init[k] == cs[k];
    }
  }

  /** Lines 62-66: `obj[key]` refers to the node, `$text` is set on it when the text is not
      empty, and every other object older than `obj` is untouched. */
  lemma EnterStepFrame(h: Heap, obj: nat, p: Profile)
    requires WellFormed(h) && obj < |h|
    ensures var r := EnterStep(h, obj, p);
      var n := NodeOf(h, obj, p.key);
      && (forall j :: 0 <= j < obj ==> r[j] == h[j])
      && r[obj] == h[obj][p.key := Ref(n)]
      && r[n] == (if |p.text| > 0 then NodeBefore(h, obj, p.key)[HoistKey := Str(p.compact)]
                  else NodeBefore(h, obj, p.key))
  {
    NodeOfBounds(h, obj, p.key);
    if Reuses(h, obj, p.key) {
      assert h[obj][p.key := Ref(NodeOf(h, obj, p.key))] == h[obj];
    }
  }

  /** A successful traversal of `e` from `(parent, obj)` leaves the objects older than `obj`
      alone, except that `parent` may lose its `$text` to `e`'s raw text; and `obj` gets `e`'s
      key, after which `e`'s element children may delete its `$text`. */
  lemma {:induction false} TraverseFrame(h: Heap, parent: Option<nat>, obj: nat, p: Profile)
    requires WellFormed(h) && obj < |h| && (parent.Some? ==> parent.value < obj)
    requires Traverse(h, parent, obj, p).Success?
    ensures var r := Traverse(h, parent, obj, p).value;
      && (forall j :: 0 <= j < obj && Some(j) != parent ==> r[j] == h[j])
      && (parent.Some? ==> r[parent.value] == Dedup(h[parent.value], p.text))
      && r[obj] == DedupAll(h[obj][p.key := KeyValue(h, obj, p)], p.kids)
    decreases p, 1
  {
    if p.kids != [] {
      var h2 := EnterStep(h, obj, p);
      var n := NodeOf(h, obj, p.key);
      EnterStepFrame(h, obj, p);
      KidsFrame(h2, obj, n, p, |p.kids|);
      assert p.kids[..|p.kids|] == p.kids;
    }
  }

  /** The first `i` children traversed into `node` leave every object older than `node`
      alone except `obj`, the object holding `e`'s key, from which each child deletes
      `$text` when the `$text` equals the child's raw text. */
  lemma {:induction false} KidsFrame(h: Heap, obj: nat, node: nat, p: Profile, i: nat)
    requires WellFormed(h) && obj < node < |h| && i <= |p.kids|
    requires TraverseKids(h, obj, node, p, i).Success?
    ensures var r := TraverseKids(h, obj, node, p, i).value;
      && (forall j :: 0 <= j < node && j != obj ==> r[j] == h[j])
      && r[obj] == DedupAll(h[obj], p.kids[..i])
    decreases p, 0, i
  {
    if i > 0 {
      var cs := p.kids;
      KidsFrame(h, obj, node, p, i - 1);
      var r' := TraverseKids(h, obj, node, p, i - 1).value;
      TraverseFrame(r', Some(obj), node, cs[i - 1]);
      assert cs[..i][..i - 1] == cs[..i - 1];
    }
  }

  /** A successful traversal of `i` children is the successful traversal of the first
      `i - 1` followed by child `i - 1`'s. */
  lemma KidsSuccessStep(h: Heap, obj: nat, node: nat, p: Profile, i: nat)
    requires WellFormed(h) && obj < |h| && node < |h| && 0 < i <= |p.kids|
    requires TraverseKids(h, obj, node, p, i).Success?
    ensures TraverseKids(h, obj, node, p, i - 1).Success?
    ensures TraverseKids(h, obj, node, p, i)
         == Traverse(TraverseKids(h, obj, node, p, i - 1).value, Some(obj), node, p.kids[i - 1])
  {
  }

  /** No child of `p` is keyed `$text`: element keys start with a tag name. */
  predicate NamedKids(p: Profile)
  {
    forall l :: 0 <= l < |p.kids| ==> p.kids[l].key.Named?
  }

  /** None of the element children of `c` has raw text equal to `v`. */
  predicate NoChildText(v: JsValue, c: Profile)
  {
    forall g :: 0 <= g < |c.kids| ==> v != Str(c.kids[g].text)
  }

  /** No element of `cs[lo..hi]` has the key `k`. */
  predicate KeyUnused(cs: seq<Profile>, lo: int, hi: int, k: Key)
  {
    forall l :: lo <= l < hi && 0 <= l < |cs| ==> cs[l].key != k
  }

  /** Writing a key other than `$text` and then deduplicating against `cs` keeps `$text`
      exactly when the object had it and no element of `cs` matches it, and then keeps its
      value. */
  lemma WriteThenDedupHoist(m: JsObject, k: Key, v: JsValue, cs: seq<Profile>)
    requires k != HoistKey
    ensures var r := DedupAll(m[k := v], cs);
      && (HoistKey in r <==> HoistKey in m && forall g :: 0 <= g < |cs| ==> m[HoistKey] != Str(cs[g].text))
      && (HoistKey in r ==> r[HoistKey] == m[HoistKey])
  {
    DedupAllSpec(m[k := v], cs);
  }

  /** Writing key `k` and then deduplicating leaves `k` holding the value written and any
      other key `k2` but `$text` as it was. */
  lemma WriteThenDedupKey(m: JsObject, k: Key, v: JsValue, cs: seq<Profile>, k2: Key)
    requires k2 != HoistKey
    ensures var r := DedupAll(m[k := v], cs);
      && (k2 == k ==> k2 in r && r[k2] == v)
      && (k2 != k ==> (k2 in r <==> k2 in m) && (k2 in m ==> r[k2] == m[k2]))
  {
    DedupAllSpec(m[k := v], cs);
  }

  /** Child `i - 1` writes its key into the node and then its own children deduplicate
      the node's `$text`; nothing else in the node changes. */
  lemma KidsChildEffect(h: Heap, obj: nat, node: nat, p: Profile, i: nat)
    requires WellFormed(h) && obj < node < |h| && 0 < i <= |p.kids|
    requires TraverseKids(h, obj, node, p, i).Success?
    ensures TraverseKids(h, obj, node, p, i - 1).Success?
    ensures var r' := TraverseKids(h, obj, node, p, i - 1).value;
      var c := p.kids[i - 1];
      && node < |r'|
      && TraverseKids(h, obj, node, p, i).value[node]
         == DedupAll(r'[node][c.key := KeyValue(r', node, c)], c.kids)
  {
    KidsSuccessStep(h, obj, node, p, i);
    var r' := TraverseKids(h, obj, node, p, i - 1).value;
    var c := p.kids[i - 1];
    TraverseFrame(r', Some(obj), node, c);
    var rc := Traverse(r', Some(obj), node, c).value;
    assert TraverseKids(h, obj, node, p, i).value == rc;
  }

  lemma {:induction false} KidsNodeText(h: Heap, obj: nat, node: nat, p: Profile, i: nat)
    requires WellFormed(h) && obj < node < |h| && i <= |p.kids| && NamedKids(p)
    requires TraverseKids(h, obj, node, p, i).Success?
    ensures var r := TraverseKids(h, obj, node, p, i).value;
      && (HoistKey in r[node] <==>
            HoistKey in h[node] && forall l :: 0 <= l < i ==> NoChildText(h[node][HoistKey], p.kids[l]))
      && (HoistKey in r[node] ==> r[node][HoistKey] == h[node][HoistKey])
    decreases i
  {
    if i > 0 {
      var cs := p.kids;
      var c := cs[i - 1];
      KidsChildEffect(h, obj, node, p, i);
      KidsNodeText(h, obj, node, p, i - 1);
      var r' := TraverseKids(h, obj, node, p, i - 1).value;
      var m := r'[node];
      WriteThenDedupHoist(m, c.key, KeyValue(r', node, c), c.kids);
      if HoistKey in h[node] {
        var v := h[node][HoistKey];
        assert (forall l :: 0 <= l < i ==> NoChildText(v, cs[l]))
           <==> (forall l :: 0 <= l < i - 1 ==> NoChildText(v, cs[l])) && NoChildText(v, c);
      }
    }
  }

  /** The keys of the node other than `$text`, after the first `i` children: the ones it
      had and the children's keys. */
  lemma {:induction false} KidsNodeKeys(h: Heap, obj: nat, node: nat, p: Profile, i: nat, k: Key)
    requires WellFormed(h) && obj < node < |h| && i <= |p.kids| && k != HoistKey
    requires TraverseKids(h, obj, node, p, i).Success?
    ensures var r := TraverseKids(h, obj, node, p, i).value;
      && (k in r[node] <==> k in h[node] || !KeyUnused(p.kids, 0, i, k))
      && (KeyUnused(p.kids, 0, i, k) && k in h[node] ==> r[node][k] == h[node][k])
    decreases i
  {
    if i > 0 {
      var cs := p.kids;
      var c := cs[i - 1];
      KidsChildEffect(h, obj, node, p, i);
      KidsNodeKeys(h, obj, node, p, i - 1, k);
      var r' := TraverseKids(h, obj, node, p, i - 1).value;
      WriteThenDedupKey(r'[node], c.key, KeyValue(r', node, c), c.kids, k);
      if c.key != k {
        assert KeyUnused(cs, 0, i, k) <==> KeyUnused(cs, 0, i - 1, k);
      } else {
        assert !KeyUnused(cs, 0, i, k);
      }
    }
  }

  /** Last leaf wins: when child `j` is a leaf and no later child among the first `i` has
      its key, the node holds that child's compacted text under it. */
  lemma {:induction false} KidsLastLeafWins(h: Heap, obj: nat, node: nat, p: Profile, i: nat, j: nat)
    requires WellFormed(h) && obj < node < |h| && j < i <= |p.kids|
    requires p.kids[j].kids == [] && p.kids[j].key.Named?
    requires KeyUnused(p.kids, j + 1, i, p.kids[j].key)
    requires TraverseKids(h, obj, node, p, i).Success?
    ensures var r := TraverseKids(h, obj, node, p, i).value;
      var k := p.kids[j].key;
      k in r[node] && r[node][k] == Str(p.kids[j].compact)
    decreases i
  {
    var cs := p.kids;
    var k := cs[j].key;
    var c := cs[i - 1];
    KidsChildEffect(h, obj, node, p, i);
    var r' := TraverseKids(h, obj, node, p, i - 1).value;
    WriteThenDedupKey(r'[node], c.key, KeyValue(r', node, c), c.kids, k);
    if j < i - 1 {
      assert c.key != k;
      KidsLastLeafWins(h, obj, node, p, i - 1, j);
    }
  }
}
