/**
 * When deep mode's traversal (lines 57-77) completes and when it throws. Line 62 only ever
 * finds a string under a composite element's key when an earlier sibling stored one there,
 * so a tree in which no element has two element children with the same reference never
 * throws; and a leaf with non-empty text followed, with nothing of that key in between, by
 * a composite sibling with the same reference always does.
 */
module DeepSuccess {
  import opened Errors
  import opened Dom
  import opened CompactString
  import opened ElementReference
  import opened DeepTree
  import opened DeepTreeProps
  import opened DeepValueProps

  /** No element of the profile tree has two children with the same key, and no child is
      keyed `$text`. */
  predicate DistinctKeys(p: Profile)
    decreases p
  {
    && NamedKids(p)
    && (forall l, m :: 0 <= l < m < |p.kids| ==> p.kids[l].key != p.kids[m].key)
    && (forall l :: 0 <= l < |p.kids| ==> DistinctKeys(p.kids[l]))
  }

  /** A traversal of a profile tree with distinct keys completes, provided a composite root
      finds nothing under its key. */
  lemma {:induction false} TraverseSucceeds(h: Heap, parent: Option<nat>, obj: nat, p: Profile)
    requires WellFormed(h) && obj < |h| && (parent.Some? ==> parent.value < |h|)
    requires DistinctKeys(p)
    requires p.kids != [] ==> p.key !in h[obj]
    ensures Traverse(h, parent, obj, p).Success?
    decreases p, 1
  {
    if p.kids != [] {
      var h2 := EnterStep(h, obj, p);
      EnterStepFrame(h, obj, p);
      var n := NodeOf(h, obj, p.key);
      assert forall k :: k in h2[n] ==> k == HoistKey;
      KidsSucceed(h2, obj, n, p, |p.kids|);
    }
  }

  /** The children of a profile with distinct keys, traversed into a node holding at most
      `$text`, complete: each finds nothing under its key. */
  lemma {:induction false} KidsSucceed(h: Heap, obj: nat, node: nat, p: Profile, i: nat)
    requires WellFormed(h) && obj < node < |h| && i <= |p.kids|
    requires DistinctKeys(p)
    requires forall k :: k in h[node] ==> k == HoistKey
    ensures TraverseKids(h, obj, node, p, i).Success?
    decreases p, 0, i
  {
    if i > 0 {
      KidsSucceed(h, obj, node, p, i - 1);
      var r' := TraverseKids(h, obj, node, p, i - 1).value;
      var c := p.kids[i - 1];
      KidsNodeKeys(h, obj, node, p, i - 1, c.key);
      assert KeyUnused(p.kids, 0, i - 1, c.key);
      TraverseSucceeds(r', Some(obj), node, c);
    }
  }

  /** Deep mode on a profile tree with distinct keys does not throw. */
  lemma DeepOfSucceeds(p: Profile)
    requires DistinctKeys(p)
    ensures DeepOf(p).Success?
  {
    WellFormedFresh();
    TraverseSucceeds([map[]], None, 0, p);
  }

  /** Child `j` is a leaf with non-empty compacted text and child `m`, the next child with its
      key, is composite: line 70 stores the string, line 62 keeps it (a non-empty string is
      truthy), and writing `$text` or a grandchild's key on it throws. */
  lemma LeafThenCompositeThrows(h: Heap, parent: Option<nat>, obj: nat, p: Profile, j: nat, m: nat)
    requires WellFormed(h) && obj < |h| && (parent.Some? ==> parent.value < |h|)
    requires j < m < |p.kids|
    requires p.kids[j].kids == [] && p.kids[j].key.Named? && p.kids[j].compact != ""
    requires p.kids[m].kids != [] && p.kids[m].key == p.kids[j].key
    requires KeyUnused(p.kids, j + 1, m, p.kids[j].key)
    ensures Traverse(h, parent, obj, p) == Failure(TypeError)
  {
    if !StringInTheWay(h, obj, p.key) {
      var h2 := EnterStep(h, obj, p);
      var n := NodeOf(h, obj, p.key);
      var before := TraverseKids(h2, obj, n, p, m);
      if before.Success? {
        KidsLastLeafWins(h2, obj, n, p, m, j);
        assert StringInTheWay(before.value, n, p.kids[m].key);
      }
      assert TraverseKids(h2, obj, n, p, m + 1).Failure?;
      KidsFailureSticks(h2, obj, n, p, m + 1, |p.kids|);
    }
  }

  // ----- in element terms -----

  /** No element of the tree rooted at `e` has two element children with the same
      reference. */
  predicate DistinctChildRefs(e: Element)
    decreases e
  {
    && (forall l, m :: 0 <= l < m < |Children(e)| ==> Reference(Children(e)[l]) != Reference(Children(e)[m]))
    && (forall l :: 0 <= l < |Children(e)| ==> (ChildInChildren(e, l); DistinctChildRefs(Children(e)[l])))
  }

  lemma {:induction false} DistinctProfile(e: Element)
    requires DistinctChildRefs(e)
    ensures DistinctKeys(ProfileOf(e))
    decreases e
  {
    var p := ProfileOf(e);
    ProfileNamedKids(e);
    forall l, m | 0 <= l < m < |p.kids| ensures p.kids[l].key != p.kids[m].key {
      ProfileKid(e, l);
      ProfileKid(e, m);
    }
    forall l | 0 <= l < |p.kids| ensures DistinctKeys(p.kids[l]) {
      ProfileKid(e, l);
      ChildInChildren(e, l);
      DistinctProfile(Children(e)[l]);
    }
  }

  /** Deep mode does not throw on an element no element of whose subtree, itself included,
      has two element children with the same reference. */
  lemma DeepSucceeds(e: Element)
    requires DistinctChildRefs(e)
    ensures DeepValue(e).Success?
  {
    DistinctProfile(e);
    DeepOfSucceeds(ProfileOf(e));
  }

  /** Deep mode throws on an element with a leaf child of non-empty text followed by a
      composite child with the same reference, no child in between having it: for instance
      `<div><p>a</p><p><b></b></p></div>`. */
  lemma DeepLeafThenCompositeThrows(e: Element, j: nat, m: nat)
    requires j < m < |Children(e)|
    requires Children(Children(e)[j]) == [] && Compact(TextContent(Children(e)[j])) != ""
    requires Children(Children(e)[m]) != [] && Reference(Children(e)[m]) == Reference(Children(e)[j])
    requires forall l :: j < l < m ==> Reference(Children(e)[l]) != Reference(Children(e)[j])
    ensures DeepValue(e) == Failure(TypeError)
  {
    var p := ProfileOf(e);
    ProfileKid(e, j);
    ProfileKid(e, m);
    ProfileOfFields(Children(e)[j]);
    ProfileOfFields(Children(e)[m]);
    assert KeyUnused(p.kids, j + 1, m, p.kids[j].key) by {
      forall l | j < l < m ensures p.kids[l].key != p.kids[j].key {
        ProfileKid(e, l);
      }
    }
    WellFormedFresh();
    LeafThenCompositeThrows([map[]], None, 0, p, j, m);
  }
}
