/**
 * What deep mode returns for one matched element (lines 87-89): a fresh object whose only
 * key is the element's reference. A leaf element maps to its compacted text; a composite one
 * maps to an object holding its children's keys and, possibly, `$text`.
 */
module DeepValueProps {
  import opened Errors
  import opened Dom
  import opened CompactString
  import opened ElementReference
  import opened DeepTree
  import opened DeepTreeProps

  /** The root call of a leaf profile stores its compacted text under its key in `deepObj`,
      and, `parentObj` being `undefined`, deletes nothing. */
  lemma RootLeaf(p: Profile)
    requires p.kids == []
    ensures Traverse([map[]], None, 0, p) == Success([map[p.key := Str(p.compact)]])
  {
    var h0: Heap := [map[]];
    assert SetProp(h0, 0, p.key, Str(p.compact)) == [map[p.key := Str(p.compact)]];
  }

  /** The heap the root call of a composite profile works on once line 66 has run:
      `deepObj[key]` is a new object, holding `$text` when the raw text is not empty. */
  lemma RootEnter(p: Profile)
    ensures var h2 := EnterStep([map[]], 0, p);
      && NodeOf([map[]], 0, p.key) == 1 && |h2| == 2
      && h2[0] == map[p.key := Ref(1)]
      && h2[1] == (if |p.text| > 0 then map[HoistKey := Str(p.compact)] else map[])
  {
    EnterStepFrame([map[]], 0, p);
  }

  /** The root call of a composite profile: `deepObj` holds only the element's key, which
      refers to object 1. Object 1 holds `$text`, the compacted text, exactly when the raw
      text is not empty and no grandchild's raw text equals that compacted text; its other
      keys are exactly its children's keys. */
  lemma RootComposite(p: Profile)
    requires p.kids != [] && p.key.Named? && NamedKids(p)
    requires Traverse([map[]], None, 0, p).Success?
    ensures var r := Traverse([map[]], None, 0, p).value;
      && 1 < |r| && r[0] == map[p.key := Ref(1)]
      && (HoistKey in r[1] <==>
            |p.text| > 0 && NoGrandText(p.compact, p))
      && (HoistKey in r[1] ==> r[1][HoistKey] == Str(p.compact))
      && (forall k: Key :: k.Named? ==> (k in r[1] <==> !KeyUnused(p.kids, 0, |p.kids|, k)))
  {
    var h0: Heap := [map[]];
    var h2 := EnterStep(h0, 0, p);
    RootEnter(p);
    var n := |p.kids|;
    var h3 := TraverseKids(h2, 0, 1, p, n).value;
    assert Traverse(h0, None, 0, p).value == h3;
    KidsFrame(h2, 0, 1, p, n);
    assert p.kids[..n] == p.kids;
    DedupAllSpec(h2[0], p.kids);
    KidsNodeText(h2, 0, 1, p, n);
    forall k: Key | k.Named? ensures k in h3[1] <==> !KeyUnused(p.kids, 0, n, k) {
      KidsNodeKeys(h2, 0, 1, p, n, k);
    }
  }

  /** Last leaf wins at the root: child `j` of a composite profile is a leaf and no later
      child has its key, so object 1 holds that child's compacted text under it. */
  lemma RootLastLeaf(p: Profile, j: nat)
    requires j < |p.kids| && p.kids[j].kids == [] && p.kids[j].key.Named?
    requires KeyUnused(p.kids, j + 1, |p.kids|, p.kids[j].key)
    requires Traverse([map[]], None, 0, p).Success?
    ensures var r := Traverse([map[]], None, 0, p).value;
      1 < |r| && p.kids[j].key in r[1] && r[1][p.kids[j].key] == Str(p.kids[j].compact)
  {
    var h0: Heap := [map[]];
    var h2 := EnterStep(h0, 0, p);
    RootEnter(p);
    var h3 := TraverseKids(h2, 0, 1, p, |p.kids|).value;
    assert Traverse(h0, None, 0, p).value == h3;
    KidsLastLeafWins(h2, 0, 1, p, |p.kids|, j);
  }

  /** Composite siblings sharing a key merge: when `obj[key]` already refers to an object,
      the traversal keeps that reference, and every key of that object other than `$text`
      is still there afterwards. */
  lemma CompositeMerges(h: Heap, parent: Option<nat>, obj: nat, p: Profile, k: Key)
    requires WellFormed(h) && obj < |h| && (parent.Some? ==> parent.value < obj)
    requires p.kids != [] && p.key.Named? && Reuses(h, obj, p.key)
    requires Traverse(h, parent, obj, p).Success?
    requires k.Named? && k in NodeBefore(h, obj, p.key)
    ensures var r := Traverse(h, parent, obj, p).value;
      var n := h[obj][p.key].id;
      && p.key in r[obj] && r[obj][p.key] == h[obj][p.key]
      && n < |r| && k in r[n]
  {
    var n := NodeOf(h, obj, p.key);
    NodeOfBounds(h, obj, p.key);
    TraverseFrame(h, parent, obj, p);
    var m := h[obj][p.key := KeyValue(h, obj, p)];
    assert m == h[obj];
    DedupAllSpec(m, p.kids);
    var h2 := EnterStep(h, obj, p);
    EnterStepFrame(h, obj, p);
    var h3 := TraverseKids(h2, obj, n, p, |p.kids|).value;
    KidsNodeKeys(h2, obj, n, p, |p.kids|, k);
    assert Traverse(h, parent, obj, p).value == DedupParent(h3, parent, p.text);
  }

  /** The keys of a materialized object are the keys of the heap object, its strings are
      copied and its references are followed. */
  lemma MaterializeFields(h: Heap, id: nat, k: Key)
    requires WellFormed(h) && id < |h|
    ensures var fs := Materialize(h, id).fields;
      && (k in fs <==> k in h[id])
      && (k in h[id] && h[id][k].Str? ==> fs[k] == JStr(h[id][k].s))
      && (k in h[id] && h[id][k].Ref? ==> h[id][k].id < |h| && fs[k] == Materialize(h, h[id][k].id))
  {
    if k in h[id] && h[id][k].Ref? {
      RefTarget(h, id, k);
    }
  }

  /** Profile keys are element references, so none is `$text`. */
  lemma ProfileNamedKids(e: Element)
    ensures ProfileOf(e).key.Named? && NamedKids(ProfileOf(e))
  {
    var p := ProfileOf(e);
    forall l | 0 <= l < |p.kids| ensures p.kids[l].key.Named? {
      ProfileKid(e, l);
    }
  }

  /** Child `l` of `e` has no element child with raw text `s`, in element terms. */
  lemma KidNoChildText(e: Element, l: nat, s: string)
    requires l < |Children(e)|
    ensures NoChildText(Str(s), ProfileOf(e).kids[l]) <==> NoChildTextIn(s, Children(e)[l])
  {
    ProfileKid(e, l);
    var c := Children(e)[l];
    forall g | 0 <= g < |Children(c)| ensures ProfileOf(c).kids[g].text == TextContent(Children(c)[g]) {
      ProfileKid(c, g);
      ProfileOfFields(Children(c)[g]);
    }
  }

  /** No grandchild profile of `p` has raw text `s`. */
  predicate NoGrandText(s: string, p: Profile)
  {
    forall l :: 0 <= l < |p.kids| ==> NoChildText(Str(s), p.kids[l])
  }

  /** The grandchild test in profile terms and in element terms agree. */
  lemma GrandchildrenText(e: Element, s: string)
    ensures NoGrandText(s, ProfileOf(e)) <==> NoGrandchildText(s, e)
  {
    var p := ProfileOf(e);
    if NoGrandText(s, p) {
      forall l | 0 <= l < |Children(e)| ensures NoChildTextIn(s, Children(e)[l]) {
        KidNoChildText(e, l, s);
      }
    }
    if NoGrandchildText(s, e) {
      forall l | 0 <= l < |p.kids| ensures NoChildText(Str(s), p.kids[l]) {
        KidNoChildText(e, l, s);
      }
    }
  }

  /** No grandchild of `e` has raw text `s`. */
  predicate NoGrandchildText(s: string, e: Element)
  {
    forall l :: 0 <= l < |Children(e)| ==> NoChildTextIn(s, Children(e)[l])
  }

  /** No element child of `c` has raw text `s`. */
  predicate NoChildTextIn(s: string, c: Element)
  {
    forall g :: 0 <= g < |Children(c)| ==> s != TextContent(Children(c)[g])
  }

  /** Some element child of `e` has reference `name`. */
  predicate SomeChildNamed(e: Element, name: string)
  {
    exists l :: 0 <= l < |Children(e)| && Reference(Children(e)[l]) == name
  }

  lemma ChildKeys(e: Element, name: string)
    ensures !KeyUnused(ProfileOf(e).kids, 0, |Children(e)|, Named(name)) <==> SomeChildNamed(e, name)
  {
    var p := ProfileOf(e);
    forall l | 0 <= l < |p.kids| ensures p.kids[l].key == Named(Reference(Children(e)[l])) {
      ProfileKid(e, l);
    }
  }

  /** Deep mode's result for a leaf profile: `{ [key]: compact }`. */
  lemma DeepOfLeaf(p: Profile)
    requires p.kids == []
    ensures DeepOf(p) == Success(JObj(map[p.key := JStr(p.compact)]))
  {
    RootLeaf(p);
    var h: Heap := [map[p.key := Str(p.compact)]];
    assert WellFormed(h);
    var fs := Materialize(h, 0).fields;
    forall k: Key | k in fs ensures k == p.key && fs[k] == JStr(p.compact) {
      MaterializeFields(h, 0, k);
    }
    MaterializeFields(h, 0, p.key);
    assert fs == map[p.key := JStr(p.compact)];
  }

  /** Deep mode's result for a composite profile that does not throw: `{ [key]: node }` where
      node is object 1 of the heap the traversal leaves. */
  lemma DeepOfRoot(p: Profile)
    requires p.kids != [] && p.key.Named? && NamedKids(p)
    requires DeepOf(p).Success?
    ensures var r := Traverse([map[]], None, 0, p).value;
      1 < |r| && DeepOf(p).value == JObj(map[p.key := Materialize(r, 1)])
  {
    WellFormedFresh();
    RootComposite(p);
    var r := Traverse([map[]], None, 0, p).value;
    var fs := Materialize(r, 0).fields;
    forall k: Key | k in fs ensures k == p.key {
      MaterializeFields(r, 0, k);
    }
    MaterializeFields(r, 0, p.key);
    assert fs == map[p.key := Materialize(r, 1)];
  }

  /** Deep mode's result for a composite profile, seen from the object its key holds:
      `$text` is there, holding the compacted text, exactly when the raw text is not empty
      and no grandchild's raw text equals the compacted text; its other keys are exactly the
      children's keys. */
  lemma DeepOfComposite(p: Profile)
    requires p.kids != [] && p.key.Named? && NamedKids(p)
    requires DeepOf(p).Success?
    ensures var fs := DeepOf(p).value.fields;
      && fs.Keys == {p.key} && fs[p.key].JObj?
      && (HoistKey in fs[p.key].fields <==>
            |p.text| > 0 && NoGrandText(p.compact, p))
      && (HoistKey in fs[p.key].fields ==> fs[p.key].fields[HoistKey] == JStr(p.compact))
      && (forall k: Key :: k.Named? ==> (k in fs[p.key].fields <==> !KeyUnused(p.kids, 0, |p.kids|, k)))
  {
    WellFormedFresh();
    RootComposite(p);
    DeepOfRoot(p);
    var r := Traverse([map[]], None, 0, p).value;
    MaterializeFields(r, 1, HoistKey);
    forall k: Key | k.Named? ensures k in Materialize(r, 1).fields <==> k in r[1] {
      MaterializeFields(r, 1, k);
    }
  }

  /** Last leaf wins in deep mode's result for a composite profile. */
  lemma DeepOfLastLeaf(p: Profile, j: nat)
    requires p.key.Named? && NamedKids(p) && j < |p.kids| && p.kids[j].kids == []
    requires KeyUnused(p.kids, j + 1, |p.kids|, p.kids[j].key)
    requires DeepOf(p).Success?
    ensures var fs := DeepOf(p).value.fields;
      && p.key in fs && fs[p.key].JObj? && p.kids[j].key in fs[p.key].fields
      && fs[p.key].fields[p.kids[j].key] == JStr(p.kids[j].compact)
  {
    WellFormedFresh();
    RootLastLeaf(p, j);
    DeepOfRoot(p);
    var r := Traverse([map[]], None, 0, p).value;
    MaterializeFields(r, 1, p.kids[j].key);
  }

  /** Deep mode on a leaf element (lines 69-72 at the root): `{ [reference]: compactString(text) }`. */
  lemma DeepLeaf(e: Element)
    requires Children(e) == []
    ensures DeepValue(e) == Success(JObj(map[Named(Reference(e)) := JStr(Compact(TextContent(e)))]))
  {
    DeepOfLeaf(ProfileOf(e));
  }

  /** Deep mode on a composite element (lines 61-68 at the root) that does not throw: one key,
      the element's reference, holding an object. */
  lemma DeepCompositeKeys(e: Element)
    requires Children(e) != [] && DeepValue(e).Success?
    ensures var fs := DeepValue(e).value.fields;
      fs.Keys == {Named(Reference(e))} && fs[Named(Reference(e))].JObj?
  {
    ProfileNamedKids(e);
    DeepOfComposite(ProfileOf(e));
  }

  /** The object a composite root maps to holds `$text`, the compacted text, exactly when the
      raw text is not empty (line 64) and no grandchild's raw text equals the compacted text
      (line 75, run by each grandchild against its grandparent's object). */
  lemma DeepHoistedText(e: Element)
    requires Children(e) != [] && DeepValue(e).Success?
    ensures var fs := DeepValue(e).value.fields;
      var key := Named(Reference(e));
      && key in fs && fs[key].JObj?
      && (HoistKey in fs[key].fields <==>
            |TextContent(e)| > 0 && NoGrandchildText(Compact(TextContent(e)), e))
      && (HoistKey in fs[key].fields ==> fs[key].fields[HoistKey] == JStr(Compact(TextContent(e))))
  {
    var p := ProfileOf(e);
    ProfileNamedKids(e);
    DeepOfComposite(p);
    GrandchildrenText(e, p.compact);
  }

  /** The keys other than `$text` of the object a composite root maps to are exactly the
      references of the root's element children: siblings sharing a reference share a key. */
  lemma DeepChildKeys(e: Element, name: string)
    requires Children(e) != [] && DeepValue(e).Success?
    ensures var fs := DeepValue(e).value.fields;
      var key := Named(Reference(e));
      && key in fs && fs[key].JObj?
      && (Named(name) in fs[key].fields <==> SomeChildNamed(e, name))
  {
    var p := ProfileOf(e);
    ProfileNamedKids(e);
    DeepOfComposite(p);
    ChildKeys(e, name);
  }

  /** Last leaf wins (lines 69-72): a leaf child of a composite root that no later sibling
      shares its reference with leaves its compacted text under that reference. */
  lemma DeepLastLeafWins(e: Element, j: nat)
    requires j < |Children(e)| && Children(Children(e)[j]) == []
    requires forall l :: j < l < |Children(e)| ==> Reference(Children(e)[l]) != Reference(Children(e)[j])
    requires DeepValue(e).Success?
    ensures var fs := DeepValue(e).value.fields;
      var key := Named(Reference(e));
      var child := Named(Reference(Children(e)[j]));
      && key in fs && fs[key].JObj? && child in fs[key].fields
      && fs[key].fields[child] == JStr(Compact(TextContent(Children(e)[j])))
  {
    var p := ProfileOf(e);
    ProfileNamedKids(e);
    ProfileKid(e, j);
    assert KeyUnused(p.kids, j + 1, |p.kids|, p.kids[j].key) by {
      forall l | j < l < |p.kids| ensures p.kids[l].key != p.kids[j].key {
        ProfileKid(e, l);
      }
    }
    DeepOfLastLeaf(p, j);
  }
}
