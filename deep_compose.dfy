/**
 * Deep mode composes (lines 57-77): under a composite child's key, the object deep mode
 * builds for a parent holds exactly what deep mode builds for that child alone, provided no
 * sibling shares the child's key. Two facts give this. The child's subtree is built in
 * fresh objects, the same objects a traversal of the child alone builds, only allocated
 * further on. And the siblings after it never reach those objects: the only reference to
 * them is the one under the child's key.
 */
module DeepCompose {
  import opened Errors
  import opened Dom
  import opened CompactString
  import opened ElementReference
  import opened DeepTree
  import opened DeepTreeProps
  import opened DeepValueProps

  // ----- the same objects, allocated further on -----

  /** A value with its reference, if it holds one, moved `d` objects on. */
  function Shift(v: JsValue, d: nat): JsValue
  {
    match v
    case Str(s) => Str(s)
    case Ref(j) => Ref(j + d)
  }

  function ShiftObj(m: JsObject, d: nat): JsObject
  {
    map k | k in m :: Shift(m[k], d)
  }

  /** Heap `t` holds the objects of heap `s` from object 1 on, moved `d` places on, their
      references moved with them. */
  ghost predicate Moved(s: Heap, t: Heap, d: nat)
  {
    && 1 <= |s| && |t| == |s| + d
    && forall i :: 1 <= i < |s| ==> t[i + d] == ShiftObj(s[i], d)
  }

  lemma ShiftSet(m: JsObject, d: nat, k: Key, v: JsValue)
    ensures ShiftObj(m[k := v], d) == ShiftObj(m, d)[k := Shift(v, d)]
  {
  }

  lemma ShiftDedup(m: JsObject, d: nat, text: string)
    ensures ShiftObj(Dedup(m, text), d) == Dedup(ShiftObj(m, d), text)
  {
    if HoistKey in m && m[HoistKey] == Str(text) {
      assert ShiftObj(m - {HoistKey}, d) == ShiftObj(m, d) - {HoistKey};
    } else if HoistKey in m {
      assert Shift(m[HoistKey], d) != Str(text);
    }
  }

  lemma MovedSet(s: Heap, t: Heap, d: nat, o: nat, k: Key, v: JsValue)
    requires Moved(s, t, d) && 1 <= o < |s|
    ensures Moved(SetProp(s, o, k, v), SetProp(t, o + d, k, Shift(v, d)), d)
  {
    ShiftSet(s[o], d, k, v);
    var s', t' := SetProp(s, o, k, v), SetProp(t, o + d, k, Shift(v, d));
    forall i | 1 <= i < |s'| ensures t'[i + d] == ShiftObj(s'[i], d) {
      if i != o {
        assert t'[i + d] == t[i + d];
      }
    }
  }

  lemma MovedAlloc(s: Heap, t: Heap, d: nat)
    requires Moved(s, t, d)
    ensures Moved(s + [map[]], t + [map[]], d)
  {
    assert ShiftObj(map[], d) == map[];
    var s', t' := s + [map[]], t + [map[]];
    forall i | 1 <= i < |s'| ensures t'[i + d] == ShiftObj(s'[i], d) {
      if i < |s| {
        assert t'[i + d] == t[i + d] && s'[i] == s[i];
      }
    }
  }

  /** Replacing an object of `t` ahead of the moved ones keeps the correspondence. */
  lemma MovedOutside(s: Heap, t: Heap, d: nat, j: nat, m: JsObject)
    requires Moved(s, t, d) && j < 1 + d
    ensures Moved(s, t[j := m], d)
  {
    var t' := t[j := m];
    forall i | 1 <= i < |s| ensures t'[i + d] == ShiftObj(s[i], d) {
      assert t'[i + d] == t[i + d];
    }
  }

  /** Lines 74-76 on corresponding parents: both moved, or both ahead of the moved objects. */
  lemma MovedDedup(s: Heap, t: Heap, d: nat, ps: nat, pt: nat, text: string)
    requires Moved(s, t, d) && ps < |s| && pt < |t|
    requires 1 <= ps ==> pt == ps + d
    requires ps == 0 ==> pt < 1 + d
    ensures Moved(DedupParent(s, Some(ps), text), DedupParent(t, Some(pt), text), d)
  {
    var s' := DedupParent(s, Some(ps), text);
    var t' := DedupParent(t, Some(pt), text);
    if ps == 0 {
      MovedOutside(s, t, d, pt, Dedup(t[pt], text));
      forall i | 1 <= i < |s'| ensures t'[i + d] == ShiftObj(s'[i], d) {
        assert s'[i] == s[i];
      }
    } else {
      ShiftDedup(s[ps], d, text);
      forall i | 1 <= i < |s'| ensures t'[i + d] == ShiftObj(s'[i], d) {
        if i != ps {
          assert t'[i + d] == t[i + d] && s'[i] == s[i];
        }
      }
    }
  }

  lemma MovedStringInTheWay(s: Heap, t: Heap, d: nat, o: nat, k: Key)
    requires Moved(s, t, d) && 1 <= o < |s|
    ensures StringInTheWay(t, o + d, k) <==> StringInTheWay(s, o, k)
    ensures Reuses(t, o + d, k) <==> Reuses(s, o, k)
    ensures Reuses(s, o, k) ==> t[o + d][k] == Ref(s[o][k].id + d)
  {
    assert t[o + d] == ShiftObj(s[o], d);
  }

  /** Lines 62-66 on corresponding objects. */
  lemma MovedEnter(s: Heap, t: Heap, d: nat, o: nat, p: Profile)
    requires WellFormed(s) && WellFormed(t) && Moved(s, t, d) && 1 <= o < |s|
    ensures NodeOf(t, o + d, p.key) == NodeOf(s, o, p.key) + d
    ensures Moved(EnterStep(s, o, p), EnterStep(t, o + d, p), d)
  {
    MovedStringInTheWay(s, t, d, o, p.key);
    NodeOfBounds(s, o, p.key);
    var n := NodeOf(s, o, p.key);
    var s1 := if Reuses(s, o, p.key) then s else AttachNew(s, o, p.key);
    var t1 := if Reuses(t, o + d, p.key) then t else AttachNew(t, o + d, p.key);
    if !Reuses(s, o, p.key) {
      MovedAlloc(s, t, d);
      MovedSet(s + [map[]], t + [map[]], d, o, p.key, Ref(|s|));
    }
    assert Moved(s1, t1, d);
    if |p.text| > 0 {
      MovedSet(s1, t1, d, n, HoistKey, Str(p.compact));
    }
  }

  /** A traversal at a moved object, with a parent moved with it or ahead of the moved
      objects, succeeds exactly when the traversal at the original object does, and leaves
      the objects moved the same way. */
  lemma {:induction false} TraverseMoved(s: Heap, t: Heap, d: nat, ps: nat, pt: nat, o: nat, p: Profile)
    requires WellFormed(s) && WellFormed(t) && Moved(s, t, d)
    requires 1 <= o < |s| && ps < o && pt < |t|
    requires 1 <= ps ==> pt == ps + d
    requires ps == 0 ==> pt < 1 + d
    ensures Traverse(s, Some(ps), o, p).Success? <==> Traverse(t, Some(pt), o + d, p).Success?
    ensures Traverse(s, Some(ps), o, p).Success? ==>
      Moved(Traverse(s, Some(ps), o, p).value, Traverse(t, Some(pt), o + d, p).value, d)
    decreases p, 2
  {
    if p.kids == [] {
      LeafMoved(s, t, d, ps, pt, o, p);
    } else {
      MovedStringInTheWay(s, t, d, o, p.key);
      if !StringInTheWay(s, o, p.key) {
        CompositeMoved(s, t, d, ps, pt, o, p);
      }
    }
  }

  /** Lines 61-68 and 74-76 for a composite element on corresponding objects. */
  lemma {:induction false} CompositeMoved(s: Heap, t: Heap, d: nat, ps: nat, pt: nat, o: nat, p: Profile)
    requires WellFormed(s) && WellFormed(t) && Moved(s, t, d)
    requires 1 <= o < |s| && ps < o && pt < |t|
    requires 1 <= ps ==> pt == ps + d
    requires ps == 0 ==> pt < 1 + d
    ensures var n := NodeOf(s, o, p.key);
      var rs := TraverseKids(EnterStep(s, o, p), o, n, p, |p.kids|);
      var rt := TraverseKids(EnterStep(t, o + d, p), o + d, NodeOf(t, o + d, p.key), p, |p.kids|);
      && (rs.Success? <==> rt.Success?)
      && (rs.Success? ==> Moved(DedupParent(rs.value, Some(ps), p.text), DedupParent(rt.value, Some(pt), p.text), d))
    decreases p, 1
  {
    MovedEnter(s, t, d, o, p);
    var s2, t2 := EnterStep(s, o, p), EnterStep(t, o + d, p);
    var n := NodeOf(s, o, p.key);
    KidsMoved(s2, t2, d, o, o + d, n, p, |p.kids|);
    var s3 := TraverseKids(s2, o, n, p, |p.kids|);
    var t3 := TraverseKids(t2, o + d, n + d, p, |p.kids|);
    if s3.Success? {
      MovedDedup(s3.value, t3.value, d, ps, pt, p.text);
    }
  }

  /** Lines 69-76 on corresponding objects. */
  lemma LeafMoved(s: Heap, t: Heap, d: nat, ps: nat, pt: nat, o: nat, p: Profile)
    requires WellFormed(s) && WellFormed(t) && Moved(s, t, d)
    requires 1 <= o < |s| && ps < o && pt < |t|
    requires 1 <= ps ==> pt == ps + d
    requires ps == 0 ==> pt < 1 + d
    ensures Moved(LeafStep(s, Some(ps), o, p), LeafStep(t, Some(pt), o + d, p), d)
  {
    MovedSet(s, t, d, o, p.key, Str(p.compact));
    MovedDedup(SetProp(s, o, p.key, Str(p.compact)), SetProp(t, o + d, p.key, Str(p.compact)), d, ps, pt, p.text);
  }

  lemma {:induction false} KidsMoved(s: Heap, t: Heap, d: nat, os: nat, ot: nat, n: nat, p: Profile, i: nat)
    requires WellFormed(s) && WellFormed(t) && Moved(s, t, d)
    requires 1 <= n < |s| && os < n && ot < n + d && i <= |p.kids|
    requires 1 <= os ==> ot == os + d
    requires os == 0 ==> ot < 1 + d
    ensures TraverseKids(s, os, n, p, i).Success? <==> TraverseKids(t, ot, n + d, p, i).Success?
    ensures TraverseKids(s, os, n, p, i).Success? ==>
      Moved(TraverseKids(s, os, n, p, i).value, TraverseKids(t, ot, n + d, p, i).value, d)
    decreases p, 0, i
  {
    if i > 0 {
      KidsMoved(s, t, d, os, ot, n, p, i - 1);
      var rs := TraverseKids(s, os, n, p, i - 1);
      var rt := TraverseKids(t, ot, n + d, p, i - 1);
      if rs.Success? {
        TraverseMoved(rs.value, rt.value, d, os, ot, n, p.kids[i - 1]);
      }
    }
  }

  /** Moved objects hold the same values. */
  lemma MaterializeMoved(s: Heap, t: Heap, d: nat, i: nat)
    requires WellFormed(s) && WellFormed(t) && Moved(s, t, d) && 1 <= i < |s|
    ensures Materialize(t, i + d) == Materialize(s, i)
    decreases |s| - i
  {
    assert t[i + d] == ShiftObj(s[i], d);
    forall k | k in s[i] ensures FieldValue(t, i + d, k) == FieldValue(s, i, k) {
      if s[i][k].Ref? {
        RefTarget(s, i, k);
        MaterializeMoved(s, t, d, s[i][k].id);
      }
    }
    assert Materialize(t, i + d).fields == Materialize(s, i).fields;
  }

  /** Objects the same from `a` to the end of `h1` hold the same values in `h2`. */
  lemma MaterializeRegion(h1: Heap, h2: Heap, a: nat, i: nat)
    requires WellFormed(h1) && WellFormed(h2) && a <= i < |h1| <= |h2|
    requires forall j :: a <= j < |h1| ==> h2[j] == h1[j]
    ensures Materialize(h2, i) == Materialize(h1, i)
    decreases |h1| - i
  {
    forall k | k in h1[i] ensures FieldValue(h2, i, k) == FieldValue(h1, i, k) {
      if h1[i][k].Ref? {
        RefTarget(h1, i, k);
        MaterializeRegion(h1, h2, a, h1[i][k].id);
      }
    }
  }

  // ----- objects out of the traversal's reach -----

  /** The only reference into objects `a..b` from outside them is property `k` of `o`. */
  ghost predicate Sealed(h: Heap, a: nat, b: nat, o: nat, k: Key)
  {
    && a <= b <= |h| && o < |h| && (o < a || b <= o)
    && forall i, key :: 0 <= i < |h| && (i < a || b <= i) && key in h[i] && h[i][key].Ref? && a <= h[i][key].id < b
         ==> i == o && key == k
  }

  /** Going from `h` to `r` left objects `a..b` and property `k` of `o` alone. */
  ghost predicate Keeps(h: Heap, r: Heap, a: nat, b: nat, o: nat, k: Key)
  {
    && |h| <= |r| && b <= |h| && o < |h|
    && (forall i :: a <= i < b ==> r[i] == h[i])
    && (k in h[o] ==> k in r[o] && r[o][k] == h[o][k])
  }

  lemma KeepsTrans(h1: Heap, h2: Heap, h3: Heap, a: nat, b: nat, o: nat, k: Key)
    requires Keeps(h1, h2, a, b, o, k) && Keeps(h2, h3, a, b, o, k)
    ensures Keeps(h1, h3, a, b, o, k)
  {
  }

  lemma SealedSetStr(h: Heap, a: nat, b: nat, o: nat, k: Key, j: nat, key: Key, str: string)
    requires Sealed(h, a, b, o, k) && j < |h| && (j < a || b <= j) && !(j == o && key == k)
    ensures Sealed(SetProp(h, j, key, Str(str)), a, b, o, k) && Keeps(h, SetProp(h, j, key, Str(str)), a, b, o, k)
  {
  }

  lemma SealedSetRef(h: Heap, a: nat, b: nat, o: nat, k: Key, j: nat, key: Key, n: nat)
    requires Sealed(h, a, b, o, k) && j < |h| && (j < a || b <= j) && !(j == o && key == k)
    requires n < a || b <= n
    ensures Sealed(SetProp(h, j, key, Ref(n)), a, b, o, k) && Keeps(h, SetProp(h, j, key, Ref(n)), a, b, o, k)
  {
  }

  lemma SealedAlloc(h: Heap, a: nat, b: nat, o: nat, k: Key)
    requires Sealed(h, a, b, o, k)
    ensures Sealed(h + [map[]], a, b, o, k) && Keeps(h, h + [map[]], a, b, o, k)
  {
    var h' := h + [map[]];
    assert forall i :: 0 <= i < |h| ==> h'[i] == h[i];
  }

  lemma SealedDedup(h: Heap, a: nat, b: nat, o: nat, k: Key, parent: Option<nat>, text: string)
    requires Sealed(h, a, b, o, k) && k.Named?
    requires parent.Some? ==> parent.value < |h| && (parent.value < a || b <= parent.value)
    ensures Sealed(DedupParent(h, parent, text), a, b, o, k) && Keeps(h, DedupParent(h, parent, text), a, b, o, k)
  {
  }

  /** A traversal at an object outside `a..b`, never at property `k` of `o`, leaves objects
      `a..b` and that property alone, and they stay sealed. */
  lemma {:induction false} TraverseOutside(h: Heap, parent: Option<nat>, obj: nat, p: Profile,
                                           a: nat, b: nat, o: nat, k: Key)
    requires WellFormed(h) && obj < |h| && (parent.Some? ==> parent.value < obj)
    requires Sealed(h, a, b, o, k) && k.Named?
    requires (obj < a || b <= obj) && (parent.Some? ==> parent.value < a || b <= parent.value)
    requires o <= obj && (obj == o ==> p.key != k)
    requires Traverse(h, parent, obj, p).Success?
    ensures Sealed(Traverse(h, parent, obj, p).value, a, b, o, k)
    ensures Keeps(h, Traverse(h, parent, obj, p).value, a, b, o, k)
    decreases p, 1
  {
    if p.kids == [] {
      var h1 := SetProp(h, obj, p.key, Str(p.compact));
      SealedSetStr(h, a, b, o, k, obj, p.key, p.compact);
      SealedDedup(h1, a, b, o, k, parent, p.text);
      KeepsTrans(h, h1, DedupParent(h1, parent, p.text), a, b, o, k);
    } else {
      var n := NodeOf(h, obj, p.key);
      NodeOfBounds(h, obj, p.key);
      var h1 := if Reuses(h, obj, p.key) then h else AttachNew(h, obj, p.key);
      if Reuses(h, obj, p.key) {
        assert !(a <= n < b);
        assert Keeps(h, h1, a, b, o, k);
      } else {
        SealedAlloc(h, a, b, o, k);
        SealedSetRef(h + [map[]], a, b, o, k, obj, p.key, |h|);
        KeepsTrans(h, h + [map[]], h1, a, b, o, k);
      }
      var h2 := if |p.text| > 0 then SetProp(h1, n, HoistKey, Str(p.compact)) else h1;
      if |p.text| > 0 {
        SealedSetStr(h1, a, b, o, k, n, HoistKey, p.compact);
        KeepsTrans(h, h1, h2, a, b, o, k);
      }
      assert h2 == EnterStep(h, obj, p);
      KidsOutside(h2, obj, n, p, |p.kids|, a, b, o, k);
      var h3 := TraverseKids(h2, obj, n, p, |p.kids|).value;
      KeepsTrans(h, h2, h3, a, b, o, k);
      SealedDedup(h3, a, b, o, k, parent, p.text);
      KeepsTrans(h, h3, DedupParent(h3, parent, p.text), a, b, o, k);
    }
  }

  lemma {:induction false} KidsOutside(h: Heap, obj: nat, node: nat, p: Profile, i: nat,
                                       a: nat, b: nat, o: nat, k: Key)
    requires WellFormed(h) && obj < node < |h| && i <= |p.kids|
    requires Sealed(h, a, b, o, k) && k.Named?
    requires (obj < a || b <= obj) && (node < a || b <= node) && o < node
    requires TraverseKids(h, obj, node, p, i).Success?
    ensures Sealed(TraverseKids(h, obj, node, p, i).value, a, b, o, k)
    ensures Keeps(h, TraverseKids(h, obj, node, p, i).value, a, b, o, k)
    decreases p, 0, i
  {
    if i == 0 {
      assert Keeps(h, h, a, b, o, k);
    } else {
      KidsSuccessStep(h, obj, node, p, i);
      KidsOutside(h, obj, node, p, i - 1, a, b, o, k);
      var r' := TraverseKids(h, obj, node, p, i - 1).value;
      TraverseOutside(r', Some(obj), node, p.kids[i - 1], a, b, o, k);
      KeepsTrans(h, r', TraverseKids(h, obj, node, p, i).value, a, b, o, k);
    }
  }

  /** When the traversal of all the children succeeds, so does the traversal of the first
      `i`. */
  lemma {:induction false} KidsPrefixSucceeds(h: Heap, obj: nat, node: nat, p: Profile, i: nat, n: nat)
    requires WellFormed(h) && obj < |h| && node < |h| && i <= n <= |p.kids|
    requires TraverseKids(h, obj, node, p, n).Success?
    ensures TraverseKids(h, obj, node, p, i).Success?
    decreases n - i
  {
    if i < n {
      KidsSuccessStep(h, obj, node, p, n);
      KidsPrefixSucceeds(h, obj, node, p, i, n - 1);
    }
  }

  // ----- a composite child's value -----

  /** A composite child whose key is not yet in the parent's node (object 1 here) builds,
      from the first object not yet allocated on, the objects deep mode builds for it alone,
      moved on: deep mode on the child alone is its key mapped to the value of that object. */
  lemma EmbeddedValue(g: Heap, c: Profile)
    requires WellFormed(g) && 2 <= |g| && c.kids != [] && c.key.Named? && NamedKids(c)
    requires c.key !in g[1]
    requires Traverse(g, Some(0), 1, c).Success?
    ensures var gc := Traverse(g, Some(0), 1, c).value;
      && |g| < |gc| && DeepOf(c).Success?
      && DeepOf(c).value == JObj(map[c.key := Materialize(gc, |g|)])
  {
    var N := |g|;
    var h0: Heap := [map[]];
    WellFormedFresh();
    EmbeddedStart(g, c);
    var s2 := EnterStep(h0, 0, c);
    var g2 := EnterStep(g, 1, c);
    KidsMoved(s2, g2, N - 1, 0, 1, 1, c, |c.kids|);
    var g3 := TraverseKids(g2, 1, N, c, |c.kids|).value;
    var s3 := TraverseKids(s2, 0, 1, c, |c.kids|).value;
    var gc := Traverse(g, Some(0), 1, c).value;
    assert gc == g3[0 := Dedup(g3[0], c.text)];
    assert Traverse(h0, None, 0, c) == Success(s3);
    MovedOutside(s3, g3, N - 1, 0, Dedup(g3[0], c.text));
    MaterializeMoved(s3, gc, N - 1, 1);
    DeepOfRoot(c);
  }

  /** Lines 62-66 for that child: its node is the first object not yet allocated, and it
      holds what the node of the child alone holds. */
  lemma EmbeddedStart(g: Heap, c: Profile)
    requires WellFormed(g) && 2 <= |g| && c.key !in g[1]
    ensures NodeOf(g, 1, c.key) == |g|
    ensures Moved(EnterStep([map[]], 0, c), EnterStep(g, 1, c), |g| - 1)
  {
    var N := |g|;
    WellFormedFresh();
    RootEnter(c);
    var s2 := EnterStep([map[]], 0, c);
    var g2 := EnterStep(g, 1, c);
    EnterStepFrame(g, 1, c);
    assert NodeOf(g, 1, c.key) == N && |g2| == N + 1;
    if |c.text| > 0 {
      assert ShiftObj(map[HoistKey := Str(c.compact)], N - 1) == map[HoistKey := Str(c.compact)];
    } else {
      assert ShiftObj(map[], N - 1) == map[];
    }
    assert g2[N] == ShiftObj(s2[1], N - 1);
  }

  /** After that child, the only reference to the objects it built is the one under its key
      in the parent's node. */
  lemma EmbeddedSealed(g: Heap, c: Profile)
    requires WellFormed(g) && 2 <= |g| && c.kids != [] && c.key.Named?
    requires c.key !in g[1]
    requires Traverse(g, Some(0), 1, c).Success?
    ensures var gc := Traverse(g, Some(0), 1, c).value;
      && Sealed(gc, |g|, |gc|, 1, c.key) && c.key in gc[1] && gc[1][c.key] == Ref(|g|)
  {
    var N := |g|;
    var g2 := EnterStep(g, 1, c);
    EnterStepFrame(g, 1, c);
    assert NodeOf(g, 1, c.key) == N;
    assert forall i :: 1 < i < N ==> g2[i] == g[i];
    KidsFrame(g2, 1, N, c, |c.kids|);
    assert c.kids[..|c.kids|] == c.kids;
    DedupAllSpec(g2[1], c.kids);
    var g3 := TraverseKids(g2, 1, N, c, |c.kids|).value;
    var gc: Heap := Traverse(g, Some(0), 1, c).value;
    assert gc == g3[0 := Dedup(g3[0], c.text)];
    forall i: nat, key: Key | i < N && key in gc[i] && gc[i][key].Ref? && !(i == 1 && key == c.key)
      ensures gc[i][key].id < N
    {
      if i == 0 {
        assert key in g[0] && gc[0][key] == g[0][key];
        RefTarget(g, 0, key);
      } else if i == 1 {
        assert key in g[1] && gc[1][key] == g[1][key];
        RefTarget(g, 1, key);
      } else {
        assert gc[i] == g[i];
        RefTarget(g, i, key);
      }
    }
  }

  /** The siblings after child `j`, none sharing its key, leave the objects it built and
      the reference to them alone. */
  lemma {:induction false} LaterSiblings(h2: Heap, p: Profile, j: nat, i: nat, a: nat, b: nat)
    requires WellFormed(h2) && 1 < |h2| && j < i <= |p.kids| && 2 <= a
    requires p.kids[j].key.Named?
    requires forall l :: j < l < |p.kids| ==> p.kids[l].key != p.kids[j].key
    requires TraverseKids(h2, 0, 1, p, i).Success? && TraverseKids(h2, 0, 1, p, j + 1).Success?
    requires Sealed(TraverseKids(h2, 0, 1, p, j + 1).value, a, b, 1, p.kids[j].key)
    ensures var after := TraverseKids(h2, 0, 1, p, j + 1).value;
      var r := TraverseKids(h2, 0, 1, p, i).value;
      Sealed(r, a, b, 1, p.kids[j].key) && Keeps(after, r, a, b, 1, p.kids[j].key)
    decreases i
  {
    var after := TraverseKids(h2, 0, 1, p, j + 1).value;
    if i == j + 1 {
      assert Keeps(after, after, a, b, 1, p.kids[j].key);
    } else {
      KidsSuccessStep(h2, 0, 1, p, i);
      LaterSiblings(h2, p, j, i - 1, a, b);
      var r' := TraverseKids(h2, 0, 1, p, i - 1).value;
      TraverseOutside(r', Some(0), 1, p.kids[i - 1], a, b, 1, p.kids[j].key);
      KeepsTrans(after, r', TraverseKids(h2, 0, 1, p, i).value, a, b, 1, p.kids[j].key);
    }
  }

  /** Deep mode composes: for a composite child `j` of a composite profile whose key no
      other child has, the object under the parent's key holds, under the child's key,
      exactly the value deep mode gives the child alone under that key. */
  lemma ChildComposes(p: Profile, j: nat)
    requires p.key.Named? && NamedKids(p) && j < |p.kids|
    requires p.kids[j].kids != [] && NamedKids(p.kids[j])
    requires forall l :: 0 <= l < |p.kids| && l != j ==> p.kids[l].key != p.kids[j].key
    requires DeepOf(p).Success?
    ensures DeepOf(p.kids[j]).Success?
    ensures var c := p.kids[j];
      var fs := DeepOf(p).value.fields;
      && DeepOf(c).value.JObj? && c.key in DeepOf(c).value.fields
      && p.key in fs && fs[p.key].JObj? && c.key in fs[p.key].fields
      && fs[p.key].fields[c.key] == DeepOf(c).value.fields[c.key]
  {
    var c := p.kids[j];
    var n := |p.kids|;
    WellFormedFresh();
    var h0: Heap := [map[]];
    RootEnter(p);
    var h2 := EnterStep(h0, 0, p);
    assert TraverseKids(h2, 0, 1, p, n).Success?;
    var R := TraverseKids(h2, 0, 1, p, n).value;
    assert Traverse(h0, None, 0, p).value == R;
    KidsPrefixSucceeds(h2, 0, 1, p, j, n);
    KidsPrefixSucceeds(h2, 0, 1, p, j + 1, n);
    var g := TraverseKids(h2, 0, 1, p, j).value;
    KidsNodeKeys(h2, 0, 1, p, j, c.key);
    assert KeyUnused(p.kids, 0, j, c.key);
    KidsSuccessStep(h2, 0, 1, p, j + 1);
    var gc := TraverseKids(h2, 0, 1, p, j + 1).value;
    assert gc == Traverse(g, Some(0), 1, c).value;
    EmbeddedValue(g, c);
    EmbeddedSealed(g, c);
    LaterSiblings(h2, p, j, n, |g|, |gc|);
    DeepOfRoot(p);
    MaterializeFields(R, 1, c.key);
    MaterializeRegion(gc, R, |g|, |g|);
  }

  /** Deep mode composes, in element terms: a composite child whose reference no sibling
      shares appears in its parent's deep value exactly as in its own. */
  lemma DeepChildComposes(e: Element, j: nat)
    requires j < |Children(e)| && Children(Children(e)[j]) != []
    requires forall l :: 0 <= l < |Children(e)| && l != j ==> Reference(Children(e)[l]) != Reference(Children(e)[j])
    requires DeepValue(e).Success?
    ensures DeepValue(Children(e)[j]).Success?
    ensures var c := Children(e)[j];
      var ck := Named(Reference(c));
      var key := Named(Reference(e));
      var fs := DeepValue(e).value.fields;
      && DeepValue(c).value.JObj? && ck in DeepValue(c).value.fields
      && key in fs && fs[key].JObj? && ck in fs[key].fields
      && fs[key].fields[ck] == DeepValue(c).value.fields[ck]
  {
    var p := ProfileOf(e);
    var c := Children(e)[j];
    ProfileNamedKids(e);
    ProfileNamedKids(c);
    ProfileKid(e, j);
    forall l | 0 <= l < |p.kids| && l != j ensures p.kids[l].key != p.kids[j].key {
      ProfileKid(e, l);
    }
    ChildComposes(p, j);
  }
}
