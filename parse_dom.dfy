/**
 * `parseDOM` (lines 53-96): one result per element the selector matches, in match order,
 * chosen by mode (complete, then deep, then shallow), and then `_.compact`, which drops the
 * falsy results. Selector matching and markup serialisation are not modelled: the matched
 * elements and the serialiser are parameters.
 */
module ParseDom {
  import opened Errors
  import opened Dom
  import opened CompactString
  import opened ElementReference
  import opened DeepTree
  import opened DeepValueProps
  import opened DeepSuccess

  /** What the `.map` callback returns: a string or a deep-mode object. */
  datatype Extracted = Text(s: string) | Deep(obj: Json)

  /** JavaScript truthiness of a result: only the empty string is falsy; an object never is. */
  predicate Truthy(v: Extracted)
  {
    !(v.Text? && v.s == "")
  }

  /** The `.map` callback of lines 80-93 for one matched element `e`. */
  function ExtractOne(e: Element, complete: bool, deep: bool, serialize: Element -> string): (r: Result<Extracted>)
    ensures r.Failure? ==> !complete && deep && r.error == TypeError
  {
    if complete then
      Success(Text(Compact(serialize(e))))
    else if deep then
      match DeepValue(e)
      case Failure(err) => Failure(err)
      case Success(obj) => Success(Deep(obj))
    else
      Success(Text(Compact(TextContent(e))))
  }

  /** The `.map` callback with the mode flags and the serialiser bound. */
  function Callback(complete: bool, deep: bool, serialize: Element -> string): Element -> Result<Extracted>
  {
    e => ExtractOne(e, complete, deep, serialize)
  }

  /** `_.compact`: the truthy values, in order. */
  function JsCompact(vs: seq<Extracted>): (r: seq<Extracted>)
    ensures |r| <= |vs|
    ensures forall i :: 0 <= i < |r| ==> Truthy(r[i])
  {
    if vs == [] then []
    else if Truthy(vs[0]) then [vs[0]] + JsCompact(vs[1..])
    else JsCompact(vs[1..])
  }

  /** `parseDOM`, with the elements the selector matches given. */
  function ParseDOM(matched: seq<Element>, complete: bool, deep: bool, serialize: Element -> string): (r: Result<seq<Extracted>>)
    ensures r.Failure? ==> !complete && deep && r.error == TypeError
    ensures r.Success? ==> |r.value| <= |matched|
  {
    match MapResult(matched, Callback(complete, deep, serialize))
    case Failure(err) => Failure(err)
    case Success(vs) => Success(JsCompact(vs))
  }

  // ----- properties of _.compact -----

  /** `_.compact` distributes over concatenation. */
  lemma {:induction false} JsCompactConcat(a: seq<Extracted>, b: seq<Extracted>)
    ensures JsCompact(a + b) == JsCompact(a) + JsCompact(b)
  {
    if a != [] {
      assert (a + b)[0] == a[0] && (a + b)[1..] == a[1..] + b;
      JsCompactConcat(a[1..], b);
      if Truthy(a[0]) {
        assert JsCompact(a + b) == [a[0]] + (JsCompact(a[1..]) + JsCompact(b));
      }
    } else {
      assert a + b == b;
    }
  }

  /** `_.compact` keeps exactly the truthy values: every value of the result was in the
      input, and every truthy input value is in the result. */
  lemma {:induction false} JsCompactMembers(vs: seq<Extracted>, v: Extracted)
    ensures v in JsCompact(vs) <==> v in vs && Truthy(v)
  {
    if vs != [] {
      JsCompactMembers(vs[1..], v);
      assert vs == [vs[0]] + vs[1..];
    }
  }

  /** With nothing falsy there is nothing to drop. */
  lemma {:induction false} JsCompactAllTruthy(vs: seq<Extracted>)
    requires forall i :: 0 <= i < |vs| ==> Truthy(vs[i])
    ensures JsCompact(vs) == vs
  {
    if vs != [] {
      JsCompactAllTruthy(vs[1..]);
    }
  }

  /** `_.compact` leaves as many values as the input has truthy ones. */
  function TruthyCount(vs: seq<Extracted>): nat
  {
    if vs == [] then 0 else (if Truthy(vs[0]) then 1 else 0) + TruthyCount(vs[1..])
  }

  lemma {:induction false} JsCompactLength(vs: seq<Extracted>)
    ensures |JsCompact(vs)| == TruthyCount(vs)
  {
    if vs != [] {
      JsCompactLength(vs[1..]);
    }
  }

  // ----- properties of parseDOM -----

  /** Complete mode wins over deep mode: with `complete` set, `deep` makes no difference and
      nothing throws. */
  lemma CompleteFirst(matched: seq<Element>, deep: bool, serialize: Element -> string)
    ensures ParseDOM(matched, true, deep, serialize)
         == ParseDOM(matched, true, false, serialize)
    ensures ParseDOM(matched, true, deep, serialize).Success?
  {
    var a := MapResult(matched, Callback(true, deep, serialize));
    var b := MapResult(matched, Callback(true, false, serialize));
    assert a.value == b.value;
  }

  /** Complete mode: the results are the compacted markups of the matched elements, one per
      element and in match order, with the empty ones dropped; so they are exactly the
      non-empty compacted markups. */
  lemma CompleteResults(matched: seq<Element>, serialize: Element -> string)
    ensures ParseDOM(matched, true, false, serialize)
         == Success(JsCompact(seq(|matched|, i requires 0 <= i < |matched| => Text(Compact(serialize(matched[i]))))))
    ensures ParseDOM(matched, true, false, serialize).Success?
    ensures forall v :: v in ParseDOM(matched, true, false, serialize).value <==>
      (v != Text("") && exists i :: 0 <= i < |matched| && v == Text(Compact(serialize(matched[i]))))
  {
    var a := MapResult(matched, Callback(true, false, serialize));
    assert a.value == seq(|matched|, i requires 0 <= i < |matched| => Text(Compact(serialize(matched[i]))));
    forall v ensures v in JsCompact(a.value) <==>
      (v != Text("") && exists i :: 0 <= i < |matched| && v == Text(Compact(serialize(matched[i]))))
    {
      JsCompactMembers(a.value, v);
      if v in a.value {
        var i :| 0 <= i < |a.value| && a.value[i] == v;
        assert v == Text(Compact(serialize(matched[i])));
      }
      if exists i :: 0 <= i < |matched| && v == Text(Compact(serialize(matched[i]))) {
        var i :| 0 <= i < |matched| && v == Text(Compact(serialize(matched[i])));
        assert a.value[i] == v;
      }
    }
  }

  /** Deep mode never drops a result: when no element throws, there is one object per
      matched element, in match order, each that element's deep value. */
  lemma DeepKeepsAll(matched: seq<Element>, serialize: Element -> string)
    requires ParseDOM(matched, false, true, serialize).Success?
    ensures var r := ParseDOM(matched, false, true, serialize).value;
      && |r| == |matched|
      && forall i :: 0 <= i < |matched| ==> DeepValue(matched[i]).Success? && r[i] == Deep(DeepValue(matched[i]).value)
  {
    var vs := MapResult(matched, Callback(false, true, serialize)).value;
    JsCompactAllTruthy(vs);
  }

  /** In deep mode a throw in any matched element's traversal ends `parseDOM` with it. */
  lemma DeepThrows(matched: seq<Element>, serialize: Element -> string, i: nat)
    requires i < |matched| && DeepValue(matched[i]).Failure?
    ensures ParseDOM(matched, false, true, serialize) == Failure(TypeError)
  {
  }

  /** Deep mode on matched elements no element of whose subtrees, the matched elements
      included, has two element children with the same reference: nothing throws, and the results are the deep values of the
      matched elements, one per element and in match order. */
  lemma DeepModeSucceeds(matched: seq<Element>, serialize: Element -> string)
    requires forall i :: 0 <= i < |matched| ==> DistinctChildRefs(matched[i])
    ensures forall i :: 0 <= i < |matched| ==> DeepValue(matched[i]).Success?
    ensures ParseDOM(matched, false, true, serialize)
         == Success(seq(|matched|, i requires 0 <= i < |matched| && DeepValue(matched[i]).Success? =>
                          Deep(DeepValue(matched[i]).value)))
  {
    forall i | 0 <= i < |matched| ensures DeepValue(matched[i]).Success? {
      DeepSucceeds(matched[i]);
    }
    DeepKeepsAll(matched, serialize);
    assert ParseDOM(matched, false, true, serialize).value
        == seq(|matched|, i requires 0 <= i < |matched| && DeepValue(matched[i]).Success? =>
                 Deep(DeepValue(matched[i]).value));
  }

  /** Shallow mode: the results are the compacted texts of the matched elements, one per
      element and in match order, with the empty ones dropped; every result is non-empty and
      compact. */
  lemma ShallowResults(matched: seq<Element>, serialize: Element -> string)
    ensures ParseDOM(matched, false, false, serialize)
         == Success(JsCompact(seq(|matched|, i requires 0 <= i < |matched| => Text(Compact(TextContent(matched[i]))))))
    ensures ParseDOM(matched, false, false, serialize).Success?
    ensures var r := ParseDOM(matched, false, false, serialize).value;
      && |r| == TruthyCount(MapResult(matched, Callback(false, false, serialize)).value)
      && forall v :: v in r ==>
           (v.Text? && v.s != "" && IsCompact(v.s) && exists i :: 0 <= i < |matched| && v.s == Compact(TextContent(matched[i])))
  {
    var vs := MapResult(matched, Callback(false, false, serialize)).value;
    assert vs == seq(|matched|, i requires 0 <= i < |matched| => Text(Compact(TextContent(matched[i]))));
    JsCompactLength(vs);
    forall v | v in JsCompact(vs)
      ensures v.Text? && v.s != "" && IsCompact(v.s)
           && exists i :: 0 <= i < |matched| && v.s == Compact(TextContent(matched[i]))
    {
      JsCompactMembers(vs, v);
      var i :| 0 <= i < |vs| && vs[i] == v;
      CompactShape(TextContent(matched[i]));
    }
  }

  /** In deep mode every result is an object with exactly one key, the matched element's
      reference. */
  lemma DeepSingleKey(matched: seq<Element>, serialize: Element -> string, i: nat)
    requires ParseDOM(matched, false, true, serialize).Success? && i < |matched|
    ensures var r := ParseDOM(matched, false, true, serialize).value;
      i < |r| && r[i].Deep? && r[i].obj.JObj? && r[i].obj.fields.Keys == {Named(Reference(matched[i]))}
  {
    DeepKeepsAll(matched, serialize);
    var e := matched[i];
    if Children(e) == [] {
      DeepLeaf(e);
    } else {
      DeepCompositeKeys(e);
    }
  }
}
