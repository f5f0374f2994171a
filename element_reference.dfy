/**
 * `getElementReference`: the key under which deep mode stores an element. It is the tag
 * name, then "_" and the class attribute with every space turned into "_" (when the class
 * is present and non-empty), then "$" and the id (when the id is present and non-empty).
 * ("_" stands for "." and "$" for "#", so that the keys are convenient JavaScript names.)
 */
module ElementReference {
  import opened Errors
  import opened Dom
  import opened StringUtil

  /** "_" and the class with spaces replaced, or nothing for an absent or empty class. */
  function ClassSuffix(cls: Option<string>): string
  {
    if cls.Some? && cls.value != "" then "_" + ReplaceAll(cls.value, ' ', '_') else ""
  }

  /** "$" and the id, or nothing for an absent or empty id. */
  function IdSuffix(id: Option<string>): string
  {
    if id.Some? && id.value != "" then "$" + id.value else ""
  }

  function Reference(e: Element): string
  {
    e.tag + ClassSuffix(e.cls) + IdSuffix(e.id)
  }

  /** The key starts with the tag name; then comes "_" and the class with each space
      replaced by "_", when the class is present and non-empty; it ends with "$" and the id
      when the id is present and non-empty; and it is the bare tag name otherwise. */
  lemma ReferenceFormat(e: Element)
    ensures var r := Reference(e);
      && |e.tag| <= |r| && r[..|e.tag|] == e.tag
      && ((e.cls.None? || e.cls.value == "") && (e.id.None? || e.id.value == "") ==> r == e.tag)
      && (e.cls.Some? && e.cls.value != "" ==>
            var c := e.cls.value;
            && |r| >= |e.tag| + 1 + |c|
            && r[|e.tag|] == '_'
            && forall i :: 0 <= i < |c| ==> r[|e.tag| + 1 + i] == if c[i] == ' ' then '_' else c[i])
      && (e.id.Some? && e.id.value != "" ==>
            var d := e.id.value;
            |r| >= |d| + 1 && r[|r| - |d| - 1..] == "$" + d)
      && |r| == |e.tag| + |ClassSuffix(e.cls)| + |IdSuffix(e.id)|
  {
    var r := Reference(e);
    assert r[..|e.tag|] == e.tag;
    if e.cls.Some? {
      ReplaceAllSpec(e.cls.value, ' ', '_');
    }
  }

  /** The key depends on the tag, class and id alone: never on children or position. */
  lemma ReferenceIgnoresContent(a: Element, b: Element)
    requires a.tag == b.tag && a.cls == b.cls && a.id == b.id
    ensures Reference(a) == Reference(b)
  {
  }

  /** A key can never be the reserved hoisted-text key, as long as the tag name does not
      itself start with "$". */
  lemma NotHoistKey(e: Element)
    requires e.tag != "" && e.tag[0] != '$'
    ensures Reference(e) != "$text"
  {
    ReferenceFormat(e);
    var r := Reference(e);
    assert r[0] == r[..|e.tag|][0];
  }

  /** Keys are not unique: a class written with spaces and the same class written with
      underscores give the same key. */
  lemma SpacesAndUnderscoresCollide(tag: string, c: string, id: Option<string>, ns: seq<Node>, ms: seq<Node>)
    ensures Reference(Element(tag, Some(c), id, ns)) == Reference(Element(tag, Some(ReplaceAll(c, ' ', '_')), id, ms))
  {
    var c' := ReplaceAll(c, ' ', '_');
    ReplaceAllSpec(c, ' ', '_');
    ReplaceAllSpec(c', ' ', '_');
    assert ReplaceAll(c', ' ', '_') == ReplaceAll(c, ' ', '_');
  }
}
