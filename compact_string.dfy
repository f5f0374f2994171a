/**
 * `compactString`: delete every newline and tab, replace every run of whitespace by one
 * space, then trim whitespace at both ends. "Whitespace" is the set of characters the
 * JavaScript regular-expression class `\s` and `String.prototype.trim` both use.
 */
module CompactString {

  /** The JavaScript `\s` class (WhiteSpace and LineTerminator code points). */
  predicate IsJsSpace(c: char)
  {
    || c == ' ' || c == '\t' || c == '\n' || c == '\r'
    || c as int == 0x0B || c as int == 0x0C || c as int == 0xA0 || c as int == 0x1680
    || (0x2000 <= c as int <= 0x200A)
    || c as int == 0x2028 || c as int == 0x2029 || c as int == 0x202F || c as int == 0x205F
    || c as int == 0x3000 || c as int == 0xFEFF
  }

  /** Positions `i` and `i + 1` of `s` both hold whitespace. */
  ghost predicate SpacePair(s: string, i: int)
    requires 0 <= i < |s| - 1
  {
    IsJsSpace(s[i]) && IsJsSpace(s[i + 1])
  }

  /** Every whitespace character is a plain space and no two whitespace characters are adjacent. */
  ghost predicate SingleSpaced(s: string)
  {
    && (forall i :: 0 <= i < |s| && IsJsSpace(s[i]) ==> s[i] == ' ')
    && (forall i :: 0 <= i < |s| - 1 ==> !SpacePair(s, i))
  }

  /** The shape of every `compactString` result. */
  ghost predicate IsCompact(s: string)
  {
    && SingleSpaced(s)
    && (s != [] ==> !IsJsSpace(s[0]) && !IsJsSpace(s[|s| - 1]))
  }

  /** The non-whitespace characters of `s`, in order. */
  function NonSpaces(s: string): string
  {
    if s == [] then []
    else (if IsJsSpace(s[0]) then [] else [s[0]]) + NonSpaces(s[1..])
  }

  /** `replace(/[\n\t]/g, '')` */
  function DropNewlinesTabs(s: string): string
  {
    if s == [] then []
    else if s[0] == '\n' || s[0] == '\t' then DropNewlinesTabs(s[1..])
    else [s[0]] + DropNewlinesTabs(s[1..])
  }

  /** `replace(/\s+/g, ' ')`: each maximal whitespace run becomes one space (a whitespace
      character followed by another is dropped; the last of a run becomes ' '). */
  function CollapseSpaces(s: string): string
  {
    if s == [] then []
    else if !IsJsSpace(s[0]) then [s[0]] + CollapseSpaces(s[1..])
    else if |s| > 1 && IsJsSpace(s[1]) then CollapseSpaces(s[1..])
    else [' '] + CollapseSpaces(s[1..])
  }

  /** The first position at or after `i` that does not hold whitespace (`|s|` if none). */
  function TrimStart(s: string, i: nat): (r: nat)
    requires i <= |s|
    ensures i <= r <= |s|
    decreases |s| - i
  {
    if i < |s| && IsJsSpace(s[i]) then TrimStart(s, i + 1) else i
  }

  /** The end of `s[lo..j]` once its trailing whitespace is cut off. */
  function TrimEnd(s: string, lo: nat, j: nat): (r: nat)
    requires lo <= j <= |s|
    ensures lo <= r <= j
    decreases j
  {
    if lo < j && IsJsSpace(s[j - 1]) then TrimEnd(s, lo, j - 1) else j
  }

  lemma {:induction false} TrimStartSpec(s: string, i: nat)
    requires i <= |s|
    ensures TrimStart(s, i) < |s| ==> !IsJsSpace(s[TrimStart(s, i)])
    ensures forall k :: i <= k < TrimStart(s, i) ==> IsJsSpace(s[k])
    decreases |s| - i
  {
    if i < |s| && IsJsSpace(s[i]) {
      TrimStartSpec(s, i + 1);
    }
  }

  lemma {:induction false} TrimEndSpec(s: string, lo: nat, j: nat)
    requires lo <= j <= |s|
    ensures lo < TrimEnd(s, lo, j) ==> !IsJsSpace(s[TrimEnd(s, lo, j) - 1])
    ensures forall k :: TrimEnd(s, lo, j) <= k < j ==> IsJsSpace(s[k])
    decreases j
  {
    if lo < j && IsJsSpace(s[j - 1]) {
      TrimEndSpec(s, lo, j - 1);
    }
  }

  /** `trim()`: `s` without its leading and trailing whitespace. */
  function Trim(s: string): string
  {
    s[TrimStart(s, 0)..TrimEnd(s, TrimStart(s, 0), |s|)]
  }

  /** `compactString` (scrape.controller.js line 7). */
  function Compact(s: string): string
  {
    Trim(CollapseSpaces(DropNewlinesTabs(s)))
  }

  // ----- NonSpaces -----

  lemma {:induction false} NonSpacesConcat(a: string, b: string)
    ensures NonSpaces(a + b) == NonSpaces(a) + NonSpaces(b)
  {
    if a == [] {
      assert a + b == b;
    } else {
      assert (a + b)[1..] == a[1..] + b;
      NonSpacesConcat(a[1..], b);
    }
  }

  lemma {:induction false} NonSpacesOfSpaces(s: string)
    requires forall i :: 0 <= i < |s| ==> IsJsSpace(s[i])
    ensures NonSpaces(s) == []
  {
    if s != [] {
      NonSpacesOfSpaces(s[1..]);
    }
  }

  // ----- the three stages -----

  lemma {:induction false} DropNewlinesTabsSpec(s: string)
    ensures '\n' !in DropNewlinesTabs(s) && '\t' !in DropNewlinesTabs(s)
    ensures NonSpaces(DropNewlinesTabs(s)) == NonSpaces(s)
  {
    if s != [] {
      DropNewlinesTabsSpec(s[1..]);
      if !(s[0] == '\n' || s[0] == '\t') {
        NonSpacesConcat([s[0]], DropNewlinesTabs(s[1..]));
      }
    }
  }

  lemma {:induction false} CollapseSpacesNonSpaces(s: string)
    ensures NonSpaces(CollapseSpaces(s)) == NonSpaces(s)
  {
    if s != [] {
      CollapseSpacesNonSpaces(s[1..]);
      if !IsJsSpace(s[0]) {
        NonSpacesConcat([s[0]], CollapseSpaces(s[1..]));
      } else if !(|s| > 1 && IsJsSpace(s[1])) {
        NonSpacesConcat([' '], CollapseSpaces(s[1..]));
      }
    }
  }

  lemma {:induction false} CollapseSpacesShape(s: string)
    ensures SingleSpaced(CollapseSpaces(s))
    ensures CollapseSpaces(s) == [] <==> s == []
    ensures s != [] ==> (IsJsSpace(CollapseSpaces(s)[0]) <==> IsJsSpace(s[0]))
  {
    if s != [] {
      var t := CollapseSpaces(s[1..]);
      CollapseSpacesShape(s[1..]);
      if !IsJsSpace(s[0]) || !(|s| > 1 && IsJsSpace(s[1])) {
        var h := if IsJsSpace(s[0]) then ' ' else s[0];
        var r := [h] + t;
        assert r == CollapseSpaces(s);
        assert t != [] ==> !IsJsSpace(h) || !IsJsSpace(t[0]);
        forall i | 0 <= i < |r| - 1 ensures !SpacePair(r, i) {
          if i > 0 {
            assert !SpacePair(t, i - 1);
          }
        }
      }
    }
  }

  lemma {:induction false} CollapseSingleSpaced(s: string)
    requires SingleSpaced(s)
    ensures CollapseSpaces(s) == s
  {
    if s != [] {
      assert SingleSpaced(s[1..]) by {
        forall i | 0 <= i < |s| - 2 ensures !SpacePair(s[1..], i) {
          assert !SpacePair(s, i + 1);
        }
      }
      CollapseSingleSpaced(s[1..]);
      if |s| > 1 {
        assert !SpacePair(s, 0);
      }
    }
  }

  lemma {:induction false} DropNewlinesTabsIdentity(s: string)
    requires '\n' !in s && '\t' !in s
    ensures DropNewlinesTabs(s) == s
  {
    if s != [] {
      assert s[0] in s;
      assert forall c :: c in s[1..] ==> c in s;
      DropNewlinesTabsIdentity(s[1..]);
    }
  }

  lemma {:induction false} DropNewlinesTabsConcat(a: string, b: string)
    ensures DropNewlinesTabs(a + b) == DropNewlinesTabs(a) + DropNewlinesTabs(b)
  {
    if a == [] {
      assert a + b == b;
    } else {
      assert (a + b)[1..] == a[1..] + b;
      DropNewlinesTabsConcat(a[1..], b);
    }
  }

  /** Trimming a single-spaced string leaves it single-spaced with no whitespace at either end. */
  lemma {:induction false} TrimShape(c: string)
    requires SingleSpaced(c)
    ensures IsCompact(Trim(c))
  {
    var lo := TrimStart(c, 0);
    TrimStartSpec(c, 0);
    var hi := TrimEnd(c, lo, |c|);
    TrimEndSpec(c, lo, |c|);
    var r := Trim(c);
    assert r == c[lo..hi];
    forall i | 0 <= i < |r| && IsJsSpace(r[i]) ensures r[i] == ' ' {
      assert r[i] == c[lo + i];
    }
    forall i | 0 <= i < |r| - 1 ensures !SpacePair(r, i) {
      assert r[i] == c[lo + i] && r[i + 1] == c[lo + i + 1];
      assert !SpacePair(c, lo + i);
    }
    if r != [] {
      assert r[0] == c[lo];
      assert r[|r| - 1] == c[hi - 1];
    }
  }

  /** Leading whitespace holds no non-whitespace character. */
  lemma {:induction false} NonSpacesTrimStart(s: string, i: nat)
    requires i <= |s|
    ensures NonSpaces(s[i..]) == NonSpaces(s[TrimStart(s, i)..])
    decreases |s| - i
  {
    if i < |s| && IsJsSpace(s[i]) {
      assert s[i..][1..] == s[i + 1..];
      NonSpacesTrimStart(s, i + 1);
    }
  }

  /** Trailing whitespace holds no non-whitespace character. */
  lemma {:induction false} NonSpacesTrimEnd(s: string, lo: nat, j: nat)
    requires lo <= j <= |s|
    ensures NonSpaces(s[lo..j]) == NonSpaces(s[lo..TrimEnd(s, lo, j)])
    decreases j
  {
    if lo < j && IsJsSpace(s[j - 1]) {
      assert s[lo..j] == s[lo..j - 1] + [s[j - 1]];
      NonSpacesConcat(s[lo..j - 1], [s[j - 1]]);
      assert NonSpaces([s[j - 1]]) == [];
      NonSpacesTrimEnd(s, lo, j - 1);
    }
  }

  lemma {:induction false} TrimNonSpaces(c: string)
    ensures NonSpaces(Trim(c)) == NonSpaces(c)
  {
    var lo := TrimStart(c, 0);
    assert c[0..] == c;
    NonSpacesTrimStart(c, 0);
    assert c[lo..|c|] == c[lo..];
    NonSpacesTrimEnd(c, lo, |c|);
  }

  // ----- properties of compactString -----

  /** The output of `compactString` has no newline or tab, no whitespace at either end,
      no two adjacent whitespace characters, and only plain spaces as whitespace. */
  lemma {:induction false} CompactShape(s: string)
    ensures IsCompact(Compact(s))
    ensures '\n' !in Compact(s) && '\t' !in Compact(s)
  {
    CollapseSpacesShape(DropNewlinesTabs(s));
    TrimShape(CollapseSpaces(DropNewlinesTabs(s)));
  }

  /** `compactString` keeps every non-whitespace character, in order, and no other. */
  lemma {:induction false} CompactNonSpaces(s: string)
    ensures NonSpaces(Compact(s)) == NonSpaces(s)
  {
    DropNewlinesTabsSpec(s);
    CollapseSpacesNonSpaces(DropNewlinesTabs(s));
    TrimNonSpaces(CollapseSpaces(DropNewlinesTabs(s)));
  }

  /** A string already in compact form is its own `compactString`. */
  lemma {:induction false} CompactFixedPoint(s: string)
    requires IsCompact(s)
    ensures Compact(s) == s
  {
    if '\n' in s || '\t' in s {
      var i :| 0 <= i < |s| && (s[i] == '\n' || s[i] == '\t');
      assert IsJsSpace(s[i]);
    }
    DropNewlinesTabsIdentity(s);
    CollapseSingleSpaced(s);
  }

  /** Applying `compactString` twice gives what applying it once gives. */
  lemma {:induction false} CompactIdempotent(s: string)
    ensures Compact(Compact(s)) == Compact(s)
  {
    CompactShape(s);
    CompactFixedPoint(Compact(s));
  }

  /** A newline or tab is deleted outright, not turned into a space: the text on its two
      sides is joined. */
  lemma {:induction false} NewlineOrTabDeleted(a: string, c: char, b: string)
    requires c == '\n' || c == '\t'
    ensures Compact(a + [c] + b) == Compact(a + b)
  {
    DropNewlinesTabsConcat(a + [c], b);
    DropNewlinesTabsConcat(a, [c]);
    DropNewlinesTabsConcat(a, b);
    assert DropNewlinesTabs([c]) == [];
    assert DropNewlinesTabs(a + [c] + b) == DropNewlinesTabs(a + b);
  }

  /** Joining two pieces with a newline or tab gives their plain concatenation, not the
      pieces separated by a space: `compactString("a\nb")` is "ab". */
  lemma {:induction false} NewlineJoins(a: string, c: char, b: string)
    requires c == '\n' || c == '\t'
    requires IsCompact(a + b)
    ensures Compact(a + [c] + b) == a + b
  {
    NewlineOrTabDeleted(a, c, b);
    CompactFixedPoint(a + b);
  }

  // ----- a whitespace run becomes one space -----

  /** A whitespace run followed by a non-whitespace character, or by nothing, becomes one space. */
  lemma {:induction false} CollapseRunThen(w: string, y: string)
    requires w != [] && forall k :: 0 <= k < |w| ==> IsJsSpace(w[k])
    requires y != [] ==> !IsJsSpace(y[0])
    ensures CollapseSpaces(w + y) == [' '] + CollapseSpaces(y)
  {
    assert (w + y)[0] == w[0] && (w + y)[1..] == w[1..] + y;
    if |w| > 1 {
      assert (w + y)[1] == w[1];
      CollapseRunThen(w[1..], y);
    } else {
      assert w[1..] + y == y;
    }
  }

  /** Text ending in a non-whitespace character, a whitespace run, then text starting with a
      non-whitespace character or nothing: the run becomes one space between the two
      collapsed sides. */
  lemma {:induction false} CollapseAcross(x: string, w: string, y: string)
    requires x != [] && !IsJsSpace(x[|x| - 1])
    requires w != [] && forall k :: 0 <= k < |w| ==> IsJsSpace(w[k])
    requires y != [] ==> !IsJsSpace(y[0])
    ensures CollapseSpaces(x + w + y) == CollapseSpaces(x) + [' '] + CollapseSpaces(y)
  {
    var s := x + w + y;
    assert s[0] == x[0] && s[1..] == x[1..] + w + y;
    if |x| == 1 {
      assert x[1..] + w + y == w + y;
      CollapseRunThen(w, y);
      assert CollapseSpaces(x) == [x[0]] + CollapseSpaces(x[1..]);
    } else {
      assert s[1] == x[1];
      CollapseAcross(x[1..], w, y);
    }
  }

  /** Collapsing keeps a final non-whitespace character last. */
  lemma {:induction false} CollapseLast(x: string)
    requires x != [] && !IsJsSpace(x[|x| - 1])
    ensures CollapseSpaces(x) != [] && CollapseSpaces(x)[|CollapseSpaces(x)| - 1] == x[|x| - 1]
  {
    if |x| > 1 {
      CollapseLast(x[1..]);
    }
  }

  /** `trim` is the slice from the first to just past the last non-whitespace character. */
  lemma TrimIs(s: string, lo: nat, hi: nat)
    requires lo < hi <= |s|
    requires forall k :: 0 <= k < lo ==> IsJsSpace(s[k])
    requires forall k :: hi <= k < |s| ==> IsJsSpace(s[k])
    requires !IsJsSpace(s[lo]) && !IsJsSpace(s[hi - 1])
    ensures Trim(s) == s[lo..hi]
  {
    TrimStartSpec(s, 0);
    assert TrimStart(s, 0) == lo;
    TrimEndSpec(s, lo, |s|);
  }

  /** Where the non-whitespace characters of `s` start and end. */
  lemma Bounds(s: string) returns (lo: nat, hi: nat)
    requires exists i :: 0 <= i < |s| && !IsJsSpace(s[i])
    ensures lo < hi <= |s| && !IsJsSpace(s[lo]) && !IsJsSpace(s[hi - 1])
    ensures forall k :: 0 <= k < lo ==> IsJsSpace(s[k])
    ensures forall k :: hi <= k < |s| ==> IsJsSpace(s[k])
  {
    lo := TrimStart(s, 0);
    TrimStartSpec(s, 0);
    hi := TrimEnd(s, lo, |s|);
    TrimEndSpec(s, lo, |s|);
  }

  /** A string with a non-whitespace character has a non-whitespace character at some index. */
  lemma NonSpacesWitness(s: string)
    requires NonSpaces(s) != []
    ensures exists i :: 0 <= i < |s| && !IsJsSpace(s[i])
  {
    if forall i :: 0 <= i < |s| ==> IsJsSpace(s[i]) {
      NonSpacesOfSpaces(s);
    }
  }

  /** Every character `replace(/[\n\t]/g, '')` keeps comes from its input, and every
      character other than a newline or tab is kept. */
  lemma {:induction false} DropNewlinesTabsChars(s: string, c: char)
    ensures c in DropNewlinesTabs(s) ==> c in s
    ensures c in s && c != '\n' && c != '\t' ==> c in DropNewlinesTabs(s)
  {
    if s != [] {
      DropNewlinesTabsChars(s[1..], c);
      assert s == [s[0]] + s[1..];
    }
  }

  /** `trim` ignores a space after a final non-whitespace character. */
  lemma TrimSpaceAfter(p: string)
    requires p != [] && !IsJsSpace(p[|p| - 1])
    ensures Trim(p + [' ']) == Trim(p)
  {
    var lo, hi := Bounds(p);
    TrimIs(p, lo, hi);
    TrimIs(p + [' '], lo, hi);
    assert (p + [' '])[lo..hi] == p[lo..hi];
  }

  /** `trim` ignores a space before an initial non-whitespace character. */
  lemma TrimSpaceBefore(q: string)
    requires q != [] && !IsJsSpace(q[0])
    ensures Trim([' '] + q) == Trim(q)
  {
    var lo, hi := Bounds(q);
    TrimIs(q, lo, hi);
    TrimIs([' '] + q, lo + 1, hi + 1);
    forall k | lo + 1 <= k < hi + 1 ensures ([' '] + q)[k] == q[k - 1] {
    }
    assert ([' '] + q)[lo + 1..hi + 1] == q[lo..hi];
  }

  /** `trim` of two pieces joined by one space, the first ending and the second starting with
      a non-whitespace character, is the two trimmed pieces joined by that space. */
  lemma TrimJoin(p: string, q: string)
    requires p != [] && !IsJsSpace(p[|p| - 1])
    requires q != [] && !IsJsSpace(q[0])
    ensures Trim(p + [' '] + q) == Trim(p) + [' '] + Trim(q)
  {
    var loP, hiP := Bounds(p);
    var loQ, hiQ := Bounds(q);
    TrimIs(p, loP, |p|);
    TrimIs(q, 0, hiQ);
    var s := p + [' '] + q;
    forall k | 0 <= k < loP ensures IsJsSpace(s[k]) {
      assert s[k] == p[k];
    }
    forall k | |p| + 1 + hiQ <= k < |s| ensures IsJsSpace(s[k]) {
      assert s[k] == q[k - |p| - 1];
    }
    assert s[loP] == p[loP] && s[|p| + hiQ] == q[hiQ - 1];
    TrimIs(s, loP, |p| + 1 + hiQ);
    assert s[loP..|p| + 1 + hiQ] == p[loP..|p|] + [' '] + q[0..hiQ];
  }

  /** Trailing whitespace makes no difference once collapsed and trimmed. */
  lemma TrimCollapseTail(x: string, t: string)
    requires x != [] && !IsJsSpace(x[|x| - 1])
    requires forall k :: 0 <= k < |t| ==> IsJsSpace(t[k])
    ensures Trim(CollapseSpaces(x + t)) == Trim(CollapseSpaces(x))
  {
    if t == [] {
      assert x + t == x;
    } else {
      var c := CollapseSpaces(x);
      CollapseAcross(x, t, []);
      assert x + t + [] == x + t;
      assert CollapseSpaces([]) == [];
      assert CollapseSpaces(x + t) == c + [' '];
      CollapseLast(x);
      TrimSpaceAfter(c);
    }
  }

  /** Leading whitespace makes no difference once collapsed and trimmed. */
  lemma TrimCollapseHead(t: string, y: string)
    requires y != [] && !IsJsSpace(y[0])
    requires forall k :: 0 <= k < |t| ==> IsJsSpace(t[k])
    ensures Trim(CollapseSpaces(t + y)) == Trim(CollapseSpaces(y))
  {
    if t == [] {
      assert t + y == y;
    } else {
      CollapseRunThen(t, y);
      CollapseSpacesShape(y);
      TrimSpaceBefore(CollapseSpaces(y));
    }
  }

  /** A run of whitespace joined to a run of whitespace is a run of whitespace. */
  lemma SpacesConcat(x: string, y: string)
    requires forall k :: 0 <= k < |x| ==> IsJsSpace(x[k])
    requires forall k :: 0 <= k < |y| ==> IsJsSpace(y[k])
    ensures forall k :: 0 <= k < |x + y| ==> IsJsSpace((x + y)[k])
  {
    forall k | 0 <= k < |x + y| ensures IsJsSpace((x + y)[k]) {
      if k < |x| {
        assert (x + y)[k] == x[k];
      } else {
        assert (x + y)[k] == y[k - |x|];
      }
    }
  }

  /** A slice lying inside a whitespace stretch is all whitespace. */
  lemma SpacesSlice(s: string, lo: nat, hi: nat)
    requires lo <= hi <= |s|
    requires forall k :: lo <= k < hi ==> IsJsSpace(s[k])
    ensures forall k :: 0 <= k < |s[lo..hi]| ==> IsJsSpace(s[lo..hi][k])
  {
    forall k | 0 <= k < |s[lo..hi]| ensures IsJsSpace(s[lo..hi][k]) {
      assert s[lo..hi][k] == s[lo + k];
    }
  }

  /** Collapsing and trimming across a whitespace run that sits between two non-whitespace
      characters leaves one space there. */
  lemma TrimCollapseJoin(x: string, w: string, y: string)
    requires x != [] && !IsJsSpace(x[|x| - 1])
    requires w != [] && forall k :: 0 <= k < |w| ==> IsJsSpace(w[k])
    requires y != [] && !IsJsSpace(y[0])
    ensures Trim(CollapseSpaces(x + w + y)) == Trim(CollapseSpaces(x)) + " " + Trim(CollapseSpaces(y))
  {
    CollapseAcross(x, w, y);
    CollapseLast(x);
    CollapseSpacesShape(y);
    TrimJoin(CollapseSpaces(x), CollapseSpaces(y));
  }

  /** `TrimCollapseJoin` for a run made of three whitespace pieces, the middle one
      non-empty. */
  lemma TrimCollapseMiddle(x: string, t1: string, w: string, t2: string, y: string)
    requires x != [] && !IsJsSpace(x[|x| - 1])
    requires forall k :: 0 <= k < |t1| ==> IsJsSpace(t1[k])
    requires w != [] && forall k :: 0 <= k < |w| ==> IsJsSpace(w[k])
    requires forall k :: 0 <= k < |t2| ==> IsJsSpace(t2[k])
    requires y != [] && !IsJsSpace(y[0])
    ensures Trim(CollapseSpaces(x + (t1 + w + t2) + y)) == Trim(CollapseSpaces(x)) + " " + Trim(CollapseSpaces(y))
  {
    SpacesConcat(t1, w);
    SpacesConcat(t1 + w, t2);
    TrimCollapseJoin(x, t1 + w + t2, y);
  }

  /** `(x + t1) + w + (t2 + y)` regrouped around the middle. */
  lemma Regroup(x: string, t1: string, w: string, t2: string, y: string)
    ensures (x + t1) + w + (t2 + y) == x + (t1 + w + t2) + y
  {
  }

  /** A string holding a non-whitespace character is that text up to its last
      non-whitespace character, then whitespace. */
  lemma SplitTail(s: string) returns (x: string, t: string)
    requires exists i :: 0 <= i < |s| && !IsJsSpace(s[i])
    ensures s == x + t
    ensures x != [] && !IsJsSpace(x[|x| - 1])
    ensures forall k :: 0 <= k < |t| ==> IsJsSpace(t[k])
  {
    var lo, hi := Bounds(s);
    x, t := s[..hi], s[hi..];
    SpacesSlice(s, hi, |s|);
    assert s == x + t;
  }

  /** A string holding a non-whitespace character is whitespace, then that text from its
      first non-whitespace character on. */
  lemma SplitHead(s: string) returns (t: string, y: string)
    requires exists i :: 0 <= i < |s| && !IsJsSpace(s[i])
    ensures s == t + y
    ensures forall k :: 0 <= k < |t| ==> IsJsSpace(t[k])
    ensures y != [] && !IsJsSpace(y[0])
  {
    var lo, hi := Bounds(s);
    t, y := s[..lo], s[lo..];
    SpacesSlice(s, 0, lo);
    assert s == t + y;
  }

  /** The second and third passes of `compactString` across a whitespace run between two
      pieces that each hold a non-whitespace character. */
  lemma CollapseTrimAcross(A: string, W: string, B: string)
    requires exists i :: 0 <= i < |A| && !IsJsSpace(A[i])
    requires exists i :: 0 <= i < |B| && !IsJsSpace(B[i])
    requires W != [] && forall k :: 0 <= k < |W| ==> IsJsSpace(W[k])
    ensures Trim(CollapseSpaces(A + W + B)) == Trim(CollapseSpaces(A)) + " " + Trim(CollapseSpaces(B))
  {
    var x, t1 := SplitTail(A);
    var t2, y := SplitHead(B);
    TrimCollapseMiddle(x, t1, W, t2, y);
    TrimCollapseTail(x, t1);
    TrimCollapseHead(t2, y);
    Regroup(x, t1, W, t2, y);
  }

  /** A whitespace run between two pieces of text, holding at least one whitespace character
      other than a newline or tab, becomes exactly one space: `compactString` of the whole is
      `compactString` of each side joined by " ". */
  lemma RunBecomesSpace(a: string, w: string, b: string)
    requires w != [] && forall k :: 0 <= k < |w| ==> IsJsSpace(w[k])
    requires exists k :: 0 <= k < |w| && w[k] != '\n' && w[k] != '\t'
    requires NonSpaces(a) != [] && NonSpaces(b) != []
    ensures Compact(a + w + b) == Compact(a) + " " + Compact(b)
  {
    var A, W, B := DropNewlinesTabs(a), DropNewlinesTabs(w), DropNewlinesTabs(b);
    DropNewlinesTabsConcat(a + w, b);
    DropNewlinesTabsConcat(a, w);
    assert DropNewlinesTabs(a + w + b) == A + W + B;
    DropNewlinesTabsSpec(a);
    DropNewlinesTabsSpec(b);
    NonSpacesWitness(A);
    NonSpacesWitness(B);
    forall k | 0 <= k < |W| ensures IsJsSpace(W[k]) {
      DropNewlinesTabsChars(w, W[k]);
      var j :| 0 <= j < |w| && w[j] == W[k];
    }
    var k0 :| 0 <= k0 < |w| && w[k0] != '\n' && w[k0] != '\t';
    DropNewlinesTabsChars(w, w[k0]);
    CollapseTrimAcross(A, W, B);
  }

  /** Deleting newlines and tabs from whitespace leaves whitespace. */
  lemma DropNewlinesTabsSpaces(w: string)
    requires forall k :: 0 <= k < |w| ==> IsJsSpace(w[k])
    ensures forall k :: 0 <= k < |DropNewlinesTabs(w)| ==> IsJsSpace(DropNewlinesTabs(w)[k])
  {
    var W := DropNewlinesTabs(w);
    forall k | 0 <= k < |W| ensures IsJsSpace(W[k]) {
      DropNewlinesTabsChars(w, W[k]);
      var j :| 0 <= j < |w| && w[j] == W[k];
    }
  }

  /** Text without a non-whitespace character compacts to the empty string. */
  lemma CompactBlank(s: string)
    requires NonSpaces(s) == []
    ensures Compact(s) == ""
  {
    CompactShape(s);
    CompactNonSpaces(s);
  }

  /** Concatenation regrouped. */
  lemma Assoc(a: string, b: string, c: string)
    ensures (a + b) + c == a + (b + c)
  {
  }

  /** Collapsing and trimming ignore whitespace before text holding a non-whitespace
      character. */
  lemma TrimCollapseLeading(W: string, S: string)
    requires forall k :: 0 <= k < |W| ==> IsJsSpace(W[k])
    requires exists i :: 0 <= i < |S| && !IsJsSpace(S[i])
    ensures Trim(CollapseSpaces(W + S)) == Trim(CollapseSpaces(S))
  {
    var t, y := SplitHead(S);
    SpacesConcat(W, t);
    Assoc(W, t, y);
    TrimCollapseHead(W + t, y);
    TrimCollapseHead(t, y);
  }

  /** Collapsing and trimming ignore whitespace after text holding a non-whitespace
      character. */
  lemma TrimCollapseTrailing(S: string, W: string)
    requires forall k :: 0 <= k < |W| ==> IsJsSpace(W[k])
    requires exists i :: 0 <= i < |S| && !IsJsSpace(S[i])
    ensures Trim(CollapseSpaces(S + W)) == Trim(CollapseSpaces(S))
  {
    var x, t := SplitTail(S);
    SpacesConcat(t, W);
    Assoc(x, t, W);
    TrimCollapseTail(x, t + W);
    TrimCollapseTail(x, t);
  }

  /** Whitespace before the text vanishes: `trim` removes what the run collapsed to. */
  lemma LeadingSpaceVanishes(w: string, s: string)
    requires forall k :: 0 <= k < |w| ==> IsJsSpace(w[k])
    ensures Compact(w + s) == Compact(s)
  {
    NonSpacesOfSpaces(w);
    NonSpacesConcat(w, s);
    if NonSpaces(s) == [] {
      CompactBlank(s);
      CompactBlank(w + s);
    } else {
      DropNewlinesTabsConcat(w, s);
      DropNewlinesTabsSpaces(w);
      DropNewlinesTabsSpec(s);
      NonSpacesWitness(DropNewlinesTabs(s));
      TrimCollapseLeading(DropNewlinesTabs(w), DropNewlinesTabs(s));
    }
  }

  /** Whitespace after the text vanishes in the same way. */
  lemma TrailingSpaceVanishes(s: string, w: string)
    requires forall k :: 0 <= k < |w| ==> IsJsSpace(w[k])
    ensures Compact(s + w) == Compact(s)
  {
    NonSpacesOfSpaces(w);
    NonSpacesConcat(s, w);
    if NonSpaces(s) == [] {
      CompactBlank(s);
      CompactBlank(s + w);
    } else {
      DropNewlinesTabsConcat(s, w);
      DropNewlinesTabsSpaces(w);
      DropNewlinesTabsSpec(s);
      NonSpacesWitness(DropNewlinesTabs(s));
      TrimCollapseTrailing(DropNewlinesTabs(s), DropNewlinesTabs(w));
    }
  }
}
