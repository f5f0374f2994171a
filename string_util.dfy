/** The two JavaScript string operations the extraction code relies on besides
    `compactString`: a global single-character `replace` and `split` on one character. */
module StringUtil {

  /** `s.replace(/<from>/g, <to>)` for a single character `from`. */
  function ReplaceAll(s: string, from: char, to: char): (r: string)
    ensures |r| == |s|
  {
    if s == [] then []
    else [if s[0] == from then to else s[0]] + ReplaceAll(s[1..], from, to)
  }

  /** Every occurrence of `from` becomes `to`; every other character stays where it was. */
  lemma {:induction false} ReplaceAllSpec(s: string, from: char, to: char)
    ensures forall i :: 0 <= i < |s| ==> ReplaceAll(s, from, to)[i] == if s[i] == from then to else s[i]
  {
    if s != [] {
      ReplaceAllSpec(s[1..], from, to);
      assert forall i :: 1 <= i < |s| ==> ReplaceAll(s, from, to)[i] == ReplaceAll(s[1..], from, to)[i - 1];
    }
  }

  /** `s.split(sep)` for a one-character separator: the pieces between separators, in order,
      always at least one (the empty string splits into [""]). */
  function Split(s: string, sep: char): (r: seq<string>)
    ensures |r| >= 1
  {
    if s == [] then [""]
    else
      var rest := Split(s[1..], sep);
      if s[0] == sep then [""] + rest else [[s[0]] + rest[0]] + rest[1..]
  }

  /** `ps.join(sep)` */
  function Join(ps: seq<string>, sep: char): string
  {
    if ps == [] then ""
    else if |ps| == 1 then ps[0]
    else ps[0] + [sep] + Join(ps[1..], sep)
  }

  function Occurrences(s: string, c: char): nat
  {
    if s == [] then 0 else (if s[0] == c then 1 else 0) + Occurrences(s[1..], c)
  }

  /** No piece contains the separator. */
  lemma {:induction false} SplitPiecesFree(s: string, sep: char)
    ensures forall p :: p in Split(s, sep) ==> sep !in p
  {
    if s != [] {
      SplitPiecesFree(s[1..], sep);
    }
  }

  /** There is one piece more than there are separators. */
  lemma {:induction false} SplitCount(s: string, sep: char)
    ensures |Split(s, sep)| == Occurrences(s, sep) + 1
  {
    if s != [] {
      SplitCount(s[1..], sep);
    }
  }

  /** A leading separator splits off an empty first piece. */
  lemma SplitSep(t: string, sep: char)
    ensures Split([sep] + t, sep) == [""] + Split(t, sep)
  {
    assert ([sep] + t)[1..] == t;
  }

  /** A leading non-separator character belongs to the first piece. */
  lemma SplitCons(c: char, t: string, sep: char)
    requires c != sep
    ensures Split([c] + t, sep) == [[c] + Split(t, sep)[0]] + Split(t, sep)[1..]
  {
    assert ([c] + t)[1..] == t;
  }

  /** The first character of a join with a non-empty first piece is that piece's first
      character; the rest is the join with that character removed. */
  lemma JoinHead(ps: seq<string>, sep: char)
    requires ps != [] && ps[0] != []
    ensures Join(ps, sep) == [ps[0][0]] + Join([ps[0][1..]] + ps[1..], sep)
  {
    var p := ps[0];
    var ps' := [p[1..]] + ps[1..];
    assert p == [p[0]] + p[1..];
    if |ps| > 1 {
      assert ps'[1..] == ps[1..];
      assert Join(ps', sep) == p[1..] + [sep] + Join(ps[1..], sep);
    }
  }

  /** Joining the pieces back with the separator restores the input. */
  lemma {:induction false} JoinSplit(s: string, sep: char)
    ensures Join(Split(s, sep), sep) == s
  {
    if s != [] {
      var rest := Split(s[1..], sep);
      JoinSplit(s[1..], sep);
      assert s == [s[0]] + s[1..];
      if s[0] == sep {
        SplitSep(s[1..], sep);
        assert ([""] + rest)[1..] == rest;
      } else {
        SplitCons(s[0], s[1..], sep);
        var r := [[s[0]] + rest[0]] + rest[1..];
        JoinHead(r, sep);
        assert [r[0][1..]] + r[1..] == rest;
      }
    }
  }

  /** Splitting a join of separator-free pieces gives the pieces back. */
  lemma {:induction false} SplitJoin(ps: seq<string>, sep: char)
    requires ps != []
    requires forall k :: 0 <= k < |ps| ==> sep !in ps[k]
    ensures Split(Join(ps, sep), sep) == ps
    decreases |ps|, |ps[0]|
  {
    var p := ps[0];
    if p == [] {
      if |ps| > 1 {
        SplitJoin(ps[1..], sep);
        assert Join(ps, sep) == [sep] + Join(ps[1..], sep);
        SplitSep(Join(ps[1..], sep), sep);
        assert ps == [""] + ps[1..];
      }
    } else {
      var ps' := [p[1..]] + ps[1..];
      forall k | 0 <= k < |ps'| ensures sep !in ps'[k] {
        if k == 0 {
          assert forall c :: c in p[1..] ==> c in p;
        } else {
          assert ps'[k] == ps[k];
        }
      }
      SplitJoin(ps', sep);
      JoinHead(ps, sep);
      assert p[0] in p;
      SplitCons(p[0], Join(ps', sep), sep);
      assert [p[0]] + p[1..] == p;
      assert ps == [p] + ps'[1..];
    }
  }
}
