/**
 * Regular expressions of the form `open(.*?)close` WITHOUT the `s` flag,
 * as `\[img\](.*?)\[\/img\]`: the lazy group runs to the first closing
 * literal but may not cross a line break.
 */
module LineRegex {
  import opened Strings

  /** What the pattern finds at one opening literal. */
  datatype Attempt = NoClose | Crossed | Found(lo: nat, hi: nat)

  /**
   * The pattern at the opening literal found at `p`: the group runs to the
   * first closing literal, and fails when a line break lies before it.
   */
  function TryAt(s: string, open: string, close: string, p: nat): (r: Attempt)
    requires p + |open| <= |s|
    ensures r.Found? ==> p + |open| == r.lo <= r.hi && r.hi + |close| <= |s| && '\n' !in s[r.lo..r.hi]
  {
    match Find(s, close, p + |open|)
    case None => NoClose
    case Some(q) => if '\n' in s[p + |open|..q] then Crossed else Found(p + |open|, q)
  }

  /**
   * The first match from `from` on, as the bounds of its group. When the
   * group at an opening literal crosses a line break the search goes on
   * one character after that literal; when no closing literal follows,
   * none follows a later opening literal either.
   */
  function NextMatch(s: string, open: string, close: string, from: nat): (r: Option<(nat, nat)>)
    requires |open| > 0 && from <= |s|
    ensures r.Some? ==> from + |open| <= r.value.0 <= r.value.1 && r.value.1 + |close| <= |s|
    ensures r.Some? ==> '\n' !in s[r.value.0..r.value.1]
    decreases |s| - from
  {
    match Find(s, open, from)
    case None => None
    case Some(p) =>
      match TryAt(s, open, close, p)
      case NoClose => None
      case Crossed => NextMatch(s, open, close, p + 1)
      case Found(lo, hi) => Some((lo, hi))
  }

  /** `preg_match_all`: the groups of the successive matches, each search starting where the last match ended. */
  function LineMatches(s: string, open: string, close: string, from: nat): (r: seq<string>)
    requires |open| > 0 && from <= |s|
    decreases |s| - from
  {
    match NextMatch(s, open, close, from)
    case None => []
    case Some(m) => [s[m.0..m.1]] + LineMatches(s, open, close, m.1 + |close|)
  }

  /** No group found runs over a line break. */
  lemma {:induction false} LineMatchesOneLine(s: string, open: string, close: string, from: nat)
    requires |open| > 0 && from <= |s|
    ensures forall k :: 0 <= k < |LineMatches(s, open, close, from)| ==> '\n' !in LineMatches(s, open, close, from)[k]
    decreases |s| - from
  {
    match NextMatch(s, open, close, from)
    case None =>
    case Some(m) =>
      LineMatchesOneLine(s, open, close, m.1 + |close|);
  }

  /** A text made of the opening literal, `a` on one line and the closing literal yields `a` alone. */
  lemma LineMatchOfTag(s: string, open: string, a: string, close: string)
    requires |open| > 0 && |close| > 0 && close[0] !in close[1..]
    requires '\n' !in a && !Contains(a, close) && IsPrefix(open, s) && s[|open|..] == a + close
    ensures LineMatches(s, open, close, 0) == [a]
  {
    TagParts(s, open, a, close);
    GroupIs(s, |open|, a, close);
    LineMatchesOnly(s, open, close, |open|, |open| + |a|, a);
  }

  /**
   * A text made of the opening literal, `a` running over a line break and
   * the closing literal yields nothing when the opening literal does not
   * occur again.
   */
  lemma LineMatchAcross(s: string, open: string, a: string, close: string)
    requires |open| > 0 && |close| > 0 && close[0] !in close[1..]
    requires '\n' in a && !Contains(a, close) && IsPrefix(open, s) && s[|open|..] == a + close
    requires Find(s, open, 1).None?
    ensures LineMatches(s, open, close, 0) == []
  {
    TagParts(s, open, a, close);
    GroupIs(s, |open|, a, close);
    TryAtCrossed(s, open, close, 0, |open|, |open| + |a|, a);
    NextMatchSkips(s, open, close, 0, 0);
  }

  /** Where the literals and the group of `open + a + close` are found. */
  lemma TagParts(s: string, open: string, a: string, close: string)
    requires |open| > 0 && |close| > 0 && close[0] !in close[1..]
    requires !Contains(a, close) && IsPrefix(open, s) && s[|open|..] == a + close
    ensures Find(s, open, 0) == Some(0) && Find(s, close, |open|) == Some(|open| + |a|)
  {
    OpenAtStart(s, open);
    CloseAfter(s, |open|, a, close);
  }

  /** The closing literal right after `a` is the first from the start of `a` on. */
  lemma CloseAfter(s: string, k: nat, a: string, close: string)
    requires |close| > 0 && close[0] !in close[1..] && !Contains(a, close)
    requires k <= |s| && s[k..] == a + close
    ensures Find(s, close, k) == Some(k + |a|)
  {
    assert close[..|close|] == close;
    CloseFound(s, k, a, close, close);
  }

  /** The text from `k` on starts with `a`. */
  lemma GroupIs(s: string, k: nat, a: string, x: string)
    requires k <= |s| && s[k..] == a + x
    ensures k + |a| + |x| == |s| && s[k..k + |a|] == a
  {
    assert s[k..][..|a|] == a;
  }

  /** A group that crosses a line break, with no opening literal after it, leaves no match. */
  lemma NextMatchSkips(s: string, open: string, close: string, from: nat, p: nat)
    requires |open| > 0 && from <= p && p + |open| <= |s| && Find(s, open, from) == Some(p)
    requires TryAt(s, open, close, p) == Crossed && Find(s, open, p + 1).None?
    ensures NextMatch(s, open, close, from).None? && LineMatches(s, open, close, from) == []
  {
  }

  /** The group at `p` crosses a line break. */
  lemma TryAtCrossed(s: string, open: string, close: string, p: nat, k: nat, q: nat, g: string)
    requires k == p + |open| && Find(s, close, k) == Some(q) && k <= q <= |s| && g == s[k..q] && '\n' in g
    ensures TryAt(s, open, close, p) == Crossed
  {
  }

  /** The group at `p` stays on one line. */
  lemma TryAtFound(s: string, open: string, close: string, p: nat, k: nat, q: nat, g: string)
    requires k == p + |open| && Find(s, close, k) == Some(q) && k <= q <= |s| && g == s[k..q] && '\n' !in g
    ensures TryAt(s, open, close, p) == Found(p + |open|, q)
  {
  }

  /** The only match: its group is `g`, and the closing literal ends the text. */
  lemma LineMatchesOnly(s: string, open: string, close: string, k: nat, q: nat, g: string)
    requires |open| > 0 && k == |open| && q + |close| == |s|
    requires Find(s, open, 0) == Some(0) && Find(s, close, k) == Some(q)
    requires k <= q && g == s[k..q] && '\n' !in g
    ensures LineMatches(s, open, close, 0) == [g]
  {
    assert TryAt(s, open, close, 0) == Found(k, q) by {
      TryAtFound(s, open, close, 0, k, q, g);
    }
    assert NextMatch(s, open, close, |s|).None?;
  }

  /** A text starting with `open` has its first `open` at the start. */
  lemma OpenAtStart(s: string, open: string)
    requires IsPrefix(open, s)
    ensures Find(s, open, 0) == Some(0)
  {
    OccursAtSlice(s, open, 0);
  }

  /** The closing literal that starts `x`, after `a`, is the first one from the start of `a` on. */
  lemma CloseFound(s: string, k: nat, a: string, x: string, close: string)
    requires |close| > 0 && close[0] !in close[1..] && IsPrefix(close, x)
    requires !Contains(a, close) && k <= |s| && s[k..] == a + x
    ensures Find(s, close, k) == Some(k + |a|)
  {
    FindAtSeam(a, x, close);
    FindShifted(s, k, close, |a|);
  }
}
