/**
 * The regular expressions of the BBCode kernel that consist of literal
 * parts joined by lazy `(.*?)` groups, with the `s` flag (a group runs over
 * newlines) and usually the `i` flag (literals match in any case):
 * `\[quote\](.*?)\[\/quote\]`, `\[bookmark\=(.*?)\](.*?)\[\/bookmark\]`,
 * `type='(.*?)'`. Each group runs to the first occurrence of the literal
 * after it, so a match exists at an opening literal exactly when the chain
 * of first occurrences after it exists.
 */
module LazyRegex {
  import opened Strings

  /** The text the literals are looked for in: lower-cased under the `i` flag. */
  function Fold(s: string, ci: bool): (r: string)
    ensures |r| == |s|
  {
    if ci then ToLower(s) else s
  }

  /** A match: where it starts, the text of each group, and where it ends. */
  datatype Match = Match(start: nat, groups: seq<string>, end: nat)

  /**
   * The lazy groups from `pos` on: each runs up to the first occurrence in
   * `low` of the literal that follows it; `None` when one is missing.
   */
  function Groups(s: string, low: string, pos: nat, delims: seq<string>): (r: Option<(seq<string>, nat)>)
    requires |low| == |s|
    ensures r.Some? ==> pos <= r.value.1 <= |s| && |r.value.0| == |delims|
    ensures r.Some? && delims != [] ==> pos + |delims[|delims| - 1]| <= r.value.1
    decreases |delims|
  {
    if delims == [] then (if pos <= |s| then Some(([], pos)) else None)
    else match Find(low, delims[0], pos)
      case None => None
      case Some(q) =>
        match Groups(s, low, q + |delims[0]|, delims[1..])
        case None => None
        case Some(g) => Some(([s[pos..q]] + g.0, g.1))
  }

  /** The opening literal sits at `p` of the folded text. */
  predicate OpensAt(low: string, open: string, p: int)
  {
    OccursAt(low, open, p)
  }

  /** The match at the first opening literal in the folded text `low` from `from` on. */
  function MatchIn(s: string, low: string, open: string, delims: seq<string>, from: nat): (r: Option<Match>)
    requires |low| == |s|
    ensures r.Some? ==> from <= r.value.start && r.value.start + |open| <= r.value.end <= |s|
    ensures r.Some? ==> |r.value.groups| == |delims| && OpensAt(low, open, r.value.start)
    ensures Find(low, open, from).None? ==> r.None?
  {
    match Find(low, open, from)
    case None => None
    case Some(p) =>
      match Groups(s, low, p + |open|, delims)
      case None => None
      case Some(g) => Some(Match(p, g.0, g.1))
  }

  /** `preg_match` of `open (.*?) d1 … (.*?) dn` from `from` on: the match at the first opening literal. */
  function FirstMatch(s: string, ci: bool, open: string, delims: seq<string>, from: nat): (r: Option<Match>)
    ensures r.Some? ==> from <= r.value.start && r.value.start + |open| <= r.value.end <= |s|
    ensures r.Some? ==> |r.value.groups| == |delims| && OpensAt(Fold(s, ci), open, r.value.start)
  {
    MatchIn(s, Fold(s, ci), open, delims, from)
  }

  /**
   * A chain of lazy groups that finds no match from `pos` finds none from a
   * later position either: the first occurrence of each literal only moves
   * right. This is why the match at the first opening literal is the leftmost.
   */
  lemma {:induction false} GroupsMonotone(s: string, low: string, pos: nat, pos': nat, delims: seq<string>)
    requires |low| == |s| && pos <= pos'
    requires Groups(s, low, pos, delims).None?
    ensures Groups(s, low, pos', delims).None?
    decreases |delims|
  {
    if delims != [] {
      var d := delims[0];
      FindFirst(low, d, pos);
      match Find(low, d, pos)
      case None =>
        FindFirst(low, d, pos');
      case Some(q) =>
        FindFirst(low, d, pos');
        match Find(low, d, pos')
        case None =>
        case Some(q') =>
          GroupsMonotone(s, low, q + |d|, q' + |d|, delims[1..]);
    }
  }

  /** `preg_match_all` with `PREG_SET_ORDER`: the successive matches, each searched from where the last ended. */
  function AllMatches(s: string, ci: bool, open: string, delims: seq<string>, from: nat): (r: seq<Match>)
    requires |open| > 0
    ensures forall k :: 0 <= k < |r| ==> from <= r[k].start && r[k].end <= |s| && |r[k].groups| == |delims|
    decreases |s| - from
  {
    match FirstMatch(s, ci, open, delims, from)
    case None => []
    case Some(m) => [m] + AllMatches(s, ci, open, delims, m.end)
  }

  /**
   * `preg_replace` with a replacement built from the groups: every match,
   * left to right, replaced; the text between matches kept.
   */
  function ReplaceMatches(s: string, ci: bool, open: string, delims: seq<string>, rep: seq<string> -> string, from: nat): (r: string)
    requires |open| > 0 && from <= |s|
    decreases |s| - from
  {
    match FirstMatch(s, ci, open, delims, from)
    case None => s[from..]
    case Some(m) => s[from..m.start] + rep(m.groups) + ReplaceMatches(s, ci, open, delims, rep, m.end)
  }

  /** Without a match from `from` on, the replacement copies the rest of the text. */
  lemma ReplaceWithoutMatch(s: string, ci: bool, open: string, delims: seq<string>, rep: seq<string> -> string, from: nat)
    requires |open| > 0 && from <= |s|
    requires FirstMatch(s, ci, open, delims, from).None?
    ensures ReplaceMatches(s, ci, open, delims, rep, from) == s[from..]
  {
  }

  /** The match at the largest start below `hi`, as a greedy `(.*)` in front of the pattern selects it. */
  function LastMatchBelow(s: string, ci: bool, open: string, delims: seq<string>, hi: nat): (r: Option<Match>)
    ensures r.Some? ==> r.value.start < hi && r.value.start + |open| <= r.value.end <= |s|
    ensures r.Some? ==> |r.value.groups| == |delims| && OpensAt(Fold(s, ci), open, r.value.start)
    decreases hi
  {
    if hi == 0 then None
    else
      var low := Fold(s, ci);
      var p := hi - 1;
      if OpensAt(low, open, p) && Groups(s, low, p + |open|, delims).Some? then
        var g := Groups(s, low, p + |open|, delims).value;
        Some(Match(p, g.0, g.1))
      else LastMatchBelow(s, ci, open, delims, p)
  }

  /** No start between the found one and `hi` opens a match: the greedy prefix takes the last one. */
  lemma {:induction false} LastMatchIsLast(s: string, ci: bool, open: string, delims: seq<string>, hi: nat, p: nat)
    requires LastMatchBelow(s, ci, open, delims, hi).Some?
    requires LastMatchBelow(s, ci, open, delims, hi).value.start < p < hi
    ensures !(OpensAt(Fold(s, ci), open, p) && Groups(s, Fold(s, ci), p + |open|, delims).Some?)
    decreases hi
  {
    if p < hi - 1 {
      LastMatchIsLast(s, ci, open, delims, hi - 1, p);
    }
  }

  /** Without the opening literal anywhere, there is no match. */
  lemma {:induction false} NoOpenNoLastMatch(s: string, ci: bool, open: string, delims: seq<string>, hi: nat)
    requires forall p :: !OpensAt(Fold(s, ci), open, p)
    ensures LastMatchBelow(s, ci, open, delims, hi).None?
    decreases hi
  {
    if hi > 0 {
      NoOpenNoLastMatch(s, ci, open, delims, hi - 1);
    }
  }

  /** `$n` of a replacement: the group's text, or "" for a group the pattern does not have. */
  function Group(groups: seq<string>, n: nat): (r: string)
    ensures n < |groups| ==> r == groups[n]
    ensures n >= |groups| ==> r == ""
  {
    if n < |groups| then groups[n] else ""
  }

  /** The number of decimal digits from `i` on: a greedy `[0-9]*`. */
  function Digits(s: string, i: nat): (n: nat)
    requires i <= |s|
    ensures i + n <= |s| && (forall k :: i <= k < i + n ==> IsDigit(s[k]))
    ensures i + n < |s| ==> !IsDigit(s[i + n])
    decreases |s| - i
  {
    if i == |s| || !IsDigit(s[i]) then 0 else 1 + Digits(s, i + 1)
  }

  /**
   * `\[img\=([0-9]*)x([0-9]*)\](.*?)\[\/img\]` (case-insensitive) at the
   * `[img=` found at `p`: the image address and where the match ends.
   */
  function SizedImageAt(s: string, low: string, p: nat): (r: Option<(string, nat)>)
    requires |low| == |s| && p + 5 <= |s|
    ensures r.Some? ==> p + 5 < r.value.1 <= |s|
  {
    var x := p + 5 + Digits(s, p + 5);
    if x < |s| && low[x] == 'x' then
      var c := x + 1 + Digits(s, x + 1);
      if c < |s| && s[c] == ']' then
        match Find(low, "[/img]", c + 1)
        case Some(q) => Some((s[c + 1..q], q + 6))
        case None => None
      else None
    else None
  }

  /**
   * `preg_replace` of `\[img\=([0-9]*)x([0-9]*)\](.*?)\[\/img\]` (any case) by
   * `[img]$3[/img]`: a sized image becomes a plain one.
   */
  function UnsizeImages(s: string, from: nat): (r: string)
    requires from <= |s|
    decreases |s| - from
  {
    var low := ToLower(s);
    match Find(low, "[img=", from)
    case None => s[from..]
    case Some(p) =>
      match SizedImageAt(s, low, p)
      case Some(m) => s[from..p] + "[img]" + m.0 + "[/img]" + UnsizeImages(s, m.1)
      case None => s[from..p + 1] + UnsizeImages(s, p + 1)
  }

  /** A text without `[img=` in any case is left alone by the sized-image replacement. */
  lemma UnsizeImagesIdle(s: string)
    requires !Contains(ToLower(s), "[img=")
    ensures UnsizeImages(s, 0) == s
  {
    assert s[0..] == s;
  }
}
