/**
 * `getTags`, the scanner for mentions and hashtags in a post, and the
 * `[abstract]` element: `stripAbstract` and `getAbstract`.
 *
 * `getTags` first prepares the text (hashtag links become hashtags, code
 * blocks and BBCode tags are removed) and then runs two scans: full names
 * `@first last`, then single words after `@`, `#` or `!`.
 */
module Tags {
  import opened Strings
  import opened LazyRegex

  /**
   * `#\[url\=([^\[\]]*)\](.*?)\[\/url\]` replaced by `#$2`: a hashtag link
   * becomes the hashtag. An address holding `[` does not match there, and
   * the search goes on at the next character.
   */
  function HashLinks(s: string, from: nat): string
    requires from <= |s|
    decreases |s| - from
  {
    var low := ToLower(s);
    match Find(low, "#[url=", from)
    case None => s[from..]
    case Some(p) =>
      match Groups(s, low, p + 6, ["]", "[/url]"])
      case Some(g) =>
        if '[' !in g.0[0] then s[from..p] + "#" + g.0[1] + HashLinks(s, g.1)
        else s[from..p + 1] + HashLinks(s, p + 1)
      case None => s[from..p + 1] + HashLinks(s, p + 1)
  }

  /** Without a hashtag link the text is unchanged. */
  lemma HashLinksIdle(s: string)
    requires !Contains(ToLower(s), "#[url=")
    ensures HashLinks(s, 0) == s
  {
    assert s[0..] == s;
  }

  /** `\[code.*?\].*?\[\/code\]` removed, case-sensitively. */
  function StripCode(s: string): string
  {
    ReplaceMatches(s, false, "[code", ["]", "[/code]"], g => "", 0)
  }

  /** `str_replace(['[', ']'], ["\n[", "]\n"], $s)`: every tag on its own line. */
  function SplitTags(s: string): string
  {
    ReplaceAll(ReplaceAll(s, "[", "\n["), "]", "]\n")
  }

  /** `\[(.*?)\]` removed: every bracketed tag. */
  function StripBBTags(s: string): string
  {
    ReplaceMatches(s, false, "[", ["]"], g => "", 0)
  }

  /** The text the two scans run over. */
  function Prepared(s: string): string
  {
    StripBBTags(SplitTags(StripCode(HashLinks(s, 0))))
  }

  /** The number of characters from `i` on that are not in `stops`: a greedy `[^…]+` run. */
  function Run(s: string, i: nat, stops: set<char>): (n: nat)
    requires i <= |s|
    ensures i + n <= |s|
    ensures forall k :: i <= k < i + n ==> s[k] !in stops
    ensures i + n < |s| ==> s[i + n] in stops
    decreases |s| - i
  {
    if i == |s| || s[i] in stops then 0 else 1 + Run(s, i + 1, stops)
  }

  /** What ends the first name of a full-name mention. */
  const NameStops: set<char> := {' ', '\r', '\n', ',', ':', '?'}

  /** What ends the last name: also `@`. */
  const SurnameStops: set<char> := {' ', '\r', '\n', '@', ',', ':', '?'}

  /** What ends a single-word tag. */
  const WordStops: set<char> := {'^', ' ', '\r', '\n', ',', ';', ':', '?'}

  /**
   * `(@[^ \r\n,:?]+ [^ \r\n@,:?]+)([ \r\n@,:?]|$)` at `p`: the mention and
   * where the match ends. Both runs are greedy, and the last one stops
   * exactly at a character the closing group accepts, which the match eats.
   */
  function FullNameAt(s: string, p: nat): (r: Option<(string, nat)>)
    ensures r.Some? ==> p < r.value.1 <= |s| && |r.value.0| >= 4 && r.value.0[0] == '@'
  {
    if p < |s| && s[p] == '@' then
      var n1 := Run(s, p + 1, NameStops);
      var q := p + 1 + n1;
      if n1 > 0 && q < |s| && s[q] == ' ' then
        var n2 := Run(s, q + 1, SurnameStops);
        var e := q + 1 + n2;
        if n2 > 0 then Some((s[p..e], if e < |s| then e + 1 else e)) else None
      else None
    else None
  }

  /** `preg_match_all` of the full-name pattern: its first groups, left to right. */
  function FullNames(s: string, from: nat): (r: seq<string>)
    ensures forall k :: 0 <= k < |r| ==> |r[k]| >= 4 && r[k][0] == '@'
    decreases |s| - from
  {
    if from >= |s| then []
    else match FullNameAt(s, from)
      case Some(m) => [m.0] + FullNames(s, m.1)
      case None => FullNames(s, from + 1)
  }

  /**
   * `([!#@][^\^ \r\n,;:?]+)([ \r\n,;:?]|$)` at `p`. The run is greedy and
   * a shorter one is never followed by a closing character, so a `^` right
   * after the run means no match here.
   */
  function WordAt(s: string, p: nat): (r: Option<(string, nat)>)
    ensures r.Some? ==> p < r.value.1 <= |s| && |r.value.0| >= 2 && r.value.0[0] in {'!', '#', '@'}
  {
    if p < |s| && s[p] in {'!', '#', '@'} then
      var n := Run(s, p + 1, WordStops);
      var e := p + 1 + n;
      if n > 0 && (e == |s| || s[e] != '^') then Some((s[p..e], if e < |s| then e + 1 else e)) else None
    else None
  }

  /** `preg_match_all` of the single-word pattern: its first groups, left to right. */
  function Words(s: string, from: nat): (r: seq<string>)
    ensures forall k :: 0 <= k < |r| ==> |r[k]| >= 2 && r[k][0] in {'!', '#', '@'}
    decreases |s| - from
  {
    if from >= |s| then []
    else match WordAt(s, from)
      case Some(m) => [m.0] + Words(s, m.1)
      case None => Words(s, from + 1)
  }

  /** A trailing period is not part of a tag. */
  function DropDot(t: string): (r: string)
    requires |t| >= 2
    ensures |r| == |t| || |r| == |t| - 1
    ensures |r| >= 1 && r[0] == t[0] && r == t[..|r|]
    ensures |r| == |t| - 1 <==> t[|t| - 1] == '.'
  {
    if t[|t| - 1] == '.' then t[..|t| - 1] else t
  }

  /** `#` followed only by digits, like `#1`. */
  predicate NumericHashtag(t: string)
  {
    |t| > 1 && t[0] == '#' && forall k :: 1 <= k < |t| ==> IsDigit(t[k])
  }

  /** `[a-zA-z0-9\/]` as written: the range `A-z` also takes `[`, `\`, `]`, `^`, `_` and the backquote. */
  predicate UrlCharAsWritten(c: char)
  {
    'a' <= c <= 'z' || 'A' <= c <= 'z' || '0' <= c <= '9' || c == '/'
  }

  /** `[a-zA-Z0-9\/]`, the character class evidently intended. */
  predicate UrlChar(c: char)
  {
    'a' <= c <= 'z' || 'A' <= c <= 'Z' || '0' <= c <= '9' || c == '/'
  }

  /**
   * The tag looks like part of an address: its first occurrence in the
   * text is not at the start (`strpos` is then truthy) and follows a
   * character of the class.
   */
  predicate Fragment(s: string, t: string, urlChar: char -> bool)
  {
    match Find(s, t, 0)
    case Some(j) => 0 < j <= |s| && urlChar(s[j - 1])
    case None => false
  }

  /**
   * A single-word match is kept unless it holds `]` (`strstr` is then
   * truthy, since the rest starts with `]`), is a numeric hashtag once its
   * period is dropped, or looks like part of an address.
   */
  predicate WordKept(s: string, m: string, urlChar: char -> bool)
    requires |m| >= 2
  {
    ']' !in m && !NumericHashtag(DropDot(m)) && !Fragment(s, DropDot(m), urlChar)
  }

  /** The full-name mentions the first loop appends: those without `]`, without a trailing period. */
  function FullNameTags(ms: seq<string>): (r: seq<string>)
    requires forall k :: 0 <= k < |ms| ==> |ms[k]| >= 4 && ms[k][0] == '@'
    ensures forall k :: 0 <= k < |r| ==> |r[k]| >= 1 && r[k][0] == '@' && ']' !in r[k]
    decreases |ms|
  {
    if ms == [] then []
    else
      var m := ms[|ms| - 1];
      FullNameTags(ms[..|ms| - 1]) + (if ']' !in m then [DropDot(m)] else [])
  }

  /** The single-word tags the second loop appends. */
  function WordTags(s: string, ms: seq<string>, urlChar: char -> bool): (r: seq<string>)
    requires forall k :: 0 <= k < |ms| ==> |ms[k]| >= 2 && ms[k][0] in {'!', '#', '@'}
    ensures forall k :: 0 <= k < |r| ==> |r[k]| >= 1 && r[k][0] in {'!', '#', '@'} && ']' !in r[k] && !NumericHashtag(r[k])
    decreases |ms|
  {
    if ms == [] then []
    else
      var m := ms[|ms| - 1];
      WordTags(s, ms[..|ms| - 1], urlChar) + (if WordKept(s, m, urlChar) then [DropDot(m)] else [])
  }

  /** What `getTags` returns, with the address test given by `urlChar`. */
  function TagsWith(s: string, urlChar: char -> bool): seq<string>
  {
    var p := Prepared(s);
    FullNameTags(FullNames(p, 0)) + WordTags(p, Words(p, 0), urlChar)
  }

  /** What `getTags` returns, with the address test as intended. */
  function Tags(s: string): seq<string>
  {
    TagsWith(s, UrlChar)
  }

  /**
   * Every tag starts with `@`, `#` or `!` and holds no `]`, and no tag is
   * `#` followed by digits alone.
   */
  lemma TagsShape(s: string, urlChar: char -> bool)
    ensures forall t :: t in TagsWith(s, urlChar) ==> |t| >= 1 && t[0] in {'!', '#', '@'} && ']' !in t
    ensures forall t :: t in TagsWith(s, urlChar) ==> !NumericHashtag(t)
  {
    var p := Prepared(s);
    var a := FullNameTags(FullNames(p, 0));
    var b := WordTags(p, Words(p, 0), urlChar);
    forall t | t in a + b ensures |t| >= 1 && t[0] in {'!', '#', '@'} && ']' !in t && !NumericHashtag(t) {
      if t in a {
        var k :| 0 <= k < |a| && a[k] == t;
      } else {
        var k :| 0 <= k < |b| && b[k] == t;
      }
    }
  }

  /** The `foreach` over the full names, appending to `$ret`. */
  method CollectFullNames(ms: seq<string>) returns (ret: seq<string>)
    requires forall k :: 0 <= k < |ms| ==> |ms[k]| >= 4 && ms[k][0] == '@'
    ensures ret == FullNameTags(ms)
  {
    ret := [];
    for i := 0 to |ms|
      invariant ret == FullNameTags(ms[..i])
    {
      assert ms[..i + 1][..i] == ms[..i];
      if ']' !in ms[i] {
        ret := ret + [DropDot(ms[i])];
      }
    }
    assert ms[..|ms|] == ms;
  }

  /** The `foreach` over the single words, appending to `$ret`. */
  method CollectWords(s: string, ms: seq<string>, ret0: seq<string>) returns (ret: seq<string>)
    requires forall k :: 0 <= k < |ms| ==> |ms[k]| >= 2 && ms[k][0] in {'!', '#', '@'}
    ensures ret == ret0 + WordTags(s, ms, UrlChar)
  {
    ret := ret0;
    for i := 0 to |ms|
      invariant ret == ret0 + WordTags(s, ms[..i], UrlChar)
    {
      assert ms[..i + 1][..i] == ms[..i];
      if WordKept(s, ms[i], UrlChar) {
        ret := ret + [DropDot(ms[i])];
      }
    }
    assert ms[..|ms|] == ms;
  }

  /** `getTags`: the full names first, then the single words. */
  method GetTags(s: string) returns (ret: seq<string>)
    ensures ret == Tags(s)
    ensures forall t :: t in ret ==> |t| >= 1 && t[0] in {'!', '#', '@'} && ']' !in t && !NumericHashtag(t)
  {
    var p := Prepared(s);
    ret := CollectFullNames(FullNames(p, 0));
    ret := CollectWords(p, Words(p, 0), ret);
    TagsShape(s, UrlChar);
  }

  /**
   * A hashtag right after `_` (or `[`, `\`, `]`, `^`, the backquote): the
   * range `A-z` takes the character for part of an address and drops the
   * tag; the intended class keeps it.
   */
  lemma UnderscoreHashtag()
    ensures Fragment("x_#tag", "#tag", UrlCharAsWritten)
    ensures !Fragment("x_#tag", "#tag", UrlChar)
  {
    var s := "x_#tag";
    assert !OccursAt(s, "#tag", 0) by { assert s[0 + 0] != "#tag"[0]; }
    assert !OccursAt(s, "#tag", 1) by { assert s[1 + 0] != "#tag"[0]; }
    assert OccursAt(s, "#tag", 2);
    FindExactly(s, "#tag", 0, 2);
  }

  /**
   * A code block never reaches the scans: removing `[code]c[/code]` from
   * between `a` and `b` gives `a` + `b`, as long as neither holds a code
   * tag of its own and `c` does not close the block early.
   */
  lemma CodeBlockRemoved(a: string, c: string, b: string)
    requires !Contains(a + b, "[code") && !Contains(c, "[/code]")
    ensures StripCode(a + "[code]" + c + "[/code]" + b) == a + b
  {
    var x := "[/code]" + b;
    var w := a + ("[code]" + (c + x));
    assert a + "[code]" + c + "[/code]" + b == w;
    ContainsParts(a, b, "[code");
    assert "[code"[1..] == "code" && "[/code]"[1..] == "/code]";
    assert IsPrefix("[code", "[code]") && "[code]"[5] == ']';
    assert IsPrefix("[/code]", x) by {
      assert x[..7] == "[/code]";
    }
    var e := BlockFound(a, "[code]", c, x, w, "[code", "[/code]");
    assert w[e..] == b;
    CodeRest(w, e, b);
    assert w[0..|a|] == a;
  }

  /**
   * The first match of `open…](.*?)]` then `(.*?)close` in `w` is the block
   * opened by `t` after `a`, closed where `x` starts.
   */
  lemma BlockFound(a: string, t: string, c: string, x: string, w: string, open: string, close: string) returns (e: nat)
    requires |open| > 0 && open[0] !in open[1..] && |close| > 0 && close[0] !in close[1..]
    requires |t| == |open| + 1 && IsPrefix(open, t) && t[|open|] == ']' && IsPrefix(close, x)
    requires !Contains(a, open) && !Contains(c, close)
    requires w == a + (t + (c + x))
    ensures e == |a| + |t| + |c| + |close| && e <= |w| && w[e..] == x[|close|..]
    ensures var m := FirstMatch(w, false, open, ["]", close], 0); m.Some? && m.value.start == |a| && m.value.end == e
  {
    var p := |a|;
    var k := p + |open| + 1;
    var q := k + |c|;
    e := q + |close|;
    BlockOpenFound(a, t + (c + x), w, open);
    assert w[k..] == c + x;
    BlockCloseAt(w, k, c, x, close);
    BlockMatch(w, open, close, p, q);
  }

  /** The first `close` from `k` on is the one at the start of `x`. */
  lemma BlockCloseAt(w: string, k: nat, c: string, x: string, close: string)
    requires |close| > 0 && close[0] !in close[1..] && IsPrefix(close, x) && !Contains(c, close)
    requires k <= |w| && w[k..] == c + x
    ensures Find(w, close, k) == Some(k + |c|)
    ensures k + |c| + |close| <= |w| && w[k + |c| + |close|..] == x[|close|..]
  {
    FindAtSeam(c, x, close);
    FindShifted(w, k, close, |c|);
    assert w[k + |c| + |close|..] == (c + x)[|c| + |close|..];
  }

  /** The match from where its three literals are found. */
  lemma BlockMatch(w: string, open: string, close: string, p: nat, q: nat)
    requires Find(w, open, 0) == Some(p) && Find(w, "]", p + |open|) == Some(p + |open|) && Find(w, close, p + |open| + 1) == Some(q)
    ensures var m := FirstMatch(w, false, open, ["]", close], 0); m.Some? && m.value.start == p && m.value.end == q + |close|
  {
    var delims := ["]", close];
    GroupsTwo(w, p + |open|, delims, p + |open|, q, q + |close|);
    FirstMatchAt(w, open, delims, p, ([w[p + |open|..p + |open|], w[p + |open| + 1..q]], q + |close|));
  }

  /** A case-sensitive match at the first opening literal, with its groups found. */
  lemma FirstMatchAt(s: string, open: string, delims: seq<string>, p: nat, g: (seq<string>, nat))
    requires Find(s, open, 0) == Some(p) && Groups(s, s, p + |open|, delims) == Some(g)
    ensures FirstMatch(s, false, open, delims, 0) == Some(Match(p, g.0, g.1))
  {
  }

  /** The opening literal after `a` is the first in `w`, and its `]` follows at once. */
  lemma BlockOpenFound(a: string, y: string, w: string, open: string)
    requires |open| > 0 && open[0] !in open[1..] && IsPrefix(open, y) && |open| < |y| && y[|open|] == ']'
    requires !Contains(a, open) && w == a + y
    ensures Find(w, open, 0) == Some(|a|) && Find(w, "]", |a| + |open|) == Some(|a| + |open|)
  {
    FindAtSeam(a, y, open);
    assert w[|a| + |open|] == y[|open|];
    assert OccursAt(w, "]", |a| + |open|);
  }

  /** One lazy group closed by the first `close` from `pos` on. */
  lemma GroupsOne(s: string, pos: nat, close: string, q: nat)
    requires Find(s, close, pos) == Some(q)
    ensures Groups(s, s, pos, [close]) == Some(([s[pos..q]], q + |close|))
  {
    assert [close][1..] == [];
    assert [s[pos..q]] + [] == [s[pos..q]];
  }

  /** Two lazy groups, each closed by the first of its delimiters. */
  lemma GroupsTwo(s: string, pos: nat, delims: seq<string>, q1: nat, q2: nat, e: nat)
    requires |delims| == 2 && e == q2 + |delims[1]|
    requires Find(s, delims[0], pos) == Some(q1) && Find(s, delims[1], q1 + |delims[0]|) == Some(q2)
    ensures Groups(s, s, pos, delims) == Some(([s[pos..q1], s[q1 + |delims[0]|..q2]], e))
  {
    GroupsOne(s, q1 + |delims[0]|, delims[1], q2);
    assert delims[1..] == [delims[1]];
    assert [s[pos..q1]] + [s[q1 + |delims[0]|..q2]] == [s[pos..q1], s[q1 + |delims[0]|..q2]];
  }

  /** Past the block no code tag opens again, so the rest is copied. */
  lemma CodeRest(w: string, e: nat, b: string)
    requires e <= |w| && w[e..] == b && !Contains(b, "[code")
    ensures ReplaceMatches(w, false, "[code", ["]", "[/code]"], g => "", e) == b
  {
    FindInSuffix(w, "[code", e, 0);
    ReplaceWithoutMatch(w, false, "[code", ["]", "[/code]"], g => "", e);
  }

  /**
   * Mentions and hashtags inside a code block are never returned: the tags
   * of a text with a code block are those of the text without it.
   */
  lemma TagsIgnoreCode(a: string, c: string, b: string)
    requires !Contains(a + b, "[code") && !Contains(c, "[/code]")
    requires !Contains(ToLower(a + "[code]" + c + "[/code]" + b), "#[url=") && !Contains(ToLower(a + b), "#[url=")
    ensures Tags(a + "[code]" + c + "[/code]" + b) == Tags(a + b)
  {
    HashLinksIdle(a + "[code]" + c + "[/code]" + b);
    HashLinksIdle(a + b);
    CodeBlockRemoved(a, c, b);
    StripCodeIdle(a + b);
  }

  /** A text without a code tag loses nothing to the code-block removal. */
  lemma StripCodeIdle(s: string)
    requires !Contains(s, "[code")
    ensures StripCode(s) == s
  {
    assert s[0..] == s;
  }

  /** `[\s|\n]`: PCRE's white space, and `|` itself, which the class also names. */
  const AbstractSpace: set<char> := {' ', '\t', '\n', '\U{0B}', '\U{0C}', '\r', '|'}

  /** The start of the run of `AbstractSpace` characters that ends at `hi`, not before `lo`. */
  function SpaceBefore(s: string, lo: nat, hi: nat): (b: nat)
    requires lo <= hi <= |s|
    ensures lo <= b <= hi
    ensures forall k :: b <= k < hi ==> s[k] in AbstractSpace
    ensures b > lo ==> s[b - 1] !in AbstractSpace
    decreases hi
  {
    if hi == lo || s[hi - 1] !in AbstractSpace then hi else SpaceBefore(s, lo, hi - 1)
  }

  /** The number of `AbstractSpace` characters from `i` on. */
  function SpaceAfter(s: string, i: nat): (n: nat)
    requires i <= |s|
    ensures i + n <= |s|
    ensures forall k :: i <= k < i + n ==> s[k] in AbstractSpace
    ensures i + n < |s| ==> s[i + n] !in AbstractSpace
    decreases |s| - i
  {
    if i == |s| || s[i] !in AbstractSpace then 0 else 1 + SpaceAfter(s, i + 1)
  }

  /** The tags of a plain abstract, and the opening and closing literals of an addon abstract. */
  const AbstractOpen: string := "[abstract]"
  const AbstractClose: string := "[/abstract]"
  const PlainAbstractEnds: seq<string> := [AbstractClose]
  const AddonAbstractOpen: string := "[abstract="
  const AddonAbstractEnds: seq<string> := ["]", AbstractClose]

  /**
   * `[\s|\n]*<open>(.*?)…<close>[\s|\n]*` replaced by nothing: every match
   * of the lazy pattern goes, with the white space on both sides of it.
   * The leading run starts no earlier than where the search resumed. The
   * literals are looked for in `low`, the text lower-cased under the `i` flag.
   */
  function StripSpaced(s: string, low: string, open: string, delims: seq<string>, from: nat): (r: string)
    requires |open| > 0 && from <= |s| && |low| == |s|
    ensures |r| <= |s| - from
    decreases |s| - from
  {
    match SpacedMatch(s, low, open, delims, from)
    case None => s[from..]
    case Some(span) => s[from..span.0] + StripSpaced(s, low, open, delims, span.1)
  }

  /** The span a spaced match removes: the match with the white space on both sides of it. */
  function SpacedMatch(s: string, low: string, open: string, delims: seq<string>, from: nat): (r: Option<(nat, nat)>)
    requires |open| > 0 && from <= |s| && |low| == |s|
    ensures r.Some? ==> from <= r.value.0 && r.value.0 + |open| <= r.value.1 <= |s|
  {
    match MatchIn(s, low, open, delims, from)
    case None => None
    case Some(m) => Some((SpaceBefore(s, from, m.start), m.end + SpaceAfter(s, m.end)))
  }

  /** `stripAbstract`: the plain abstracts first, then the ones for an addon. */
  function StripAbstract(s: string): (r: string)
    ensures |r| <= |s|
  {
    var t := StripSpaced(s, ToLower(s), AbstractOpen, PlainAbstractEnds, 0);
    StripSpaced(t, ToLower(t), AddonAbstractOpen, AddonAbstractEnds, 0)
  }

  /** A text without `[abstract` in any case keeps every character. */
  lemma StripAbstractIdle(s: string)
    requires !Contains(ToLower(s), "[abstract")
    ensures StripAbstract(s) == s
  {
    AbstractPrefixes();
    ContainsHead(ToLower(s), AbstractOpen, 9);
    ContainsHead(ToLower(s), AddonAbstractOpen, 9);
    SpacedRest(s, ToLower(s), AbstractOpen, PlainAbstractEnds, 0);
    SpacedRest(s, ToLower(s), AddonAbstractOpen, AddonAbstractEnds, 0);
    assert s[0..] == s;
  }

  /**
   * One plain abstract goes whole: removing `[abstract]c[/abstract]` from
   * between `a` and `b` leaves `a` + `b`, when no other abstract tag is in
   * the text, `c` does not close the element early and no white space or
   * `|` borders it.
   */
  lemma AbstractRemoved(a: string, c: string, b: string)
    requires !Contains(ToLower(a + b), "[abstract") && !Contains(ToLower(c), AbstractClose)
    requires a == [] || a[|a| - 1] !in AbstractSpace
    requires b == [] || b[0] !in AbstractSpace
    ensures StripAbstract(a + AbstractOpen + c + AbstractClose + b) == a + b
  {
    var w := a + (AbstractOpen + (c + (AbstractClose + b)));
    Reassociate(a, AbstractOpen, c, AbstractClose, b);
    AbstractOutside(a, b);
    PlainAbstractRemoved(a, c, b, w);
    StripSpacedIdle(a + b, AddonAbstractOpen, AddonAbstractEnds);
  }

  /** The plain pass removes exactly the one plain abstract element. */
  lemma PlainAbstractRemoved(a: string, c: string, b: string, w: string)
    requires w == a + (AbstractOpen + (c + (AbstractClose + b)))
    requires !Contains(ToLower(a), AbstractOpen) && !Contains(ToLower(b), AbstractOpen)
    requires !Contains(ToLower(c), AbstractClose)
    requires a == [] || a[|a| - 1] !in AbstractSpace
    requires b == [] || b[0] !in AbstractSpace
    ensures StripSpaced(w, ToLower(w), AbstractOpen, PlainAbstractEnds, 0) == a + b
  {
    PlainAbstractRemovedAt(a, c, b, w, AbstractOpen, AbstractClose, PlainAbstractEnds);
  }

  /** `PlainAbstractRemoved` over the tags given as parameters. */
  lemma PlainAbstractRemovedAt(a: string, c: string, b: string, w: string, open: string, close: string, delims: seq<string>)
    requires open == AbstractOpen && close == AbstractClose && delims == PlainAbstractEnds
    requires w == a + (open + (c + (close + b)))
    requires !Contains(ToLower(a), open) && !Contains(ToLower(b), open) && !Contains(ToLower(c), close)
    requires a == [] || a[|a| - 1] !in AbstractSpace
    requires b == [] || b[0] !in AbstractSpace
    ensures StripSpaced(w, ToLower(w), open, delims, 0) == a + b
  {
    AbstractOpenLower();
    AbstractCloseLower();
    FoldedElementStripped(w, a, c, b, open, close, delims);
  }

  /** The spaced, case-insensitive removal of `open(.*?)close` over `a open c close b`, for lower-case literals. */
  lemma FoldedElementStripped(s: string, a: string, c: string, b: string, open: string, close: string, delims: seq<string>)
    requires |open| > 0 && open[0] !in open[1..] && |close| > 0 && close[0] !in close[1..]
    requires ToLower(open) == open && ToLower(close) == close
    requires delims == [close] && s == a + (open + (c + (close + b)))
    requires !Contains(ToLower(a), open) && !Contains(ToLower(b), open) && !Contains(ToLower(c), close)
    requires a == [] || a[|a| - 1] !in AbstractSpace
    requires b == [] || b[0] !in AbstractSpace
    ensures StripSpaced(s, ToLower(s), open, delims, 0) == a + b
  {
    FoldedParts(a, open, c, close, b);
    SpacedElementStripped(s, ToLower(s), a, c, b, ToLower(a), ToLower(c), ToLower(b), open, close);
  }

  /** Concatenation of five parts, grouped to the right. */
  lemma Reassociate(a: string, t: string, c: string, u: string, b: string)
    ensures a + t + c + u + b == a + (t + (c + (u + b)))
  {
  }

  /** Without `[abstract` around the element, neither part holds a plain or an addon abstract tag. */
  lemma AbstractOutside(a: string, b: string)
    requires !Contains(ToLower(a + b), "[abstract")
    ensures !Contains(ToLower(a), AbstractOpen) && !Contains(ToLower(b), AbstractOpen)
    ensures !Contains(ToLower(a + b), AddonAbstractOpen)
  {
    LowerConcat(a, b);
    AbstractPrefixes();
    PartsLackTags(ToLower(a), ToLower(b), "[abstract", AbstractOpen, AddonAbstractOpen);
  }

  /** Both abstract tags start with `[abstract`. */
  lemma AbstractPrefixes()
    ensures AbstractOpen[..9] == "[abstract" && AddonAbstractOpen[..9] == "[abstract"
  {
  }

  /**
   * When `la + lb` lacks `pre`, neither part holds `t1` and the whole does
   * not hold `t2`, both of which start with `pre`.
   */
  lemma PartsLackTags(la: string, lb: string, pre: string, t1: string, t2: string)
    requires |pre| <= |t1| && |pre| <= |t2| && t1[..|pre|] == pre && t2[..|pre|] == pre
    requires !Contains(la + lb, pre)
    ensures !Contains(la, t1) && !Contains(lb, t1) && !Contains(la + lb, t2)
  {
    ContainsParts(la, lb, pre);
    ContainsHead(la, t1, |pre|);
    ContainsHead(lb, t1, |pre|);
    ContainsHead(la + lb, t2, |pre|);
  }

  /** Without the opening literal in any case, the spaced removal keeps the whole text. */
  lemma StripSpacedIdle(s: string, open: string, delims: seq<string>)
    requires |open| > 0 && !Contains(ToLower(s), open)
    ensures StripSpaced(s, ToLower(s), open, delims, 0) == s
  {
    SpacedRest(s, ToLower(s), open, delims, 0);
    assert s[0..] == s;
  }

  /**
   * The spaced removal of `open(.*?)close` over `a open c close b`, whose
   * folded text is `la open lc close lb`: when `open` is missing from `la`
   * and `lb` and `close` from `lc`, and no white space borders the
   * element, exactly the element goes.
   */
  lemma SpacedElementStripped(s: string, low: string, a: string, c: string, b: string,
                              la: string, lc: string, lb: string, open: string, close: string)
    requires |open| > 0 && open[0] !in open[1..] && |close| > 0 && close[0] !in close[1..]
    requires s == a + (open + (c + (close + b)))
    requires low == la + (open + (lc + (close + lb)))
    requires |la| == |a| && |lc| == |c| && |lb| == |b|
    requires !Contains(la, open) && !Contains(lc, close) && !Contains(lb, open)
    requires a == [] || a[|a| - 1] !in AbstractSpace
    requires b == [] || b[0] !in AbstractSpace
    ensures StripSpaced(s, low, open, [close], 0) == a + b
  {
    SeamFirstMatch(s, low, a, c, la, lc, lb, open, close);
    ElementRestAbsent(la, lc, lb, open, close);
    ElementBorders(s, a, c, b, open, close);
    StripSpacedOnce(s, low, open, [close], |a|, |a| + |open| + |c| + |close|, a, b);
  }

  /** No opening literal follows the element when `lb` holds none. */
  lemma ElementRestAbsent(la: string, lc: string, lb: string, open: string, close: string)
    requires !Contains(lb, open)
    ensures Find(la + (open + (lc + (close + lb))), open, |la| + |open| + |lc| + |close|).None?
  {
    ElementTail(la, open, lc, close, lb);
    SuffixAbsent(la + (open + (lc + (close + lb))), |la| + |open| + |lc| + |close|, lb, open);
  }

  /** Around the element: `a` before it, `b` after it, and no white space on either side. */
  lemma ElementBorders(s: string, a: string, c: string, b: string, open: string, close: string)
    requires s == a + (open + (c + (close + b)))
    requires a == [] || a[|a| - 1] !in AbstractSpace
    requires b == [] || b[0] !in AbstractSpace
    ensures s[..|a|] == a && s[|a| + |open| + |c| + |close|..] == b
    ensures SpaceBefore(s, 0, |a|) == |a| && SpaceAfter(s, |a| + |open| + |c| + |close|) == 0
  {
    var e := |a| + |open| + |c| + |close|;
    ElementTail(a, open, c, close, b);
    assert s[..|a|] == a;
    if |a| > 0 {
      assert s[|a| - 1] == a[|a| - 1];
    }
    if e < |s| {
      assert s[e] == b[0];
    }
  }

  /** What follows the closing literal of `a open c close b`. */
  lemma ElementTail(a: string, open: string, c: string, close: string, b: string)
    ensures (a + (open + (c + (close + b))))[|a| + |open| + |c| + |close|..] == b
  {
    var u := close + b;
    var t := c + u;
    assert (a + (open + t))[|a|..] == open + t;
    assert (open + t)[|open|..] == t;
    assert t[|c|..] == u;
    assert u[|close|..] == b;
  }

  /** A text with one match from the start, bordered by no white space, and none after it loses exactly that match. */
  lemma StripSpacedOnce(s: string, low: string, open: string, delims: seq<string>, start: nat, end: nat, a: string, b: string)
    requires |open| > 0 && start <= end <= |s| && |low| == |s|
    requires MatchIn(s, low, open, delims, 0).Some?
    requires MatchIn(s, low, open, delims, 0).value.start == start
    requires MatchIn(s, low, open, delims, 0).value.end == end
    requires SpaceBefore(s, 0, start) == start && SpaceAfter(s, end) == 0
    requires s[..start] == a && s[end..] == b && Find(low, open, end).None?
    ensures StripSpaced(s, low, open, delims, 0) == a + b
  {
    assert SpacedMatch(s, low, open, delims, 0) == Some((start, end));
    StripSpacedAt(s, low, open, delims, 0, start, end);
    SpacedRest(s, low, open, delims, end);
    assert s[0..start] == a;
  }

  /** One step of the spaced removal: the text up to the white space before the match, then the rest after the white space behind it. */
  lemma StripSpacedAt(s: string, low: string, open: string, delims: seq<string>, from: nat, b: nat, e: nat)
    requires |open| > 0 && from <= b <= e <= |s| && |low| == |s|
    requires SpacedMatch(s, low, open, delims, from) == Some((b, e))
    ensures StripSpaced(s, low, open, delims, from) == s[from..b] + StripSpaced(s, low, open, delims, e)
  {
  }

  /** Without the opening literal from `e` on, the spaced removal copies the rest. */
  lemma SpacedRest(s: string, low: string, open: string, delims: seq<string>, e: nat)
    requires |open| > 0 && e <= |s| && |low| == |s| && Find(low, open, e).None?
    ensures StripSpaced(s, low, open, delims, e) == s[e..]
  {
  }

  /** A search string missing from the rest of the text from `e` on is not found from there. */
  lemma SuffixAbsent(low: string, e: nat, rest: string, pat: string)
    requires e <= |low| && low[e..] == rest && !Contains(rest, pat)
    ensures Find(low, pat, e).None?
  {
    FindInSuffix(low, pat, e, 0);
  }

  /** The first match of `open(.*?)close` in the plain abstract element. */
  lemma SeamFirstMatch(s: string, low: string, a: string, c: string,
                       la: string, lc: string, lb: string, open: string, close: string)
    requires |open| > 0 && open[0] !in open[1..] && |close| > 0 && close[0] !in close[1..]
    requires low == la + (open + (lc + (close + lb))) && |low| == |s|
    requires |la| == |a| && |lc| == |c|
    requires !Contains(la, open) && !Contains(lc, close)
    ensures MatchIn(s, low, open, [close], 0).Some?
    ensures MatchIn(s, low, open, [close], 0).value.start == |a|
    ensures MatchIn(s, low, open, [close], 0).value.end == |a| + |open| + |c| + |close|
  {
    SeamMatch(low, la, lc, lb, open, close);
    GroupsFolded(s, low, |la| + |open|, close, |la| + |open| + |lc|);
  }

  /**
   * In `la open lc close lb`, with `open` missing from `la` and `close`
   * from `lc`, the first `open` is the one after `la` and the first
   * `close` after it the one after `lc`.
   */
  lemma SeamMatch(low: string, la: string, lc: string, lb: string, open: string, close: string)
    requires |open| > 0 && open[0] !in open[1..] && |close| > 0 && close[0] !in close[1..]
    requires low == la + (open + (lc + (close + lb)))
    requires !Contains(la, open) && !Contains(lc, close)
    ensures Find(low, open, 0).Some? && Find(low, open, 0).value == |la|
    ensures Find(low, close, |la| + |open|).Some? && Find(low, close, |la| + |open|).value == |la| + |open| + |lc|
  {
    LiteralFirst(la, open, lc + (close + lb));
    SeamClose(low, la, lc, lb, open, close);
  }

  /** The second half of `SeamMatch`: the first `close` after the opening literal. */
  lemma SeamClose(low: string, la: string, lc: string, lb: string, open: string, close: string)
    requires |close| > 0 && close[0] !in close[1..]
    requires low == la + (open + (lc + (close + lb)))
    requires !Contains(lc, close)
    ensures Find(low, close, |la| + |open|).Some? && Find(low, close, |la| + |open|).value == |la| + |open| + |lc|
  {
    SeamRest(low, la, open, lc + (close + lb));
    LiteralFirstFrom(low, |la| + |open|, lc, close, lb);
  }

  /** What follows the literal after `la`. */
  lemma SeamRest(low: string, la: string, lit: string, rest: string)
    requires low == la + (lit + rest)
    ensures low[|la| + |lit|..] == rest
  {
  }

  /** In the text from `k` on, a literal missing from `lc` is found first right after it. */
  lemma LiteralFirstFrom(low: string, k: nat, lc: string, lit: string, rest: string)
    requires |lit| > 0 && lit[0] !in lit[1..] && !Contains(lc, lit)
    requires k <= |low| && low[k..] == lc + (lit + rest)
    ensures Find(low, lit, k).Some? && Find(low, lit, k).value == k + |lc|
  {
    LiteralFirst(lc, lit, rest);
    FindShifted(low, k, lit, |lc|);
  }

  /** A literal missing from `la` is found first right after it. */
  lemma LiteralFirst(la: string, lit: string, rest: string)
    requires |lit| > 0 && lit[0] !in lit[1..] && !Contains(la, lit)
    ensures Find(la + (lit + rest), lit, 0) == Some(|la|)
  {
    assert IsPrefix(lit, lit + rest) by {
      assert (lit + rest)[..|lit|] == lit;
    }
    FindAtSeam(la, lit + rest, lit);
  }

  /** Lower-casing `a t c u b` when `t` and `u` are lower case already. */
  lemma FoldedParts(a: string, t: string, c: string, u: string, b: string)
    requires ToLower(t) == t && ToLower(u) == u
    ensures ToLower(a + (t + (c + (u + b)))) == ToLower(a) + (t + (ToLower(c) + (u + ToLower(b))))
  {
    LowerConcat(u, b);
    LowerConcat(c, u + b);
    LowerConcat(t, c + (u + b));
    LowerConcat(a, t + (c + (u + b)));
  }

  /** The opening plain abstract tag is lower case and starts with a character that does not recur in it. */
  lemma AbstractOpenLower()
    ensures |AbstractOpen| > 0 && AbstractOpen[0] !in AbstractOpen[1..] && ToLower(AbstractOpen) == AbstractOpen
  {
    FirstNotRepeated(AbstractOpen, "abstract]");
    LowerUnchanged(AbstractOpen);
  }

  /** The closing abstract tag is lower case and starts with a character that does not recur in it. */
  lemma AbstractCloseLower()
    ensures |AbstractClose| > 0 && AbstractClose[0] !in AbstractClose[1..] && ToLower(AbstractClose) == AbstractClose
  {
    FirstNotRepeated(AbstractClose, "/abstract]");
    LowerUnchanged(AbstractClose);
  }

  /** A tag that is `[` followed by a text without `[`. */
  lemma FirstNotRepeated(t: string, rest: string)
    requires t == "[" + rest && '[' !in rest
    ensures |t| > 0 && t[0] !in t[1..]
  {
    assert t[1..] == rest;
  }

  /** One lazy group over the folded text, closed by the first `close` from `pos` on. */
  lemma GroupsFolded(s: string, low: string, pos: nat, close: string, q: nat)
    requires |low| == |s| && Find(low, close, pos).Some? && Find(low, close, pos).value == q
    ensures Groups(s, low, pos, [close]).Some? && Groups(s, low, pos, [close]).value.1 == q + |close|
  {
    assert [close][1..] == [];
  }

  /** The addon abstracts by lower-cased addon name; a later one for the same addon replaces an earlier one. */
  function AbstractMap(ms: seq<Match>): (r: map<string, string>)
    requires forall k :: 0 <= k < |ms| ==> |ms[k].groups| == 2
    decreases |ms|
  {
    if ms == [] then map[]
    else
      var m := ms[|ms| - 1];
      AbstractMap(ms[..|ms| - 1])[ToLower(m.groups[0]) := m.groups[1]]
  }

  /** An addon has an abstract exactly when some `[abstract=…]` names it, in any case. */
  lemma {:induction false} AbstractMapKeys(ms: seq<Match>, key: string)
    requires forall k :: 0 <= k < |ms| ==> |ms[k].groups| == 2
    ensures key in AbstractMap(ms) <==> exists k :: 0 <= k < |ms| && ToLower(ms[k].groups[0]) == key
    decreases |ms|
  {
    if ms != [] {
      var n := |ms| - 1;
      var prev := ms[..n];
      AbstractMapKeys(prev, key);
      if key in AbstractMap(prev) {
        var k :| 0 <= k < n && ToLower(prev[k].groups[0]) == key;
        assert ms[k] == prev[k];
      }
      if exists k :: 0 <= k < |ms| && ToLower(ms[k].groups[0]) == key {
        var k :| 0 <= k < |ms| && ToLower(ms[k].groups[0]) == key;
        if k < n {
          assert ms[k] == prev[k];
        }
      }
    }
  }

  /** The abstract kept for an addon is the one of the last `[abstract=…]` naming it. */
  lemma {:induction false} AbstractMapLast(ms: seq<Match>, key: string, k: nat)
    requires forall i :: 0 <= i < |ms| ==> |ms[i].groups| == 2
    requires k < |ms| && ToLower(ms[k].groups[0]) == key
    requires forall i :: k < i < |ms| ==> ToLower(ms[i].groups[0]) != key
    ensures key in AbstractMap(ms) && AbstractMap(ms)[key] == ms[k].groups[1]
    decreases |ms|
  {
    var n := |ms| - 1;
    if k < n {
      var prev := ms[..n];
      assert prev[k] == ms[k];
      AbstractMapLast(prev, key, k);
    }
  }

  /**
   * `getAbstract`: the abstract for the addon, when there is one and it is
   * not empty, otherwise the first plain `[abstract]…[/abstract]`.
   */
  function GetAbstract(text: string, addon: string): (r: string)
    ensures var m := AbstractMap(AllMatches(text, true, "[abstract=", ["]", "[/abstract]"], 0));
      ToLower(addon) in m && m[ToLower(addon)] != "" ==> r == m[ToLower(addon)]
    ensures var m := AbstractMap(AllMatches(text, true, "[abstract=", ["]", "[/abstract]"], 0));
      var plain := FirstMatch(text, true, "[abstract]", ["[/abstract]"], 0);
      !(ToLower(addon) in m && m[ToLower(addon)] != "") ==> r == (if plain.Some? then plain.value.groups[0] else "")
    ensures r == "" || Contains(ToLower(text), "[abstract")
  {
    var ms := AllMatches(text, true, "[abstract=", ["]", "[/abstract]"], 0);
    var m := AbstractMap(ms);
    var key := ToLower(addon);
    var found := if key in m then m[key] else "";
    AbstractFound(text, ms, key);
    if found == "" then
      match FirstMatch(text, true, "[abstract]", ["[/abstract]"], 0)
      case Some(x) =>
        OpenedAbstract(text, "[abstract]", x.start);
        x.groups[0]
      case None => ""
    else found
  }

  /** An abstract element opens where one of its literals stands. */
  lemma OpenedAbstract(text: string, open: string, p: nat)
    requires |open| >= 9 && open[..9] == "[abstract" && OpensAt(Fold(text, true), open, p)
    ensures Contains(ToLower(text), "[abstract")
  {
    var low := ToLower(text);
    assert OccursAt(low, "[abstract", p) by {
      forall m | 0 <= m < 9 ensures low[p + m] == "[abstract"[m] {
        assert low[p + m] == open[m];
        assert open[..9][m] == open[m];
      }
    }
    ContainsIff(low, "[abstract");
  }

  /** An addon abstract comes from an element that opened with `[abstract=`. */
  lemma AbstractFound(text: string, ms: seq<Match>, key: string)
    requires ms == AllMatches(text, true, "[abstract=", ["]", "[/abstract]"], 0)
    ensures key in AbstractMap(ms) && AbstractMap(ms)[key] != "" ==> Contains(ToLower(text), "[abstract")
  {
    if key in AbstractMap(ms) {
      AbstractMapKeys(ms, key);
      var k :| 0 <= k < |ms| && ToLower(ms[k].groups[0]) == key;
      AllMatchesOpen(text, "[abstract=", ["]", "[/abstract]"], 0, k);
      OpenedAbstract(text, "[abstract=", ms[k].start);
    }
  }

  /** Every match of `preg_match_all` starts at its opening literal. */
  lemma {:induction false} AllMatchesOpen(s: string, open: string, delims: seq<string>, from: nat, k: nat)
    requires |open| > 0 && k < |AllMatches(s, true, open, delims, from)|
    ensures OpensAt(Fold(s, true), open, AllMatches(s, true, open, delims, from)[k].start)
    decreases |s| - from
  {
    var m := FirstMatch(s, true, open, delims, from).value;
    if k > 0 {
      AllMatchesOpen(s, open, delims, m.end, k - 1);
    }
  }
}
