/**
 * The `[noparse]`, `[nobb]` and `[pre]` protection of `BBCode::convert`:
 * before conversion every `[x]` inside such a region is spread out to
 * `[ x ]` so that no later pattern sees a tag there, and after conversion
 * `[ x ]` is closed up again and the wrapper dropped.
 */
module Noparse {
  import opened Strings

  /**
   * Where the lazy `(.*?)\]` of `/\[(.*?)\]/` stops: the first `]`, or the
   * first newline, which `.` does not match; `|s|` when there is neither.
   */
  function Stop(s: string): (r: nat)
    ensures r <= |s|
    ensures r < |s| ==> s[r] == ']' || s[r] == '\n'
    ensures forall j :: 0 <= j < r ==> s[j] != ']' && s[j] != '\n'
  {
    if s == [] then 0
    else if s[0] == ']' || s[0] == '\n' then 0
    else 1 + Stop(s[1..])
  }

  /** `preg_replace("/\[(.*?)\]/", "[ $1 ]", $s)`. */
  function Spacefy(s: string): string
    decreases |s|
  {
    if s == [] then []
    else if s[0] == '[' && Stop(s[1..]) < |s| - 1 && s[1 + Stop(s[1..])] == ']' then
      var k := Stop(s[1..]);
      "[ " + s[1..1 + k] + " ]" + Spacefy(s[k + 2..])
    else [s[0]] + Spacefy(s[1..])
  }

  /** Where the lazy `(.*?)\ ]` stops: the first ` ]`, or the first newline; `|s|` when neither. */
  function Stop2(s: string): (r: nat)
    ensures r <= |s|
    ensures r < |s| ==> s[r] == '\n' || (r + 1 < |s| && s[r] == ' ' && s[r + 1] == ']')
  {
    if s == [] then 0
    else if s[0] == '\n' then 0
    else if |s| >= 2 && s[0] == ' ' && s[1] == ']' then 0
    else 1 + Stop2(s[1..])
  }

  /** `preg_replace("/\[ (.*?)\ ]/", "[$1]", $s)`. */
  function Unspacefy(s: string): string
    decreases |s|
  {
    if s == [] then []
    else if |s| >= 2 && s[0] == '[' && s[1] == ' ' && Stop2(s[2..]) < |s| - 2 && s[2 + Stop2(s[2..])] == ' ' then
      var k := Stop2(s[2..]);
      "[" + s[2..2 + k] + "]" + Unspacefy(s[k + 4..])
    else [s[0]] + Unspacefy(s[1..])
  }

  /**
   * `escapeNoparseCallback`: the whole match `open + captured + close`, in
   * which every occurrence of the captured text is replaced by its spaced-out
   * form (`str_replace` leaves the text alone for an empty search string).
   */
  function EscapeNoparse(open: string, captured: string, close: string): string
  {
    var whole := open + captured + close;
    if captured == "" then whole else ReplaceAll(whole, captured, Spacefy(captured))
  }

  /** The escape as evidently intended: only the captured text is spaced out. */
  function EscapeRegion(open: string, captured: string, close: string): (r: string)
    ensures r == open + Spacefy(captured) + close
  {
    open + Spacefy(captured) + close
  }

  /** `unescapeNoparseCallback`: the captured text closed up, the wrapper dropped. */
  function UnescapeNoparse(captured: string): string
  {
    Unspacefy(captured)
  }

  /** No `]` comes before the first newline: a `[` here is never closed on its line. */
  predicate Unclosed(u: string)
  {
    Stop(u) == |u| || u[Stop(u)] == '\n'
  }

  /** Before a spread-out pair's ` ]` there is no other ` ]` and no newline. */
  lemma {:induction false} Stop2Spread(x: string, r: string)
    requires forall j :: 0 <= j < |x| ==> x[j] != ']' && x[j] != '\n'
    ensures Stop2(x + " ]" + r) == |x|
    decreases |x|
  {
    var s := x + " ]" + r;
    if x != [] {
      assert s[1..] == x[1..] + " ]" + r;
      assert s[1] == (if |x| > 1 then x[1] else ' ');
      Stop2Spread(x[1..], r);
    }
  }

  /** Closing up a spread-out pair gives back the pair. */
  lemma UnspacefyPair(x: string, r: string)
    requires forall j :: 0 <= j < |x| ==> x[j] != ']' && x[j] != '\n'
    ensures Unspacefy("[ " + x + " ]" + r) == "[" + x + "]" + Unspacefy(r)
  {
    var s := "[ " + x + " ]" + r;
    assert s[2..] == x + " ]" + r;
    Stop2Spread(x, r);
    assert s[2..2 + |x|] == x;
    assert s[|x| + 4..] == r;
  }

  /** An unclosed line has no ` ]` before its newline either. */
  lemma {:induction false} UnclosedStop2(w: string)
    requires Unclosed(w)
    ensures Stop2(w) == |w| || w[Stop2(w)] == '\n'
    decreases |w|
  {
    if w != [] && w[0] != '\n' {
      assert Stop(w) == 1 + Stop(w[1..]);
      UnclosedStop2(w[1..]);
    }
  }

  /** A `[` in front of an unclosed line is not the start of a spread-out pair. */
  lemma UnspacefyUnclosed(u: string)
    requires Unclosed(u)
    ensures Unspacefy("[" + u) == "[" + Unspacefy(u)
  {
    var s := "[" + u;
    assert s[1..] == u;
    if |u| >= 1 && u[0] == ' ' {
      assert Stop(u) == 1 + Stop(u[1..]);
      assert s[2..] == u[1..];
      UnclosedStop2(u[1..]);
    }
  }

  /** A line with no `]` before its newline stays so when spread out. */
  lemma {:induction false} SpacefyKeepsUnclosed(t: string)
    requires Unclosed(t)
    ensures Unclosed(Spacefy(t))
    decreases |t|
  {
    if t != [] && t[0] != '\n' {
      assert Stop(t) == 1 + Stop(t[1..]);
      SpacefyKeepsUnclosed(t[1..]);
      var sp := Spacefy(t[1..]);
      assert Spacefy(t) == [t[0]] + sp;
      assert ([t[0]] + sp)[1..] == sp;
    }
  }

  /** Unescaping undoes escaping: the bracket content of a protected region is restored exactly. */
  lemma {:induction false} SpacefyRoundTrip(c: string)
    ensures Unspacefy(Spacefy(c)) == c
    decreases |c|, 1
  {
    if c == [] {
    } else if c[0] != '[' {
      RoundTripOther(c);
    } else if Stop(c[1..]) < |c| - 1 && c[1 + Stop(c[1..])] == ']' {
      RoundTripPair(c);
    } else {
      RoundTripUnclosed(c);
    }
  }

  /** A string opening with `[`, whose `]` sits at `1 + k`, cut into its three parts. */
  lemma Bracketed(c: string, k: nat)
    requires k + 2 <= |c| && c[0] == '[' && c[1 + k] == ']'
    ensures c[1..1 + k] == c[1..][..k]
    ensures c == "[" + c[1..1 + k] + "]" + c[k + 2..]
  {
    var t := c[1..];
    assert t == t[..k] + t[k..];
    assert t[k..] == [t[k]] + t[k + 1..];
    assert c == [c[0]] + t;
  }

  /** Spreading out a string that starts with a `[x]` pair. */
  lemma SpacefyPair(c: string)
    requires |c| > 0 && c[0] == '[' && Stop(c[1..]) < |c| - 1 && c[1 + Stop(c[1..])] == ']'
    ensures var k := Stop(c[1..]);
      c[1..1 + k] == c[1..][..k] &&
      c == "[" + c[1..1 + k] + "]" + c[k + 2..] &&
      Spacefy(c) == "[ " + c[1..1 + k] + " ]" + Spacefy(c[k + 2..])
  {
    Bracketed(c, Stop(c[1..]));
  }

  /** The round trip over a `[x]` pair, by the round trip over what follows it. */
  lemma RoundTripPair(c: string)
    requires |c| > 0 && c[0] == '[' && Stop(c[1..]) < |c| - 1 && c[1 + Stop(c[1..])] == ']'
    ensures Unspacefy(Spacefy(c)) == c
    decreases |c|, 0
  {
    var k := Stop(c[1..]);
    SpacefyRoundTrip(c[k + 2..]);
    var x := c[1..1 + k];
    var rest := c[k + 2..];
    var u := Spacefy(rest);
    SpacefyPair(c);
    UnspacefyPair(x, u);
    assert Unspacefy(u) == rest;
    assert Unspacefy(Spacefy(c)) == "[" + x + "]" + rest;
  }

  /** The round trip over a `[` never closed on its line, by the round trip over what follows. */
  lemma RoundTripUnclosed(c: string)
    requires |c| > 0 && c[0] == '[' && !(Stop(c[1..]) < |c| - 1 && c[1 + Stop(c[1..])] == ']')
    ensures Unspacefy(Spacefy(c)) == c
    decreases |c|, 0
  {
    SpacefyRoundTrip(c[1..]);
    SpacefyKeepsUnclosed(c[1..]);
    assert Spacefy(c) == "[" + Spacefy(c[1..]);
    UnspacefyUnclosed(Spacefy(c[1..]));
    assert c == "[" + c[1..];
  }

  /** The round trip over any other character, by the round trip over what follows. */
  lemma RoundTripOther(c: string)
    requires |c| > 0 && c[0] != '['
    ensures Unspacefy(Spacefy(c)) == c
    decreases |c|, 0
  {
    SpacefyRoundTrip(c[1..]);
    var sp := Spacefy(c[1..]);
    assert Spacefy(c) == [c[0]] + sp;
    assert ([c[0]] + sp)[1..] == sp;
    assert c == [c[0]] + c[1..];
  }

  /** The intended escape and the unescape form a round trip on the protected text. */
  lemma EscapeRegionRoundTrip(open: string, captured: string, close: string)
    ensures var e := EscapeRegion(open, captured, close);
      UnescapeNoparse(e[|open|..|e| - |close|]) == captured
  {
    var e := EscapeRegion(open, captured, close);
    assert e[|open|..|e| - |close|] == Spacefy(captured);
    SpacefyRoundTrip(captured);
  }

  /**
   * When the captured text appears in the whole match only as the captured
   * part, the escape as written is the intended one.
   */
  lemma EscapeAsIntended(open: string, captured: string, close: string)
    requires captured != ""
    requires forall j :: j < |open| ==> !OccursAt(open + captured + close, captured, j)
    requires forall j :: !OccursAt(close, captured, j)
    ensures EscapeNoparse(open, captured, close) == EscapeRegion(open, captured, close)
  {
    ReplaceAllSingle(open, captured, close, Spacefy(captured));
  }

  /** Before a pair's `]` there is no other `]` and no newline. */
  lemma {:induction false} StopBefore(x: string, r: string)
    requires forall j :: 0 <= j < |x| ==> x[j] != ']' && x[j] != '\n'
    ensures Stop(x + "]" + r) == |x|
    decreases |x|
  {
    var s := x + "]" + r;
    if x != [] {
      assert s[1..] == x[1..] + "]" + r;
      StopBefore(x[1..], r);
    }
  }

  /** Spreading out a `[x]` pair whose content holds no `]` and no newline. */
  lemma SpacefyPairOf(x: string, r: string)
    requires forall j :: 0 <= j < |x| ==> x[j] != ']' && x[j] != '\n'
    ensures Spacefy("[" + x + "]" + r) == "[ " + x + " ]" + Spacefy(r)
  {
    var s := "[" + x + "]" + r;
    assert s[1..] == x + "]" + r;
    StopBefore(x, r);
    assert s[1..1 + |x|] == x;
    assert s[|x| + 2..] == r;
  }

  /**
   * A region whose protected text is its own opening tag, such as
   * `[noparse][noparse][/noparse]`: the escape as written spreads out the
   * opening wrapper as well, where the intended escape leaves it alone.
   */
  lemma EscapeSpreadsWrapper(tag: string, close: string)
    requires |tag| > 0 && tag[0] != ' '
    requires forall j :: 0 <= j < |tag| ==> tag[j] != ']' && tag[j] != '\n'
    ensures var c := "[" + tag + "]";
      var e := EscapeNoparse(c, c, close);
      |e| >= |tag| + 4 && e[..|tag| + 4] == "[ " + tag + " ]" &&
      e != EscapeRegion(c, c, close)
  {
    var c := "[" + tag + "]";
    var sp := "[ " + tag + " ]";
    SpacefyPairOf(tag, []);
    assert c + [] == c;
    var w := c + c + close;
    assert w[..|c|] == c;
    OccursAtSlice(w, c, 0);
    var e := ReplaceAll(w, c, sp);
    assert e == sp + ReplaceAll(w[|c|..], c, sp);
    assert e[..|sp|] == sp;
    assert e[1] == ' ';
    assert EscapeRegion(c, c, close)[1] == tag[0];
  }
}
