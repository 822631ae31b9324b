/**
 * The loops of `convert` that rewrite the whole text: the table and
 * newline clean-up, repeated until the text stops changing, and the nested
 * list, spoiler and quote conversions, repeated while their tags remain
 * but never more than 19 times.
 */
module Normalise {
  import opened Strings
  import opened LazyRegex

  /** `str_replace($search, $replace, $s)` with arrays: each pair in turn, on the result of the previous one. */
  function ReplaceEach(s: string, pairs: seq<(string, string)>): string
    requires forall k :: 0 <= k < |pairs| ==> |pairs[k].0| > 0
    decreases |pairs|
  {
    if pairs == [] then s else ReplaceEach(ReplaceAll(s, pairs[0].0, pairs[0].1), pairs[1..])
  }

  /** Every search string is non-empty and longer than its replacement. */
  predicate Shrinking(pairs: seq<(string, string)>)
  {
    forall k :: 0 <= k < |pairs| ==> 0 < |pairs[k].0| && |pairs[k].1| < |pairs[k].0|
  }

  /** One pass never lengthens the text, and a pass that changes it shortens it. */
  lemma {:induction false} ReplaceEachShrinks(s: string, pairs: seq<(string, string)>)
    requires Shrinking(pairs)
    ensures |ReplaceEach(s, pairs)| <= |s|
    ensures ReplaceEach(s, pairs) != s ==> |ReplaceEach(s, pairs)| < |s|
    decreases |pairs|
  {
    if pairs != [] {
      var (pat, rep) := pairs[0];
      var t := ReplaceAll(s, pat, rep);
      ReplaceAllNoLonger(s, pat, rep);
      assert Shrinking(pairs[1..]) by {
        forall k | 0 <= k < |pairs[1..]| ensures 0 < |pairs[1..][k].0| && |pairs[1..][k].1| < |pairs[1..][k].0| {
          assert pairs[1..][k] == pairs[k + 1];
        }
      }
      ReplaceEachShrinks(t, pairs[1..]);
      if exists j :: OccursAt(s, pat, j) {
        var j :| OccursAt(s, pat, j);
        ReplaceAllShrinks(s, pat, rep, j);
      } else {
        ReplaceAllAbsent(s, pat, rep);
      }
    }
  }

  /**
   * A text one pass leaves unchanged holds none of the search strings: a
   * search string that occurred would have shortened it.
   */
  lemma {:induction false} FixedPointClean(s: string, pairs: seq<(string, string)>)
    requires Shrinking(pairs) && ReplaceEach(s, pairs) == s
    ensures forall k :: 0 <= k < |pairs| ==> !Contains(s, pairs[k].0)
    decreases |pairs|
  {
    if pairs != [] {
      var (pat, rep) := pairs[0];
      var t := ReplaceAll(s, pat, rep);
      assert Shrinking(pairs[1..]) by {
        forall k | 0 <= k < |pairs[1..]| ensures 0 < |pairs[1..][k].0| && |pairs[1..][k].1| < |pairs[1..][k].0| {
          assert pairs[1..][k] == pairs[k + 1];
        }
      }
      ReplaceEachShrinks(t, pairs[1..]);
      forall j ensures !OccursAt(s, pat, j) {
        if OccursAt(s, pat, j) {
          ReplaceAllShrinks(s, pat, rep, j);
        }
      }
      ContainsIff(s, pat);
      ReplaceAllAbsent(s, pat, rep);
      FixedPointClean(s, pairs[1..]);
      forall k | 1 <= k < |pairs| ensures !Contains(s, pairs[k].0) {
        assert pairs[k] == pairs[1..][k - 1];
      }
    }
  }

  /** The text the `do { … } while ($oldtext != $text)` loop ends with. */
  function Settled(s: string, pairs: seq<(string, string)>): string
    requires Shrinking(pairs)
    decreases |s|
  {
    var t := ReplaceEach(s, pairs);
    ReplaceEachShrinks(s, pairs);
    if t == s then s else Settled(t, pairs)
  }

  /** The settled text is a fixed point of the pass, so it holds none of the search strings, and it is no longer than the input. */
  lemma {:induction false} SettledClean(s: string, pairs: seq<(string, string)>)
    requires Shrinking(pairs)
    ensures ReplaceEach(Settled(s, pairs), pairs) == Settled(s, pairs)
    ensures forall k :: 0 <= k < |pairs| ==> !Contains(Settled(s, pairs), pairs[k].0)
    ensures |Settled(s, pairs)| <= |s|
    decreases |s|
  {
    var t := ReplaceEach(s, pairs);
    ReplaceEachShrinks(s, pairs);
    if t == s {
      FixedPointClean(s, pairs);
    } else {
      SettledClean(t, pairs);
    }
  }

  /** The `do`-`while` loop: replace until a pass changes nothing. */
  method Settle(text: string, pairs: seq<(string, string)>) returns (r: string)
    requires Shrinking(pairs)
    ensures r == Settled(text, pairs)
    ensures forall k :: 0 <= k < |pairs| ==> !Contains(r, pairs[k].0)
  {
    var oldtext := text;
    r := ReplaceEach(text, pairs);
    while oldtext != r
      invariant r == ReplaceEach(oldtext, pairs)
      invariant Settled(oldtext, pairs) == Settled(text, pairs)
      decreases |oldtext|
    {
      ReplaceEachShrinks(oldtext, pairs);
      oldtext := r;
      r := ReplaceEach(r, pairs);
    }
    SettledClean(text, pairs);
  }

  /** The line feeds and blanks removed around table elements. */
  const TablePairs: seq<(string, string)> := [
    ("\n[th]", "[th]"), ("[th]\n", "[th]"), (" [th]", "[th]"),
    ("\n[/th]", "[/th]"), ("[/th]\n", "[/th]"), ("[/th] ", "[/th]"),
    ("\n[td]", "[td]"), ("[td]\n", "[td]"), (" [td]", "[td]"),
    ("\n[/td]", "[/td]"), ("[/td]\n", "[/td]"), ("[/td] ", "[/td]"),
    ("\n[tr]", "[tr]"), ("[tr]\n", "[tr]"), (" [tr]", "[tr]"), ("[tr] ", "[tr]"),
    ("\n[/tr]", "[/tr]"), ("[/tr]\n", "[/tr]"), (" [/tr]", "[/tr]"), ("[/tr] ", "[/tr]"),
    ("[table]\n", "[table]"), ("[table] ", "[table]"), (" [table]", "[table]"),
    ("\n[/table]", "[/table]"), (" [/table]", "[/table]"), ("[/table] ", "[/table]")]

  /** The line feeds removed once before and after a table. */
  const TableOncePairs: seq<(string, string)> := [("\n[table]", "[table]"), ("[/table]\n", "[/table]")]

  /** The repeated line feeds and blanks removed under `remove_multiplicated_lines`. */
  const MultiLinePairs: seq<(string, string)> := [
    ("\n\n\n", "\n\n"), ("\n ", "\n"), (" \n", "\n"), ("[/quote]\n\n", "[/quote]\n"),
    ("\n[/quote]", "[/quote]"), ("[/li]\n", "[/li]"), ("\n[li]", "[li]"), ("\n[ul]", "[ul]"),
    ("[/ul]\n", "[/ul]"), ("\n\n[share ", "\n[share "), ("[/attachment]\n", "[/attachment]"),
    ("\n[h1]", "[h1]"), ("[/h1]\n", "[/h1]"), ("\n[h2]", "[h2]"), ("[/h2]\n", "[/h2]"),
    ("\n[h3]", "[h3]"), ("[/h3]\n", "[/h3]"), ("\n[h4]", "[h4]"), ("[/h4]\n", "[/h4]"),
    ("\n[h5]", "[h5]"), ("[/h5]\n", "[/h5]"), ("\n[h6]", "[h6]"), ("[/h6]\n", "[/h6]")]

  /** Each table replacement drops exactly one character, so the loop over them ends. */
  lemma TableShrinks()
    ensures Shrinking(TablePairs) && Shrinking(TableOncePairs)
  {
  }

  /** Each newline replacement drops exactly one character, so the loop over them ends. */
  lemma MultiLineShrinks()
    ensures Shrinking(MultiLinePairs)
  {
  }

  /** The text after the table clean-up of `convert`. */
  function TablesCleaned(text: string): string
  {
    TableShrinks();
    ReplaceEach(Settled(ReplaceAll(Trim(text), "\r\n", "\n"), TablePairs), TableOncePairs)
  }

  /** The text after the settled newline clean-up. */
  function LinesSettled(text: string): string
  {
    MultiLineShrinks();
    Settled(text, MultiLinePairs)
  }

  /**
   * The start of `convert` up to the table clean-up: trim, unify line
   * ends, settle the table clean-up and drop the line feeds around tables
   * once.
   */
  method CleanTables(text: string) returns (r: string)
    ensures r == TablesCleaned(text)
    ensures |r| <= |text|
  {
    TableShrinks();
    var t := Trim(text);
    TrimNoLonger(text);
    ReplaceAllNoLonger(t, "\r\n", "\n");
    t := ReplaceAll(t, "\r\n", "\n");
    var u := Settle(t, TablePairs);
    SettledClean(t, TablePairs);
    ReplaceEachShrinks(u, TableOncePairs);
    r := ReplaceEach(u, TableOncePairs);
  }

  /**
   * The table clean-up followed, when `remove_multiplicated_lines` is set,
   * by the settled newline clean-up.
   */
  method NormaliseLines(text: string, removeMultiplicated: bool) returns (r: string)
    ensures r == (if removeMultiplicated then LinesSettled(TablesCleaned(text)) else TablesCleaned(text))
    ensures |r| <= |text|
    ensures removeMultiplicated ==> forall k :: 0 <= k < |MultiLinePairs| ==> !Contains(r, MultiLinePairs[k].0)
  {
    r := CleanTables(text);
    if removeMultiplicated {
      MultiLineShrinks();
      SettledClean(r, MultiLinePairs);
      r := Settle(r, MultiLinePairs);
    }
  }

  /** `trim` never lengthens a text. */
  lemma TrimNoLonger(s: string)
    ensures |Trim(s)| <= |s|
  {
  }

  /**
   * `$text` after `runs` passes of the loop body. The loops below state
   * their result through it.
   */
  function Iterate(body: string -> string, runs: nat, s: string): string
    decreases runs
  {
    if runs == 0 then s else body(Iterate(body, runs - 1, s))
  }

  /**
   * `$endlessloop = 0; while (guard && (++$endlessloop < 20)) $text = body($text);`:
   * the body runs while the guard holds, but at most 19 times, because the
   * counter is raised before it is compared.
   */
  method Bounded(text: string, guard: string -> bool, body: string -> string) returns (r: string, runs: nat)
    ensures runs <= 19 && r == Iterate(body, runs, text)
    ensures forall k :: 0 <= k < runs ==> guard(Iterate(body, k, text))
    ensures runs < 19 ==> !guard(r)
  {
    var endlessloop := 0;
    r := text;
    runs := 0;
    while true
      invariant runs == endlessloop <= 19
      invariant r == Iterate(body, runs, text)
      invariant forall k :: 0 <= k < runs ==> guard(Iterate(body, k, text))
      decreases 20 - endlessloop
    {
      if !guard(r) {
        break;
      }
      endlessloop := endlessloop + 1;
      if !(endlessloop < 20) {
        break;
      }
      r := body(r);
      runs := runs + 1;
    }
  }

  /** The guard of the nested list loop: some list tag both closes and opens in the text. */
  predicate ListGuard(t: string)
  {
    (Contains(t, "[/list]") && Contains(t, "[list")) || (Contains(t, "[/ol]") && Contains(t, "[ol]")) ||
    (Contains(t, "[/ul]") && Contains(t, "[ul]")) || (Contains(t, "[/li]") && Contains(t, "[li]"))
  }

  /** The guard of the `[spoiler]` loop. */
  predicate SpoilerGuard(t: string)
  {
    Contains(t, "[/spoiler]") && Contains(t, "[spoiler]")
  }

  /** The guard of the `[spoiler=Author]` loop. */
  predicate SpoilerAuthorGuard(t: string)
  {
    Contains(t, "[/spoiler]") && Contains(t, "[spoiler=")
  }

  /** The guard of the `[quote]` loop. */
  predicate QuoteGuard(t: string)
  {
    Contains(t, "[/quote]") && Contains(t, "[quote]")
  }

  /** The guard of the `[quote=Author]` loop. */
  predicate QuoteAuthorGuard(t: string)
  {
    Contains(t, "[/quote]") && Contains(t, "[quote=")
  }

  /** The author of `[x="Author"]`: `[\"\']*(.*?)[\"\']*` strips the quotes on both sides. */
  function Author(raw: string): string
  {
    TrimSet(raw, {'"', '\''})
  }

  /** `[spoiler]…[/spoiler]` becomes a spoiler block quote, everywhere in one pass. */
  function SpoilerBody(t: string): string
  {
    ReplaceMatches(t, true, "[spoiler]", ["[/spoiler]"],
      g => "<blockquote class=\"spoiler\">" + Group(g, 0) + "</blockquote>", 0)
  }

  /** `[spoiler=Author]…[/spoiler]` becomes the translated "Author wrote:" and a spoiler block quote. */
  function SpoilerAuthorBody(t: string, wrote: string -> string): string
  {
    ReplaceMatches(t, true, "[spoiler=", ["]", "[/spoiler]"],
      g => "<br /><strong class=\"spoiler\">" + wrote(Author(Group(g, 0))) +
           "</strong><blockquote class=\"spoiler\">" + Group(g, 1) + "</blockquote>", 0)
  }

  /** The authored spoiler body with its translation fixed, as the loop applies it. */
  function SpoilerAuthorStep(wrote: string -> string): string -> string
  {
    t => SpoilerAuthorBody(t, wrote)
  }

  /** `[quote]…[/quote]` becomes a block quote. */
  function QuoteBody(t: string): string
  {
    ReplaceMatches(t, true, "[quote]", ["[/quote]"], g => "<blockquote>" + Group(g, 0) + "</blockquote>", 0)
  }

  /** `[quote=Author]…[/quote]` becomes the translated "Author wrote:" and a block quote. */
  function QuoteAuthorBody(t: string, wrote: string -> string): string
  {
    ReplaceMatches(t, true, "[quote=", ["]", "[/quote]"],
      g => "<p><strong class=\"author\">" + wrote(Author(Group(g, 0))) + "</strong></p><blockquote>" +
           Group(g, 1) + "</blockquote>", 0)
  }

  /** The authored quote body with its translation fixed, as the loop applies it. */
  function QuoteAuthorStep(wrote: string -> string): string -> string
  {
    t => QuoteAuthorBody(t, wrote)
  }

  /**
   * The nested list loop. Its body, ten case-sensitive and case-insensitive
   * list patterns in a row, is a parameter.
   */
  method ConvertLists(text: string, listBody: string -> string) returns (r: string, runs: nat)
    ensures runs <= 19 && r == Iterate(listBody, runs, text)
    ensures forall k :: 0 <= k < runs ==> ListGuard(Iterate(listBody, k, text))
    ensures runs < 19 ==> !ListGuard(r)
    ensures !ListGuard(text) ==> r == text
  {
    r, runs := Bounded(text, ListGuard, listBody);
    if runs > 0 {
      assert Iterate(listBody, 0, text) == text;
    }
  }

  /** The two spoiler loops, the plain one first. */
  method ConvertSpoilers(text: string, wrote: string -> string) returns (r: string, plain: nat, authored: nat)
    ensures plain <= 19 && authored <= 19
    ensures r == Iterate(SpoilerAuthorStep(wrote), authored, Iterate(SpoilerBody, plain, text))
    ensures forall k :: 0 <= k < plain ==> SpoilerGuard(Iterate(SpoilerBody, k, text))
    ensures plain < 19 ==> !SpoilerGuard(Iterate(SpoilerBody, plain, text))
    ensures forall k :: 0 <= k < authored ==>
      SpoilerAuthorGuard(Iterate(SpoilerAuthorStep(wrote), k, Iterate(SpoilerBody, plain, text)))
    ensures authored < 19 ==> !SpoilerAuthorGuard(r)
  {
    var t;
    t, plain := Bounded(text, SpoilerGuard, SpoilerBody);
    r, authored := Bounded(t, SpoilerAuthorGuard, SpoilerAuthorStep(wrote));
  }

  /** The two quote loops, the plain one first. */
  method ConvertQuotes(text: string, wrote: string -> string) returns (r: string, plain: nat, authored: nat)
    ensures plain <= 19 && authored <= 19
    ensures r == Iterate(QuoteAuthorStep(wrote), authored, Iterate(QuoteBody, plain, text))
    ensures forall k :: 0 <= k < plain ==> QuoteGuard(Iterate(QuoteBody, k, text))
    ensures plain < 19 ==> !QuoteGuard(Iterate(QuoteBody, plain, text))
    ensures forall k :: 0 <= k < authored ==>
      QuoteAuthorGuard(Iterate(QuoteAuthorStep(wrote), k, Iterate(QuoteBody, plain, text)))
    ensures authored < 19 ==> !QuoteAuthorGuard(r)
  {
    var t;
    t, plain := Bounded(text, QuoteGuard, QuoteBody);
    r, authored := Bounded(t, QuoteAuthorGuard, QuoteAuthorStep(wrote));
  }

  /** A body whose opening tag is nowhere in the text, in any case, leaves it unchanged. */
  lemma QuoteBodyIdle(t: string)
    requires !Contains(ToLower(t), "[quote]")
    ensures QuoteBody(t) == t
  {
    assert t[0..] == t;
  }

  /** Without `[quote=` in any case, the authored quote body leaves the text unchanged. */
  lemma QuoteAuthorBodyIdle(t: string, wrote: string -> string)
    requires !Contains(ToLower(t), "[quote=")
    ensures QuoteAuthorBody(t, wrote) == t
  {
    assert t[0..] == t;
  }
}
