/**
 * The `[code]` protection of `BBCode::convert`: before the whitespace
 * processing and the autolinker every `[code]…[/code]` block is cut out, its
 * HTML saved in a list and a `#codeblock-N#` marker left in its place; at the
 * end every marker is replaced by the saved HTML again.
 */
module CodeBlocks {
  import opened Strings

  /** What the code pattern captures: the language after `=` ("" without one) and the content. */
  datatype Block = Block(lang: string, content: string)

  /** A match of the code pattern at the start of a text, and where the match ends. */
  datatype CodeMatch = CodeMatch(block: Block, end: nat)

  /** `s` starts with `[code` in any case. */
  predicate CodeHead(s: string)
  {
    OccursAt(ToLower(s), "[code", 0)
  }

  /**
   * `#\[code(?:=([^\]]*))?\](.*?)\[\/code\]#ism` tried at the start of `s`:
   * `[code` in any case, then `]` or `=` and a language running to the first
   * `]`, then the content up to the first `[/code]` in any case.
   */
  function CodeAt(s: string): (r: Option<CodeMatch>)
    ensures r.Some? ==> 12 <= r.value.end <= |s|
    ensures r.Some? ==> CodeHead(s) && OccursAt(ToLower(s), "[/code]", r.value.end - 7)
  {
    var low := ToLower(s);
    if |s| < 6 || !CodeHead(s) then None
    else
      var start: Option<(string, nat)> :=
        if s[5] == ']' then Some(("", 6))
        else if s[5] == '=' then
          match Find(s, "]", 6)
          case Some(q) => Some((s[6..q], q + 1))
          case None => None
        else None;
      match start
      case None => None
      case Some(st) =>
        match Find(low, "[/code]", st.1)
        case Some(c) => Some(CodeMatch(Block(st.0, s[st.1..c]), c + 7))
        case None => None
  }

  /** The HTML the callback saves: a `<pre>` block for content over several lines, inline `<code>` otherwise. */
  function BlockHtml(b: Block): (r: string)
    ensures IsPrefix("<pre>", r) <==> '\n' in b.content
    ensures '\n' !in b.content ==> r == "<code>" + b.content + "</code>"
  {
    if '\n' in b.content then
      var inner := "<code class=\"language-" + Trim(b.lang) + "\">" + TrimSet(b.content, {'\n', '\r'}) + "</code></pre>";
      assert ("<pre>" + inner)[..5] == "<pre>";
      "<pre>" + inner
    else
      var r := "<code>" + b.content + "</code>";
      assert r[1] == 'c';
      r
  }

  /** The marker left in place of the `n`-th block. */
  function Marker(n: nat): string
  {
    "#codeblock-" + NatToDecimal(n) + "#"
  }

  /** The text with markers in place of the blocks, and the saved HTML in the order the markers number it. */
  datatype Hidden = Hidden(text: string, blocks: seq<string>)

  /** The extraction callback run over `s`, numbering the blocks from `n` on. */
  function Hide(s: string, n: nat): (r: Hidden)
    decreases |s|
  {
    if s == [] then Hidden([], [])
    else match CodeAt(s)
      case Some(m) =>
        var rest := Hide(s[m.end..], n + 1);
        Hidden(Marker(n) + rest.text, [BlockHtml(m.block)] + rest.blocks)
      case None =>
        var rest := Hide(s[1..], n);
        Hidden([s[0]] + rest.text, rest.blocks)
  }

  /** The evident purpose of hiding and restoring: every block replaced by its HTML in one pass. */
  function Render(s: string): string
    decreases |s|
  {
    if s == [] then []
    else match CodeAt(s)
      case Some(m) => BlockHtml(m.block) + Render(s[m.end..])
      case None => [s[0]] + Render(s[1..])
  }

  /** A match of the marker pattern at the start of a text: the digits, and where the match ends. */
  datatype MarkerMatch = MarkerMatch(digits: string, end: nat)

  /** `s` starts with `#codeblock-` in any case. */
  predicate MarkerHead(s: string)
  {
    OccursAt(ToLower(s), "#codeblock-", 0)
  }

  /**
   * No `#codeblock-`, in any case, starts in the text outside its code
   * blocks: nothing there can be taken for a marker. Hashtags are allowed.
   */
  predicate NoPlainMarker(s: string)
    decreases |s|
  {
    if s == [] then true
    else match CodeAt(s)
      case Some(m) => NoPlainMarker(s[m.end..])
      case None => !MarkerHead(s) && NoPlainMarker(s[1..])
  }

  /** `/#codeblock-([0-9]+)#/iU` tried at the start of `s`. */
  function MarkerAt(s: string): (r: Option<MarkerMatch>)
    ensures r.Some? ==> 0 < r.value.end <= |s| && |r.value.digits| > 0
    ensures r.Some? ==> s[0] == '#'
  {
    if !MarkerHead(s) then None
    else
      assert "#codeblock-"[0] == '#';
      assert LowerChar(s[0]) == '#';
      var k := DigitRun(s[11..]);
      if k > 0 && 11 + k < |s| && s[11 + k] == '#' then Some(MarkerMatch(s[11..11 + k], 12 + k))
      else None
  }

  /**
   * The restoring callback as written: `isset($codeblocks[intval($d)])`
   * decides, but `$codeblocks[$d]` is read with the digits as they stand, so
   * a non-canonical number such as `00` reads a missing key and gives "".
   */
  function RestoreBlockAsWritten(whole: string, d: string, blocks: seq<string>): string
  {
    var k := DecimalValue(d);
    if k < |blocks| then (if CanonicalDecimal(d) then blocks[k] else "") else whole
  }

  /** The restoring callback as intended: the block the number names, or the marker unchanged. */
  function RestoreBlock(whole: string, d: string, blocks: seq<string>): string
  {
    var k := DecimalValue(d);
    if k < |blocks| then blocks[k] else whole
  }

  /**
   * The restoring `preg_replace_callback` over `s`, with the callback as
   * written or, when `asWritten` is false, as intended.
   */
  function Restore(s: string, blocks: seq<string>, asWritten: bool): string
    decreases |s|
  {
    if s == [] then []
    else match MarkerAt(s)
      case Some(m) =>
        var whole := s[..m.end];
        (if asWritten then RestoreBlockAsWritten(whole, m.digits, blocks) else RestoreBlock(whole, m.digits, blocks)) +
        Restore(s[m.end..], blocks, asWritten)
      case None => [s[0]] + Restore(s[1..], blocks, asWritten)
  }

  /** Both callbacks agree on every number PHP itself prints. */
  lemma RestoreAgreesOnCanonical(whole: string, d: string, blocks: seq<string>)
    requires CanonicalDecimal(d)
    ensures RestoreBlockAsWritten(whole, d, blocks) == RestoreBlock(whole, d, blocks)
  {
  }

  /** `#codeblock-00#` with one saved block: the callback as written drops the marker. */
  lemma RestoreDropsPaddedMarker(b: string)
    ensures RestoreBlockAsWritten("#codeblock-00#", "00", [b]) == ""
    ensures RestoreBlock("#codeblock-00#", "00", [b]) == b
  {
    assert DecimalValue("00") == 10 * DecimalValue("0") + 0 by {
      assert "00"[..1] == "0";
    }
    assert DecimalValue("0") == 10 * DecimalValue("") + 0 by {
      assert "0"[..0] == "";
    }
  }

  /** A text that starts with a head without upper-case letters starts with it in lower case too. */
  lemma LowerPrefix(head: string, rest: string)
    requires forall i :: 0 <= i < |head| ==> !('A' <= head[i] <= 'Z')
    ensures OccursAt(ToLower(head + rest), head, 0)
  {
    LowerConcat(head, rest);
    LowerUnchanged(head);
    OccursAtSlice(ToLower(head + rest), head, 0);
    assert (head + ToLower(rest))[..|head|] == head;
  }

  /** A marker is recognised as the marker of its own number. */
  lemma MarkerMatches(n: nat, t: string)
    ensures MarkerAt(Marker(n) + t) == Some(MarkerMatch(NatToDecimal(n), |Marker(n)|))
  {
    MarkerOfDigits(NatToDecimal(n), t);
  }

  /** `#codeblock-`, any digit run `d` and `#` are matched with `d` as the number. */
  lemma MarkerOfDigits(d: string, t: string)
    requires NumericString(d)
    ensures MarkerAt("#codeblock-" + d + "#" + t) == Some(MarkerMatch(d, 12 + |d|))
  {
    var s := "#codeblock-" + d + "#" + t;
    var u := d + "#" + t;
    assert s == "#codeblock-" + u;
    LowerPrefix("#codeblock-", u);
    assert s[11..] == u;
    assert |s| == 12 + |d| + |t|;
    DigitRunOf(d, "#" + t);
    assert u[|d|] == '#';
    assert u[..|d|] == d;
    assert s[11..11 + |d|] == d;
    assert s[11 + |d|] == '#';
    MarkerAtDigits(s, d);
  }

  /** The marker pattern matches where the lower-cased head, a digit run `d` and `#` follow each other. */
  lemma MarkerAtDigits(s: string, d: string)
    requires MarkerHead(s)
    requires |d| > 0 && 11 + |d| < |s| && DigitRun(s[11..]) == |d|
    requires s[11..11 + |d|] == d && s[11 + |d|] == '#'
    ensures MarkerAt(s) == Some(MarkerMatch(d, 12 + |d|))
  {
  }

  /** Restoring past a marker whose block exists puts that block in its place, with either callback. */
  lemma RestoreMarker(n: nat, t: string, blocks: seq<string>, asWritten: bool)
    requires n < |blocks|
    ensures Restore(Marker(n) + t, blocks, asWritten) == blocks[n] + Restore(t, blocks, asWritten)
  {
    var s := Marker(n) + t;
    MarkerMatches(n, t);
    DecimalRoundTrip(n);
    DecimalCanonical(n);
    assert s[|Marker(n)|..] == t;
  }

  /**
   * A marker whose number names no saved block is left as it is, with
   * either callback (`isset` fails, and the whole match is returned).
   */
  lemma RestoreUnknownMarker(d: string, t: string, blocks: seq<string>, asWritten: bool)
    requires NumericString(d) && DecimalValue(d) >= |blocks|
    ensures Restore("#codeblock-" + d + "#" + t, blocks, asWritten) ==
            "#codeblock-" + d + "#" + Restore(t, blocks, asWritten)
  {
    var s := "#codeblock-" + d + "#" + t;
    MarkerOfDigits(d, t);
    assert s[..12 + |d|] == "#codeblock-" + d + "#";
    assert s[12 + |d|..] == t;
  }

  /** Restoring past a character that starts no marker head keeps it. */
  lemma RestoreNoHead(c: char, t: string, blocks: seq<string>, asWritten: bool)
    requires !MarkerHead([c] + t)
    ensures Restore([c] + t, blocks, asWritten) == [c] + Restore(t, blocks, asWritten)
  {
    assert ([c] + t)[1..] == t;
  }

  /** Restoring past a character other than `#` keeps it. */
  lemma RestorePlain(c: char, t: string, blocks: seq<string>, asWritten: bool)
    requires c != '#'
    ensures Restore([c] + t, blocks, asWritten) == [c] + Restore(t, blocks, asWritten)
  {
    assert ToLower([c] + t)[0] == LowerChar(c);
    assert "#codeblock-"[0] == '#';
    RestoreNoHead(c, t, blocks, asWritten);
  }

  /** Hiding a text that starts with a code block writes a marker, so the hidden text starts with `#`. */
  lemma HiddenStartsWithHash(t: string, n: nat)
    ensures t != [] && CodeAt(t).Some? ==> Hide(t, n).text != [] && Hide(t, n).text[0] == '#'
  {
  }

  /**
   * Hiding changes nothing before the first `#` it writes: a prefix of the
   * hidden text without `#` is a prefix of the original text.
   */
  lemma {:induction false} HidePrefix(t: string, n: nat, w: string)
    requires IsPrefix(w, Hide(t, n).text) && '#' !in w
    ensures IsPrefix(w, t)
    decreases |t|
  {
    HiddenStartsWithHash(t, n);
    if w != [] && t != [] && CodeAt(t).None? {
      var rest := Hide(t[1..], n);
      assert Hide(t, n).text == [t[0]] + rest.text;
      assert rest.text[..|w| - 1] == w[1..];
      HidePrefix(t[1..], n, w[1..]);
      assert t[..|w|] == [t[0]] + t[1..][..|w| - 1];
    }
  }

  /**
   * A plain character followed by the hidden rest of the text starts a
   * marker head only when the original text does: a marker written by
   * hiding starts with `#`, which `#codeblock-` holds only at its start.
   */
  lemma HiddenHead(s: string, n: nat)
    requires s != []
    ensures MarkerHead([s[0]] + Hide(s[1..], n).text) ==> MarkerHead(s)
  {
    var h := Hide(s[1..], n).text;
    var x := [s[0]] + h;
    var head := "#codeblock-";
    if MarkerHead(x) {
      var w := h[..10];
      forall i | 0 <= i < 10 ensures w[i] != '#' {
        assert ToLower(x)[i + 1] == head[i + 1] == LowerChar(x[i + 1]);
        assert x[i + 1] == h[i];
      }
      HidePrefix(s[1..], n, w);
      forall i | 0 <= i < 11 ensures ToLower(s)[i] == head[i] {
        assert ToLower(x)[i] == head[i];
        if i > 0 {
          assert s[i] == s[1..][i - 1] == w[i - 1] == x[i];
        }
      }
    }
  }

  /**
   * Hiding and then restoring replaces every code block by its HTML, with
   * either callback, when no `#codeblock-` outside the blocks could be
   * taken for a marker.
   */
  lemma {:induction false} HideRestore(s: string, pre: seq<string>, asWritten: bool)
    requires NoPlainMarker(s)
    ensures var h := Hide(s, |pre|); Restore(h.text, pre + h.blocks, asWritten) == Render(s)
    decreases |s|, 1
  {
    if s != [] {
      if CodeAt(s).Some? {
        HideRestoreBlock(s, pre, asWritten);
      } else {
        HideRestorePlain(s, pre, asWritten);
      }
    }
  }

  /** The round trip over a code block at the start, by the round trip over what follows it. */
  lemma HideRestoreBlock(s: string, pre: seq<string>, asWritten: bool)
    requires s != [] && CodeAt(s).Some? && NoPlainMarker(s)
    ensures var h := Hide(s, |pre|); Restore(h.text, pre + h.blocks, asWritten) == Render(s)
    decreases |s|, 0
  {
    var m := CodeAt(s).value;
    var html := BlockHtml(m.block);
    var rest := Hide(s[m.end..], |pre| + 1);
    assert NoPlainMarker(s[m.end..]);
    HideRestore(s[m.end..], pre + [html], asWritten);
    var all := pre + [html] + rest.blocks;
    ConcatAssoc(pre, [html], rest.blocks);
    assert Hide(s, |pre|) == Hidden(Marker(|pre|) + rest.text, [html] + rest.blocks);
    RestoreMarker(|pre|, rest.text, all, asWritten);
    assert Render(s) == html + Render(s[m.end..]);
  }

  /** The round trip over a character outside a code block, by the round trip over what follows it. */
  lemma HideRestorePlain(s: string, pre: seq<string>, asWritten: bool)
    requires s != [] && CodeAt(s).None? && NoPlainMarker(s)
    ensures var h := Hide(s, |pre|); Restore(h.text, pre + h.blocks, asWritten) == Render(s)
    decreases |s|, 0
  {
    var rest := Hide(s[1..], |pre|);
    assert !MarkerHead(s) && NoPlainMarker(s[1..]);
    HideRestore(s[1..], pre, asWritten);
    assert Hide(s, |pre|) == Hidden([s[0]] + rest.text, rest.blocks);
    HiddenHead(s, |pre|);
    RestoreNoHead(s[0], rest.text, pre + rest.blocks, asWritten);
    assert Render(s) == [s[0]] + Render(s[1..]);
  }

  /** Concatenation of lists of saved blocks regroups freely. */
  lemma ConcatAssoc(a: seq<string>, b: seq<string>, c: seq<string>)
    ensures a + (b + c) == a + b + c
  {
  }

  /** The whole conversion: markers numbered from zero, and every block back as HTML. */
  lemma HideRestoreFromZero(s: string, asWritten: bool)
    requires NoPlainMarker(s)
    ensures var h := Hide(s, 0); Restore(h.text, h.blocks, asWritten) == Render(s)
  {
    HideRestore(s, [], asWritten);
    assert [] + Hide(s, 0).blocks == Hide(s, 0).blocks;
  }

  /** A text without `#` has no marker and comes back unchanged. */
  lemma {:induction false} RestoreWithoutHash(s: string, blocks: seq<string>, asWritten: bool)
    requires forall j :: 0 <= j < |s| ==> s[j] != '#'
    ensures Restore(s, blocks, asWritten) == s
    decreases |s|
  {
    if s != [] {
      RestoreWithoutHash(s[1..], blocks, asWritten);
      RestorePlain(s[0], s[1..], blocks, asWritten);
      assert [s[0]] + s[1..] == s;
    }
  }

  /** A text without any code block is left as it is by the extraction, and nothing is saved. */
  lemma {:induction false} HideWithoutCode(s: string, n: nat)
    requires forall j :: 0 <= j <= |s| ==> CodeAt(s[j..]).None?
    ensures Hide(s, n) == Hidden(s, [])
    decreases |s|
  {
    if s != [] {
      assert CodeAt(s[0..]).None? && s[0..] == s;
      forall j | 0 <= j <= |s[1..]| ensures CodeAt(s[1..][j..]).None? {
        assert s[1..][j..] == s[j + 1..];
      }
      HideWithoutCode(s[1..], n);
      assert [s[0]] + s[1..] == s;
    }
  }
}
