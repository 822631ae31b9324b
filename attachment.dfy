/**
 * The parsers of shared-link attachments: `BBCode::getAttachmentData` for
 * the `[attachment type='…' url='…' …]…[/attachment]` element, its fallback
 * `getOldAttachmentData` for the older `[class=type-…]…[/class]` form, and
 * `removeShareInformation`, which turns an attachment back into plain text
 * and a link.
 */
module Attachment {
  import opened Strings
  import opened LazyRegex

  /** The keys of the array the parsers return; a key that is not set is `None`. */
  datatype Post = Post(
    kind: Option<string>,
    text: Option<string>,
    after: Option<string>,
    url: Option<string>,
    title: Option<string>,
    image: Option<string>,
    preview: Option<string>,
    description: Option<string>)

  /** The empty array `[]`. */
  const NoPost := Post(None, None, None, None, None, None, None, None)

  /** The value of an array key read as a string: an unset key reads as null, which is "". */
  function Get(o: Option<string>): string
  {
    if o.Some? then o.value else ""
  }

  /** The first capture of `preg_match("/<name>=<quote>(.*?)<quote>/ism", $attributes)`, "" without a match. */
  function Captured(attributes: string, name: string, quote: string): string
  {
    match FirstMatch(attributes, true, name + "=" + quote, [quote], 0)
    case Some(m) => m.groups[0]
    case None => ""
  }

  /**
   * An attribute read in both quote styles: the single-quoted value is taken
   * when it is not empty, then the double-quoted one overrides it when it is
   * not empty.
   */
  function AttributeValue(attributes: string, name: string): (r: string)
    ensures !IsEmptyString(Captured(attributes, name, "\"")) ==> r == Captured(attributes, name, "\"")
    ensures IsEmptyString(Captured(attributes, name, "\"")) && !IsEmptyString(Captured(attributes, name, "'")) ==>
      r == Captured(attributes, name, "'")
    ensures IsEmptyString(Captured(attributes, name, "\"")) && IsEmptyString(Captured(attributes, name, "'")) ==> r == ""
  {
    var single := Captured(attributes, name, "'");
    var double := Captured(attributes, name, "\"");
    var v := if !IsEmptyString(single) then single else "";
    if !IsEmptyString(double) then double else v
  }

  /** The attachment types `getAttachmentData` accepts. */
  const AttachmentTypes: set<string> := {"link", "audio", "photo", "video"}

  /** `str_replace(["[", "]"], ["&#91;", "&#93;"], $title)`. */
  function EscapeBrackets(t: string): (r: string)
    ensures '[' !in r && ']' !in r
  {
    var a := ReplaceAll(t, "[", "&#91;");
    ReplaceCharGone(t, '[', "&#91;");
    ReplaceCharKept(t, '[', "&#91;", ']');
    ReplaceCharGone(a, ']', "&#93;");
    ReplaceCharKept(a, ']', "&#93;", '[');
    ReplaceAll(a, "]", "&#93;")
  }

  /** Replacing every occurrence of a character by a text without it leaves none. */
  lemma {:induction false} ReplaceCharGone(s: string, c: char, rep: string)
    requires c !in rep
    ensures c !in ReplaceAll(s, [c], rep)
    decreases |s|
  {
    if |s| >= 1 {
      if OccursAt(s, [c], 0) {
        ReplaceCharGone(s[1..], c, rep);
        assert s[|[c]|..] == s[1..];
      } else {
        assert [c][0] == c;
        assert s[0] != c;
        ReplaceCharGone(s[1..], c, rep);
      }
    }
  }

  /** A character absent from the text and from the replacement stays absent. */
  lemma {:induction false} ReplaceCharKept(s: string, c: char, rep: string, d: char)
    requires d !in rep
    ensures d !in s ==> d !in ReplaceAll(s, [c], rep)
    decreases |s|
  {
    if |s| >= 1 && d !in s {
      assert d !in s[1..] by {
        assert forall k :: 0 <= k < |s[1..]| ==> s[1..][k] == s[k + 1];
      }
      ReplaceCharKept(s[1..], c, rep, d);
    }
  }

  /** The document-level matches of the new form: `(.*)\[attachment(.*?)\](.*?)\[\/attachment\](.*)`. */
  function AttachmentMatch(body: string): (r: Option<Match>)
    ensures r.Some? ==> |r.value.groups| == 2 && r.value.start <= r.value.end <= |body|
  {
    LastMatchBelow(body, true, "[attachment", ["]", "[/attachment]"], |body| + 1)
  }

  /**
   * `getAttachmentData`. The HTML entity decoder, the BBCode conversion of
   * the title and the remote image probe of the old form are parameters.
   */
  function GetAttachmentData(body: string, decode: string -> string, convert: string -> string,
                             imageSize: string -> Option<(int, int)>): Post
  {
    match AttachmentMatch(body)
    case None => OldAttachmentData(body, imageSize)
    case Some(m) => NewAttachmentData(body, m, decode, convert)
  }

  /** The new form, once the document pattern has matched as `m`. */
  function NewAttachmentData(body: string, m: Match, decode: string -> string, convert: string -> string): (r: Post)
    requires |m.groups| == 2 && m.start <= m.end <= |body|
  {
    var attributes := m.groups[0];
    var kind := ToLower(AttributeValue(attributes, "type"));
    if kind == "" || kind !in AttachmentTypes then NoPost
    else
      var url := AttributeValue(attributes, "url");
      var title := AttributeValue(attributes, "title");
      var image := AttributeValue(attributes, "image");
      var preview := AttributeValue(attributes, "preview");
      Post(
        kind := Some(kind),
        text := Some(Trim(body[..m.start])),
        after := Some(Trim(body[m.end..])),
        url := if url != "" then Some(decode(url)) else None,
        title := if title != "" then Some(EscapeBrackets(decode(convert(decode(title))))) else None,
        image := if image != "" then Some(decode(image)) else None,
        preview := if preview != "" then Some(decode(preview)) else None,
        description := Some(Trim(m.groups[1])))
  }

  /** A new-form attachment is returned exactly when its lower-cased type is on the list. */
  lemma NewFormTypeChecked(body: string, m: Match, decode: string -> string, convert: string -> string)
    requires |m.groups| == 2 && m.start <= m.end <= |body|
    ensures var r := NewAttachmentData(body, m, decode, convert);
      (r != NoPost <==> ToLower(AttributeValue(m.groups[0], "type")) in AttachmentTypes) &&
      (r != NoPost ==> r.kind == Some(ToLower(AttributeValue(m.groups[0], "type"))))
  {
  }

  /** A returned new-form attachment has its text, description and after trimmed. */
  lemma NewFormTrimmed(body: string, m: Match, decode: string -> string, convert: string -> string)
    requires |m.groups| == 2 && m.start <= m.end <= |body|
    ensures var r := NewAttachmentData(body, m, decode, convert);
      r != NoPost ==>
        r.text.Some? && Trimmed(r.text.value) &&
        r.description.Some? && Trimmed(r.description.value) &&
        r.after.Some? && Trimmed(r.after.value)
  {
    TrimEnds(body[..m.start]);
    TrimEnds(m.groups[1]);
    TrimEnds(body[m.end..]);
  }

  /** A returned new-form title holds no square bracket. */
  lemma NewFormTitleEscaped(body: string, m: Match, decode: string -> string, convert: string -> string)
    requires |m.groups| == 2 && m.start <= m.end <= |body|
    ensures var r := NewAttachmentData(body, m, decode, convert);
      r != NoPost && r.title.Some? ==> '[' !in r.title.value && ']' !in r.title.value
  {
  }

  /** The classes the old form accepts. */
  const OldClasses: set<string> := {"type-link", "type-video", "type-photo"}

  /** The first capture of a lazy pattern in the attached data, if it matches. */
  function Capture(s: string, open: string, delims: seq<string>, k: nat): Option<string>
  {
    match FirstMatch(s, true, open, delims, 0)
    case Some(m) => if k < |m.groups| then Some(m.groups[k]) else None
    case None => None
  }

  /** The type, text and after-text one accepted `[class=…]` match sets. */
  function OldHead(post: Post, body: string, m: Match, kind: string): (r: Post)
    requires m.start <= m.end <= |body|
    ensures r.kind == Some(kind) && r.text.Some? && r.after.Some?
    ensures r.url == post.url && r.title == post.title && r.image == post.image
    ensures r.preview == post.preview && r.description == post.description
  {
    var whole := body[m.start..m.end];
    var pos := Find(body, whole, 0);
    if pos.Some? && pos.value > 0 then
      post.(kind := Some(kind), text := Some(Trim(body[..pos.value])), after := Some(Trim(Drop(body, pos.value + |whole|))))
    else
      post.(kind := Some(kind), text := Some(Trim(if whole == "" then body else ReplaceAll(body, whole, ""))), after := Some(""))
  }

  /** The picture of the attached data: large and landscape as the image, otherwise as the preview. */
  function WithPicture(p: Post, attached: string, imageSize: string -> Option<(int, int)>): (r: Post)
    ensures r.kind == p.kind && r.text == p.text && r.after == p.after
    ensures r.url == p.url && r.title == p.title && r.description == p.description
  {
    match Capture(attached, "[img]", ["[/img]"], 0)
    case Some(picture) =>
      (match imageSize(picture)
       case Some(wh) =>
         if wh.0 >= 500 && wh.0 >= wh.1 then p.(image := Some(picture)) else p.(preview := Some(picture))
       case None => p)
    case None => p
  }

  /** The address and title of a `[bookmark=…]…[/bookmark]` in the attached data. */
  function WithBookmark(p: Post, attached: string): (r: Post)
    ensures r.kind == p.kind && r.text == p.text && r.after == p.after
    ensures r.image == p.image && r.preview == p.preview && r.description == p.description
  {
    match FirstMatch(attached, true, "[bookmark=", ["]", "[/bookmark]"], 0)
    case Some(b) => p.(url := Some(b.groups[0]), title := Some(b.groups[1]))
    case None => p
  }

  /** For a link or video that has an address, the address of a `[url=…]…[/url]` replaces it. */
  function WithUrl(p: Post, attached: string, kind: string): (r: Post)
    ensures r.kind == p.kind && r.text == p.text && r.after == p.after && r.title == p.title
    ensures r.image == p.image && r.preview == p.preview && r.description == p.description
  {
    if !IsEmptyString(Get(p.url)) && kind in {"link", "video"} then
      match Capture(attached, "[url=", ["]", "[/url]"], 0)
      case Some(u) => p.(url := Some(u))
      case None => p
    else p
  }

  /** The description from a `[quote]…[/quote]` in the attached data. */
  function WithQuote(p: Post, attached: string): (r: Post)
    ensures r.kind == p.kind && r.text == p.text && r.after == p.after && r.title == p.title
    ensures r.image == p.image && r.preview == p.preview && r.url == p.url
  {
    match Capture(attached, "[quote]", ["[/quote]"], 0)
    case Some(d) => p.(description := Some(d))
    case None => p
  }

  /** One round of the `foreach` over the `[class=…]…[/class]` matches: `post` as it stands before it. */
  function OldRound(post: Post, body: string, m: Match, imageSize: string -> Option<(int, int)>): (r: Post)
    requires |m.groups| == 2 && m.start <= m.end <= |body|
    ensures m.groups[0] in OldClasses ==> r.kind == Some(m.groups[0][5..]) && r.text.Some?
    ensures m.groups[0] !in OldClasses ==> r == post
  {
    var cls := m.groups[0];
    if cls !in OldClasses then post
    else
      var kind := Drop(cls, 5);
      var attached := m.groups[1];
      WithQuote(WithUrl(WithBookmark(WithPicture(OldHead(post, body, m, kind), attached, imageSize), attached), attached, kind), attached)
  }

  /** The `[class=…]…[/class]` matches of the simplified body, in order. */
  function ClassMatches(body: string): (r: seq<Match>)
    ensures forall k :: 0 <= k < |r| ==> |r[k].groups| == 2 && r[k].start <= r[k].end <= |body|
  {
    var r := AllMatches(body, true, "[class=", ["]", "[/class]"], 0);
    assert forall k :: 0 <= k < |r| ==> r[k].start <= r[k].end by {
      forall k | 0 <= k < |r| ensures r[k].start <= r[k].end {
        AllMatchesOrdered(body, "[class=", ["]", "[/class]"], 0, k);
      }
    }
    r
  }

  /** Every match of a pattern ends after it starts. */
  lemma {:induction false} AllMatchesOrdered(s: string, open: string, delims: seq<string>, from: nat, k: nat)
    requires |open| > 0 && k < |AllMatches(s, true, open, delims, from)|
    ensures AllMatches(s, true, open, delims, from)[k].start <= AllMatches(s, true, open, delims, from)[k].end
    decreases |s| - from
  {
    var m := FirstMatch(s, true, open, delims, from).value;
    if k > 0 {
      AllMatchesOrdered(s, open, delims, m.end, k - 1);
    }
  }

  /** The rounds over the first matches, in order. */
  function OldRounds(body: string, ms: seq<Match>, imageSize: string -> Option<(int, int)>): Post
    requires forall k :: 0 <= k < |ms| ==> |ms[k].groups| == 2 && ms[k].start <= ms[k].end <= |body|
    decreases |ms|
  {
    if ms == [] then NoPost
    else OldRound(OldRounds(body, ms[..|ms| - 1], imageSize), body, ms[|ms| - 1], imageSize)
  }

  /** What `getOldAttachmentData` returns. */
  function OldAttachmentData(body: string, imageSize: string -> Option<(int, int)>): Post
  {
    var simple := UnsizeImages(body, 0);
    OldRounds(simple, ClassMatches(simple), imageSize)
  }

  /** `getOldAttachmentData`: the `foreach` over the matches, updating one array. */
  method GetOldAttachmentData(body: string, imageSize: string -> Option<(int, int)>) returns (post: Post)
    ensures post == OldAttachmentData(body, imageSize)
  {
    var simple := UnsizeImages(body, 0);
    var ms := ClassMatches(simple);
    post := NoPost;
    var i := 0;
    while i < |ms|
      invariant 0 <= i <= |ms|
      invariant post == OldRounds(simple, ms[..i], imageSize)
    {
      OldRoundsSnoc(simple, ms, i, imageSize);
      post := OldRound(post, simple, ms[i], imageSize);
      i := i + 1;
    }
    assert ms[..|ms|] == ms;
  }

  /** The rounds over one match more: one more round on the result. */
  lemma OldRoundsSnoc(body: string, ms: seq<Match>, i: nat, imageSize: string -> Option<(int, int)>)
    requires forall k :: 0 <= k < |ms| ==> |ms[k].groups| == 2 && ms[k].start <= ms[k].end <= |body|
    requires i < |ms|
    ensures OldRounds(body, ms[..i + 1], imageSize) == OldRound(OldRounds(body, ms[..i], imageSize), body, ms[i], imageSize)
  {
    assert ms[..i + 1][..i] == ms[..i];
  }

  /** The old form reports only the types link, video and photo, and a type always comes with a text. */
  lemma {:induction false} OldRoundsKind(body: string, ms: seq<Match>, imageSize: string -> Option<(int, int)>)
    requires forall k :: 0 <= k < |ms| ==> |ms[k].groups| == 2 && ms[k].start <= ms[k].end <= |body|
    ensures var r := OldRounds(body, ms, imageSize);
      (r.kind.None? || r.kind.value in {"link", "video", "photo"}) && (r.kind.Some? ==> r.text.Some?)
    decreases |ms|
  {
    if ms != [] {
      var prev := ms[..|ms| - 1];
      OldRoundsKind(body, prev, imageSize);
      var m := ms[|ms| - 1];
      if m.groups[0] in OldClasses {
        var c := m.groups[0];
        assert c == "type-link" || c == "type-video" || c == "type-photo";
        assert c[5..] in {"link", "video", "photo"};
      }
    }
  }

  /** Without a match whose class is accepted the old form returns the empty array. */
  lemma {:induction false} OldRoundsEmpty(body: string, ms: seq<Match>, imageSize: string -> Option<(int, int)>)
    requires forall k :: 0 <= k < |ms| ==> |ms[k].groups| == 2 && ms[k].start <= ms[k].end <= |body|
    requires forall k :: 0 <= k < |ms| ==> ms[k].groups[0] !in OldClasses
    ensures OldRounds(body, ms, imageSize) == NoPost
    decreases |ms|
  {
    if ms != [] {
      OldRoundsEmpty(body, ms[..|ms| - 1], imageSize);
    }
  }

  /** PHP's truthiness of `strstr($haystack, $needle)`: found, and the rest from there is not "" or "0". */
  predicate StrstrTruthy(haystack: string, needle: string)
  {
    match Find(haystack, needle, 0)
    case Some(j) => !IsEmptyString(haystack[j..])
    case None => false
  }

  /**
   * The title and text swap of `removeShareInformation`: a title already in
   * the text (or plain text wanted) gives way to the address, and a text
   * already in the title is replaced by the title.
   */
  function Adjust(data: Post, plaintext: bool, htmlentities: string -> string): (d: Post)
    ensures d.url == data.url && d.after == data.after
    ensures d.text == data.text || d.text == data.title
    ensures d.title == data.title || d.title == data.url
  {
    var title := htmlentities(Get(data.title));
    var text := htmlentities(Get(data.text));
    if plaintext || (title != "" && StrstrTruthy(text, title)) then data.(title := data.url)
    else if text != "" && StrstrTruthy(title, text) then data.(text := data.title, title := data.url)
    else data
  }

  /** The share text of the adjusted attachment, given the test whether the text already holds the link. */
  function ShareOf(d: Post, linkIncluded: (string, string) -> bool): string
  {
    if IsEmptyString(Get(d.text)) && !IsEmptyString(Get(d.title)) && IsEmptyString(Get(d.url)) then
      Get(d.title) + Get(d.after)
    else if !IsEmptyString(Get(d.url)) && linkIncluded(Get(d.text), Get(d.url)) then
      Get(d.text) + Get(d.after)
    else
      var t :=
        if !IsEmptyString(Get(d.url)) && !IsEmptyString(Get(d.title)) then
          Get(d.text) + "\n[url=" + Get(d.url) + "]" + Get(d.title) + "[/url]"
        else if !IsEmptyString(Get(d.url)) then Get(d.text) + "\n[url]" + Get(d.url) + "[/url]"
        else Get(d.text);
      t + "\n" + Get(d.after)
  }

  /** The share text of a non-empty attachment, as `removeShareInformation` builds it with links. */
  function ShareText(data: Post, plaintext: bool, htmlentities: string -> string, linkIncluded: (string, string) -> bool): string
  {
    ShareOf(Adjust(data, plaintext, htmlentities), linkIncluded)
  }

  /** The test as written, `strpos($text, $url)`: false when the link stands at position 0. */
  predicate LinkIncludedAsWritten(text: string, url: string)
  {
    match Find(text, url, 0)
    case Some(j) => j > 0
    case None => false
  }

  /** The test as intended: the link occurs anywhere in the text. */
  predicate LinkIncluded(text: string, url: string)
  {
    Find(text, url, 0).Some?
  }

  /** `removeShareInformation`, with the link test as intended. */
  function RemoveShareInformation(text: string, plaintext: bool, nolink: bool, decode: string -> string,
                                  convert: string -> string, imageSize: string -> Option<(int, int)>,
                                  htmlentities: string -> string): (r: string)
    ensures var data := GetAttachmentData(text, decode, convert, imageSize);
      (data == NoPost ==> r == text) &&
      (data != NoPost && nolink ==> r == Get(data.text) + Get(data.after)) &&
      (data != NoPost && !nolink ==> r == ShareText(data, plaintext, htmlentities, LinkIncluded))
  {
    var data := GetAttachmentData(text, decode, convert, imageSize);
    if data == NoPost then text
    else if nolink then Get(data.text) + Get(data.after)
    else ShareText(data, plaintext, htmlentities, LinkIncluded)
  }

  /**
   * An attachment whose text is its own link and which has no title: the
   * test as written misses the link at position 0 and appends it again,
   * where the intended test keeps the text alone.
   */
  lemma LinkAtStartRepeated(u: string, after: string, htmlentities: string -> string)
    requires |u| > 0 && !IsEmptyString(u) && htmlentities("") == ""
    ensures var data := Post(Some("link"), Some(u), Some(after), Some(u), None, None, None, None);
      ShareText(data, false, htmlentities, LinkIncludedAsWritten) == u + "\n[url]" + u + "[/url]" + "\n" + after &&
      ShareText(data, false, htmlentities, LinkIncluded) == u + after
  {
    OccursAtSlice(u, u, 0);
    assert u[0..|u|] == u;
    assert Find(u, u, 0) == Some(0);
  }

  /**
   * An attachment with an address either keeps its text alone, because the
   * text already holds the address, or gets the address appended as a link.
   */
  lemma ShareTextLink(d: Post)
    requires !IsEmptyString(Get(d.url))
    ensures var r := ShareOf(d, LinkIncluded);
      (LinkIncluded(Get(d.text), Get(d.url)) && r == Get(d.text) + Get(d.after)) ||
      (!LinkIncluded(Get(d.text), Get(d.url)) &&
       (Contains(r, "[url=" + Get(d.url) + "]") || Contains(r, "[url]" + Get(d.url) + "[/url]")))
  {
    var r := ShareOf(d, LinkIncluded);
    var u := Get(d.url);
    if !LinkIncluded(Get(d.text), u) {
      var a := Get(d.text) + "\n";
      if !IsEmptyString(Get(d.title)) {
        var link := "[url=" + u + "]";
        assert r == a + link + (Get(d.title) + "[/url]" + "\n" + Get(d.after));
        ContainsAt(a, link, Get(d.title) + "[/url]" + "\n" + Get(d.after));
      } else {
        var link := "[url]" + u + "[/url]";
        assert r == a + link + ("\n" + Get(d.after));
        ContainsAt(a, link, "\n" + Get(d.after));
      }
    }
  }

  /**
   * The share text of an attachment with an address, after the title and
   * text swap: the adjusted text alone when it holds the address, otherwise
   * a text that holds the address as a link.
   */
  lemma ShareTextHasLink(data: Post, plaintext: bool, htmlentities: string -> string)
    requires !IsEmptyString(Get(data.url))
    ensures var d := Adjust(data, plaintext, htmlentities);
      var r := ShareText(data, plaintext, htmlentities, LinkIncluded);
      (LinkIncluded(Get(d.text), Get(data.url)) && r == Get(d.text) + Get(data.after)) ||
      Contains(r, "[url=" + Get(data.url) + "]") || Contains(r, "[url]" + Get(data.url) + "[/url]")
  {
    ShareTextLink(Adjust(data, plaintext, htmlentities));
  }
}
