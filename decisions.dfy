/**
 * The small decisions of the BBCode converter that depend on the target
 * format code (`$simple_html`): whether pictures are proxied, how mentions
 * and shared posts are rendered, how links are labelled for OStatus and
 * expanded with their titles, and which `src` and `href` values survive.
 * Calls into other classes (the proxy, the mention formatter, oEmbed, the
 * template engine, translations, link normalisation) are parameters.
 */
module Decisions {
  import opened Strings

  /** A PHP scalar as a format code arrives: `false` by default, an integer otherwise. */
  datatype Scalar = Bool(b: bool) | Int(i: int)

  /** PHP's loose `==` between two scalars. */
  predicate LooseEqual(x: Scalar, y: Scalar)
  {
    match (x, y)
    case (Bool(a), Bool(b)) => a == b
    case (Int(a), Int(b)) => a == b
    case (Int(a), Bool(b)) => (a != 0) == b
    case (Bool(a), Int(b)) => a == (b != 0)
  }

  /** `in_array($x, $xs)` without the strict flag. */
  predicate InArray(x: Scalar, xs: seq<Scalar>)
    decreases |xs|
  {
    xs != [] && (LooseEqual(x, xs[0]) || InArray(x, xs[1..]))
  }

  /** `in_array($simplehtml, [false, 2])`: every boolean, and the integers 0 and 2. */
  lemma ProxiedFormats(v: Scalar)
    ensures InArray(v, [Bool(false), Int(2)]) <==> v.Bool? || v == Int(0) || v == Int(2)
  {
    assert [Bool(false), Int(2)][1..] == [Int(2)];
    assert [Int(2)][1..] == [];
  }

  /**
   * `proxyUrl`: a picture is sent through the proxy only for the formats
   * that display it internally or hand it to the API.
   */
  function ProxyUrl(image: string, simplehtml: Scalar, proxify: string -> string): (r: string)
    ensures simplehtml.Bool? || simplehtml == Int(0) || simplehtml == Int(2) ==> r == proxify(image)
    ensures !(simplehtml.Bool? || simplehtml == Int(0) || simplehtml == Int(2)) ==> r == image
  {
    ProxiedFormats(simplehtml);
    if InArray(simplehtml, [Bool(false), Int(2)]) then proxify(image) else image
  }

  /** How `[url=…]…[/url]` after a mention sign is rendered. */
  datatype MentionStyle = StripLink | DiasporaLink | VcardLink | UserinfoLink | Untouched

  /** The branch of `convert` that picks the mention rendering. */
  function MentionStyleOf(tryOembed: bool, simpleHtml: int): MentionStyle
  {
    if (!tryOembed || simpleHtml != 0) && simpleHtml !in {3, 7, 9} then StripLink
    else if simpleHtml == 3 then DiasporaLink
    else if simpleHtml in {7, 9} then VcardLink
    else if simpleHtml == 0 then UserinfoLink
    else Untouched
  }

  /**
   * The branches cover every case, so mentions are always rewritten: the
   * profile link of Diaspora for 3, the microformat card for 7 and 9, the
   * hover card only for the web page with oEmbed on, the bare name otherwise.
   */
  lemma MentionStyles(tryOembed: bool, code: int)
    ensures MentionStyleOf(tryOembed, code) != Untouched
    ensures MentionStyleOf(tryOembed, code) == DiasporaLink <==> code == 3
    ensures MentionStyleOf(tryOembed, code) == VcardLink <==> code == 7 || code == 9
    ensures MentionStyleOf(tryOembed, code) == UserinfoLink <==> tryOembed && code == 0
    ensures MentionStyleOf(tryOembed, code) == StripLink <==> code !in {3, 7, 9} && (!tryOembed || code != 0)
  {
  }

  /** The replacement of one mention `<sign>[url=<url>]<name>[/url]`. */
  function MentionHtml(style: MentionStyle, sign: char, url: string, name: string): (r: string)
    ensures |r| > 0
    ensures style == DiasporaLink ==> r[0] == '@'
    ensures style != DiasporaLink ==> r[0] == sign
  {
    match style
    case StripLink => [sign] + name
    case DiasporaLink => "@<a href=\"" + url + "\">" + name + "</a>"
    case VcardLink =>
      [sign] + "<span class=\"vcard\"><a href=\"" + url + "\" class=\"url u-url mention\" title=\"" + name +
      "\"><span class=\"fn nickname mention\">" + name + "</span></a></span>"
    case UserinfoLink => [sign] + "<a href=\"" + url + "\" class=\"userinfo mention\" title=\"" + name + "\">" + name + "</a>"
    case Untouched => [sign] + "[url=" + url + "]" + name + "[/url]"
  }

  /** Every rendering keeps the mentioned name, and all but the bare one keep the address. */
  lemma MentionKeepsName(style: MentionStyle, sign: char, url: string, name: string)
    ensures Contains(MentionHtml(style, sign, url, name), name)
    ensures style != StripLink ==> Contains(MentionHtml(style, sign, url, name), url)
  {
    match style
    case StripLink =>
      ContainsEnd([sign], name);
    case DiasporaLink =>
      ContainsAt("@<a href=\"" + url + "\">", name, "</a>");
      ContainsAt("@<a href=\"", url, "\">");
      ContainsGrow("@<a href=\"" + url + "\">", url, name);
      ContainsGrow("@<a href=\"" + url + "\">" + name, url, "</a>");
    case VcardLink =>
      var a := [sign] + "<span class=\"vcard\"><a href=\"";
      var b := "\" class=\"url u-url mention\" title=\"";
      var c := "\"><span class=\"fn nickname mention\">";
      var d := "</span></a></span>";
      ContainsAt(a + url + b, name, c);
      ContainsGrow(a + url + b + name + c, name, name);
      ContainsGrow(a + url + b + name + c + name, name, d);
      ContainsAt(a, url, b);
      ContainsGrow(a + url + b, url, name);
      ContainsGrow(a + url + b + name, url, c);
      ContainsGrow(a + url + b + name + c, url, name);
      ContainsGrow(a + url + b + name + c + name, url, d);
    case UserinfoLink =>
      var a := [sign] + "<a href=\"";
      var b := "\" class=\"userinfo mention\" title=\"";
      ContainsAt(a + url + b, name, "\">");
      ContainsGrow(a + url + b + name + "\">", name, name);
      ContainsGrow(a + url + b + name + "\">" + name, name, "</a>");
      ContainsAt(a, url, b);
      ContainsGrow(a + url + b, url, name);
      ContainsGrow(a + url + b + name, url, "\">");
      ContainsGrow(a + url + b + name + "\">", url, name);
      ContainsGrow(a + url + b + name + "\">" + name, url, "</a>");
    case Untouched =>
      var a := [sign] + "[url=";
      ContainsAt(a + url + "]", name, "[/url]");
      ContainsAt(a, url, "]");
      ContainsGrow(a + url + "]", url, name);
      ContainsGrow(a + url + "]" + name, url, "[/url]");
  }

  /** The attributes of a `[share]` block that its rendering uses. */
  datatype Share = Share(profile: string, author: string, link: string, posted: string, avatar: string)

  /** What the rendering of a share needs from outside the converter. */
  datatype ShareEnv = ShareEnv(
    mention: (string, string) -> string,
    normaliseLink: string -> string,
    oembedAllowed: string -> bool,
    oembedHtml: string -> Option<string>,
    headline: (string, string, string) -> string,
    template: (Share, string) -> string)

  /** `html_entity_decode('&#x2672; ')`: the recycling sign and a blank. */
  const Recycle: string := "\U{2672} "

  /** The shared post comes from Twitter: its normalised link starts with `http://twitter.com/` in any case. */
  predicate TwitterLink(a: Share, env: ShareEnv)
  {
    IsPrefix("http://twitter.com/", ToLower(env.normaliseLink(a.link)))
  }

  /** What `convertShareCallback` puts in front of a share that follows other content. */
  function ShareSeparator(a: Share, isQuoteShare: bool, code: int, env: ShareEnv): string
  {
    if !isQuoteShare then ""
    else if code == 3 || code == 4 then "<hr />"
    else if code in {1, 2, 5, 7, 9} then "<br />"
    else if TwitterLink(a, env) && env.oembedAllowed(a.link) then "<br />"
    else "\n"
  }

  /** The block quote around shared content, with the class the format gives it. */
  function BlockQuote(code: int, text: string): string
  {
    "<blockquote" + (if code == 4 then " class=\"shared_content\"" else "") + ">" + text + "</blockquote>"
  }

  /** The share itself, per format code. */
  function ShareBody(a: Share, addr: string, content: string, code: int, env: ShareEnv): string
  {
    if code == 1 then
      "<p>" + Recycle + " <a href=\"" + a.profile + "\">" + env.mention(a.profile, a.author) + "</a>: </p>" + "\n" + "«" + content + "»"
    else if code == 2 || code == 5 then
      "<p>" + Recycle + " " + addr + ": </p>" + "\n" + content
    else if code == 3 then
      if TwitterLink(a, env) then "<p><a href=\"" + a.link + "\">" + a.link + "</a></p>" + "\n"
      else DiasporaShare(a, content)
    else if code == 4 then
      "<p><b>" + Recycle + env.headline(a.link, env.mention(a.profile, a.author), a.posted) + ":</b></p>" + "\n" +
      BlockQuote(4, Trim(content)) + "\n"
    else if code == 7 || code == 9 then
      "<p>" + Recycle + " @" + addr + ": " + content + "</p>" + "\n"
    else if TwitterLink(a, env) && env.oembedAllowed(a.link) then
      match env.oembedHtml(a.link)
      case Some(html) => html
      case None => "[bookmark=" + a.link + "]" + content + "[/bookmark]"
    else env.template(a, Trim(content))
  }

  /** The headline of the Diaspora rendering: with the date linked to the post when both are known. */
  function DiasporaHeadline(a: Share): string
  {
    if !IsEmptyString(a.posted) && !IsEmptyString(a.link) then
      "<p><b>\U{2672} <a href=\"" + a.profile + "\">" + a.author + "</a></b> - <a href=\"" + a.link + "\">" + a.posted + " GMT</a></p>" + "\n"
    else "<p><b>\U{2672} <a href=\"" + a.profile + "\">" + a.author + "</a>:</b></p>" + "\n"
  }

  /** The source link a Diaspora rendering ends with when the share has a link but no date. */
  function DiasporaSource(a: Share): string
  {
    if IsEmptyString(a.posted) && !IsEmptyString(a.link) then "<p><a href=\"" + a.link + "\">[Source]</a></p>" + "\n" else ""
  }

  /** The Diaspora rendering of a share that is not from Twitter. */
  function DiasporaShare(a: Share, content: string): string
  {
    DiasporaHeadline(a) + BlockQuote(3, Trim(content)) + "\n" + DiasporaSource(a)
  }

  /** `convertShareCallback` */
  function ShareCallback(a: Share, addr: string, content: string, isQuoteShare: bool, code: int, env: ShareEnv): string
  {
    ShareSeparator(a, isQuoteShare, code, env) + ShareBody(a, addr, content, code, env)
  }

  /**
   * A share is set apart from the content before it exactly when it is a
   * quote share: by a rule for Diaspora and the API's HTML, by a line
   * break for the template, and by `<br />` otherwise.
   */
  lemma ShareSeparatorKinds(a: Share, isQuoteShare: bool, code: int, env: ShareEnv)
    ensures ShareSeparator(a, isQuoteShare, code, env) == "" <==> !isQuoteShare
    ensures ShareSeparator(a, isQuoteShare, code, env) == "<hr />" <==> isQuoteShare && (code == 3 || code == 4)
    ensures ShareSeparator(a, isQuoteShare, code, env) in {"", "<hr />", "<br />", "\n"}
  {
  }

  /**
   * The shared content reaches the output: whole for the plain formats,
   * trimmed inside a block quote for Diaspora and the API's HTML.
   */
  lemma ShareKeepsContent(a: Share, addr: string, content: string, code: int, env: ShareEnv)
    requires code in {1, 2, 4, 5, 7, 9} || (code == 3 && !TwitterLink(a, env))
    ensures code in {1, 2, 5, 7, 9} ==> Contains(ShareBody(a, addr, content, code, env), content)
    ensures code in {3, 4} ==> Contains(ShareBody(a, addr, content, code, env), BlockQuote(code, Trim(content)))
  {
    if code == 1 {
      ContainsAt("<p>" + Recycle + " <a href=\"" + a.profile + "\">" + env.mention(a.profile, a.author) + "</a>: </p>" + "\n" + "«", content, "»");
    } else if code == 2 || code == 5 {
      ContainsEnd("<p>" + Recycle + " " + addr + ": </p>" + "\n", content);
    } else if code == 7 || code == 9 {
      var pre := "<p>" + Recycle + " @" + addr + ": ";
      ContainsAt(pre, content, "</p>");
      ContainsGrow(pre + content + "</p>", content, "\n");
    } else if code == 4 {
      ContainsAt("<p><b>" + Recycle + env.headline(a.link, env.mention(a.profile, a.author), a.posted) + ":</b></p>" + "\n",
        BlockQuote(4, Trim(content)), "\n");
    } else {
      DiasporaKeepsContent(a, content);
    }
  }

  /** The Diaspora rendering holds the trimmed content in its block quote. */
  lemma DiasporaKeepsContent(a: Share, content: string)
    ensures Contains(DiasporaShare(a, content), BlockQuote(3, Trim(content)))
  {
    ContainsAt(DiasporaHeadline(a), BlockQuote(3, Trim(content)), "\n");
    ContainsGrow(DiasporaHeadline(a) + BlockQuote(3, Trim(content)) + "\n", BlockQuote(3, Trim(content)), DiasporaSource(a));
  }

  /** A Twitter share rendered for Diaspora is its link alone: the content does not matter. */
  lemma DiasporaTwitterIgnoresContent(a: Share, addr: string, c1: string, c2: string, q: bool, env: ShareEnv)
    requires TwitterLink(a, env)
    ensures ShareCallback(a, addr, c1, q, 3, env) == ShareCallback(a, addr, c2, q, 3, env)
  {
  }

  /**
   * The label `convertUrlForOStatus` shows: the address without its
   * `scheme://` (every occurrence, as `str_replace` removes it), cut to
   * 30 characters and marked with an ellipsis when longer.
   */
  function OStatusLabel(url: string, scheme: string): (r: string)
    ensures |r| <= 31
  {
    var styled := ReplaceAll(url, scheme + "://", "");
    if |styled| > 30 then styled[..30] + "…" else styled
  }

  /** `convertUrlForOStatus`; `scheme` is what `parse_url` finds, "" when it finds none. */
  function ConvertUrlForOStatus(url: string, scheme: string): string
  {
    "<a href=\"" + url + "\" target=\"_blank\">" + OStatusLabel(url, scheme) + "</a>"
  }

  /**
   * An address `scheme://rest` is labelled by `rest`, whole when it has at
   * most 30 characters and as its first 30 and an ellipsis otherwise.
   */
  lemma OStatusLabelOf(scheme: string, rest: string)
    requires forall j :: !OccursAt(rest, scheme + "://", j)
    ensures |rest| <= 30 ==> OStatusLabel(scheme + "://" + rest, scheme) == rest
    ensures |rest| > 30 ==> OStatusLabel(scheme + "://" + rest, scheme) == rest[..30] + "…"
  {
    var pat := scheme + "://";
    OccursAtSlice(pat + rest, pat, 0);
    assert (pat + rest)[0..|pat|] == pat;
    assert (pat + rest)[|pat|..] == rest;
    ReplaceAllAbsent(rest, pat, "");
    assert ReplaceAll(pat + rest, pat, "") == "" + ReplaceAll(rest, pat, "");
  }

  /**
   * `expandLinksCallback` as written: the title is dropped when it is
   * empty, loosely equal to the link, or held by the link as `stristr`
   * decides it.
   */
  function ExpandLinksAsWritten(before: string, link: string, title: string): (r: string)
    ensures r == before + "[url]" + link + "[/url]" || r == before + title + " [url]" + link + "[/url]"
  {
    if title == "" || LooseEquals(link, title) || StristrTruthy(link, title) then before + "[url]" + link + "[/url]"
    else before + title + " [url]" + link + "[/url]"
  }

  /** `expandLinksCallback` with the evidently intended test: the link holds the title in any case. */
  function ExpandLinks(before: string, link: string, title: string): (r: string)
    ensures Contains(r, "[url]" + link + "[/url]")
  {
    var url := "[url]" + link + "[/url]";
    ContainsAt(before, url, "");
    ContainsAt(before + title + " ", url, "");
    assert before + url + "" == before + url;
    assert before + title + " " + url + "" == before + title + " " + url;
    if title == "" || LooseEquals(link, title) || Contains(ToLower(link), ToLower(title)) then before + url
    else before + title + " " + url
  }

  /**
   * The title is written in front of the link exactly when it is not
   * empty, not loosely equal to the link and not held by it in any case.
   */
  lemma ExpandLinksTitle(before: string, link: string, title: string)
    ensures ExpandLinks(before, link, title) == before + ("[url]" + link + "[/url]") <==>
            title == "" || LooseEquals(link, title) || Contains(ToLower(link), ToLower(title))
  {
    if title == link {
      OccursAtSlice(ToLower(link), ToLower(title), 0);
      assert ToLower(link)[0..|ToLower(title)|] == ToLower(title);
      ContainsIff(ToLower(link), ToLower(title));
    }
    var url := "[url]" + link + "[/url]";
    assert |before + title + " " + url| > |before + url|;
  }

  /**
   * A title "0" at the end of a link that has no other "0": `stristr`
   * returns "0", which PHP reads as false, so the title is repeated in front
   * of the link that already holds it. For `p` = "a": `[url=a0]0[/url]`.
   */
  lemma ExpandLinksZeroTitle(before: string, p: string)
    requires p != [] && forall i :: 0 <= i < |p| ==> LowerChar(p[i]) != '0'
    ensures ExpandLinksAsWritten(before, p + "0", "0") == before + "0" + " [url]" + (p + "0") + "[/url]"
    ensures ExpandLinks(before, p + "0", "0") == before + ("[url]" + (p + "0") + "[/url]")
  {
    ZeroTitleFound(p);
    ZeroTitleNotEqual(p);
    assert (p + "0")[|p|..] == "0";
  }

  /**
   * A title that `==` reads as the same number as the link is dropped, by
   * both forms, even where the characters differ: `[url=10]010[/url]`
   * becomes `[url]10[/url]`.
   */
  lemma ExpandLinksNumericTitle(before: string, link: string, title: string)
    requires NumericString(link) && NumericString(title) && DecimalValue(link) == DecimalValue(title)
    ensures ExpandLinksAsWritten(before, link, title) == before + "[url]" + link + "[/url]"
    ensures ExpandLinks(before, link, title) == before + ("[url]" + link + "[/url]")
  {
    ExpandLinksTitle(before, link, title);
  }

  /** A digit string ending in a digit other than 0 has a positive value. */
  lemma PositiveDecimal(d: string)
    requires NumericString(d) && d[|d| - 1] != '0'
    ensures DecimalValue(d) > 0
  {
  }

  /** A link `p` + "0" whose `p` has no "0" is never loosely equal to the title "0". */
  lemma ZeroTitleNotEqual(p: string)
    requires p != [] && forall i :: 0 <= i < |p| ==> LowerChar(p[i]) != '0'
    ensures !LooseEquals(p + "0", "0")
  {
    var link := p + "0";
    if NumericString(link) {
      assert link[..|link| - 1] == p;
      assert LowerChar(p[|p| - 1]) != '0';
      assert NumericString(p) by {
        forall k | 0 <= k < |p| ensures IsDigit(p[k]) {
          assert p[k] == link[k];
        }
      }
      PositiveDecimal(p);
      assert DecimalValue(link) == 10 * DecimalValue(p);
    } else {
      assert link != "0";
    }
  }

  /** In a link `p` + "0" whose `p` has no "0", the title "0" is first found at its last character. */
  lemma ZeroTitleFound(p: string)
    requires forall i :: 0 <= i < |p| ==> LowerChar(p[i]) != '0'
    ensures ToLower("0") == "0" && Find(ToLower(p + "0"), "0", 0) == Some(|p|) && Contains(ToLower(p + "0"), "0")
  {
    LowerUnchanged("0");
    var link := p + "0";
    var low := ToLower(link);
    assert low[|p|] == LowerChar(link[|p|]) == '0';
    assert OccursAt(low, "0", |p|);
    forall i | 0 <= i < |p| ensures !OccursAt(low, "0", i) {
      assert low[i] == LowerChar(link[i]) == LowerChar(p[i]);
    }
    FindExactly(low, "0", 0, |p|);
  }

  /** The protocols a `src` attribute may start with. */
  const SrcProtocols: seq<string> := ["//", "http://", "https://", "redir/", "cid:"]

  /** The protocols an `href` attribute may always start with. */
  const LinkProtocols: seq<string> := ["//", "http://", "https://", "redir/"]

  /** The value starts with one of the prefixes, in any case (the `i` flag of the look-ahead). */
  predicate StartsWithAny(v: string, ps: seq<string>)
  {
    exists k :: 0 <= k < |ps| && IsPrefix(ToLower(ps[k]), ToLower(v))
  }

  /** A `src` value the sanitiser keeps. */
  predicate SrcAllowed(v: string)
  {
    StartsWithAny(v, SrcProtocols)
  }

  /** An `href` value the sanitiser keeps, given the configured `allowed_link_protocols`. */
  predicate HrefAllowed(v: string, configured: seq<string>)
  {
    StartsWithAny(v, configured + LinkProtocols)
  }

  /** A text starts with itself followed by anything. */
  lemma PrefixOfConcat(a: string, b: string)
    ensures IsPrefix(a, a + b)
  {
    assert (a + b)[..|a|] == a;
  }

  /** The `src` attribute after sanitising: kept, or emptied with the value moved aside. */
  function SanitizeSrc(v: string, invalidTitle: string): (r: string)
    ensures SrcAllowed(v) ==> r == "src=\"" + v + "\""
    ensures !SrcAllowed(v) ==> IsPrefix("src=\"\"", r)
  {
    var moved := " data-original-src=\"" + v + "\" class=\"invalid-src\" title=\"" + invalidTitle + "\"";
    PrefixOfConcat("src=\"\"", moved);
    if SrcAllowed(v) then "src=\"" + v + "\"" else "src=\"\"" + moved
  }

  /** The `href` attribute after sanitising: kept, or replaced by a link that does nothing. */
  function SanitizeHref(v: string, configured: seq<string>, invalidTitle: string): (r: string)
    ensures HrefAllowed(v, configured) ==> r == "href=\"" + v + "\""
    ensures !HrefAllowed(v, configured) ==> IsPrefix("href=\"javascript:void(0)\"", r)
  {
    var moved := " data-original-href=\"" + v + "\" class=\"invalid-href\" title=\"" + invalidTitle + "\"";
    PrefixOfConcat("href=\"javascript:void(0)\"", moved);
    if HrefAllowed(v, configured) then "href=\"" + v + "\"" else "href=\"javascript:void(0)\"" + moved
  }

  /** A value is allowed by a list of prefixes joined from two exactly when one of the two allows it. */
  lemma StartsWithAnyConcat(v: string, a: seq<string>, b: seq<string>)
    ensures StartsWithAny(v, a + b) <==> StartsWithAny(v, a) || StartsWithAny(v, b)
  {
    if StartsWithAny(v, a + b) {
      var k :| 0 <= k < |a + b| && IsPrefix(ToLower((a + b)[k]), ToLower(v));
      if k >= |a| {
        assert (a + b)[k] == b[k - |a|];
      }
    }
    if StartsWithAny(v, b) {
      var k :| 0 <= k < |b| && IsPrefix(ToLower(b[k]), ToLower(v));
      assert (a + b)[|a| + k] == b[k];
    }
    if StartsWithAny(v, a) {
      var k :| 0 <= k < |a| && IsPrefix(ToLower(a[k]), ToLower(v));
      assert (a + b)[k] == a[k];
    }
  }

  /** The configured protocols only add to the ones always allowed. */
  lemma HrefConfigured(v: string, configured: seq<string>)
    ensures HrefAllowed(v, configured) <==> StartsWithAny(v, configured) || HrefAllowed(v, [])
  {
    StartsWithAnyConcat(v, configured, LinkProtocols);
    assert [] + LinkProtocols == LinkProtocols;
  }

  /** No prefix whose lower-cased first character differs from the value's allows it. */
  lemma NoneStartsWith(v: string, ps: seq<string>, c: char)
    requires |v| > 0 && LowerChar(v[0]) == c
    requires forall k :: 0 <= k < |ps| ==> |ps[k]| > 0 && LowerChar(ps[k][0]) != c
    ensures !StartsWithAny(v, ps)
  {
    forall k | 0 <= k < |ps| ensures !IsPrefix(ToLower(ps[k]), ToLower(v)) {
      assert ToLower(ps[k])[0] != ToLower(v)[0];
    }
  }

  /** The first characters of the fixed protocols: `/`, `h`, `r` and `c`. */
  lemma ProtocolHeads()
    ensures forall k :: 0 <= k < |SrcProtocols| ==> |SrcProtocols[k]| > 0 && SrcProtocols[k][0] in {'/', 'h', 'r', 'c'}
    ensures forall k :: 0 <= k < |LinkProtocols| ==> |LinkProtocols[k]| > 0 && LinkProtocols[k][0] in {'/', 'h', 'r'}
  {
  }

  /** Without configured protocols, an `href` passes exactly when a `src` would, except for `cid:`. */
  lemma HrefIsSrcWithoutCid(v: string)
    ensures HrefAllowed(v, []) <==> SrcAllowed(v) && !IsPrefix("cid:", ToLower(v))
  {
    assert [] + LinkProtocols == LinkProtocols;
    assert SrcProtocols == LinkProtocols + ["cid:"];
    StartsWithAnyConcat(v, LinkProtocols, ["cid:"]);
    CidAlone(v);
    if IsPrefix("cid:", ToLower(v)) {
      CidNoLink(v);
    }
  }

  /** The list holding `cid:` alone allows exactly the values that start with it. */
  lemma CidAlone(v: string)
    ensures StartsWithAny(v, ["cid:"]) <==> IsPrefix("cid:", ToLower(v))
  {
    LowerUnchanged("cid:");
    assert ["cid:"][0] == "cid:";
  }

  /** A `cid:` value starts with none of the link protocols. */
  lemma CidNoLink(v: string)
    requires IsPrefix("cid:", ToLower(v))
    ensures !StartsWithAny(v, LinkProtocols)
  {
    assert LowerChar(v[0]) == ToLower(v)[0] == 'c';
    ProtocolHeads();
    NoneStartsWith(v, LinkProtocols, 'c');
  }

  /** A `javascript:` address is refused for `src`, and for `href` unless configured. */
  lemma ScriptRefused(v: string)
    requires IsPrefix("javascript:", ToLower(v))
    ensures !SrcAllowed(v) && !HrefAllowed(v, [])
  {
    assert LowerChar(v[0]) == ToLower(v)[0] == 'j';
    ProtocolHeads();
    NoneStartsWith(v, SrcProtocols, 'j');
    assert [] + LinkProtocols == LinkProtocols;
    NoneStartsWith(v, LinkProtocols, 'j');
  }
}
