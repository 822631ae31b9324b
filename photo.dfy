/**
 * The photo-link parsing of the photo model: stripping picture extensions,
 * reading a photo's resource id (its GUID) out of a local link, and
 * finding the local photos a post embeds so that their permissions can
 * follow the post's.
 *
 * The list of supported image types, the link normalisation, the site's
 * base address and the database lookups are parameters.
 */
module Photo {
  import opened Strings
  import opened LazyRegex
  import opened LineRegex

  /** `str_replace($pat, '', $s)`; PHP skips an empty search string. */
  function Remove(s: string, pat: string): (r: string)
    ensures |r| <= |s|
  {
    if pat == "" then s
    else
      ReplaceAllNoLonger(s, pat, "");
      ReplaceAll(s, pat, "")
  }

  /** Removing a string that does not occur changes nothing. */
  lemma RemoveIdle(s: string, pat: string)
    requires forall j :: !OccursAt(s, pat, j)
    ensures Remove(s, pat) == s
  {
    if pat != "" {
      ReplaceAllAbsent(s, pat, "");
    }
  }

  /** Removing a string that does occur makes the text strictly shorter. */
  lemma RemoveShrinks(s: string, pat: string, j: int)
    requires pat != "" && OccursAt(s, pat, j)
    ensures |Remove(s, pat)| < |s|
  {
    ReplaceAllShrinks(s, pat, "", j);
  }

  /** `str_replace($pats, '', $s)`: each search string in turn, over the whole result of the previous one. */
  function RemoveAll(s: string, pats: seq<string>): (r: string)
    ensures |r| <= |s|
    decreases |pats|
  {
    if pats == [] then s else Remove(RemoveAll(s, pats[..|pats| - 1]), pats[|pats| - 1])
  }

  /** None of the search strings occurs. */
  ghost predicate NoneOccurs(s: string, pats: seq<string>)
  {
    forall k, j :: 0 <= k < |pats| ==> !OccursAt(s, pats[k], j)
  }

  /** A text holding none of the search strings comes back unchanged. */
  lemma {:induction false} RemoveAllIdle(s: string, pats: seq<string>)
    requires NoneOccurs(s, pats)
    ensures RemoveAll(s, pats) == s
    decreases |pats|
  {
    if pats != [] {
      var init := pats[..|pats| - 1];
      assert NoneOccurs(s, init) by {
        forall k, j | 0 <= k < |init| ensures !OccursAt(s, init[k], j) {
          assert init[k] == pats[k];
        }
      }
      RemoveAllIdle(s, init);
      RemoveIdle(s, pats[|pats| - 1]);
    }
  }

  /** The extensions `stripExtension` always removes. */
  const FixedExtensions: seq<string> := [".jpg", ".png", ".gif"]

  /** `"." . $e` for every supported type. */
  function Dotted(types: seq<string>): (r: seq<string>)
    ensures |r| == |types| && forall k :: 0 <= k < |r| ==> r[k] == "." + types[k]
  {
    seq(|types|, k requires 0 <= k < |types| => "." + types[k])
  }

  /** What `stripExtension` returns. */
  function Stripped(name: string, types: seq<string>): (r: string)
    ensures |r| <= |name|
  {
    RemoveAll(RemoveAll(name, FixedExtensions), Dotted(types))
  }

  /** A link without any of the extensions is returned unchanged. */
  lemma StrippedIdle(name: string, types: seq<string>)
    requires NoneOccurs(name, FixedExtensions) && NoneOccurs(name, Dotted(types))
    ensures Stripped(name, types) == name
  {
    RemoveAllIdle(name, FixedExtensions);
    RemoveAllIdle(name, Dotted(types));
  }

  /** `stripExtension`: the fixed extensions, then `.` and each supported type. */
  method StripExtension(name: string, types: seq<string>) returns (r: string)
    ensures r == Stripped(name, types)
    ensures |r| <= |name|
  {
    r := RemoveAll(name, FixedExtensions);
    ghost var first := r;
    for i := 0 to |types|
      invariant r == RemoveAll(first, Dotted(types)[..i])
    {
      assert Dotted(types)[..i + 1][..i] == Dotted(types)[..i];
      r := Remove(r, "." + types[i]);
    }
    assert Dotted(types)[..|types|] == Dotted(types);
  }

  /** `substr($g, -2, 1)`: the second character from the end, or the whole of a shorter string. */
  function SecondToLast(g: string): string
  {
    if |g| >= 2 then [g[|g| - 2]] else g
  }

  /** `substr($g, -1, 1)`. */
  function LastOf(g: string): string
  {
    if |g| >= 1 then [g[|g| - 1]] else ""
  }

  /** `intval` of a string of at most one character. */
  function DigitValue(c: string): nat
  {
    if |c| == 1 && IsDigit(c[0]) then c[0] as int - '0' as int else 0
  }

  /** The scale suffix a stored photo's name ends with: `-` and a digit from 1 to 9. */
  predicate ScaleSuffixed(g: string)
  {
    |g| >= 2 && g[|g| - 2] == '-' && '1' <= g[|g| - 1] <= '9'
  }

  /** The tail checks of `getGUID` on the stripped link. */
  function GuidOf(g: string): (r: string)
    ensures ScaleSuffixed(g) ==> r == g[..|g| - 2]
    ensures !ScaleSuffixed(g) ==> r == ""
  {
    if SecondToLast(g) != "-" then ""
    else if DigitValue(LastOf(g)) == 0 then ""
    else g[..|g| - 2]
  }

  /** A resource id followed by a scale suffix gives back the resource id. */
  lemma GuidOfScaled(guid: string, d: char)
    requires '1' <= d <= '9'
    ensures GuidOf(guid + ['-', d]) == guid
  {
    var g := guid + ['-', d];
    assert g[|g| - 2] == '-' && g[|g| - 1] == d;
    assert g[..|g| - 2] == guid;
  }

  /**
   * `getGUID`: the normalised link without the normalised base address and
   * `/photo/`, stripped of its extension, must end in a scale suffix,
   * which is then cut off.
   */
  function GetGUID(name: string, base: string, normalise: string -> string, types: seq<string>): (r: string)
    ensures var g := Stripped(RemoveAll(normalise(name), [normalise(base), "/photo/"]), types);
      (ScaleSuffixed(g) ==> r == g[..|g| - 2]) && (!ScaleSuffixed(g) ==> r == "")
  {
    GuidOf(Stripped(RemoveAll(normalise(name), [normalise(base), "/photo/"]), types))
  }

  /**
   * `isLocal`: a link without a GUID (or with the GUID "0", which PHP
   * takes for empty) is never local and nothing is looked up; otherwise
   * `stored` answers whether a photo has that resource id.
   */
  function IsLocal(name: string, base: string, normalise: string -> string, types: seq<string>, stored: string -> bool): (r: bool)
    ensures IsEmptyString(GetGUID(name, base, normalise, types)) ==> !r
    ensures !IsEmptyString(GetGUID(name, base, normalise, types)) ==> r == stored(GetGUID(name, base, normalise, types))
  {
    var guid := GetGUID(name, base, normalise, types);
    if IsEmptyString(guid) then false else stored(guid)
  }

  /** The second replacement: `[img=address]description[/img]` becomes `[img]address[/img]`. */
  function UnlabelImages(s: string): string
  {
    ReplaceMatches(s, true, "[img=", ["]", "[/img]"], g => "[img]" + Group(g, 0) + "[/img]", 0)
  }

  /** The `[img]` tags of a text: `\[img\](.*?)\[\/img\]` without the `s` flag. */
  function ImageAddresses(s: string): (r: seq<string>)
    ensures forall k :: 0 <= k < |r| ==> '\n' !in r[k]
  {
    LineMatchesOneLine(s, "[img]", "[/img]", 0);
    LineMatches(s, "[img]", "[/img]", 0)
  }

  /** A single `[img]` tag whose address is on one line yields that address. */
  lemma ImageOfTag(a: string)
    requires '\n' !in a && !Contains(a, "[/img]")
    ensures ImageAddresses("[img]" + a + "[/img]") == [a]
  {
    var close := "[/img]";
    var s := "[img]" + a + close;
    assert close[1..] == "/img]";
    assert IsPrefix("[img]", s) && s[5..] == a + close by {
      assert s[..5] == "[img]";
    }
    LineMatchOfTag(s, "[img]", a, close);
  }

  /** An address that runs over a line break is not found. */
  lemma ImageAcrossLines(a: string)
    requires '\n' in a && '[' !in a
    ensures ImageAddresses("[img]" + a + "[/img]") == []
  {
    var open, close := "[img]", "[/img]";
    var s := open + a + close;
    assert close[1..] == "/img]";
    assert IsPrefix(open, s) && s[5..] == a + close by {
      assert s[..5] == open;
    }
    FirstCharAbsent(a, close);
    assert Find(s, open, 1).None? by {
      OpenOnlyAtStart(a);
    }
    LineMatchAcross(s, open, a, close);
  }

  /** Without a `[` in `a`, the opening literal of `[img]a[/img]` occurs only at the start. */
  lemma OpenOnlyAtStart(a: string)
    requires '[' !in a
    ensures Find("[img]" + a + "[/img]", "[img]", 1).None?
  {
    var open := "[img]";
    var s := open + a + "[/img]";
    var n := |a|;
    assert forall j :: 1 <= j < 5 + n ==> s[j] != '[' by {
      forall j | 1 <= j < 5 + n
        ensures s[j] != '['
      {
        if j >= 5 {
          assert s[j] == a[j - 5];
        }
      }
    }
    FindSkips(s, open, 1, 5 + n);
    assert s[6 + n] == '/';
    assert !OccursAt(s, open, 5 + n);
    assert !OccursAt(s, open, 6 + n);
    assert Find(s, open, 7 + n).None?;
  }

  /** The image addresses of the body after the two simplifying replacements. */
  function Images(body: string): (r: seq<string>)
    ensures forall k :: 0 <= k < |r| ==> '\n' !in r[k]
  {
    ImageAddresses(UnlabelImages(UnsizeImages(body, 0)))
  }

  /** The needle `setPermissionFromBody` looks for in an image address. */
  function PhotoPath(base: string): string
  {
    base + "/photo/"
  }

  /**
   * The resource id in a local image address: the part after the last
   * `/`, up to its first `-`. None when the address does not hold the
   * base address and `/photo/` (in any case) or when that part is empty.
   */
  function ResourceId(image: string, base: string): (r: Option<string>)
    ensures r.Some? ==> r.value != [] && '/' !in r.value && '-' !in r.value
    ensures r.Some? ==> StristrTruthy(image, PhotoPath(base))
  {
    if !StristrTruthy(image, PhotoPath(base)) then None
    else match FindLastChar(image, '/')
      case None => None
      case Some(slash) =>
        var uri := image[slash + 1..];
        assert forall k :: 0 <= k < |uri| ==> uri[k] == image[slash + 1 + k];
        IdPart(uri)
  }

  /** The resource id in the last path segment: up to its first `-`, which must be there. */
  function IdPart(uri: string): (r: Option<string>)
    ensures r.Some? ==> r.value != [] && '-' !in r.value && |r.value| <= |uri| && r.value == uri[..|r.value|]
  {
    if '-' !in uri then None
    else
      var n := FirstDash(uri);
      if n == 0 then None else Some(uri[..n])
  }

  /** `strpos($uri, '-')` when the dash is there. */
  function FirstDash(s: string): (i: nat)
    requires '-' in s
    ensures i < |s| && s[i] == '-' && '-' !in s[..i]
  {
    if s[0] == '-' then 0 else 1 + FirstDash(s[1..])
  }

  /**
   * A link in the form the site stores, base address, `/photo/`, resource
   * id, `-` and the rest, gives back its resource id.
   */
  lemma ResourceIdOfLink(base: string, id: string, rest: string)
    requires id != [] && '/' !in id && '-' !in id && '/' !in rest
    requires !IsEmptyString(base + "/photo/" + id + "-" + rest)
    ensures ResourceId(base + "/photo/" + id + "-" + rest, base) == Some(id)
  {
    var pre := PhotoPath(base);
    var image := pre + id + "-" + rest;
    assert IsPrefix(pre, image) by {
      assert image[..|pre|] == pre;
    }
    ContainsStart(image, pre);
    IdAfterPath(pre, id, rest);
  }

  /** After a path ending in `/`, the last segment is `id`, `-` and the rest. */
  lemma IdAfterPath(pre: string, id: string, rest: string)
    requires |pre| > 0 && pre[|pre| - 1] == '/'
    requires id != [] && '/' !in id && '-' !in id && '/' !in rest
    ensures FindLastChar(pre + id + "-" + rest, '/') == Some(|pre| - 1)
    ensures IdPart((pre + id + "-" + rest)[|pre|..]) == Some(id)
  {
    var image := pre + id + "-" + rest;
    var uri := image[|pre|..];
    assert uri == id + "-" + rest;
    LastSlash(image, |pre| - 1);
    FirstDashAt(uri, |id|);
    assert uri[..|id|] == id;
  }

  /** The first dash is the one at `i` when none comes before it. */
  lemma FirstDashAt(s: string, i: nat)
    requires i < |s| && s[i] == '-' && '-' !in s[..i]
    ensures '-' in s && FirstDash(s) == i
    decreases i
  {
    if i > 0 {
      assert s[0] == s[..i][0];
      assert s[1..][..i - 1] == s[..i][1..];
      FirstDashAt(s[1..], i - 1);
    }
  }

  /** A text starting with the needle holds it, in any case, with a truthy rest. */
  lemma ContainsStart(s: string, pre: string)
    requires IsPrefix(pre, s) && !IsEmptyString(s) && |pre| > 0
    ensures StristrTruthy(s, pre)
  {
    assert OccursAt(ToLower(s), ToLower(pre), 0) by {
      forall m | 0 <= m < |pre| ensures ToLower(s)[m] == ToLower(pre)[m] {
        assert s[m] == s[..|pre|][m];
      }
    }
    assert s[0..] == s;
  }

  /** The last `/` of the address is the one at `slash` when none follows. */
  lemma LastSlash(image: string, slash: nat)
    requires slash < |image| && image[slash] == '/' && '/' !in image[slash + 1..]
    ensures FindLastChar(image, '/') == Some(slash)
  {
    forall j | slash < j < |image| ensures image[j] != '/' {
      assert image[j] == image[slash + 1..][j - slash - 1];
    }
  }

  /**
   * `setPermissionFromBody`: None is the `false` a body without a
   * `[img]…[/img]` gets; otherwise the resource ids of the local photos
   * the post's owner owns (`owned`), in order, whose permissions are set.
   */
  function PermissionTargets(body: string, base: string, owned: string -> bool): (r: Option<seq<string>>)
    ensures r.None? <==> Images(body) == []
  {
    var images := Images(body);
    if images == [] then None else Some(Targets(images, base, owned))
  }

  /** The images the loop updates: local, with a resource id, owned. */
  function Targets(images: seq<string>, base: string, owned: string -> bool): (r: seq<string>)
    ensures |r| <= |images|
    ensures forall k :: 0 <= k < |r| ==> r[k] != [] && '/' !in r[k] && '-' !in r[k] && owned(r[k])
    decreases |images|
  {
    if images == [] then []
    else
      var init := Targets(images[..|images| - 1], base, owned);
      match ResourceId(images[|images| - 1], base)
      case Some(id) => if owned(id) then init + [id] else init
      case None => init
  }

  /** The `foreach` over the images, updating each owned local photo. */
  method SetPermissionFromBody(body: string, base: string, owned: string -> bool) returns (found: bool, updated: seq<string>)
    ensures found <==> PermissionTargets(body, base, owned).Some?
    ensures found ==> updated == PermissionTargets(body, base, owned).value
    ensures !found ==> updated == []
  {
    var images := Images(body);
    if images == [] {
      return false, [];
    }
    updated := [];
    for i := 0 to |images|
      invariant updated == Targets(images[..i], base, owned)
    {
      assert images[..i + 1][..i] == images[..i];
      var id := ResourceId(images[i], base);
      if id.Some? && owned(id.value) {
        updated := updated + [id.value];
      }
    }
    assert images[..|images|] == images;
    found := true;
  }
}
