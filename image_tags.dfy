/**
 * The `[img…]…[/img]` scanner shared by `BBCode::extractImagesFromItemBody`
 * and `BBCode::limitBodySize`, the extraction of embedded `data:` images into
 * `[$#saved_imageN#$]` placeholders, and the interpolation that puts
 * `<img>` elements back in their place.
 */
module ImageTags {
  import opened Strings

  /**
   * One tag as the scanning loop sees it: `start` is where `[img` is,
   * `close` is one past the first `]` counted from `start`, and `endRel` is
   * where `[/img]` is, counted from `start`. The `]` and the `[/img]` are
   * looked for independently, so the `]` may be the one of `[/img]` itself.
   */
  datatype ImgScan = ImgScan(start: nat, close: nat, endRel: nat)

  /** The absolute index of the tag's `[/img]`. */
  function ImgEnd(sc: ImgScan): nat { sc.start + sc.endRel }

  /** The three `strpos` calls at the head of each loop round; None when the loop stops. */
  function ScanImg(orig: string): (r: Option<ImgScan>)
    ensures r.Some? ==> 0 < r.value.close && ImgEnd(r.value) + 6 <= |orig|
  {
    match Find(orig, "[img", 0)
    case None => None
    case Some(st) =>
      match Find(orig, "]", st)
      case None => None
      case Some(c) =>
        match Find(orig, "[/img]", st)
        case None => None
        case Some(e) => Some(ImgScan(st, c + 1 - st, e - st))
  }

  /**
   * `!strcmp(substr($orig_body, $img_start + $img_st_close, 5), 'data:')`:
   * the five characters after the `]` are `data:` (see `SubstrData`).
   */
  predicate IsEmbedded(orig: string, sc: ImgScan)
  {
    OccursAt(orig, "data:", sc.start + sc.close)
  }

  /** PHP's five-character `substr` equals `data:` exactly when `data:` occurs there. */
  lemma SubstrData(s: string, p: nat)
    ensures Substr(s, p, 5) == "data:" <==> OccursAt(s, "data:", p)
  {
    if p < |s| && p + 5 > |s| {
      assert |Substr(s, p, 5)| < 5;
    }
  }

  /**
   * One round of the scanning loop: the text before `[img`, the tag from
   * `[img` up to and including `[/img]`, where its first `]` ends (counted
   * from the tag's start), whether a `data:` URL follows that `]`, and the
   * text that would be saved as the embedded image.
   */
  datatype Piece = Piece(head: string, tag: string, close: nat, embedded: bool, saved: string)

  /** The first `]` of the tag lies before its `[/img]`. */
  predicate Closed(p: Piece)
  {
    p.close + 6 <= |p.tag|
  }

  /** A saved image starts with `data:`. */
  predicate IsDataUrl(image: string)
  {
    OccursAt(image, "data:", 0)
  }

  /** What every round of the loop finds. */
  predicate ValidPiece(p: Piece)
  {
    |p.tag| >= 6 && OccursAt(p.tag, "[img", 0) && OccursAt(p.tag, "[/img]", |p.tag| - 6)
    && 0 < p.close <= |p.tag| && p.tag[p.close - 1] == ']'
    && (Closed(p) && p.embedded ==> p.saved == p.tag[p.close..|p.tag| - 6] && IsDataUrl(p.saved))
  }

  /** The facts the three searches establish about a found tag. */
  predicate ScanFacts(orig: string, sc: ImgScan)
  {
    0 < sc.close <= sc.endRel + 6 && ImgEnd(sc) + 6 <= |orig|
    && OccursAt(orig, "[img", sc.start)
    && OccursAt(orig, "]", sc.start + sc.close - 1)
    && OccursAt(orig, "[/img]", ImgEnd(sc))
  }

  /** The piece cut out of `orig` for the tag `sc`. */
  function PieceOf(orig: string, sc: ImgScan): Piece
    requires ImgEnd(sc) + 6 <= |orig|
  {
    Piece(orig[..sc.start], orig[sc.start..ImgEnd(sc) + 6], sc.close, IsEmbedded(orig, sc),
      Substr(orig, sc.start + sc.close, ImgEnd(sc) - (sc.start + sc.close)))
  }

  /** The round of the scanning loop on the rest `orig` of the body; None when the loop stops. */
  function NextPiece(orig: string): (r: Option<(Piece, string)>)
    ensures r.Some? ==> |r.value.1| < |orig|
  {
    match ScanImg(orig)
    case None => None
    case Some(sc) => Some((PieceOf(orig, sc), orig[ImgEnd(sc) + 6..]))
  }

  /** Where the scanned tag's pieces are in the body. */
  lemma ScanImgFacts(orig: string)
    requires ScanImg(orig).Some?
    ensures ScanFacts(orig, ScanImg(orig).value)
  {
    var sc := ScanImg(orig).value;
    FindFirst(orig, "]", sc.start);
    assert "[/img]"[5] == ']';
    assert OccursAt(orig, "]", ImgEnd(sc) + 5);
  }

  /** The cut-out tag starts with `[img` and ends with `[/img]`. */
  lemma TagShape(orig: string, sc: ImgScan)
    requires ScanFacts(orig, sc)
    ensures var p := PieceOf(orig, sc);
      |p.tag| >= 6 && OccursAt(p.tag, "[img", 0) && OccursAt(p.tag, "[/img]", |p.tag| - 6)
  {
    OccursInSlice(orig, "[img", sc.start, sc.start, ImgEnd(sc) + 6);
    OccursInSlice(orig, "[/img]", ImgEnd(sc), sc.start, ImgEnd(sc) + 6);
  }

  /** The tag's first `]` is inside the cut-out tag. */
  lemma TagCloseShape(orig: string, sc: ImgScan)
    requires ScanFacts(orig, sc)
    ensures var p := PieceOf(orig, sc);
      0 < p.close <= |p.tag| && p.tag[p.close - 1] == ']'
  {
    assert "]"[0] == ']';
  }

  /** In a closed tag the saved text runs from after `]` to `[/img]` and starts with `data:`. */
  lemma SavedShape(orig: string, sc: ImgScan)
    requires ScanFacts(orig, sc) && sc.close <= sc.endRel && IsEmbedded(orig, sc)
    ensures var p := PieceOf(orig, sc);
      p.saved == p.tag[p.close..|p.tag| - 6] && OccursAt(p.saved, "data:", 0)
  {
    var q := sc.start + sc.close;
    var p := PieceOf(orig, sc);
    assert "[/img]"[0] == '[';
    OccursAtChars(orig, "data:", q, ImgEnd(sc));
    assert '[' !in "data:";
    assert p.saved == orig[q..ImgEnd(sc)];
    OccursInSlice(orig, "data:", q, q, ImgEnd(sc));
  }

  lemma PieceOfValid(orig: string, sc: ImgScan)
    requires ScanFacts(orig, sc)
    ensures ValidPiece(PieceOf(orig, sc))
  {
    TagShape(orig, sc);
    TagCloseShape(orig, sc);
    var p := PieceOf(orig, sc);
    if Closed(p) && p.embedded {
      SavedShape(orig, sc);
    }
  }

  /** A round cuts the rest of the body into the text before the tag, the tag and what follows. */
  lemma NextPieceJoin(orig: string)
    requires NextPiece(orig).Some?
    ensures orig == NextPiece(orig).value.0.head + NextPiece(orig).value.0.tag + NextPiece(orig).value.1
  {
    var sc := ScanImg(orig).value;
    var e := ImgEnd(sc) + 6;
    assert orig == orig[..sc.start] + orig[sc.start..e] + orig[e..];
  }

  /** The tag a round cuts out is well formed. */
  lemma NextPieceValid(orig: string)
    requires NextPiece(orig).Some?
    ensures ValidPiece(NextPiece(orig).value.0)
  {
    ScanImgFacts(orig);
    PieceOfValid(orig, ScanImg(orig).value);
  }

  /** The body cut into the rounds of the scanning loop and the text after the last tag. */
  datatype Scan = Scan(pieces: seq<Piece>, tail: string)

  predicate AllValid(ps: seq<Piece>)
  {
    forall i :: 0 <= i < |ps| ==> ValidPiece(ps[i])
  }

  function Joined(ps: seq<Piece>): string
  {
    if ps == [] then "" else ps[0].head + ps[0].tag + Joined(ps[1..])
  }

  /** The rounds of the scanning loop on `orig`, front to back. */
  function Pieces(orig: string): Scan
    decreases |orig|
  {
    var next := NextPiece(orig);
    if next.None? then Scan([], orig)
    else
      var t := Pieces(next.value.1);
      Scan([next.value.0] + t.pieces, t.tail)
  }

  /** The rounds and the tail put back together give the body again. */
  lemma {:induction false} PiecesJoin(orig: string)
    ensures Joined(Pieces(orig).pieces) + Pieces(orig).tail == orig
    decreases |orig|
  {
    if NextPiece(orig).Some? {
      var (p, rest) := NextPiece(orig).value;
      NextPieceJoin(orig);
      PiecesJoin(rest);
      PiecesStep(orig);
      var ps := [p] + Pieces(rest).pieces;
      assert ps[0] == p && ps[1..] == Pieces(rest).pieces;
      assert Joined(ps) == p.head + p.tag + Joined(Pieces(rest).pieces);
    }
  }

  /** Every round of the loop cuts out a well-formed tag. */
  lemma {:induction false} PiecesValid(orig: string)
    ensures AllValid(Pieces(orig).pieces)
    decreases |orig|
  {
    var next := NextPiece(orig);
    if next.Some? {
      var t := Pieces(next.value.1);
      NextPieceValid(orig);
      PiecesValid(next.value.1);
      var ps := [next.value.0] + t.pieces;
      forall i | 0 <= i < |ps| ensures ValidPiece(ps[i]) {
        if i > 0 {
          assert ps[i] == t.pieces[i - 1];
        }
      }
    }
  }

  /** One round of the scan, as an equation on `Pieces`. */
  lemma PiecesStep(orig: string)
    requires NextPiece(orig).Some?
    ensures var (p, rest) := NextPiece(orig).value;
      Pieces(orig) == Scan([p] + Pieces(rest).pieces, Pieces(rest).tail)
  {
  }

  /** The marker left where the k-th embedded image was. */
  function Placeholder(k: nat): string
  {
    "[$#saved_image" + NatToDecimal(k) + "#$]"
  }

  datatype Extracted = Extracted(body: string, images: seq<string>)

  /**
   * Extraction over the rounds `ps`, as the loop accumulates it: the last
   * round appends its text, and an embedded image is numbered by how many
   * were saved before it.
   */
  function ExtractPieces(ps: seq<Piece>): (r: Extracted)
    ensures |r.images| <= |ps|
  {
    if ps == [] then Extracted("", [])
    else
      var e := ExtractPieces(ps[..|ps| - 1]);
      var p := ps[|ps| - 1];
      if p.embedded then Extracted(e.body + p.head + Placeholder(|e.images|), e.images + [p.saved])
      else Extracted(e.body + p.head + p.tag, e.images)
  }

  /** What `extractImagesFromItemBody` returns for `body`. */
  function Extract(body: string): Extracted
  {
    var s := Pieces(body);
    var e := ExtractPieces(s.pieces);
    Extracted(e.body + s.tail, e.images)
  }

  /**
   * `strpos(substr($s, $k), $pat)`: the search in the rest of the text, whose
   * answer is counted from `k`.
   */
  method StrposInRest(s: string, pat: string, k: nat) returns (r: Option<nat>)
    requires k <= |s|
    ensures r.None? <==> Find(s, pat, k).None?
    ensures r.Some? ==> k + r.value == Find(s, pat, k).value
  {
    r := Find(Drop(s, k), pat, 0);
    FindInSuffix(s, pat, k, 0);
  }

  /** The body of one loop round: the `data:` test and the two `substr` cuts. */
  method CutPiece(orig: string, sc: ImgScan) returns (p: Piece)
    requires ImgEnd(sc) + 6 <= |orig|
    ensures p == PieceOf(orig, sc)
  {
    var imgEnd := sc.start + sc.endRel;
    var embedded := Substr(orig, sc.start + sc.close, 5) == "data:";
    SubstrData(orig, sc.start + sc.close);
    assert embedded == IsEmbedded(orig, sc);
    var saved := Substr(orig, sc.start + sc.close, imgEnd - (sc.start + sc.close));
    p := Piece(orig[..sc.start], orig[sc.start..imgEnd + 6], sc.close, embedded, saved);
  }

  /** The loop head of the source: the three `strpos` calls, then the cut of the rest of the body. */
  method ScanStep(orig: string) returns (r: Option<(Piece, string)>)
    ensures r == NextPiece(orig)
  {
    var start := Find(orig, "[img", 0);
    if start.None? {
      return None;
    }
    var imgStart := start.value;
    var stClose := StrposInRest(orig, "]", imgStart);
    var imgEnd := StrposInRest(orig, "[/img]", imgStart);
    if stClose.None? || imgEnd.None? {
      return None;
    }
    var sc := ImgScan(imgStart, stClose.value + 1, imgEnd.value);
    assert ScanImg(orig) == Some(sc);
    var piece := CutPiece(orig, sc);
    r := Some((piece, orig[ImgEnd(sc) + 6..]));
  }

  /** `extractImagesFromItemBody`: the scanning loop over `$orig_body`. */
  method ExtractImagesFromItemBody(body: string) returns (r: Extracted)
    ensures r == Extract(body)
  {
    var orig := body;
    var newBody := "";
    var saved: seq<string> := [];
    ghost var done: seq<Piece> := [];
    var step := ScanStep(orig);
    while step.Some?
      invariant step == NextPiece(orig)
      invariant Pieces(body) == Scan(done + Pieces(orig).pieces, Pieces(orig).tail)
      invariant ExtractPieces(done) == Extracted(newBody, saved)
      decreases |orig|
    {
      var (p, rest) := step.value;
      if p.embedded {
        newBody := newBody + p.head + Placeholder(|saved|);
        saved := saved + [p.saved];
      } else {
        newBody := newBody + p.head + p.tag;
      }
      ScanRound(body, done, orig);
      ExtractSnoc(done, p);
      done := done + [p];
      orig := rest;
      step := ScanStep(orig);
    }
    assert Pieces(orig) == Scan([], orig);
    assert done + [] == done;
    r := Extracted(newBody + orig, saved);
  }

  /** The scan invariant of the loop survives one round. */
  lemma ScanRound(body: string, done: seq<Piece>, orig: string)
    requires NextPiece(orig).Some?
    requires Pieces(body) == Scan(done + Pieces(orig).pieces, Pieces(orig).tail)
    ensures var (p, rest) := NextPiece(orig).value;
      Pieces(body) == Scan(done + [p] + Pieces(rest).pieces, Pieces(rest).tail)
  {
    var (p, rest) := NextPiece(orig).value;
    PiecesStep(orig);
    assert done + [p] + Pieces(rest).pieces == done + ([p] + Pieces(rest).pieces);
  }

  /** Extraction over one more round appends that round's output. */
  lemma ExtractSnoc(ps: seq<Piece>, p: Piece)
    ensures var e := ExtractPieces(ps);
      ExtractPieces(ps + [p]) == if p.embedded
        then Extracted(e.body + p.head + Placeholder(|e.images|), e.images + [p.saved])
        else Extracted(e.body + p.head + p.tag, e.images)
  {
    assert (ps + [p])[..|ps|] == ps;
  }

  /** A body with no `[img` comes back unchanged, with no saved images. */
  lemma NoImgTagUnchanged(body: string)
    requires !Contains(body, "[img")
    ensures Extract(body) == Extracted(body, [])
  {
  }

  /** Joining one more round appends its text and tag. */
  lemma {:induction false} JoinedSnoc(ps: seq<Piece>, p: Piece)
    ensures Joined(ps + [p]) == Joined(ps) + p.head + p.tag
  {
    if ps != [] {
      assert (ps + [p])[0] == ps[0];
      assert (ps + [p])[1..] == ps[1..] + [p];
      JoinedSnoc(ps[1..], p);
    }
  }

  /** When no image is embedded, every `[img]…[/img]` tag is copied verbatim. */
  lemma {:induction false} NoEmbeddedKeepsPieces(ps: seq<Piece>)
    requires ExtractPieces(ps).images == []
    ensures ExtractPieces(ps).body == Joined(ps)
  {
    if ps != [] {
      var init := ps[..|ps| - 1];
      var p := ps[|ps| - 1];
      NoEmbeddedKeepsPieces(init);
      JoinedSnoc(init, p);
      assert init + [p] == ps;
    }
  }

  /** A body from which no image is saved comes back unchanged. */
  lemma NoEmbeddedImageKeepsBody(body: string)
    requires Extract(body).images == []
    ensures Extract(body).body == body
  {
    NoEmbeddedKeepsPieces(Pieces(body).pieces);
    PiecesJoin(body);
  }

  /** Every tag of the body has its first `]` before its `[/img]`. */
  predicate ImgTagsClosed(body: string)
  {
    AllClosed(Pieces(body).pieces)
  }

  predicate AllClosed(ps: seq<Piece>)
  {
    forall i :: 0 <= i < |ps| ==> Closed(ps[i])
  }

  lemma {:induction false} SavedPiecesAreData(ps: seq<Piece>)
    requires AllValid(ps) && AllClosed(ps)
    ensures forall k :: 0 <= k < |ExtractPieces(ps).images| ==> IsDataUrl(ExtractPieces(ps).images[k])
  {
    if ps != [] {
      var init := ps[..|ps| - 1];
      var p := ps[|ps| - 1];
      assert ValidPiece(p) && Closed(p);
      SavedPiecesAreData(init);
    }
  }

  /** Every saved image starts with `data:`, provided each tag is closed before its `[/img]`. */
  lemma SavedImagesAreData(body: string)
    requires ImgTagsClosed(body)
    ensures forall k :: 0 <= k < |Extract(body).images| ==> IsDataUrl(Extract(body).images[k])
  {
    PiecesValid(body);
    SavedPiecesAreData(Pieces(body).pieces);
  }

  /** The placeholder of every saved image is in the new body. */
  lemma {:induction false} PlaceholderInPieces(ps: seq<Piece>, k: nat)
    requires k < |ExtractPieces(ps).images|
    ensures exists j :: OccursAt(ExtractPieces(ps).body, Placeholder(k), j)
  {
    var init := ps[..|ps| - 1];
    var p := ps[|ps| - 1];
    var e := ExtractPieces(init);
    var r := ExtractPieces(ps);
    if k < |e.images| {
      PlaceholderInPieces(init, k);
      var j :| OccursAt(e.body, Placeholder(k), j);
      if p.embedded {
        OccursAtPrefix(e.body, p.head + Placeholder(|e.images|), Placeholder(k), j);
        assert r.body == e.body + (p.head + Placeholder(|e.images|));
      } else {
        OccursAtPrefix(e.body, p.head + p.tag, Placeholder(k), j);
        assert r.body == e.body + (p.head + p.tag);
      }
    } else {
      assert p.embedded && k == |e.images|;
      var a := e.body + p.head;
      OccursAtSlice(a + Placeholder(k), Placeholder(k), |a|);
      assert r.body == a + Placeholder(k);
    }
  }

  /** Saved images are numbered 0..n-1 and each one's placeholder is in the new body. */
  lemma PlaceholdersInBody(body: string, k: nat)
    requires k < |Extract(body).images|
    ensures Contains(Extract(body).body, Placeholder(k))
  {
    var e := ExtractPieces(Pieces(body).pieces);
    PlaceholderInPieces(Pieces(body).pieces, k);
    var j :| OccursAt(e.body, Placeholder(k), j);
    OccursAtPrefix(e.body, Pieces(body).tail, Placeholder(k), j);
    ContainsIff(Extract(body).body, Placeholder(k));
  }

  /** The `<img>` element that takes the place of a saved image. */
  function ImageHtml(image: string, proxify: string -> string, alt: string): string
  {
    "<img src=\"" + proxify(image) + "\" alt=\"" + alt + "\" />"
  }

  /** The body after placeholders `k`, `k + 1`, … have been replaced in turn. */
  function InterpolateFrom(body: string, images: seq<string>, k: nat, proxify: string -> string, alt: string): string
    decreases |images| - k
  {
    if k >= |images| then body
    else InterpolateFrom(ReplaceAll(body, Placeholder(k), ImageHtml(images[k], proxify, alt)),
      images, k + 1, proxify, alt)
  }

  /**
   * `interpolateSavedImagesIntoItemBody`: the `foreach` over the saved images.
   * `proxify` stands for `ProxyUtils::proxifyUrl` and `alt` for the
   * translated "Image/photo".
   */
  method InterpolateSavedImages(body: string, images: seq<string>, proxify: string -> string, alt: string)
    returns (r: string)
    ensures r == InterpolateFrom(body, images, 0, proxify, alt)
  {
    r := body;
    for cnt := 0 to |images|
      invariant InterpolateFrom(r, images, cnt, proxify, alt) == InterpolateFrom(body, images, 0, proxify, alt)
    {
      r := ReplaceAll(r, Placeholder(cnt), ImageHtml(images[cnt], proxify, alt));
    }
  }

  /** A body that holds no placeholder marker is left as it is by interpolation. */
  lemma {:induction false} InterpolateWithoutMarkers(
    body: string, images: seq<string>, k: nat, proxify: string -> string, alt: string)
    requires forall j :: !OccursAt(body, "[$#saved_image", j)
    ensures InterpolateFrom(body, images, k, proxify, alt) == body
    decreases |images| - k
  {
    if k < |images| {
      forall j ensures !OccursAt(body, Placeholder(k), j) {
        if OccursAt(body, Placeholder(k), j) {
          OccursAtSlice(body, Placeholder(k), j);
          assert body[j..j + 14] == Placeholder(k)[..14];
          OccursAtSlice(body, "[$#saved_image", j);
        }
      }
      ReplaceAllAbsent(body, Placeholder(k), ImageHtml(images[k], proxify, alt));
      InterpolateWithoutMarkers(body, images, k + 1, proxify, alt);
    }
  }

  /** A placeholder opens with `[` and holds no `<`, the first character of every `<img>` element. */
  lemma PlaceholderEdges(k: nat)
    ensures Placeholder(k)[0] == '[' && '<' !in Placeholder(k)
  {
    var d := NatToDecimal(k);
    assert Placeholder(k) == "[$#saved_image" + d + "#$]";
    forall i | 0 <= i < |Placeholder(k)| ensures Placeholder(k)[i] != '<' {
      if 14 <= i < 14 + |d| {
        assert Placeholder(k)[i] == d[i - 14];
      }
    }
  }

  /** The `<img>` element has no `[` when neither the proxied address nor the alternative text has one. */
  lemma ImageHtmlEdges(image: string, proxify: string -> string, alt: string)
    requires '[' !in proxify(image) && '[' !in alt
    ensures var h := ImageHtml(image, proxify, alt); |h| > 0 && h[0] == '<' && '[' !in h
  {
  }

  /**
   * Later rounds of the interpolation do not bring back a marker that is
   * gone, as long as the `<img>` elements hold no `[`.
   */
  lemma {:induction false} InterpolateKeepsAbsent(
    body: string, images: seq<string>, k: nat, proxify: string -> string, alt: string, pat: string)
    requires |pat| > 0 && pat[0] == '[' && '<' !in pat && '[' !in alt
    requires forall i :: k <= i < |images| ==> '[' !in proxify(images[i])
    requires forall j :: !OccursAt(body, pat, j)
    ensures forall j :: !OccursAt(InterpolateFrom(body, images, k, proxify, alt), pat, j)
    decreases |images| - k
  {
    if k < |images| {
      var h := ImageHtml(images[k], proxify, alt);
      ImageHtmlEdges(images[k], proxify, alt);
      PlaceholderEdges(k);
      ReplaceAllAvoids(body, Placeholder(k), h, pat);
      InterpolateKeepsAbsent(ReplaceAll(body, Placeholder(k), h), images, k + 1, proxify, alt, pat);
    }
  }

  /**
   * Interpolation replaces the placeholder of every saved image from `k` on:
   * none is left in the result, as long as neither the proxied addresses nor
   * the alternative text hold a `[`.
   */
  lemma {:induction false} InterpolateReplacesAll(
    body: string, images: seq<string>, k: nat, proxify: string -> string, alt: string)
    requires '[' !in alt && forall i :: k <= i < |images| ==> '[' !in proxify(images[i])
    ensures forall i, j :: k <= i < |images| ==> !OccursAt(InterpolateFrom(body, images, k, proxify, alt), Placeholder(i), j)
    decreases |images| - k
  {
    if k < |images| {
      var h := ImageHtml(images[k], proxify, alt);
      var next := ReplaceAll(body, Placeholder(k), h);
      ImageHtmlEdges(images[k], proxify, alt);
      PlaceholderEdges(k);
      ReplaceAllAvoids(body, Placeholder(k), h, Placeholder(k));
      InterpolateKeepsAbsent(next, images, k + 1, proxify, alt, Placeholder(k));
      InterpolateReplacesAll(next, images, k + 1, proxify, alt);
    }
  }
}
