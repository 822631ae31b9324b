/**
 * `BBCode::limitBodySize`: the import size limit, applied to the text of a
 * body but not to the embedded `data:` images in it, which are kept whole.
 * The loop walks the same `[img…]…[/img]` rounds as the image extraction.
 */
module BodyLimit {
  import opened Strings
  import opened ImageTags

  /** The text kept so far and `$textlen`, the amount of it that counts against the limit. */
  datatype Limited = Limited(body: string, textlen: int)

  /**
   * Appending `text` that counts against the limit: all of it while it
   * fits, else as much as still fits, after which the count is `maxlen`.
   */
  function LimitText(acc: Limited, text: string, maxlen: int): Limited
  {
    if acc.textlen + |text| > maxlen then
      if acc.textlen < maxlen then Limited(acc.body + Take(text, maxlen - acc.textlen), maxlen)
      else acc
    else Limited(acc.body + text, acc.textlen + |text|)
  }

  /**
   * One round of the loop: an embedded image counts only the text before
   * it and is then copied whole; any other tag counts with its text.
   */
  function LimitRound(acc: Limited, p: Piece, maxlen: int): Limited
  {
    if p.embedded then
      var kept := LimitText(acc, p.head, maxlen);
      Limited(kept.body + p.tag, kept.textlen)
    else LimitText(acc, p.head + p.tag, maxlen)
  }

  /** The rounds `ps` applied in order, from an empty new body. */
  function LimitPieces(ps: seq<Piece>, maxlen: int): Limited
  {
    if ps == [] then Limited("", 0)
    else LimitRound(LimitPieces(ps[..|ps| - 1], maxlen), ps[|ps| - 1], maxlen)
  }

  /** What `limitBodySize` returns when the configured `max_import_size` is `maxlen`. */
  function LimitBody(body: string, maxlen: int): string
  {
    if maxlen != 0 && |body| > maxlen then
      var s := Pieces(body);
      LimitText(LimitPieces(s.pieces, maxlen), s.tail, maxlen).body
    else body
  }

  /** The total length of the embedded image tags among `ps`. */
  function EmbeddedLen(ps: seq<Piece>): nat
  {
    if ps == [] then 0
    else EmbeddedLen(ps[..|ps| - 1]) + (if ps[|ps| - 1].embedded then |ps[|ps| - 1].tag| else 0)
  }

  /** The rounds applied one more time: the equation the loop relies on. */
  lemma LimitSnoc(ps: seq<Piece>, p: Piece, maxlen: int)
    ensures LimitPieces(ps + [p], maxlen) == LimitRound(LimitPieces(ps, maxlen), p, maxlen)
    ensures EmbeddedLen(ps + [p]) == EmbeddedLen(ps) + (if p.embedded then |p.tag| else 0)
  {
    assert (ps + [p])[..|ps|] == ps;
  }

  /** Appending counted text keeps the count within the limit and grows the body by what it counts. */
  lemma LimitTextCounts(acc: Limited, text: string, maxlen: int)
    requires 0 <= acc.textlen <= maxlen
    ensures var r := LimitText(acc, text, maxlen);
      acc.textlen <= r.textlen <= maxlen
      && |r.body| == |acc.body| + (r.textlen - acc.textlen)
  {
  }

  /** Counted text is only ever appended. */
  lemma LimitTextAppends(acc: Limited, text: string, maxlen: int)
    ensures IsPrefix(acc.body, LimitText(acc, text, maxlen).body)
  {
  }

  /** The count never passes the limit, and the new body is the counted text plus the kept images. */
  lemma {:induction false} LimitPiecesCounts(ps: seq<Piece>, maxlen: int)
    requires maxlen >= 0
    ensures var r := LimitPieces(ps, maxlen);
      0 <= r.textlen <= maxlen && |r.body| == r.textlen + EmbeddedLen(ps)
  {
    if ps != [] {
      var init := ps[..|ps| - 1];
      var p := ps[|ps| - 1];
      LimitPiecesCounts(init, maxlen);
      var acc := LimitPieces(init, maxlen);
      if p.embedded {
        LimitTextCounts(acc, p.head, maxlen);
      } else {
        LimitTextCounts(acc, p.head + p.tag, maxlen);
      }
    }
  }

  /**
   * The text that counts against the limit is at most `maxlen` long: the
   * result is never longer than `maxlen` plus the embedded images.
   */
  lemma LimitBodyBound(body: string, maxlen: int)
    requires maxlen > 0
    ensures |LimitBody(body, maxlen)| <= maxlen + EmbeddedLen(Pieces(body).pieces)
  {
    var s := Pieces(body);
    LimitPiecesCounts(s.pieces, maxlen);
    LimitTextCounts(LimitPieces(s.pieces, maxlen), s.tail, maxlen);
  }

  /** A body within the limit, or with no limit configured, is returned as it is. */
  lemma WithinLimitUnchanged(body: string, maxlen: int)
    requires maxlen == 0 || |body| <= maxlen
    ensures LimitBody(body, maxlen) == body
  {
  }

  /** One round only appends. */
  lemma AppendsOnly(acc: Limited, p: Piece, maxlen: int)
    ensures IsPrefix(acc.body, LimitRound(acc, p, maxlen).body)
  {
    var kept := LimitText(acc, if p.embedded then p.head else p.head + p.tag, maxlen);
    LimitTextAppends(acc, if p.embedded then p.head else p.head + p.tag, maxlen);
    if p.embedded {
      assert (kept.body + p.tag)[..|acc.body|] == kept.body[..|acc.body|];
    }
  }

  /** Later rounds only append to the new body. */
  lemma {:induction false} LimitPrefix(ps: seq<Piece>, k: nat, maxlen: int)
    requires k <= |ps|
    ensures IsPrefix(LimitPieces(ps[..k], maxlen).body, LimitPieces(ps, maxlen).body)
    decreases |ps|
  {
    if k < |ps| {
      var init := ps[..|ps| - 1];
      assert init[..k] == ps[..k];
      LimitPrefix(init, k, maxlen);
      AppendsOnly(LimitPieces(init, maxlen), ps[|ps| - 1], maxlen);
      PrefixTrans(LimitPieces(ps[..k], maxlen).body, LimitPieces(init, maxlen).body, LimitPieces(ps, maxlen).body);
    } else {
      assert ps[..k] == ps;
    }
  }

  lemma PrefixTrans(a: string, b: string, c: string)
    requires IsPrefix(a, b) && IsPrefix(b, c)
    ensures IsPrefix(a, c)
  {
    assert c[..|b|][..|a|] == c[..|a|];
  }

  /** An embedded image of round `k` ends the new body after that round. */
  lemma EmbeddedAtEnd(ps: seq<Piece>, k: nat, maxlen: int)
    requires k < |ps| && ps[k].embedded
    ensures var b := LimitPieces(ps[..k + 1], maxlen).body;
      |ps[k].tag| <= |b| && OccursAt(b, ps[k].tag, |b| - |ps[k].tag|)
  {
    var pre := ps[..k + 1];
    assert pre[..k] == ps[..k] && pre[k] == ps[k];
    var kept := LimitText(LimitPieces(ps[..k], maxlen), ps[k].head, maxlen).body;
    OccursAtSlice(kept + ps[k].tag, ps[k].tag, |kept|);
  }

  /** The embedded image of round `k` is still in the final body. */
  lemma EmbeddedKept(ps: seq<Piece>, tail: string, k: nat, maxlen: int)
    requires k < |ps| && ps[k].embedded
    ensures exists j :: OccursAt(LimitText(LimitPieces(ps, maxlen), tail, maxlen).body, ps[k].tag, j)
  {
    var tag := ps[k].tag;
    var a := LimitPieces(ps[..k + 1], maxlen).body;
    var b := LimitPieces(ps, maxlen).body;
    var r := LimitText(LimitPieces(ps, maxlen), tail, maxlen).body;
    EmbeddedAtEnd(ps, k, maxlen);
    LimitPrefix(ps, k + 1, maxlen);
    LimitTextAppends(LimitPieces(ps, maxlen), tail, maxlen);
    PrefixTrans(a, b, r);
    OccursInPrefix(r, tag, |a| - |tag|, |a|);
  }

  /** Every embedded `data:` image tag of the body is kept whole in the truncated body. */
  lemma EmbeddedImagesKept(body: string, maxlen: int, k: nat)
    requires maxlen != 0 && |body| > maxlen
    requires k < |Pieces(body).pieces| && Pieces(body).pieces[k].embedded
    ensures exists j :: OccursAt(LimitBody(body, maxlen), Pieces(body).pieces[k].tag, j)
  {
    var s := Pieces(body);
    EmbeddedKept(s.pieces, s.tail, k, maxlen);
    var r := LimitText(LimitPieces(s.pieces, maxlen), s.tail, maxlen).body;
    assert r == LimitBody(body, maxlen);
    var j :| OccursAt(r, s.pieces[k].tag, j);
  }

  /** `substr($a . $b, 0, $n)` in terms of the two parts. */
  lemma TakeAppend(a: string, b: string, n: nat)
    ensures Take(a + b, n) == if n <= |a| then Take(a, n) else a + Take(b, n - |a|)
  {
    if n <= |a| {
      assert (a + b)[..n] == a[..n];
    } else if n <= |a| + |b| {
      assert (a + b)[..n] == a + b[..n - |a|];
    }
  }

  /** Counting text that follows the first `maxlen` characters of `j` keeps the first `maxlen` of both. */
  lemma TruncateText(j: string, x: string, maxlen: nat)
    ensures LimitText(Limited(Take(j, maxlen), |Take(j, maxlen)|), x, maxlen)
      == Limited(Take(j + x, maxlen), |Take(j + x, maxlen)|)
  {
    TakeAppend(j, x, maxlen);
  }

  /** Without embedded images, the rounds keep exactly the first `maxlen` characters. */
  lemma {:induction false} PlainRoundsTruncate(ps: seq<Piece>, maxlen: nat)
    requires forall i :: 0 <= i < |ps| ==> !ps[i].embedded
    ensures LimitPieces(ps, maxlen) == Limited(Take(Joined(ps), maxlen), |Take(Joined(ps), maxlen)|)
  {
    if ps != [] {
      var init := ps[..|ps| - 1];
      var p := ps[|ps| - 1];
      assert forall i :: 0 <= i < |init| ==> init[i] == ps[i];
      assert !p.embedded;
      PlainRoundsTruncate(init, maxlen);
      assert init + [p] == ps;
      JoinedSnoc(init, p);
      TruncateText(Joined(init), p.head + p.tag, maxlen);
      assert Joined(ps) == Joined(init) + (p.head + p.tag);
    }
  }

  /**
   * A body with no embedded image is simply cut to its first `maxlen`
   * characters once it is over the limit.
   */
  lemma NoEmbeddedIsTruncation(body: string, maxlen: nat)
    requires forall i :: 0 <= i < |Pieces(body).pieces| ==> !Pieces(body).pieces[i].embedded
    ensures LimitBody(body, maxlen) == if maxlen == 0 then body else Take(body, maxlen)
  {
    var s := Pieces(body);
    PlainRoundsTruncate(s.pieces, maxlen);
    PiecesJoin(body);
    TruncateText(Joined(s.pieces), s.tail, maxlen);
  }

  /** The text before and including the tag of a round is the beginning of the rest of the body. */
  lemma RoundIsPrefix(orig: string)
    requires NextPiece(orig).Some?
    ensures var p := NextPiece(orig).value.0;
      IsPrefix(p.head + p.tag, orig)
  {
    var (p, rest) := NextPiece(orig).value;
    NextPieceJoin(orig);
    assert orig == (p.head + p.tag) + rest;
  }

  /**
   * One round of the loop body, on the accumulated `$new_body` and
   * `$textlen`, cutting from the rest of the body `orig` as the source does.
   */
  method LimitStep(acc: Limited, orig: string, p: Piece, maxlen: int) returns (r: Limited)
    requires IsPrefix(p.head + p.tag, orig)
    ensures r == LimitRound(acc, p, maxlen)
  {
    var newBody := acc.body;
    var textlen := acc.textlen;
    var counted := if p.embedded then |p.head| else |p.head| + |p.tag|;
    if textlen + counted > maxlen {
      if textlen < maxlen {
        TakeInPrefix(p.head + p.tag, orig, maxlen - textlen);
        HeadCut(p, maxlen - textlen);
        newBody := newBody + Take(orig, maxlen - textlen);
        textlen := maxlen;
      }
    } else {
      newBody := newBody + (if p.embedded then p.head else p.head + p.tag);
      textlen := textlen + counted;
    }
    if p.embedded {
      newBody := newBody + p.tag;
    }
    r := Limited(newBody, textlen);
  }

  /** In an embedded round only the text before `[img` can be cut. */
  lemma HeadCut(p: Piece, n: nat)
    ensures n < |p.head| ==> Take(p.head + p.tag, n) == Take(p.head, n)
  {
    if n < |p.head| {
      TakeAppend(p.head, p.tag, n);
    }
  }

  /** `limitBodySize($body)` with `max_import_size` given as `maxlen`. */
  method LimitBodySize(body: string, maxlen: int) returns (r: string)
    ensures r == LimitBody(body, maxlen)
    ensures maxlen == 0 || |body| <= maxlen ==> r == body
  {
    if !(maxlen != 0 && |body| > maxlen) {
      return body;
    }
    var orig := body;
    var acc := Limited("", 0);
    ghost var done: seq<Piece> := [];
    var step := ScanStep(orig);
    while step.Some?
      invariant step == NextPiece(orig)
      invariant Pieces(body) == Scan(done + Pieces(orig).pieces, Pieces(orig).tail)
      invariant acc == LimitPieces(done, maxlen)
      decreases |orig|
    {
      var (p, rest) := step.value;
      RoundIsPrefix(orig);
      acc := LimitStep(acc, orig, p, maxlen);
      ScanRound(body, done, orig);
      LimitSnoc(done, p, maxlen);
      done := done + [p];
      orig := rest;
      step := ScanStep(orig);
    }
    assert Pieces(orig) == Scan([], orig);
    assert done + [] == done;
    r := LimitTail(acc, orig, maxlen);
  }

  /** The tail after the last image, appended as the source does after the loop. */
  method LimitTail(acc: Limited, orig: string, maxlen: int) returns (r: string)
    ensures r == LimitText(acc, orig, maxlen).body
  {
    r := acc.body;
    if acc.textlen + |orig| > maxlen {
      if acc.textlen < maxlen {
        r := r + Take(orig, maxlen - acc.textlen);
      }
    } else {
      r := r + orig;
    }
  }
}
