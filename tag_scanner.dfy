/**
 * The BBCode tag locator (`BBCode::getTagPosition`) and the scoped replace
 * built on it (`BBCode::pregReplaceInTag`).
 */
module TagScanner {
  import opened Strings

  /**
   * Offsets of one located tag pair. `startClose` is one past the `]` of the
   * opening tag, `endClose` one past the `]` of the closing tag, and
   * `startEqual` one past the first `=` found at or after `startOpen`.
   */
  datatype TagPosition = TagPosition(
    startOpen: nat, startClose: nat, startEqual: Option<nat>, endOpen: nat, endClose: nat)

  function OpenTag(name: string): string { "[" + name }
  function CloseTag(name: string): string { "[/" + name + "]" }

  /**
   * Where `[name` is found after `skip` earlier occurrences have been passed
   * over, each new search starting one character after the previous hit.
   */
  function NthOpen(text: string, name: string, skip: nat): (r: Option<nat>)
    ensures r.Some? ==> OccursAt(text, OpenTag(name), r.value)
  {
    if skip == 0 then Find(text, OpenTag(name), 0)
    else match NthOpen(text, name, skip - 1)
      case None => None
      case Some(p) => Find(text, OpenTag(name), p + 1)
  }

  /** The loop cursor of `getTagPosition` after `i` rounds: -1 before the first search. */
  function Cursor(text: string, name: string, i: nat): Option<int>
  {
    if i == 0 then Some(-1)
    else match NthOpen(text, name, i - 1)
      case None => None
      case Some(p) => Some(p)
  }

  /** The tag pair after `skip` occurrences, or false (None) in the three failure cases. */
  function TagAt(text: string, name: string, skip: nat): (r: Option<TagPosition>)
    ensures r.None? <==>
      NthOpen(text, name, skip).None?
      || Find(text, "]", NthOpen(text, name, skip).value).None?
      || Find(text, CloseTag(name), Find(text, "]", NthOpen(text, name, skip).value).value + 1).None?
    ensures r.Some? ==>
      var p := r.value;
      Some(p.startOpen) == NthOpen(text, name, skip)
      && p.startOpen < p.startClose <= p.endOpen < p.endClose <= |text|
      && Find(text, "]", p.startOpen) == Some(p.startClose - 1)
      && (forall j :: p.startClose <= j < p.endOpen ==> !OccursAt(text, CloseTag(name), j))
      && OccursAt(text, CloseTag(name), p.endOpen)
      && p.endClose == p.endOpen + |CloseTag(name)|
      && (p.startEqual.Some? <==> exists j :: p.startOpen <= j && OccursAt(text, "=", j))
      && (p.startEqual.Some? ==> Find(text, "=", p.startOpen) == Some(p.startEqual.value - 1))
  {
    match NthOpen(text, name, skip)
    case None => None
    case Some(open) => EqualAfterIff(text, open); PairFirstClose(text, name, open); Located(text, name, skip)
  }

  /** The tag pair after `skip` occurrences, computed: what `TagAt` states facts about. */
  function Located(text: string, name: string, skip: nat): Option<TagPosition>
  {
    match NthOpen(text, name, skip)
    case None => None
    case Some(open) => PairFrom(text, name, open)
  }

  /** The closing tag of a pair is the first `[/name]` after the opening tag's `]`. */
  lemma PairFirstClose(text: string, name: string, open: nat)
    ensures PairFrom(text, name, open).Some? ==>
      var p := PairFrom(text, name, open).value;
      forall j :: p.startClose <= j < p.endOpen ==> !OccursAt(text, CloseTag(name), j)
  {
    match Find(text, "]", open)
    case None =>
    case Some(c) => FindFirst(text, CloseTag(name), c + 1);
  }

  /** The tag pair whose opening bracket is at `open`. */
  function PairFrom(text: string, name: string, open: nat): Option<TagPosition>
  {
    match Find(text, "]", open)
    case None => None
    case Some(c) =>
      match Find(text, CloseTag(name), c + 1)
      case None => None
      case Some(e) =>
        Some(TagPosition(open, c + 1, EqualAfter(text, open), e, e + |CloseTag(name)|))
  }

  /** One past the first `=` at or after `open`, if any. */
  function EqualAfter(text: string, open: nat): Option<nat>
  {
    match Find(text, "=", open)
    case None => None
    case Some(q) => Some(q + 1)
  }

  lemma EqualAfterIff(text: string, open: nat)
    ensures EqualAfter(text, open).Some? <==> exists j :: open <= j && OccursAt(text, "=", j)
    ensures EqualAfter(text, open).Some? ==> Find(text, "=", open) == Some(EqualAfter(text, open).value - 1)
  {
    FindFirst(text, "=", open);
  }

  /** `getTagPosition($text, $name, $occurrences)`: a negative count is read as zero. */
  function TagPositionOf(text: string, name: string, occurrences: int): Option<TagPosition>
  {
    TagAt(text, name, if occurrences < 0 then 0 else occurrences)
  }

  /** The for-loop cursor of `getTagPosition`, proved to compute `TagPositionOf`. */
  method GetTagPosition(text: string, name: string, occurrences: int) returns (r: Option<TagPosition>)
    ensures r == TagPositionOf(text, name, occurrences)
    ensures occurrences < 0 ==> r == TagAt(text, name, 0)
  {
    var skip := if occurrences < 0 then 0 else occurrences;
    var startOpen: Option<int> := Some(-1);
    var i := 0;
    while i <= skip
      invariant 0 <= i <= skip + 1
      invariant startOpen == Cursor(text, name, i)
    {
      if startOpen.Some? {
        match Find(text, OpenTag(name), startOpen.value + 1) {
          case None => startOpen := None;
          case Some(p) => startOpen := Some(p);
        }
      }
      i := i + 1;
    }
    assert startOpen == Cursor(text, name, skip + 1);
    if startOpen.None? {
      return None;
    }
    var open: nat := startOpen.value;
    assert NthOpen(text, name, skip) == Some(open);
    r := LocatePair(text, name, open);
  }

  /** The tail of `getTagPosition`, once the opening bracket is found. */
  method LocatePair(text: string, name: string, open: nat) returns (r: Option<TagPosition>)
    ensures r == PairFrom(text, name, open)
  {
    var startEqual := Find(text, "=", open);
    var startClose := Find(text, "]", open);
    if startClose.None? {
      return None;
    }
    var close := startClose.value + 1;
    var endOpen := Find(text, CloseTag(name), close);
    if endOpen.None? {
      return None;
    }
    r := Some(TagPosition(open, close,
      if startEqual.None? then None else Some(startEqual.value + 1),
      endOpen.value, endOpen.value + |CloseTag(name)|));
  }

  /**
   * The `equal` offset is set by any `=` at or after the opening bracket, even
   * one that lies past the tag's `]`.
   */
  lemma EqualSignPastClose()
    ensures var r := TagAt("[b]=[/b]", "b", 0);
      r.Some? && r.value.startClose == 3 && r.value.startEqual == Some(4)
  {
    var t := "[b]=[/b]";
    assert t[0] == '[' && t[1] == 'b' && t[2] == ']' && t[3] == '=';
    assert t[4] == '[' && t[5] == '/' && t[6] == 'b' && t[7] == ']';
    assert "]"[0] == ']' && "="[0] == '=' && "[/b]"[0] == '[';
    assert NthOpen(t, "b", 0) == Some(0);
    assert !OccursAt(t, "]", 0) && !OccursAt(t, "]", 1) && OccursAt(t, "]", 2);
    assert Find(t, "]", 0) == Some(2);
    assert !OccursAt(t, "[/b]", 3) && OccursAt(t, "[/b]", 4);
    assert Find(t, "[/b]", 3) == Some(4);
    assert !OccursAt(t, "=", 0) && !OccursAt(t, "=", 1) && !OccursAt(t, "=", 2) && OccursAt(t, "=", 3);
    assert Find(t, "=", 2) == Some(3);
    assert Find(t, "=", 0) == Some(3);
  }

  /** One round of `pregReplaceInTag`: only the located span is rewritten. */
  function RewriteSpan(text: string, p: TagPosition, rewrite: string -> string): (r: string)
    requires p.startOpen <= p.endClose <= |text|
    ensures |r| == |text| - (p.endClose - p.startOpen) + |rewrite(text[p.startOpen..p.endClose])|
    ensures r[..p.startOpen] == text[..p.startOpen]
    ensures r[|r| - (|text| - p.endClose)..] == text[p.endClose..]
  {
    text[..p.startOpen] + rewrite(text[p.startOpen..p.endClose]) + text[p.endClose..]
  }

  /**
   * The text `pregReplaceInTag` leaves after `round` rounds have been done:
   * round k rewrites the tag pair found after skipping k occurrences, and at
   * most 1000 rounds run.
   */
  function ReplaceFrom(text: string, name: string, round: nat, rewrite: string -> string): string
    decreases 1000 - round
  {
    match Located(text, name, round)
    case None => text
    case Some(p) =>
      if round >= 1000 then text
      else ReplaceFrom(RewriteSpan(text, p, rewrite), name, round + 1, rewrite)
  }

  /** One round of `pregReplaceInTag` moves on to the next occurrence in the rewritten text. */
  lemma ReplaceFromStep(text: string, name: string, round: nat, rewrite: string -> string)
    requires round < 1000 && TagAt(text, name, round).Some?
    ensures ReplaceFrom(text, name, round, rewrite) ==
            ReplaceFrom(RewriteSpan(text, TagAt(text, name, round).value, rewrite), name, round + 1, rewrite)
  {
  }

  /** `pregReplaceInTag` with the PCRE replace given as a function on the tag span. */
  method PregReplaceInTag(rewrite: string -> string, name: string, text: string)
    returns (r: string, rounds: nat)
    ensures r == ReplaceFrom(text, name, 0, rewrite)
    ensures rounds <= 1000
    ensures rounds < 1000 ==> TagAt(r, name, rounds).None?
  {
    var occurrences := 0;
    r := text;
    var pos := GetTagPosition(r, name, occurrences);
    while pos.Some? && occurrences < 1000
      invariant occurrences <= 1000
      invariant pos == TagAt(r, name, occurrences)
      invariant ReplaceFrom(r, name, occurrences, rewrite) == ReplaceFrom(text, name, 0, rewrite)
      decreases 1000 - occurrences
    {
      r, pos := ReplaceRound(rewrite, name, r, occurrences, pos.value);
      occurrences := occurrences + 1;
    }
    rounds := occurrences;
  }

  /** One round of the loop of `pregReplaceInTag`: rewrite the span, then look for the next occurrence. */
  method ReplaceRound(rewrite: string -> string, name: string, text: string, occurrences: nat, p: TagPosition)
    returns (r: string, next: Option<TagPosition>)
    requires occurrences < 1000 && TagAt(text, name, occurrences) == Some(p)
    ensures next == TagAt(r, name, occurrences + 1)
    ensures ReplaceFrom(r, name, occurrences + 1, rewrite) == ReplaceFrom(text, name, occurrences, rewrite)
  {
    ReplaceFromStep(text, name, occurrences, rewrite);
    r := RewriteSpan(text, p, rewrite);
    next := GetTagPosition(r, name, occurrences + 1);
  }

  /** A text without the opening tag is returned by `pregReplaceInTag` untouched. */
  lemma NoTagNoChange(text: string, name: string, rewrite: string -> string)
    requires !Contains(text, OpenTag(name))
    ensures ReplaceFrom(text, name, 0, rewrite) == text
  {
  }
}
