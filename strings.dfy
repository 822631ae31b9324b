/**
 * PHP string primitives the BBCode kernel and the model validators are built
 * on: `strpos`, `strrpos`, `str_replace`, `trim`, `strtolower` and `substr`,
 * written out over `seq<char>` with their PHP edge cases.
 */
module Strings {

  datatype Option<T> = None | Some(value: T)

  /** `pat` occurs in `s` starting at index `i`. */
  predicate OccursAt(s: string, pat: string, i: int)
  {
    0 <= i && i + |pat| <= |s| && forall m :: 0 <= m < |pat| ==> s[i + m] == pat[m]
  }

  /** An occurrence is the same thing as an equal slice. */
  lemma OccursAtSlice(s: string, pat: string, i: int)
    ensures OccursAt(s, pat, i) <==> 0 <= i && i + |pat| <= |s| && s[i..i + |pat|] == pat
  {
    if 0 <= i && i + |pat| <= |s| {
      var t := s[i..i + |pat|];
      assert forall m :: 0 <= m < |t| ==> t[m] == s[i + m];
    }
  }

  /** An occurrence inside a slice is still an occurrence in the slice, shifted. */
  lemma OccursInSlice(s: string, pat: string, i: int, lo: int, hi: int)
    requires OccursAt(s, pat, i) && 0 <= lo <= i && i + |pat| <= hi <= |s|
    ensures OccursAt(s[lo..hi], pat, i - lo)
  {
    var t := s[lo..hi];
    forall m | 0 <= m < |pat| ensures t[(i - lo) + m] == pat[m] {
      assert t[(i - lo) + m] == s[i + m];
    }
  }

  /** A character inside an occurrence is one of the pattern's characters. */
  lemma OccursAtChars(s: string, pat: string, i: int, e: int)
    requires OccursAt(s, pat, i) && 0 <= e < |s|
    ensures i <= e < i + |pat| ==> s[e] in pat
  {
    if i <= e < i + |pat| {
      assert s[i + (e - i)] == pat[e - i];
    }
  }

  /** An occurrence in a prefix of `s` is an occurrence in `s`. */
  lemma OccursInPrefix(s: string, pat: string, j: int, n: int)
    requires 0 <= n <= |s| && OccursAt(s[..n], pat, j)
    ensures OccursAt(s, pat, j)
  {
    OccursAtSlice(s[..n], pat, j);
    assert s[..n][j..j + |pat|] == s[j..j + |pat|];
    OccursAtSlice(s, pat, j);
  }

  /** PHP `strpos($s, $pat, $from)`: the first occurrence at or after `from`, or false (None). */
  function Find(s: string, pat: string, from: nat): (r: Option<nat>)
    ensures r.Some? ==> from <= r.value && OccursAt(s, pat, r.value)
    decreases |s| - from
  {
    if from + |pat| > |s| then None
    else if OccursAt(s, pat, from) then Some(from)
    else Find(s, pat, from + 1)
  }

  /** `Find` returns the earliest occurrence, and None only when there is none. */
  lemma {:induction false} FindFirst(s: string, pat: string, from: nat)
    ensures Find(s, pat, from).Some? ==> forall j :: from <= j < Find(s, pat, from).value ==> !OccursAt(s, pat, j)
    ensures Find(s, pat, from).None? ==> forall j :: from <= j ==> !OccursAt(s, pat, j)
    decreases |s| - from
  {
    if from + |pat| <= |s| && !OccursAt(s, pat, from) {
      FindFirst(s, pat, from + 1);
    }
  }

  /** Searching a suffix `substr($s, $k)` finds what searching `s` from `k` finds, `k` places earlier. */
  lemma {:induction false} FindInSuffix(s: string, pat: string, k: nat, j: nat)
    requires k <= |s|
    ensures Find(s[k..], pat, j).None? <==> Find(s, pat, k + j).None?
    ensures Find(s[k..], pat, j).Some? ==> Find(s[k..], pat, j).value + k == Find(s, pat, k + j).value
    decreases |s| - k - j
  {
    var t := s[k..];
    if k + j + |pat| <= |s| {
      if !OccursAt(t, pat, j) {
        FindInSuffix(s, pat, k, j + 1);
      }
    }
  }

  /** `strpos($s, $pat) !== false` */
  predicate Contains(s: string, pat: string)
  {
    Find(s, pat, 0).Some?
  }

  lemma ContainsIff(s: string, pat: string)
    ensures Contains(s, pat) <==> exists j :: OccursAt(s, pat, j)
  {
    FindFirst(s, pat, 0);
    if exists j :: OccursAt(s, pat, j) {
      var j :| OccursAt(s, pat, j);
      assert 0 <= j;
    }
  }

  /** PHP `strrpos($s, $c)` for a one-character needle. */
  function FindLastChar(s: string, c: char): (r: Option<nat>)
    ensures r.Some? ==> r.value < |s| && s[r.value] == c
    ensures r.Some? ==> forall j :: r.value < j < |s| ==> s[j] != c
    ensures r.None? ==> forall j :: 0 <= j < |s| ==> s[j] != c
  {
    if |s| == 0 then None
    else if s[|s| - 1] == c then Some(|s| - 1)
    else FindLastChar(s[..|s| - 1], c)
  }

  /**
   * PHP `str_replace($pat, $rep, $s)` for a single pair: occurrences are
   * replaced left to right and never overlap.
   */
  function ReplaceAll(s: string, pat: string, rep: string): (r: string)
    requires |pat| > 0
    decreases |s|
  {
    if |s| < |pat| then s
    else if OccursAt(s, pat, 0) then rep + ReplaceAll(s[|pat|..], pat, rep)
    else [s[0]] + ReplaceAll(s[1..], pat, rep)
  }

  /** A text without the search string comes back from `str_replace` unchanged. */
  lemma {:induction false} ReplaceAllAbsent(s: string, pat: string, rep: string)
    requires |pat| > 0
    requires forall j :: !OccursAt(s, pat, j)
    ensures ReplaceAll(s, pat, rep) == s
    decreases |s|
  {
    if |s| >= |pat| {
      assert !OccursAt(s, pat, 0);
      forall j ensures !OccursAt(s[1..], pat, j) {
        if OccursAt(s[1..], pat, j) {
          OccursAtSlice(s[1..], pat, j);
          assert s[1..][j..j + |pat|] == s[j + 1..j + 1 + |pat|];
          OccursAtSlice(s, pat, j + 1);
        }
      }
      ReplaceAllAbsent(s[1..], pat, rep);
    }
  }

  /** An occurrence after the first character is an occurrence one place further in the whole. */
  lemma OccursAtDrop1(s: string, pat: string, j: int)
    requires |s| > 0
    ensures OccursAt(s[1..], pat, j) ==> OccursAt(s, pat, j + 1)
  {
    if OccursAt(s[1..], pat, j) {
      OccursAtShift([s[0]], s[1..], pat, j);
      assert [s[0]] + s[1..] == s;
    }
  }

  /** A single occurrence, after which the search string does not occur, is the only one replaced. */
  lemma {:induction false} ReplaceAllSingle(a: string, pat: string, b: string, rep: string)
    requires |pat| > 0
    requires forall j :: j < |a| ==> !OccursAt(a + pat + b, pat, j)
    requires forall j :: !OccursAt(b, pat, j)
    ensures ReplaceAll(a + pat + b, pat, rep) == a + rep + b
    decreases |a|
  {
    var s := a + pat + b;
    if a == [] {
      assert s == pat + b;
      OccursAtSlice(s, pat, 0);
      assert s[..|pat|] == pat && s[|pat|..] == b;
      ReplaceAllAbsent(b, pat, rep);
    } else {
      assert !OccursAt(s, pat, 0);
      assert s[1..] == a[1..] + pat + b;
      forall j | j < |a[1..]| ensures !OccursAt(a[1..] + pat + b, pat, j) {
        OccursAtDrop1(s, pat, j);
      }
      ReplaceAllSingle(a[1..], pat, b, rep);
      assert a + rep + b == [a[0]] + (a[1..] + rep + b);
    }
  }

  /** A replacement never makes the text longer when it is no longer than the search string. */
  lemma {:induction false} ReplaceAllNoLonger(s: string, pat: string, rep: string)
    requires 0 < |pat| && |rep| <= |pat|
    ensures |ReplaceAll(s, pat, rep)| <= |s|
    decreases |s|
  {
    if |s| >= |pat| {
      if OccursAt(s, pat, 0) {
        ReplaceAllNoLonger(s[|pat|..], pat, rep);
      } else {
        ReplaceAllNoLonger(s[1..], pat, rep);
      }
    }
  }

  /**
   * When the replacement is strictly shorter, any occurrence makes the text
   * strictly shorter; so `str_replace` leaves the text unchanged exactly when
   * the search string does not occur.
   */
  lemma {:induction false} ReplaceAllShrinks(s: string, pat: string, rep: string, j: int)
    requires 0 < |pat| && |rep| < |pat|
    requires OccursAt(s, pat, j)
    ensures |ReplaceAll(s, pat, rep)| < |s|
    decreases |s|
  {
    if OccursAt(s, pat, 0) {
      ReplaceAllNoLonger(s[|pat|..], pat, rep);
    } else {
      assert j > 0;
      OccursAtSlice(s, pat, j);
      assert s[1..][j - 1..j - 1 + |pat|] == s[j..j + |pat|];
      OccursAtSlice(s[1..], pat, j - 1);
      ReplaceAllShrinks(s[1..], pat, rep, j - 1);
    }
  }

  /** `ltrim($s, $cs)` for a predicate on characters given as a set. */
  function TrimLeft(s: string, cs: set<char>): (r: string)
    ensures |r| <= |s| && r == s[|s| - |r|..]
    ensures r == [] || r[0] !in cs
    ensures forall k :: 0 <= k < |s| - |r| ==> s[k] in cs
  {
    if |s| > 0 && s[0] in cs then
      var r := TrimLeft(s[1..], cs);
      assert forall k :: 1 <= k < |s| - |r| ==> s[k] == s[1..][k - 1];
      r
    else s
  }

  /** `rtrim($s, $cs)`. */
  function TrimRight(s: string, cs: set<char>): (r: string)
    ensures |r| <= |s| && r == s[..|r|]
    ensures r == [] || r[|r| - 1] !in cs
    ensures forall k :: |r| <= k < |s| ==> s[k] in cs
  {
    if |s| > 0 && s[|s| - 1] in cs then
      var r := TrimRight(s[..|s| - 1], cs);
      assert forall k :: |r| <= k < |s| - 1 ==> s[k] == s[..|s| - 1][k];
      r
    else s
  }

  /** `trim($s, $cs)` */
  function TrimSet(s: string, cs: set<char>): string
  {
    TrimRight(TrimLeft(s, cs), cs)
  }

  /** The characters PHP's one-argument `trim` strips. */
  const TrimSpaces: set<char> := {' ', '\t', '\n', '\r', '\0', '\U{0B}'}

  /** PHP `trim($s)` */
  function Trim(s: string): string
  {
    TrimSet(s, TrimSpaces)
  }

  /** Neither the first nor the last character is one `trim` strips. */
  predicate Trimmed(s: string)
  {
    s == [] || (s[0] !in TrimSpaces && s[|s| - 1] !in TrimSpaces)
  }

  /** The result of `trim` neither starts nor ends with whitespace. */
  lemma TrimEnds(s: string)
    ensures Trimmed(Trim(s))
  {
    var l := TrimLeft(s, TrimSpaces);
    var r := TrimRight(l, TrimSpaces);
    if r != [] {
      assert r[0] == l[0];
    }
  }

  /** ASCII `strtolower`. */
  function LowerChar(c: char): char
  {
    if 'A' <= c <= 'Z' then (c as int + 32) as char else c
  }

  function ToLower(s: string): (r: string)
    ensures |r| == |s|
    ensures forall i :: 0 <= i < |s| ==> r[i] == LowerChar(s[i])
  {
    if s == [] then [] else [LowerChar(s[0])] + ToLower(s[1..])
  }

  /** PHP's loose emptiness test `empty($s)` on a string: "" and "0" are empty. */
  predicate IsEmptyString(s: string)
  {
    s == "" || s == "0"
  }

  /** `substr($s, $start)` for a non-negative start: "" past the end. */
  function Drop(s: string, start: nat): (r: string)
    ensures |r| == if start <= |s| then |s| - start else 0
  {
    if start <= |s| then s[start..] else ""
  }

  /** `substr($s, 0, $len)` for a non-negative length. */
  function Take(s: string, len: nat): (r: string)
    ensures |r| == if len <= |s| then len else |s|
  {
    if len <= |s| then s[..len] else s
  }

  /** `pre` is the beginning of `s`. */
  predicate IsPrefix(pre: string, s: string)
  {
    |pre| <= |s| && s[..|pre|] == pre
  }

  /** Cutting `s` within a prefix `pre` is cutting `pre`. */
  lemma TakeInPrefix(pre: string, s: string, n: nat)
    requires IsPrefix(pre, s) && n <= |pre|
    ensures Take(s, n) == Take(pre, n)
  {
    assert s[..|pre|][..n] == s[..n];
  }

  /**
   * `substr($s, $start, $len)` for non-negative start and any length: a
   * negative length leaves out that many characters at the end, and an empty
   * range gives "".
   */
  function Substr(s: string, start: nat, len: int): (r: string)
    ensures |r| <= |s|
  {
    if start >= |s| then ""
    else if len >= 0 then (if start + len <= |s| then s[start..start + len] else s[start..])
    else if |s| + len <= start then ""
    else s[start..|s| + len]
  }

  /** PHP's conversion of a non-negative integer to its decimal string. */
  function NatToDecimal(n: nat): (r: string)
    ensures |r| > 0
    ensures forall i :: 0 <= i < |r| ==> '0' <= r[i] <= '9'
    decreases n
  {
    if n < 10 then [(48 + n) as char] else NatToDecimal(n / 10) + [(48 + n % 10) as char]
  }

  predicate IsDigit(c: char)
  {
    '0' <= c <= '9'
  }

  /** The length of the run of digits `s` starts with. */
  function DigitRun(s: string): (r: nat)
    ensures r <= |s|
    ensures forall j :: 0 <= j < r ==> IsDigit(s[j])
    ensures r < |s| ==> !IsDigit(s[r])
  {
    if s == [] || !IsDigit(s[0]) then 0 else 1 + DigitRun(s[1..])
  }

  /** The digit run of a digit string followed by a non-digit is that string. */
  lemma {:induction false} DigitRunOf(d: string, t: string)
    requires forall j :: 0 <= j < |d| ==> IsDigit(d[j])
    requires t != [] && !IsDigit(t[0])
    ensures DigitRun(d + t) == |d|
    decreases |d|
  {
    if d != [] {
      assert (d + t)[1..] == d[1..] + t;
      DigitRunOf(d[1..], t);
    }
  }

  /** `intval` of a string of decimal digits, without PHP's clamp at `PHP_INT_MAX`. */
  function DecimalValue(d: string): nat
    decreases |d|
  {
    if d == [] then 0
    else 10 * DecimalValue(d[..|d| - 1]) + (if IsDigit(d[|d| - 1]) then d[|d| - 1] as int - 48 else 0)
  }

  /**
   * A digit string PHP turns into an integer array key: "0", or digits
   * without a leading zero. Any other string, such as "00", stays a string key.
   */
  predicate CanonicalDecimal(d: string)
  {
    d == "0" || (|d| > 0 && d[0] != '0')
  }

  /** Reading back a number's decimal form gives the number. */
  lemma {:induction false} DecimalRoundTrip(n: nat)
    ensures DecimalValue(NatToDecimal(n)) == n
    decreases n
  {
    if n >= 10 {
      var d := NatToDecimal(n);
      DecimalRoundTrip(n / 10);
      assert d[..|d| - 1] == NatToDecimal(n / 10);
    }
  }

  /** A positive number's decimal form does not start with zero. */
  lemma {:induction false} LeadingDigit(n: nat)
    requires n > 0
    ensures NatToDecimal(n)[0] != '0'
    decreases n
  {
    if n >= 10 {
      LeadingDigit(n / 10);
      assert NatToDecimal(n)[0] == NatToDecimal(n / 10)[0];
    }
  }

  /** The decimal form PHP prints for a number is the canonical form of an array key. */
  lemma DecimalCanonical(n: nat)
    ensures CanonicalDecimal(NatToDecimal(n))
  {
    if n > 0 {
      LeadingDigit(n);
    }
  }

  /** `strtolower` leaves a string without upper-case letters alone. */
  lemma {:induction false} LowerUnchanged(s: string)
    requires forall i :: 0 <= i < |s| ==> !('A' <= s[i] <= 'Z')
    ensures ToLower(s) == s
    decreases |s|
  {
    if s != [] {
      LowerUnchanged(s[1..]);
    }
  }

  /** `strtolower` commutes with concatenation. */
  lemma LowerConcat(a: string, b: string)
    ensures ToLower(a + b) == ToLower(a) + ToLower(b)
  {
    assert forall i :: 0 <= i < |a + b| ==> ToLower(a + b)[i] == (ToLower(a) + ToLower(b))[i];
  }

  /** Lower-casing commutes with dropping a prefix. */
  lemma LowerSuffix(s: string, e: nat)
    requires e <= |s|
    ensures ToLower(s)[e..] == ToLower(s[e..])
  {
    assert s == s[..e] + s[e..];
    LowerConcat(s[..e], s[e..]);
  }

  /** Concatenation shifts an occurrence in the right operand by the left operand's length. */
  lemma OccursAtShift(a: string, b: string, pat: string, j: int)
    requires OccursAt(b, pat, j)
    ensures OccursAt(a + b, pat, |a| + j)
  {
    OccursAtSlice(b, pat, j);
    assert (a + b)[|a| + j..|a| + j + |pat|] == b[j..j + |pat|];
    OccursAtSlice(a + b, pat, |a| + j);
  }

  /** An occurrence in the left operand is still there after concatenation. */
  lemma OccursAtPrefix(a: string, b: string, pat: string, j: int)
    requires OccursAt(a, pat, j)
    ensures OccursAt(a + b, pat, j)
  {
    OccursAtSlice(a, pat, j);
    assert (a + b)[j..j + |pat|] == a[j..j + |pat|];
    OccursAtSlice(a + b, pat, j);
  }

  /** A text placed between two others is contained in the whole. */
  lemma ContainsAt(a: string, b: string, c: string)
    ensures Contains(a + b + c, b)
  {
    OccursAtSlice(a + b + c, b, |a|);
    assert (a + b + c)[|a|..|a| + |b|] == b;
    ContainsIff(a + b + c, b);
  }

  /** Text appended after a contained one keeps it contained. */
  lemma ContainsGrow(s: string, x: string, t: string)
    requires Contains(s, x)
    ensures Contains(s + t, x)
  {
    ContainsIff(s, x);
    var j :| OccursAt(s, x, j);
    OccursAtPrefix(s, t, x, j);
    ContainsIff(s + t, x);
  }

  /** A text is contained in anything ending with it. */
  lemma ContainsEnd(a: string, b: string)
    ensures Contains(a + b, b)
  {
    ContainsAt(a, b, "");
    assert a + b + "" == a + b;
  }

  /** An occurrence with none between `from` and it is the one `strpos` finds from `from`. */
  lemma FindExactly(s: string, pat: string, from: nat, j: nat)
    requires from <= j && OccursAt(s, pat, j)
    requires forall i :: from <= i < j ==> !OccursAt(s, pat, i)
    ensures Find(s, pat, from) == Some(j)
  {
    FindFirst(s, pat, from);
  }

  /**
   * A pattern whose first character does not recur in it cannot start in
   * `a` and run into a text that begins with that character, so the only
   * occurrences starting in `a` lie inside it.
   */
  lemma NoOccurrenceAcross(a: string, x: string, pat: string)
    requires |pat| > 0 && |x| > 0 && x[0] == pat[0]
    requires pat[0] !in pat[1..]
    requires !Contains(a, pat)
    ensures forall i :: 0 <= i < |a| ==> !OccursAt(a + x, pat, i)
  {
    assert forall k :: 1 <= k < |pat| ==> pat[k] == pat[1..][k - 1];
    ContainsIff(a, pat);
    forall i | 0 <= i < |a| ensures !OccursAt(a + x, pat, i) {
      if OccursAt(a + x, pat, i) {
        if i + |pat| <= |a| {
          assert OccursAt(a, pat, i) by {
            forall m | 0 <= m < |pat| ensures a[i + m] == pat[m] {
              assert (a + x)[i + m] == pat[m];
            }
          }
        }
      }
      if |a| < i + |pat| {
        var k := |a| - i;
        assert (a + x)[i + k] == x[0] == pat[0] != pat[k];
      }
    }
  }

  /** An occurrence past a prefix is an occurrence in the rest. */
  lemma OccursAtUnshift(a: string, b: string, pat: string, j: int)
    requires OccursAt(a + b, pat, |a| + j) && 0 <= j
    ensures OccursAt(b, pat, j)
  {
    forall m | 0 <= m < |pat| ensures b[j + m] == pat[m] {
      assert (a + b)[|a| + j + m] == pat[m];
    }
  }

  /**
   * When `x` starts with a pattern whose first character does not recur in
   * it, and `a` does not hold the pattern, the first occurrence in `a` + `x`
   * is the one at the seam.
   */
  lemma FindAtSeam(a: string, x: string, pat: string)
    requires |pat| > 0 && IsPrefix(pat, x)
    requires pat[0] !in pat[1..]
    requires !Contains(a, pat)
    ensures Find(a + x, pat, 0) == Some(|a|)
  {
    assert x[0] == x[..|pat|][0];
    NoOccurrenceAcross(a, x, pat);
    assert OccursAt(a + x, pat, |a|) by {
      forall m | 0 <= m < |pat| ensures (a + x)[|a| + m] == pat[m] {
        assert x[..|pat|][m] == x[m];
      }
    }
    FindExactly(a + x, pat, 0, |a|);
  }

  /** A pattern missing from `a` + `b` is missing from either part. */
  lemma ContainsParts(a: string, b: string, pat: string)
    requires !Contains(a + b, pat)
    ensures !Contains(a, pat) && !Contains(b, pat)
  {
    ContainsIff(a, pat);
    ContainsIff(b, pat);
    ContainsIff(a + b, pat);
    if exists j :: OccursAt(a, pat, j) {
      var j :| OccursAt(a, pat, j);
      OccursAtPrefix(a, b, pat, j);
    }
    if exists j :: OccursAt(b, pat, j) {
      var j :| OccursAt(b, pat, j);
      OccursAtShift(a, b, pat, j);
    }
  }

  /** A text without the first `n` characters of a pattern does not hold the pattern. */
  lemma ContainsHead(s: string, pat: string, n: nat)
    requires n <= |pat| && !Contains(s, pat[..n])
    ensures !Contains(s, pat)
  {
    forall j | OccursAt(s, pat, j) ensures OccursAt(s, pat[..n], j) {
    }
    ContainsIff(s, pat);
    ContainsIff(s, pat[..n]);
  }

  /** What `strpos` finds in a suffix lies the suffix's offset further on in the whole text. */
  lemma FindShifted(s: string, k: nat, pat: string, j: nat)
    requires k <= |s| && Find(s[k..], pat, 0) == Some(j)
    ensures Find(s, pat, k) == Some(k + j)
  {
    FindInSuffix(s, pat, k, 0);
  }

  /** PHP's truthiness of `stristr($haystack, $needle)`: found in any case, and the rest from there is not "" or "0". */
  predicate StristrTruthy(haystack: string, needle: string)
  {
    match Find(ToLower(haystack), ToLower(needle), 0)
    case Some(j) => j <= |haystack| && !IsEmptyString(haystack[j..])
    case None => false
  }

  /** The search moves past characters that cannot start the search string. */
  lemma {:induction false} FindSkips(s: string, pat: string, from: nat, stop: nat)
    requires |pat| > 0 && from <= stop
    requires forall j :: from <= j < stop && j < |s| ==> s[j] != pat[0]
    ensures Find(s, pat, from) == Find(s, pat, stop)
    decreases stop
  {
    if from < stop {
      FindSkips(s, pat, from, stop - 1);
      if stop - 1 + |pat| <= |s| {
        assert !OccursAt(s, pat, stop - 1) by {
          assert s[stop - 1 + 0] != pat[0];
        }
      }
    }
  }

  /** A text without the first character of the search string does not contain it. */
  lemma FirstCharAbsent(s: string, pat: string)
    requires |pat| > 0 && pat[0] !in s
    ensures !Contains(s, pat)
  {
    forall j | 0 <= j < |s|
      ensures !OccursAt(s, pat, j)
    {
      assert s[j + 0] != pat[0];
    }
  }

  /** A string PHP reads as a number when comparing loosely; here, one of decimal digits only. */
  predicate NumericString(s: string)
  {
    |s| > 0 && forall k :: 0 <= k < |s| ==> IsDigit(s[k])
  }

  /** PHP's `==` between two strings: numerically when both are numeric, otherwise character by character. */
  predicate LooseEquals(a: string, b: string)
  {
    if NumericString(a) && NumericString(b) then DecimalValue(a) == DecimalValue(b) else a == b
  }

  /**
   * `str_replace` output that has not yet reached the first character of
   * the replacement is a copy of the input.
   */
  lemma {:induction false} ReplaceAllCopies(s: string, pat: string, rep: string, i: nat)
    requires |pat| > 0 && |rep| > 0 && i <= |ReplaceAll(s, pat, rep)|
    ensures (i <= |s| && ReplaceAll(s, pat, rep)[..i] == s[..i]) ||
            (exists m :: 0 <= m < i && ReplaceAll(s, pat, rep)[m] == rep[0])
    decreases |s|
  {
    var r := ReplaceAll(s, pat, rep);
    if |s| >= |pat| && i > 0 {
      if OccursAt(s, pat, 0) {
        assert r[0] == rep[0];
      } else {
        var t := ReplaceAll(s[1..], pat, rep);
        assert r == [s[0]] + t;
        ReplaceAllCopies(s[1..], pat, rep, i - 1);
        if exists m :: 0 <= m < i - 1 && t[m] == rep[0] {
          var m :| 0 <= m < i - 1 && t[m] == rep[0];
          assert r[m + 1] == rep[0];
        } else {
          assert r[..i] == [s[0]] + t[..i - 1];
        }
      }
    }
  }

  /**
   * A `str_replace` whose replacement shares no character with the edges of
   * `pat` (the replacement does not hold `pat`'s first character, `pat` does
   * not hold the replacement's first) leaves no `pat`: neither when `pat`
   * is the search string itself, nor when `pat` was absent before.
   */
  lemma {:induction false} ReplaceAllAvoids(s: string, search: string, rep: string, pat: string)
    requires |search| > 0 && |pat| > 0 && |rep| > 0
    requires pat[0] !in rep && rep[0] !in pat
    requires pat == search || forall j :: !OccursAt(s, pat, j)
    ensures forall j :: !OccursAt(ReplaceAll(s, search, rep), pat, j)
    decreases |s|
  {
    var r := ReplaceAll(s, search, rep);
    if |s| < |search| {
      assert r == s;
    } else if OccursAt(s, search, 0) {
      var rest := s[|search|..];
      var t := ReplaceAll(rest, search, rep);
      forall j ensures !OccursAt(rest, pat, j) || pat == search {
        if OccursAt(rest, pat, j) {
          OccursAtShift(s[..|search|], rest, pat, j);
          assert s[..|search|] + rest == s;
        }
      }
      ReplaceAllAvoids(rest, search, rep, pat);
      assert r == rep + t;
      forall j ensures !OccursAt(r, pat, j) {
        if 0 <= j < |rep| && j + |pat| <= |r| {
          assert r[j + 0] == rep[j];
        } else if j >= |rep| {
          OccursAtDropFront(rep, t, pat, j);
        }
      }
    } else {
      var rest := s[1..];
      var t := ReplaceAll(rest, search, rep);
      forall j ensures !OccursAt(rest, pat, j) || pat == search {
        if OccursAt(rest, pat, j) {
          OccursAtShift(s[..1], rest, pat, j);
          assert s[..1] + rest == s;
        }
      }
      ReplaceAllAvoids(rest, search, rep, pat);
      assert r == [s[0]] + t;
      forall j ensures !OccursAt(r, pat, j) {
        if j == 0 && |pat| <= |r| {
          ReplaceAllCopies(s, search, rep, |pat|);
          OccursAtSlice(r, pat, 0);
          OccursAtSlice(s, pat, 0);
          assert forall m :: 0 <= m < |pat| ==> r[..|pat|][m] == r[m];
        } else if j >= 1 {
          OccursAtDropFront([s[0]], t, pat, j);
        }
      }
    }
  }

  /** An occurrence past the left operand of a concatenation is one in the right operand. */
  lemma OccursAtDropFront(a: string, b: string, pat: string, j: int)
    requires j >= |a|
    ensures OccursAt(a + b, pat, j) ==> OccursAt(b, pat, j - |a|)
  {
    if OccursAt(a + b, pat, j) {
      forall m | 0 <= m < |pat| ensures b[j - |a| + m] == pat[m] {
        assert (a + b)[j + m] == b[j - |a| + m];
      }
    }
  }
}
