/**
 * The PHP string primitives the route relies on, each with one character as
 * the character list: `ltrim`, `rtrim`, `trim`, `explode` on a one-character
 * delimiter, and the first-occurrence search behind `str_contains` and
 * `explode` with a limit of 2.
 */
module Text {
  import opened Results

  /** Every character of `s` is `c` (vacuously true of the empty string). */
  predicate AllAre(s: string, c: char) {
    forall i :: 0 <= i < |s| ==> s[i] == c
  }

  predicate StartsWith(s: string, c: char) {
    |s| > 0 && s[0] == c
  }

  predicate EndsWith(s: string, c: char) {
    |s| > 0 && s[|s| - 1] == c
  }

  // ---------------------------------------------------------------------
  // ltrim / rtrim / trim
  // ---------------------------------------------------------------------

  /** Length of the run of `c` at the front of `s`. */
  function LeadingRun(s: string, c: char): (n: nat)
    ensures n <= |s|
    ensures forall i :: 0 <= i < n ==> s[i] == c
    ensures n < |s| ==> s[n] != c
    decreases |s|
  {
    if StartsWith(s, c) then 1 + LeadingRun(s[1..], c) else 0
  }

  /** Length of `s` without the run of `c` at its back. */
  function TrailingStart(s: string, c: char): (n: nat)
    ensures n <= |s|
    ensures forall i :: n <= i < |s| ==> s[i] == c
    ensures n > 0 ==> s[n - 1] != c
    decreases |s|
  {
    if EndsWith(s, c) then TrailingStart(s[..|s| - 1], c) else |s|
  }

  /** The front run is the only split into a run of `c` and a rest that does
      not start with `c`. */
  lemma LeadingRunUnique(s: string, c: char, n: nat)
    requires n <= |s|
    requires forall i :: 0 <= i < n ==> s[i] == c
    requires n < |s| ==> s[n] != c
    ensures LeadingRun(s, c) == n
  {
  }

  lemma TrailingStartUnique(s: string, c: char, n: nat)
    requires n <= |s|
    requires forall i :: n <= i < |s| ==> s[i] == c
    requires n > 0 ==> s[n - 1] != c
    ensures TrailingStart(s, c) == n
  {
  }

  /** PHP `ltrim(s, c)`: drops the maximal run of `c` at the front. */
  function TrimLeft(s: string, c: char): (r: string)
    ensures |r| <= |s| && r == s[|s| - |r|..]
    ensures AllAre(s[..|s| - |r|], c)
    ensures !StartsWith(r, c)
  {
    s[LeadingRun(s, c)..]
  }

  /** PHP `rtrim(s, c)`: drops the maximal run of `c` at the back. */
  function TrimRight(s: string, c: char): (r: string)
    ensures |r| <= |s| && r == s[..|r|]
    ensures AllAre(s[|r|..], c)
    ensures !EndsWith(r, c)
  {
    s[..TrailingStart(s, c)]
  }

  /** PHP `trim(s, c)`: `ltrim` followed by `rtrim`. */
  function Trim(s: string, c: char): (r: string)
    ensures |r| <= |s|
    ensures !StartsWith(r, c) && !EndsWith(r, c)
    ensures var a := |s| - |TrimLeft(s, c)|;
      && a + |r| <= |s|
      && r == s[a..a + |r|]
      && AllAre(s[..a], c)
      && AllAre(s[a + |r|..], c)
    ensures r == [] <==> AllAre(s, c)
  {
    var r := TrimRight(TrimLeft(s, c), c);
    TrimShape(s, c);
    r
  }

  lemma TrimShape(s: string, c: char)
    ensures var t := TrimLeft(s, c);
      var r := TrimRight(t, c);
      var a := |s| - |t|;
      && a + |r| <= |s|
      && r == s[a..a + |r|]
      && AllAre(s[a + |r|..], c)
      && (r == [] <==> AllAre(s, c))
  {
    var a := LeadingRun(s, c);
    var t := s[a..];
    var b := TrailingStart(t, c);
    assert t[..b] == s[a..a + b];
    // `t` cannot begin with `c`, so it trims to nothing only when empty.
    assert |t| > 0 ==> t[0] == s[a];
  }

  /** `ltrim` is determined by its contract: any split of `s` into a run of
      `c` and a rest not starting with `c` yields that rest. */
  lemma TrimLeftUnique(x: string, m: string, c: char)
    requires AllAre(x, c) && !StartsWith(m, c)
    ensures TrimLeft(x + m, c) == m
  {
    var s := x + m;
    if |x| < |s| { assert s[|x|] == m[0]; }
    LeadingRunUnique(s, c, |x|);
    assert s[|x|..] == m;
  }

  /** `rtrim` is determined by its contract, symmetrically. */
  lemma TrimRightUnique(m: string, y: string, c: char)
    requires AllAre(y, c) && !EndsWith(m, c)
    ensures TrimRight(m + y, c) == m
  {
    var s := m + y;
    if |m| > 0 { assert s[|m| - 1] == m[|m| - 1]; }
    assert forall i :: |m| <= i < |s| ==> s[i] == y[i - |m|];
    TrailingStartUnique(s, c, |m|);
    assert s[..|m|] == m;
  }

  /** `trim` returns exactly the middle of any decomposition into a run of
      `c`, a middle that neither starts nor ends with `c`, and a run of `c`. */
  lemma TrimUnique(x: string, m: string, y: string, c: char)
    requires AllAre(x, c) && AllAre(y, c)
    requires !StartsWith(m, c) && !EndsWith(m, c)
    ensures Trim(x + m + y, c) == m
  {
    if |m| == 0 {
      assert x + m + y == (x + y) + m;
      TrimLeftUnique(x + y, m, c);
    } else {
      assert x + m + y == x + (m + y);
      TrimLeftUnique(x, m + y, c);
      TrimRightUnique(m, y, c);
    }
  }

  /** Trimming twice trims nothing more. */
  lemma TrimLeftIdempotent(s: string, c: char)
    ensures TrimLeft(TrimLeft(s, c), c) == TrimLeft(s, c)
  {
    var r := TrimLeft(s, c);
    LeadingRunUnique(r, c, 0);
  }

  lemma TrimIdempotent(s: string, c: char)
    ensures Trim(Trim(s, c), c) == Trim(s, c)
  {
    TrimFixes(Trim(s, c), c);
  }

  /** A string neither starting nor ending with `c` is its own `trim`. */
  lemma TrimFixes(m: string, c: char)
    requires !StartsWith(m, c) && !EndsWith(m, c)
    ensures Trim(m, c) == m
  {
    LeadingRunUnique(m, c, 0);
    assert TrimLeft(m, c) == m;
    TrailingStartUnique(m, c, |m|);
  }

  // ---------------------------------------------------------------------
  // explode on a one-character delimiter
  // ---------------------------------------------------------------------

  /** PHP `implode(c, parts)` for a non-empty list of pieces. */
  function Join(parts: seq<string>, c: char): string
    requires |parts| >= 1
    decreases |parts|
  {
    if |parts| == 1 then parts[0] else parts[0] + [c] + Join(parts[1..], c)
  }

  /** PHP `explode(c, s)` without a limit: every piece, empty ones included. */
  function Split(s: string, c: char): (parts: seq<string>)
    ensures |parts| >= 1
    ensures forall i :: 0 <= i < |parts| ==> c !in parts[i]
    ensures Join(parts, c) == s
    decreases |s|
  {
    if |s| == 0 then
      [""]
    else
      var rest := Split(s[1..], c);
      if s[0] == c then
        var parts := [""] + rest;
        assert parts[1..] == rest;
        assert s == [c] + s[1..];
        parts
      else
        var parts := [[s[0]] + rest[0]] + rest[1..];
        assert parts[1..] == rest[1..];
        assert s == [s[0]] + s[1..];
        assert |rest| > 1 ==> Join(rest, c) == rest[0] + [c] + Join(rest[1..], c);
        parts
  }

  /** Splitting a piece glued to the rest by one delimiter peels that piece off. */
  lemma {:induction false} SplitCons(a: string, b: string, c: char)
    requires c !in a
    ensures Split(a + [c] + b, c) == [a] + Split(b, c)
    decreases |a|
  {
    var s := a + [c] + b;
    if |a| == 0 {
      assert s[1..] == b;
    } else {
      assert s[1..] == a[1..] + [c] + b;
      SplitCons(a[1..], b, c);
      assert [a[0]] + a[1..] == a;
    }
  }

  /** `explode` undoes `implode` when no piece contains the delimiter. */
  lemma {:induction false} SplitJoin(parts: seq<string>, c: char)
    requires |parts| >= 1
    requires forall i :: 0 <= i < |parts| ==> c !in parts[i]
    ensures Split(Join(parts, c), c) == parts
    decreases |parts|
  {
    if |parts| == 1 {
      SplitNoDelimiter(parts[0], c);
    } else {
      SplitJoin(parts[1..], c);
      SplitCons(parts[0], Join(parts[1..], c), c);
      assert [parts[0]] + parts[1..] == parts;
    }
  }

  /** A string without the delimiter explodes to itself alone. */
  lemma {:induction false} SplitNoDelimiter(s: string, c: char)
    requires c !in s
    ensures Split(s, c) == [s]
    decreases |s|
  {
    if |s| > 0 {
      SplitNoDelimiter(s[1..], c);
      assert [s[0]] + s[1..] == s;
    }
  }

  // ---------------------------------------------------------------------
  // first occurrence of a pattern
  // ---------------------------------------------------------------------

  /** `pat` occurs in `s` starting at index `i`. */
  predicate OccursAt(s: string, pat: string, i: nat) {
    i + |pat| <= |s| && s[i..i + |pat|] == pat
  }

  lemma OccursShift(s: string, pat: string, i: nat)
    requires |s| > 0
    ensures OccursAt(s[1..], pat, i) <==> OccursAt(s, pat, i + 1)
  {
    if i + 1 + |pat| <= |s| {
      assert s[1..][i..i + |pat|] == s[i + 1..i + 1 + |pat|];
    }
  }

  /** PHP `strpos(s, pat)`: index of the first occurrence, or none. */
  function IndexOf(s: string, pat: string): (r: Option<nat>)
    ensures r.Some? ==> OccursAt(s, pat, r.value)
    ensures r.Some? ==> forall j: nat :: j < r.value ==> !OccursAt(s, pat, j)
    ensures r.None? ==> forall j: nat :: !OccursAt(s, pat, j)
    decreases |s|
  {
    if |s| < |pat| then
      None
    else if s[..|pat|] == pat then
      assert s[0..|pat|] == s[..|pat|];
      Some(0)
    else
      match IndexOf(s[1..], pat)
      case None =>
        assert forall j: nat :: !OccursAt(s, pat, j) by {
          forall j: nat ensures !OccursAt(s, pat, j) {
            if j > 0 { OccursShift(s, pat, j - 1); } else { assert s[0..|pat|] == s[..|pat|]; }
          }
        }
        None
      case Some(i) =>
        OccursShift(s, pat, i);
        assert forall j: nat :: j < i + 1 ==> !OccursAt(s, pat, j) by {
          forall j: nat | j < i + 1 ensures !OccursAt(s, pat, j) {
            if j > 0 { OccursShift(s, pat, j - 1); } else { assert s[0..|pat|] == s[..|pat|]; }
          }
        }
        Some(i + 1)
  }

  /** PHP `str_contains(s, pat)`. */
  predicate Contains(s: string, pat: string) {
    IndexOf(s, pat).Some?
  }
}
