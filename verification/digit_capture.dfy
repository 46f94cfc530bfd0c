/** Python's `re.search(LIT + r'(\d+)/', s)` for a literal text LIT, as used by
    both regular expressions of main.py: the pattern may start at any position
    of `s`, the leftmost position where it matches wins, and group 1 is the
    digit run between LIT and the next '/'.

    Digits are the ASCII digits '0'..'9'. Python's `\d` on a `str` pattern also
    accepts the other Unicode decimal digits (Arabic-Indic, Devanagari, ...);
    this model does not. */
module DigitCapture {
  import opened Wrappers

  predicate IsDigit(c: char) {
    '0' <= c <= '9'
  }

  predicate IsDigits(s: string) {
    forall k | 0 <= k < |s| :: IsDigit(s[k])
  }

  /** A successful search: where the whole match starts, and group 1. */
  datatype Match = Match(start: nat, group: string)

  /** Reference semantics: `LIT(\d+)/` matches `s` at position `i` with
      group 1 equal to `id`. */
  ghost predicate MatchAt(lit: string, s: string, i: int, id: string) {
    && 0 <= i <= |s|
    && |id| > 0
    && IsDigits(id)
    && lit + id + "/" <= s[i..]
  }

  /** No match starts before position `i`. */
  ghost predicate NoMatchBefore(lit: string, s: string, i: int) {
    forall j, id | 0 <= j < i :: !MatchAt(lit, s, j, id)
  }

  /** No match starts anywhere: `re.search` returns `None`. */
  ghost predicate NoMatch(lit: string, s: string) {
    forall j, id :: !MatchAt(lit, s, j, id)
  }

  /** The match `re.search` reports: the one that starts first. */
  ghost predicate LeftmostMatch(lit: string, s: string, i: int, id: string) {
    MatchAt(lit, s, i, id) && NoMatchBefore(lit, s, i)
  }

  /** Length of the longest run of digits in `s` starting at `k`. */
  function DigitRun(s: string, k: nat): (n: nat)
    requires k <= |s|
    ensures k + n <= |s|
    ensures forall j | k <= j < k + n :: IsDigit(s[j])
    ensures k + n == |s| || !IsDigit(s[k + n])
    decreases |s| - k
  {
    if k < |s| && IsDigit(s[k]) then 1 + DigitRun(s, k + 1) else 0
  }

  /** What a match at `i` says about the characters of `s`. */
  lemma MatchShape(lit: string, s: string, i: int, id: string)
    requires MatchAt(lit, s, i, id)
    ensures i + |lit| + |id| < |s|
    ensures s[i..i + |lit|] == lit
    ensures s[i + |lit|..i + |lit| + |id|] == id
    ensures s[i + |lit| + |id|] == '/'
    ensures |lit| > 0 ==> s[i] == lit[0]
  {
    var p := i + |lit|;
    var w := lit + id + "/";
    assert s[i..][..|w|] == w;
    assert s[i..i + |w|] == w;
    assert s[i..p] == w[..|lit|];
    assert s[p..p + |id|] == id by {
      forall k | 0 <= k < |id| ensures s[p + k] == id[k] {
        assert s[p + k] == w[|lit| + k];
      }
    }
    assert s[p + |id|] == w[|lit| + |id|];
  }

  /** A match at a given position captures exactly the maximal digit run after
      the literal: greedy `\d+` may backtrack, but a shorter run is followed by
      a digit, never by '/'. */
  lemma CaptureIsMaximalRun(lit: string, s: string, i: int, id: string)
    requires MatchAt(lit, s, i, id)
    ensures i + |lit| <= |s|
    ensures id == s[i + |lit|..i + |lit| + DigitRun(s, i + |lit|)]
  {
    MatchShape(lit, s, i, id);
    var p := i + |lit|;
    var n := DigitRun(s, p);
    if n < |id| {
      assert false;
    } else if |id| < n {
      assert false;
    }
  }

  /** At one position the pattern can capture at most one id. */
  lemma CaptureUnique(lit: string, s: string, i: int, id1: string, id2: string)
    requires MatchAt(lit, s, i, id1) && MatchAt(lit, s, i, id2)
    ensures id1 == id2
  {
    CaptureIsMaximalRun(lit, s, i, id1);
    CaptureIsMaximalRun(lit, s, i, id2);
  }

  /** `lit` occurs in `s` at position `i`. */
  predicate LiteralAt(lit: string, s: string, i: int) {
    0 <= i <= |s| - |lit| && s[i..i + |lit|] == lit
  }

  /** A non-empty digit run starts at `p` and is closed by '/'. */
  predicate ClosedDigitRunAt(s: string, p: nat) {
    p <= |s| && var n := DigitRun(s, p); n > 0 && p + n < |s| && s[p + n] == '/'
  }

  /** Attempts the pattern at position `i` only (what the regex engine does
      for one candidate start). */
  function MatchAtPosition(lit: string, s: string, i: nat): (r: Option<string>)
    requires i <= |s|
    ensures r.Some? ==> MatchAt(lit, s, i, r.value)
    ensures r.None? ==> forall id :: !MatchAt(lit, s, i, id)
    ensures r.Some? <==> LiteralAt(lit, s, i) && ClosedDigitRunAt(s, i + |lit|)
  {
    var p := i + |lit|;
    if LiteralAt(lit, s, i) then
      if ClosedDigitRunAt(s, p) then
        var n := DigitRun(s, p);
        var id := s[p..p + n];
        assert (lit + id + "/") == s[i..p + n + 1];
        Some(id)
      else
        NoCaptureHere(lit, s, i);
        None
    else
      NoLiteralHere(lit, s, i);
      None
  }

  lemma NoLiteralHere(lit: string, s: string, i: nat)
    requires i <= |s|
    requires !LiteralAt(lit, s, i)
    ensures forall id :: !MatchAt(lit, s, i, id)
  {
    forall id | MatchAt(lit, s, i, id)
      ensures false
    {
      CaptureIsMaximalRun(lit, s, i, id);
    }
  }

  lemma NoCaptureHere(lit: string, s: string, i: nat)
    requires i + |lit| <= |s|
    requires !ClosedDigitRunAt(s, i + |lit|)
    ensures forall id :: !MatchAt(lit, s, i, id)
  {
    forall id | MatchAt(lit, s, i, id)
      ensures false
    {
      CaptureIsMaximalRun(lit, s, i, id);
    }
  }

  /** Tries the candidate starts `i`, `i + 1`, ..., `|s|` in turn. */
  function SearchFrom(lit: string, s: string, i: nat): (r: Option<Match>)
    requires i <= |s|
    ensures r.Some? ==> i <= r.value.start && MatchAt(lit, s, r.value.start, r.value.group)
    ensures r.Some? ==> forall j, id | i <= j < r.value.start :: !MatchAt(lit, s, j, id)
    ensures r.None? ==> forall j, id | i <= j :: !MatchAt(lit, s, j, id)
    decreases |s| - i
  {
    match MatchAtPosition(lit, s, i)
    case Some(id) => Some(Match(i, id))
    case None => if i == |s| then None else SearchFrom(lit, s, i + 1)
  }

  /** `re.search(LIT + r'(\d+)/', s)`: the leftmost match, or `None` exactly
      when the pattern occurs nowhere in `s`. */
  function Search(lit: string, s: string): (r: Option<Match>)
    ensures r.Some? ==> LeftmostMatch(lit, s, r.value.start, r.value.group)
    ensures r.None? <==> NoMatch(lit, s)
  {
    SearchFrom(lit, s, 0)
  }

  /** Conversely, whichever match is leftmost is the one `Search` reports. */
  lemma SearchFindsLeftmost(lit: string, s: string, i: int, id: string)
    requires LeftmostMatch(lit, s, i, id)
    ensures Search(lit, s) == Some(Match(i, id))
  {
    var r := Search(lit, s);
    assert r.Some?;
    var m := r.value;
    CaptureUnique(lit, s, i, id, m.group);
  }

  /** A literal whose first character is not a digit and never recurs inside
      it: two occurrences cannot overlap, and none can start inside a digit
      run. Both literals of main.py have this shape. */
  predicate Unbordered(lit: string) {
    && |lit| > 0
    && !IsDigit(lit[0])
    && forall k | 0 < k < |lit| :: lit[k] != lit[0]
  }

  /** Inside a match of an unbordered literal, the literal's first character
      occurs only where the match starts. */
  lemma NoRestartInsideMatch(lit: string, s: string, j: int, id: string, k: int)
    requires Unbordered(lit)
    requires MatchAt(lit, s, j, id)
    requires j < k < j + |lit| + |id|
    ensures s[k] != lit[0]
  {
    var w := lit + id + "/";
    assert s[j..][..|w|] == w;
    assert s[k] == w[k - j];
    if k - j < |lit| {
      assert w[k - j] == lit[k - j];
    } else {
      assert w[k - j] == id[k - j - |lit|];
    }
  }

  /** For such a literal, a match in `s + t` that starts before a match lying
      inside `s` lies inside `s` as well. */
  lemma EarlierMatchStaysInside(lit: string, s: string, t: string, i: int, id: string, j: int, id': string)
    requires Unbordered(lit)
    requires MatchAt(lit, s, i, id)
    requires MatchAt(lit, s + t, j, id')
    requires j < i
    ensures MatchAt(lit, s, j, id')
  {
    var w := lit + id + "/";
    var w' := lit + id' + "/";
    var st := s + t;
    assert s[i..][..|w|] == w;
    assert st[i] == lit[0] by { assert st[i] == s[i] == w[0]; }
    assert st[j..][..|w'|] == w';
    if j + |w'| > |s| {
      // The earlier match would run past the end of `s`, so position `i`
      // would fall inside its literal or its digit run.
      NoRestartInsideMatch(lit, st, j, id', i);
    }
    assert s[j..][..|w'|] == st[j..][..|w'|];
  }

  /** Appending text after a string that already matches does not change the
      result of the search. */
  lemma SearchIgnoresTrailingText(lit: string, s: string, t: string)
    requires Unbordered(lit)
    requires Search(lit, s).Some?
    ensures Search(lit, s + t) == Search(lit, s)
  {
    var m := Search(lit, s).value;
    var w := lit + m.group + "/";
    assert s[m.start..][..|w|] == w;
    assert (s + t)[m.start..][..|w|] == w;
    forall j, id' | 0 <= j < m.start
      ensures !MatchAt(lit, s + t, j, id')
    {
      if MatchAt(lit, s + t, j, id') {
        EarlierMatchStaysInside(lit, s, t, m.start, m.group, j, id');
      }
    }
    SearchFindsLeftmost(lit, s + t, m.start, m.group);
  }
}
