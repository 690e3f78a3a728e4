/** `countWords` of src/utils.ts: the number of matches of the regular
    expression `\b[a-z\d]+\b` with the flags `g` and `i`. The regular
    expression is modelled as the engine runs it (boundary test, greedy run,
    backtracking, global scan), and the count is proved equal to a plain
    description: the number of maximal `[A-Za-z0-9_]` runs holding no `_`. */
module Words {
  import opened Text

  /** `[a-z\d]` under the `i` flag (case folding without the `u` flag stays in ASCII). */
  predicate IsAlnum(c: char) {
    'a' <= c <= 'z' || 'A' <= c <= 'Z' || '0' <= c <= '9'
  }

  /** A character of `\w`, the class `\b` is defined by. */
  predicate IsWordChar(c: char) {
    IsAlnum(c) || c == '_'
  }

  /** `\b` holds at index `p`: exactly one of the neighbours is a word character. */
  predicate AtBoundary(s: string, p: nat)
    requires p <= |s|
  {
    (p > 0 && IsWordChar(s[p - 1])) != (p < |s| && IsWordChar(s[p]))
  }

  // ---------------------------------------------------------------------------
  // The regular expression as the engine runs it
  // ---------------------------------------------------------------------------

  /** Where the greedy `[a-z\d]+` started at `p` stops. */
  function AlnumEnd(s: string, p: nat): (e: nat)
    requires p <= |s|
    decreases |s| - p
    ensures p <= e <= |s|
    ensures e < |s| ==> !IsAlnum(s[e])
  {
    if p < |s| && IsAlnum(s[p]) then AlnumEnd(s, p + 1) else p
  }

  /** The greedy run is made of letters and digits only. */
  lemma {:induction false} AlnumEndIsRun(s: string, p: nat)
    requires p <= |s|
    decreases |s| - p
    ensures forall k :: p <= k < AlnumEnd(s, p) ==> IsAlnum(s[k])
  {
    if p < |s| && IsAlnum(s[p]) {
      AlnumEndIsRun(s, p + 1);
    }
  }

  /** Backtracking into the greedy run: the ends `e`, `e - 1`, ..., `p + 1` are
      tried in turn until the closing `\b` holds. */
  function Backtrack(s: string, p: nat, e: nat): (r: Option<nat>)
    requires p <= e <= |s|
    decreases e
    ensures r.Some? ==> p < r.value <= e && AtBoundary(s, r.value)
  {
    if e <= p then None
    else if AtBoundary(s, e) then Some(e)
    else Backtrack(s, p, e - 1)
  }

  /** One attempt of `\b[a-z\d]+\b` at index `p`: the end of the match, if any. */
  function MatchAt(s: string, p: nat): (r: Option<nat>)
    requires p <= |s|
    ensures r.Some? ==> p < r.value <= |s|
  {
    if AtBoundary(s, p) && p < |s| && IsAlnum(s[p]) then Backtrack(s, p, AlnumEnd(s, p)) else None
  }

  /** The global scan of `s.match(...)` from index `p`: every match, in order. */
  function RegexMatches(s: string, p: nat): seq<string>
    requires p <= |s|
    decreases |s| - p
  {
    if p == |s| then []
    else match MatchAt(s, p)
      case Some(e) => [s[p..e]] + RegexMatches(s, e)
      case None => RegexMatches(s, p + 1)
  }

  // ---------------------------------------------------------------------------
  // The plain description
  // ---------------------------------------------------------------------------

  /** Length of the leading run of word characters of `t`. */
  function LeadingRun(t: string): (n: nat)
    ensures n <= |t|
    ensures n < |t| ==> !IsWordChar(t[n])
  {
    if t != [] && IsWordChar(t[0]) then 1 + LeadingRun(t[1..]) else 0
  }

  /** The leading run is made of word characters only. */
  lemma {:induction false} LeadingRunIsRun(t: string)
    decreases |t|
    ensures forall k :: 0 <= k < LeadingRun(t) ==> IsWordChar(t[k])
  {
    if t != [] && IsWordChar(t[0]) {
      LeadingRunIsRun(t[1..]);
      assert forall k :: 1 <= k < LeadingRun(t) ==> t[k] == t[1..][k - 1];
    }
  }

  /** `t` holds no `_`. */
  predicate NoUnderscore(t: string)
    decreases |t|
  {
    t == [] || (t[0] != '_' && NoUnderscore(t[1..]))
  }

  /** The recursive test agrees with membership. */
  lemma {:induction false} NoUnderscoreIsAbsence(t: string)
    decreases |t|
    ensures NoUnderscore(t) <==> '_' !in t
  {
    if t != [] {
      NoUnderscoreIsAbsence(t[1..]);
      assert t == [t[0]] + t[1..];
    }
  }

  /** A concatenation holds no `_` exactly when neither part does. */
  lemma NoUnderscoreConcat(x: string, y: string)
    ensures NoUnderscore(x + y) <==> NoUnderscore(x) && NoUnderscore(y)
  {
    NoUnderscoreIsAbsence(x);
    NoUnderscoreIsAbsence(y);
    NoUnderscoreIsAbsence(x + y);
  }

  /** The number of maximal runs of word characters of `t` that hold no `_`. */
  function CleanRuns(t: string): nat
    decreases |t|
  {
    if t == [] then 0
    else if !IsWordChar(t[0]) then CleanRuns(t[1..])
    else
      var n := LeadingRun(t);
      (if NoUnderscore(t[..n]) then 1 else 0) + CleanRuns(t[n..])
  }

  // ---------------------------------------------------------------------------
  // countWords
  // ---------------------------------------------------------------------------

  /** `countWords(str)`: the length of the match array, 0 when `match` gives null. */
  function CountWords(s: string): (n: nat)
    ensures n == CleanRuns(s)
  {
    MatchesAreCleanRuns(s, 0);
    |RegexMatches(s, 0)|
  }

  /** Inside a run of word characters no match can start, so the scan skips to
      the end `w` of the run. */
  lemma {:induction false} SkipRun(s: string, q: nat, w: nat)
    requires 0 < q <= w <= |s|
    requires forall k :: q - 1 <= k < w ==> IsWordChar(s[k])
    decreases w - q
    ensures RegexMatches(s, q) == RegexMatches(s, w)
  {
    if q < w {
      assert !AtBoundary(s, q);
      SkipRun(s, q + 1, w);
    }
  }

  /** No end between `p` and `e` satisfies the closing `\b`. */
  lemma {:induction false} BacktrackFails(s: string, p: nat, e: nat)
    requires p <= e <= |s|
    requires forall k :: p < k <= e ==> !AtBoundary(s, k)
    decreases e
    ensures Backtrack(s, p, e) == None
  {
    if e > p {
      BacktrackFails(s, p, e - 1);
    }
  }

  /** The scan from any index that is not strictly inside a run of word
      characters finds as many matches as there are clean runs ahead. */
  lemma {:induction false} MatchesAreCleanRuns(s: string, p: nat)
    requires p <= |s|
    requires p == 0 || p == |s| || !IsWordChar(s[p - 1]) || !IsWordChar(s[p])
    decreases |s| - p
    ensures |RegexMatches(s, p)| == CleanRuns(s[p..])
  {
    if p == |s| {
      assert s[p..] == [];
    } else if !IsWordChar(s[p]) {
      assert MatchAt(s, p) == None;
      assert RegexMatches(s, p) == RegexMatches(s, p + 1);
      assert CleanRuns(s[p..]) == CleanRuns(s[p + 1..]) by {
        assert s[p..][1..] == s[p + 1..];
      }
      MatchesAreCleanRuns(s, p + 1);
    } else {
      var w, c := RunStep(s, p);
      MatchesAreCleanRuns(s, w);
    }
  }

  /** The scan and the count both step over a whole run of word characters,
      counting it once when it holds no `_`. */
  lemma RunStep(s: string, p: nat) returns (w: nat, c: nat)
    requires p < |s| && IsWordChar(s[p])
    requires p == 0 || !IsWordChar(s[p - 1])
    ensures p < w <= |s| && (w == |s| || !IsWordChar(s[w]))
    ensures |RegexMatches(s, p)| == c + |RegexMatches(s, w)|
    ensures CleanRuns(s[p..]) == c + CleanRuns(s[w..])
  {
    w := p + LeadingRun(s[p..]);
    c := if NoUnderscore(s[p..w]) then 1 else 0;
    CleanRunsAtRun(s, p);
    assert CleanRuns(s[p..]) == c + CleanRuns(s[w..]);
    RunInText(s, p);
    NoUnderscoreIsAbsence(s[p..w]);
    if c == 0 {
      UnderscoreRunNoMatch(s, p, w);
    } else {
      CleanRunMatches(s, p, w);
    }
  }

  /** A text starting with a word character counts its first run, unless it
      holds `_`, and then the rest. */
  lemma CleanRunsAtRun(s: string, p: nat)
    requires p < |s| && IsWordChar(s[p])
    ensures var w := p + LeadingRun(s[p..]);
      CleanRuns(s[p..]) == (if NoUnderscore(s[p..w]) then 1 else 0) + CleanRuns(s[w..])
  {
    var t := s[p..];
    var n := LeadingRun(t);
    assert t[..n] == s[p..p + n] && t[n..] == s[p + n..];
    assert CleanRuns(t) == (if NoUnderscore(t[..n]) then 1 else 0) + CleanRuns(t[n..]);
  }

  /** The leading run of `s[p..]` read as indices of `s`. */
  lemma RunInText(s: string, p: nat)
    requires p < |s|
    ensures var n := LeadingRun(s[p..]);
      && (forall k :: p <= k < p + n ==> IsWordChar(s[k]))
      && (p + n < |s| ==> !IsWordChar(s[p + n]))
      && s[p..][n..] == s[p + n..] && s[p..][..n] == s[p..p + n]
  {
    var t := s[p..];
    var n := LeadingRun(t);
    LeadingRunIsRun(t);
    forall k | p <= k < p + n ensures IsWordChar(s[k]) { assert s[k] == t[k - p]; }
    if p + n < |s| { assert s[p + n] == t[n]; }
  }

  /** A run of word characters holding `_` yields no match: the scan skips it. */
  lemma UnderscoreRunNoMatch(s: string, p: nat, w: nat)
    requires p < w <= |s|
    requires p == 0 || !IsWordChar(s[p - 1])
    requires forall k :: p <= k < w ==> IsWordChar(s[k])
    requires '_' in s[p..w]
    ensures RegexMatches(s, p) == RegexMatches(s, w)
  {
    var u :| p <= u < w && s[u] == '_' by {
      var v :| 0 <= v < w - p && s[p..w][v] == '_';
      assert s[p + v] == '_';
    }
    if IsAlnum(s[p]) {
      var a := AlnumEnd(s, p);
      AlnumEndIsRun(s, p);
      assert a <= u;
      forall k | p < k <= a ensures !AtBoundary(s, k) {
        assert IsWordChar(s[k - 1]) && IsWordChar(s[k]);
      }
      BacktrackFails(s, p, a);
    }
    assert MatchAt(s, p) == None;
    SkipRun(s, p + 1, w);
  }

  /** A maximal run of letters and digits is one match. */
  lemma CleanRunMatches(s: string, p: nat, w: nat)
    requires p < w <= |s|
    requires p == 0 || !IsWordChar(s[p - 1])
    requires w < |s| ==> !IsWordChar(s[w])
    requires forall k :: p <= k < w ==> IsWordChar(s[k])
    requires '_' !in s[p..w]
    ensures RegexMatches(s, p) == [s[p..w]] + RegexMatches(s, w)
  {
    forall k | p <= k < w ensures IsAlnum(s[k]) {
      assert s[k] == s[p..w][k - p];
    }
    AlnumEndOfRun(s, p, w);
    assert AtBoundary(s, p) && AtBoundary(s, w);
    assert MatchAt(s, p) == Some(w);
  }

  /** The greedy run stops exactly at the end of an all-alphanumeric stretch. */
  lemma {:induction false} AlnumEndOfRun(s: string, p: nat, w: nat)
    requires p <= w <= |s|
    requires forall k :: p <= k < w ==> IsAlnum(s[k])
    requires w < |s| ==> !IsAlnum(s[w])
    decreases w - p
    ensures AlnumEnd(s, p) == w
  {
    if p < w {
      AlnumEndOfRun(s, p + 1, w);
    }
  }

  /** Every match is a non-empty stretch of ASCII letters and digits. */
  lemma {:induction false} MatchesAreAlnum(s: string, p: nat)
    requires p <= |s|
    decreases |s| - p
    ensures forall i :: 0 <= i < |RegexMatches(s, p)| ==>
      var m := RegexMatches(s, p)[i]; |m| > 0 && forall k :: 0 <= k < |m| ==> IsAlnum(m[k])
  {
    if p < |s| {
      match MatchAt(s, p)
      case Some(e) =>
        MatchesAreAlnum(s, e);
        AlnumEndIsRun(s, p);
        assert AlnumEnd(s, p) >= e;
      case None =>
        MatchesAreAlnum(s, p + 1);
    }
  }

  /** A text with no letter or digit has no words (the `null` case of `match`). */
  lemma NoAlnumNoWords(s: string)
    requires forall k :: 0 <= k < |s| ==> !IsAlnum(s[k])
    ensures CountWords(s) == 0
  {
    NoAlnumFrom(s, 0);
  }

  lemma {:induction false} NoAlnumFrom(s: string, p: nat)
    requires p <= |s|
    requires forall k :: 0 <= k < |s| ==> !IsAlnum(s[k])
    decreases |s| - p
    ensures RegexMatches(s, p) == []
  {
    if p < |s| {
      NoAlnumFrom(s, p + 1);
    }
  }

  // ---------------------------------------------------------------------------
  // Word counts of concatenations
  // ---------------------------------------------------------------------------

  /** A run that starts in `a` and ends before `a` does is unaffected by `b`. */
  lemma {:induction false} LeadingRunWithin(a: string, b: string)
    requires LeadingRun(a) < |a|
    ensures LeadingRun(a + b) == LeadingRun(a)
  {
    if a != [] && IsWordChar(a[0]) {
      assert (a + b)[1..] == a[1..] + b;
      LeadingRunWithin(a[1..], b);
    }
  }

  /** A run that fills all of `a` continues into `b`. */
  lemma {:induction false} LeadingRunAcross(a: string, b: string)
    requires LeadingRun(a) == |a|
    ensures LeadingRun(a + b) == |a| + LeadingRun(b)
  {
    if a != [] {
      assert (a + b)[1..] == a[1..] + b;
      LeadingRunAcross(a[1..], b);
    } else {
      assert a + b == b;
    }
  }

  /** Clean runs are subadditive, and additive when `a` and `b` meet at a
      non-word character. */
  lemma {:induction false} CleanRunsConcat(a: string, b: string)
    decreases |a|
    ensures CleanRuns(a + b) <= CleanRuns(a) + CleanRuns(b)
    ensures (a == [] || b == [] || !IsWordChar(a[|a| - 1]) || !IsWordChar(b[0])) ==>
      CleanRuns(a + b) == CleanRuns(a) + CleanRuns(b)
  {
    if a == [] {
      assert a + b == b;
    } else if !IsWordChar(a[0]) {
      assert (a + b)[1..] == a[1..] + b;
      CleanRunsConcat(a[1..], b);
    } else if LeadingRun(a) < |a| {
      CleanRunsWithin(a, b);
      CleanRunsConcat(a[LeadingRun(a)..], b);
    } else {
      LeadingRunIsRun(a);
      CleanRunsAcross(a, b);
    }
  }

  /** A first run that ends inside `a` is counted alike in `a` and in `a + b`. */
  lemma CleanRunsWithin(a: string, b: string)
    requires a != [] && IsWordChar(a[0]) && LeadingRun(a) < |a|
    ensures var n := LeadingRun(a);
      && CleanRuns(a) == (if NoUnderscore(a[..n]) then 1 else 0) + CleanRuns(a[n..])
      && CleanRuns(a + b) == (if NoUnderscore(a[..n]) then 1 else 0) + CleanRuns(a[n..] + b)
  {
    var n := LeadingRun(a);
    LeadingRunWithin(a, b);
    assert (a + b)[..n] == a[..n];
    assert (a + b)[n..] == a[n..] + b;
  }

  /** When `a` is one run of word characters, it merges with the first run
      of `b`: at most one clean run is lost, and none when `b` does not start
      with a word character. */
  lemma CleanRunsAcross(a: string, b: string)
    requires a != [] && LeadingRun(a) == |a|
    ensures CleanRuns(a + b) <= CleanRuns(a) + CleanRuns(b)
    ensures (b == [] || !IsWordChar(b[0])) ==> CleanRuns(a + b) == CleanRuns(a) + CleanRuns(b)
  {
    LeadingRunAcross(a, b);
    var m := LeadingRun(b);
    assert (a + b)[..|a| + m] == a + b[..m];
    assert (a + b)[|a| + m..] == b[m..];
    assert a[|a|..] == [] && a[..|a|] == a;
    assert CleanRuns(a) == if NoUnderscore(a) then 1 else 0;
    if m > 0 {
      NoUnderscoreConcat(a, b[..m]);
    } else {
      assert a + b[..m] == a && b[m..] == b;
    }
  }

  /** `countWords(a + b) <= countWords(a) + countWords(b)`, with equality when
      `a` ends or `b` starts with a character outside `[A-Za-z0-9_]`. */
  lemma CountWordsConcat(a: string, b: string)
    ensures CountWords(a + b) <= CountWords(a) + CountWords(b)
    ensures (a == [] || b == [] || !IsWordChar(a[|a| - 1]) || !IsWordChar(b[0])) ==>
      CountWords(a + b) == CountWords(a) + CountWords(b)
  {
    CleanRunsConcat(a, b);
  }
}
