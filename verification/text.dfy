/** String helpers shared by every component: the JavaScript string methods the
    plugin calls (`includes`, `indexOf`, `replace` with a string pattern,
    `split`, `trim`, `toLowerCase`, number-to-string) stated over `seq<char>`. */
module Text {

  datatype Option<T> = None | Some(value: T)

  /** The outcome of an operation that can throw. */
  datatype Result<T, E> = Success(value: T) | Failure(error: E)

  // ---------------------------------------------------------------------------
  // Occurrences of a pattern
  // ---------------------------------------------------------------------------

  /** `s` begins with `pat`. */
  predicate StartsWith(s: string, pat: string) {
    |pat| <= |s| && s[..|pat|] == pat
  }

  /** `pat` occurs in `s` starting at index `i`. */
  predicate OccursAt(s: string, pat: string, i: int) {
    0 <= i <= |s| && StartsWith(s[i..], pat)
  }

  /** `i` is the left-most index at which `pat` occurs in `s`. */
  predicate FirstAt(s: string, pat: string, i: int) {
    OccursAt(s, pat, i) && forall j :: 0 <= j < i ==> !StartsWith(s[j..], pat)
  }

  /** `pat` occurs nowhere in `s`. */
  predicate Absent(s: string, pat: string) {
    forall j :: 0 <= j <= |s| ==> !StartsWith(s[j..], pat)
  }

  /** `pat` occurs in `s` at `from`, compared character by character. */
  predicate MatchesAt(s: string, pat: string, from: nat)
    requires from <= |s|
    decreases |pat|
  {
    pat == [] || (from < |s| && s[from] == pat[0] && MatchesAt(s, pat[1..], from + 1))
  }

  /** The character comparison is the prefix test. */
  lemma {:induction false} MatchesAtIsStartsWith(s: string, pat: string, from: nat)
    requires from <= |s|
    decreases |pat|
    ensures MatchesAt(s, pat, from) <==> StartsWith(s[from..], pat)
  {
    if pat != [] && from < |s| {
      MatchesAtIsStartsWith(s, pat[1..], from + 1);
      if s[from] == pat[0] {
        assert StartsWith(s[from..], pat) <==> StartsWith(s[from + 1..], pat[1..]) by {
          if |pat| <= |s| - from {
            assert s[from..][..|pat|] == [s[from]] + s[from + 1..][..|pat| - 1];
            assert pat == [pat[0]] + pat[1..];
          }
        }
      } else {
        assert s[from..][0] == s[from];
      }
    }
  }

  /** JavaScript `s.indexOf(pat, from)`: the first index at or after `from`
      where `pat` occurs, or None (JavaScript's -1). */
  function IndexOfFrom(s: string, pat: string, from: nat): (r: Option<nat>)
    requires from <= |s|
    decreases |s| - from
    ensures r.Some? ==> from <= r.value <= |s| && StartsWith(s[r.value..], pat)
  {
    MatchesAtIsStartsWith(s, pat, from);
    if MatchesAt(s, pat, from) then Some(from)
    else if from == |s| then None
    else IndexOfFrom(s, pat, from + 1)
  }

  /** The index found is the first occurrence from `from`, and there is none
      exactly when the pattern occurs nowhere from `from`. */
  lemma {:induction false} IndexOfFromIsFirst(s: string, pat: string, from: nat)
    requires from <= |s|
    decreases |s| - from
    ensures var r := IndexOfFrom(s, pat, from);
      r.Some? ==> forall j {:trigger StartsWith(s[j..], pat)} :: from <= j < r.value ==> !StartsWith(s[j..], pat)
    ensures IndexOfFrom(s, pat, from).None? <==>
      forall j {:trigger StartsWith(s[j..], pat)} :: from <= j <= |s| ==> !StartsWith(s[j..], pat)
  {
    MatchesAtIsStartsWith(s, pat, from);
    if !MatchesAt(s, pat, from) && from < |s| {
      IndexOfFromIsFirst(s, pat, from + 1);
    }
  }

  /** JavaScript `s.indexOf(pat)`. */
  function IndexOf(s: string, pat: string): (r: Option<nat>)
    ensures r.Some? <==> !Absent(s, pat)
    ensures r.Some? ==> FirstAt(s, pat, r.value)
  {
    IndexOfFromIsFirst(s, pat, 0);
    IndexOfFrom(s, pat, 0)
  }

  /** JavaScript `s.includes(pat)`. */
  predicate Contains(s: string, pat: string) {
    IndexOf(s, pat).Some?
  }

  /** An occurrence anywhere makes `Contains` true. */
  lemma OccursContains(s: string, pat: string, i: int)
    requires OccursAt(s, pat, i)
    ensures Contains(s, pat)
  {
  }

  /** A pattern inside the middle part of a concatenation is contained in it. */
  lemma ContainsInfix(a: string, b: string, c: string)
    ensures Contains(a + b + c, b)
  {
    var s := a + b + c;
    assert s[|a|..][..|b|] == b;
    OccursContains(s, b, |a|);
  }

  /** A pattern that occurs in `s` occurs in every extension of `s`. */
  lemma ContainsExtend(a: string, s: string, c: string, pat: string)
    requires Contains(s, pat)
    ensures Contains(a + s + c, pat)
  {
    var i := IndexOf(s, pat).value;
    var t := a + s + c;
    assert t[|a| + i..][..|pat|] == s[i..][..|pat|];
    OccursContains(t, pat, |a| + i);
  }

  /** `pat` at index `i` of a prefix of `s` also occurs in `s` at `i`. */
  lemma OccursInPrefix(s: string, n: nat, pat: string, i: int)
    requires n <= |s| && OccursAt(s[..n], pat, i)
    ensures OccursAt(s, pat, i)
  {
    assert s[i..][..|pat|] == s[..n][i..][..|pat|];
  }

  // ---------------------------------------------------------------------------
  // replace, split, join
  // ---------------------------------------------------------------------------

  /** JavaScript `s.replace(pat, rep)` with a string pattern: only the FIRST
      occurrence is rewritten (the replacements used here hold no `$`). */
  function ReplaceFirst(s: string, pat: string, rep: string): (r: string)
    ensures Absent(s, pat) ==> r == s
    ensures forall i :: FirstAt(s, pat, i) ==> r == s[..i] + rep + s[i + |pat|..]
  {
    match IndexOf(s, pat)
    case None => s
    case Some(i) => FirstAtUnique(s, pat, i); s[..i] + rep + s[i + |pat|..]
  }

  /** `replace` rewrites only the first occurrence: the text before it is
      kept, and a later occurrence is still there, moved by the difference in
      length between the pattern and its replacement. */
  lemma ReplaceFirstKeepsLater(s: string, pat: string, rep: string, i: nat, j: nat)
    requires FirstAt(s, pat, i)
    requires OccursAt(s, pat, j) && j >= i + |pat|
    ensures var r := ReplaceFirst(s, pat, rep);
      r[..i] == s[..i] && OccursAt(r, pat, j - |pat| + |rep|)
  {
    var r := ReplaceFirst(s, pat, rep);
    assert r == s[..i] + rep + s[i + |pat|..];
    assert r[j - |pat| + |rep|..] == s[j..];
  }

  /** `replace` changes the length by the difference between the replacement
      and the pattern, or not at all when the pattern is absent. */
  lemma ReplaceFirstLength(s: string, pat: string, rep: string)
    ensures |ReplaceFirst(s, pat, rep)| == |s| + (if Absent(s, pat) then 0 else |rep| - |pat|)
  {
    if !Absent(s, pat) {
      var i := IndexOf(s, pat).value;
      assert FirstAt(s, pat, i);
    }
  }

  /** A pattern without line breaks that is absent from a prefix ending in a
      line break cannot start inside that prefix. */
  lemma NotStartedInPrefix(p: string, t: string, pat: string)
    requires p != [] && p[|p| - 1] == '\n' && '\n' !in pat
    requires Absent(p, pat)
    ensures forall j :: 0 <= j < |p| ==> !StartsWith((p + t)[j..], pat)
  {
    var s := p + t;
    forall j | 0 <= j < |p| ensures !StartsWith(s[j..], pat) {
      if j + |pat| <= |p| {
        assert p[j..][..|pat|] == s[j..][..|pat|];
      } else if |pat| <= |s| - j {
        assert s[j..][..|pat|][|p| - 1 - j] == '\n';
      }
    }
  }

  /** A prefix that ends with a line break and holds no occurrence of a
      pattern without line breaks is untouched by `replace`. */
  lemma ReplaceFirstBehindPrefix(p: string, t: string, pat: string, rep: string)
    requires p != [] && p[|p| - 1] == '\n' && '\n' !in pat
    requires Absent(p, pat)
    ensures ReplaceFirst(p + t, pat, rep) == p + ReplaceFirst(t, pat, rep)
  {
    match IndexOf(t, pat)
    case None =>
      AbsentBehindPrefix(p, t, pat);
    case Some(i) =>
      ReplaceBehindPrefixAt(p, t, pat, rep, i);
  }

  lemma ReplaceBehindPrefixAt(p: string, t: string, pat: string, rep: string, i: nat)
    requires p != [] && p[|p| - 1] == '\n' && '\n' !in pat
    requires Absent(p, pat) && FirstAt(t, pat, i)
    ensures ReplaceFirst(p + t, pat, rep) == p + ReplaceFirst(t, pat, rep)
  {
    var s := p + t;
    FirstBehindPrefix(p, t, pat, i);
    var r1 := ReplaceFirst(s, pat, rep);
    var r2 := ReplaceFirst(t, pat, rep);
    assert r1 == s[..|p| + i] + rep + s[|p| + i + |pat|..];
    var a, b := t[..i], t[i + |pat|..];
    assert r2 == a + rep + b;
    assert s[..|p| + i] == p + a;
    assert s[|p| + i + |pat|..] == b;
    assert r1 == (p + a) + rep + b;
    ConcatAssoc(p, a, rep, b);
  }

  lemma ConcatAssoc<T>(p: seq<T>, a: seq<T>, m: seq<T>, b: seq<T>)
    ensures (p + a) + m + b == p + (a + m + b)
  {
  }

  lemma AbsentBehindPrefix(p: string, t: string, pat: string)
    requires p != [] && p[|p| - 1] == '\n' && '\n' !in pat
    requires Absent(p, pat) && Absent(t, pat)
    ensures Absent(p + t, pat)
  {
    var s := p + t;
    NotStartedInPrefix(p, t, pat);
    forall k | |p| <= k <= |s| ensures !StartsWith(s[k..], pat) {
      assert s[k..] == t[k - |p|..];
    }
  }

  lemma FirstBehindPrefix(p: string, t: string, pat: string, i: nat)
    requires p != [] && p[|p| - 1] == '\n' && '\n' !in pat
    requires Absent(p, pat) && FirstAt(t, pat, i)
    ensures FirstAt(p + t, pat, |p| + i)
  {
    var s := p + t;
    NotStartedInPrefix(p, t, pat);
    assert s[|p| + i..] == t[i..];
    forall k | |p| <= k < |p| + i ensures !StartsWith(s[k..], pat) {
      assert s[k..] == t[k - |p|..];
    }
  }

  /** There is only one left-most occurrence. */
  lemma FirstAtUnique(s: string, pat: string, i: int)
    requires FirstAt(s, pat, i)
    ensures forall j :: FirstAt(s, pat, j) ==> j == i
  {
  }

  /** JavaScript `s.split(sep)` for a non-empty string separator. */
  function Split(s: string, sep: string): (r: seq<string>)
    requires |sep| > 0
    decreases |s|
    ensures |r| >= 1
    ensures forall k :: 0 <= k < |r| ==> Absent(r[k], sep)
  {
    match IndexOf(s, sep)
    case None => [s]
    case Some(i) =>
      forall j | 0 <= j <= i ensures !StartsWith(s[..i][j..], sep) {
        if StartsWith(s[..i][j..], sep) { OccursInPrefix(s, i, sep, j); }
      }
      [s[..i]] + Split(s[i + |sep|..], sep)
  }

  /** JavaScript `parts.join(sep)`. */
  function Join(parts: seq<string>, sep: string): string
    decreases |parts|
  {
    if parts == [] then ""
    else if |parts| == 1 then parts[0]
    else parts[0] + sep + Join(parts[1..], sep)
  }

  /** Joining a list with one more element. */
  lemma {:induction false} JoinSnoc(parts: seq<string>, x: string, sep: string)
    requires parts != []
    decreases |parts|
    ensures Join(parts + [x], sep) == Join(parts, sep) + sep + x
  {
    if |parts| == 1 {
      assert (parts + [x])[1..] == [x];
    } else {
      assert (parts + [x])[1..] == parts[1..] + [x];
      JoinSnoc(parts[1..], x, sep);
    }
  }

  /** `parts[k]` as JavaScript's `+` renders it: an index past the end reads
      `undefined`, which concatenates as the text "undefined". */
  function JsAt(parts: seq<string>, k: nat): string {
    if k < |parts| then parts[k] else "undefined"
  }

  /** Joining the pieces of a split with the same separator gives back the text. */
  lemma {:induction false} JoinSplit(s: string, sep: string)
    requires |sep| > 0
    decreases |s|
    ensures Join(Split(s, sep), sep) == s
  {
    match IndexOf(s, sep)
    case None =>
    case Some(i) =>
      var rest := s[i + |sep|..];
      SplitAtFirst(s, sep, i);
      JoinCons(s[..i], Split(rest, sep), sep);
      JoinSplit(rest, sep);
      assert s[i..i + |sep|] == sep by { assert s[i..][..|sep|] == s[i..i + |sep|]; }
      SliceAround(s, i, |sep|);
  }

  /** Splitting at the first separator peels off the text before it. */
  lemma SplitAtFirst(s: string, sep: string, i: nat)
    requires |sep| > 0 && IndexOf(s, sep) == Some(i)
    ensures i + |sep| <= |s|
    ensures Split(s, sep) == [s[..i]] + Split(s[i + |sep|..], sep)
  {
    var r := Split(s, sep);
    assert r == [s[..i]] + Split(s[i + |sep|..], sep);
  }

  /** Joining a list with one more element in front. */
  lemma JoinCons(x: string, parts: seq<string>, sep: string)
    requires parts != []
    ensures Join([x] + parts, sep) == x + sep + Join(parts, sep)
  {
    assert ([x] + parts)[1..] == parts;
  }

  /** A text is its part before `i`, the `n` characters from `i`, and the rest. */
  lemma SliceAround(s: string, i: nat, n: nat)
    requires i + n <= |s|
    ensures s == s[..i] + s[i..i + n] + s[i + n..]
  {
    assert s == s[..i] + s[i..];
    assert s[i..] == s[i..i + n] + s[i + n..];
  }

  /** Splitting `a + sep + b` where `a` has no separator peels `a` off. */
  lemma SplitCons(a: string, sep: string, b: string)
    requires |sep| > 0 && Absent(a, sep)
    requires forall j :: 0 <= j < |a| ==> !StartsWith((a + sep + b)[j..], sep)
    ensures Split(a + sep + b, sep) == [a] + Split(b, sep)
  {
    var s := a + sep + b;
    assert s[|a|..][..|sep|] == sep;
    assert FirstAt(s, sep, |a|);
    assert s[..|a|] == a;
    assert s[|a| + |sep|..] == b;
  }

  /** A regular expression's `^` under the `m` flag: the start of the text or just after a line break. */
  predicate AtLineStart(s: string, p: nat)
    requires p <= |s|
  {
    p == 0 || s[p - 1] == '\n'
  }

  // ---------------------------------------------------------------------------
  // Characters, trimming, case
  // ---------------------------------------------------------------------------

  /** JavaScript's `\s` class, which is also what `trim` removes: the
      WhiteSpace and LineTerminator code points. */
  predicate IsWhitespace(c: char) {
    c == ' ' || c == '\t' || c == '\n' || c == '\r' || c == 0x0B as char || c == 0x0C as char
    || c == 0xA0 as char || c == 0x1680 as char || (0x2000 as char <= c <= 0x200A as char)
    || c == 0x2028 as char || c == 0x2029 as char || c == 0x202F as char
    || c == 0x205F as char || c == 0x3000 as char || c == 0xFEFF as char
  }

  function TrimStart(s: string): (r: string)
    ensures |r| <= |s| && r == s[|s| - |r|..]
    ensures r != [] ==> !IsWhitespace(r[0])
    ensures forall k :: 0 <= k < |s| - |r| ==> IsWhitespace(s[k])
  {
    if s != [] && IsWhitespace(s[0]) then TrimStart(s[1..]) else s
  }

  function TrimEnd(s: string): (r: string)
    ensures |r| <= |s| && r == s[..|r|]
    ensures r != [] ==> !IsWhitespace(r[|r| - 1])
    ensures forall k :: |r| <= k < |s| ==> IsWhitespace(s[k])
  {
    if s != [] && IsWhitespace(s[|s| - 1]) then TrimEnd(s[..|s| - 1]) else s
  }

  /** JavaScript `s.trim()`. */
  function Trim(s: string): string {
    TrimEnd(TrimStart(s))
  }

  /** The ASCII letters `A`-`Z` lowered, and U+212A KELVIN SIGN, which
      JavaScript lowers to `k`; every other character unchanged. */
  function LowerChar(c: char): char {
    if 'A' <= c <= 'Z' then (c as int + 32) as char
    else if c == '\U{212A}' then 'k'
    else c
  }

  /** `s.toLowerCase()`, restricted to the characters that lower into ASCII. */
  function ToLower(s: string): (r: string)
    ensures |r| == |s|
    ensures forall k :: 0 <= k < |s| ==> r[k] == LowerChar(s[k])
  {
    if s == [] then [] else [LowerChar(s[0])] + ToLower(s[1..])
  }

  /** Lowering twice is lowering once. */
  lemma ToLowerIdempotent(s: string)
    ensures ToLower(ToLower(s)) == ToLower(s)
  {
    var once := ToLower(s);
    assert forall k :: 0 <= k < |s| ==> LowerChar(once[k]) == once[k];
  }

  // ---------------------------------------------------------------------------
  // Decimal rendering of numbers (template literals, `toString`)
  // ---------------------------------------------------------------------------

  function DigitChar(d: nat): char
    requires d < 10
  {
    ('0' as int + d) as char
  }

  predicate IsDigit(c: char) {
    '0' <= c <= '9'
  }

  /** The decimal rendering JavaScript gives a non-negative integer. */
  function DecimalString(n: nat): (r: string)
    ensures |r| >= 1 && forall k :: 0 <= k < |r| ==> IsDigit(r[k])
    ensures r[0] == '0' ==> n == 0
  {
    if n < 10 then [DigitChar(n)] else DecimalString(n / 10) + [DigitChar(n % 10)]
  }

  /** Reads a string of decimal digits back as a number. */
  function ParseDecimal(s: string): nat
    requires forall k :: 0 <= k < |s| ==> IsDigit(s[k])
  {
    if s == [] then 0 else ParseDecimal(s[..|s| - 1]) * 10 + DigitValue(s[|s| - 1])
  }

  function DigitValue(c: char): nat
    requires IsDigit(c)
  {
    c as int - '0' as int
  }

  /** Rendering is injective: parsing the rendering gives the number back. */
  lemma {:induction false} ParseDecimalString(n: nat)
    ensures ParseDecimal(DecimalString(n)) == n
  {
    var s := DecimalString(n);
    if n >= 10 {
      ParseDecimalString(n / 10);
      assert s[..|s| - 1] == DecimalString(n / 10);
    }
  }

  /** Two numbers render alike only if they are equal. */
  lemma DecimalStringInjective(m: nat, n: nat)
    requires DecimalString(m) == DecimalString(n)
    ensures m == n
  {
    ParseDecimalString(m);
    ParseDecimalString(n);
  }

  // ---------------------------------------------------------------------------
  // Flattening (string concatenation over a list)
  // ---------------------------------------------------------------------------

  /** The concatenation of the elements of `ss`, in order. */
  function Flatten<T>(ss: seq<seq<T>>): seq<T>
    decreases |ss|
  {
    if ss == [] then [] else Flatten(ss[..|ss| - 1]) + ss[|ss| - 1]
  }

  lemma {:induction false} FlattenAppend<T>(a: seq<seq<T>>, b: seq<seq<T>>)
    decreases |b|
    ensures Flatten(a + b) == Flatten(a) + Flatten(b)
  {
    if b != [] {
      var b' := b[..|b| - 1];
      assert (a + b)[..|a + b| - 1] == a + b';
      FlattenAppend(a, b');
      calc {
        Flatten(a + b);
        Flatten(a + b') + b[|b| - 1];
        Flatten(a) + Flatten(b') + b[|b| - 1];
        Flatten(a) + Flatten(b);
      }
    } else {
      assert a + b == a;
    }
  }

  lemma FlattenCons<T>(x: seq<T>, b: seq<seq<T>>)
    ensures Flatten([x] + b) == x + Flatten(b)
  {
    FlattenAppend([x], b);
    assert Flatten([x]) == Flatten([]) + x;
  }
}
