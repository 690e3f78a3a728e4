/** The pure note helpers of src/utils.ts: the tag predicates that decide which
    notes a command works on, `clean_text`, the h1 split of
    `extract_title_and_note`, the Affinity search term and the venture-network
    list scan. */
module Notes {
  import opened Text
  import opened Words

  // ---------------------------------------------------------------------------
  // Tag predicates (src/utils.ts:288-293, 325-343)
  // ---------------------------------------------------------------------------

  /** `startup_ready_for_affinity`. */
  predicate StartupReadyForAffinity(fileContent: string) {
    Contains(fileContent, "#startups/screened") && Contains(fileContent, "#Affinity")
  }

  /** `is_summarizable`: a connected VC (entity or person) not yet summarised
      and not a dataview note. */
  predicate IsSummarizable(fileContent: string) {
    Contains(fileContent, "#network/connected")
    && (Contains(fileContent, "#Entity/VC") || Contains(fileContent, "#Person/VC"))
    && !Contains(fileContent, "#gpt_summarized")
    && !Contains(fileContent, "dataview")
  }

  /** `vc_ready_for_affinity`. */
  predicate VcReadyForAffinity(fileContent: string) {
    Contains(fileContent, "#gpt_summarized") && Contains(fileContent, "#Affinity")
  }

  /** A summarised VC note is never summarisable again, and once it is tagged
      `#Affinity` it is ready to be pushed. */
  lemma SummarizedVcNote(a: string, b: string)
    ensures !IsSummarizable(a + "#gpt_summarized" + b)
    ensures Contains(a + "#gpt_summarized" + b, "#Affinity") ==> VcReadyForAffinity(a + "#gpt_summarized" + b)
  {
    ContainsInfix(a, "#gpt_summarized", b);
  }

  /** A note that mentions `dataview` is never summarisable. */
  lemma DataviewNotSummarizable(a: string, b: string)
    ensures !IsSummarizable(a + "dataview" + b)
  {
    ContainsInfix(a, "dataview", b);
  }

  // ---------------------------------------------------------------------------
  // clean_text (src/utils.ts:319-323)
  // ---------------------------------------------------------------------------

  /** The characters `[A-Za-z0-9\s.]` that the cleaning keeps. */
  predicate Allowed(c: char) {
    IsAlnum(c) || IsWhitespace(c) || c == '.'
  }

  /** `s.replace(/[^A-Za-z0-9\s.]/g, "")`: every other character removed. */
  function KeepAllowed(s: string): (r: string)
    decreases |s|
    ensures |r| <= |s|
    ensures forall k :: 0 <= k < |r| ==> Allowed(r[k])
  {
    if s == [] then [] else (if Allowed(s[0]) then [s[0]] else []) + KeepAllowed(s[1..])
  }

  /** `clean_text`. */
  function CleanText(startupName: string): string {
    Trim(KeepAllowed(startupName))
  }

  /** A text made of allowed characters is kept whole. */
  lemma {:induction false} KeepAllowedOfAllowed(s: string)
    requires forall k :: 0 <= k < |s| ==> Allowed(s[k])
    decreases |s|
    ensures KeepAllowed(s) == s
  {
    if s != [] {
      KeepAllowedOfAllowed(s[1..]);
    }
  }

  /** Trimming a trimmed text changes nothing. */
  lemma TrimIdempotent(s: string)
    ensures Trim(Trim(s)) == Trim(s)
    ensures var r := Trim(s); r != [] ==> !IsWhitespace(r[0]) && !IsWhitespace(r[|r| - 1])
  {
    var t := TrimStart(s);
    var r := TrimEnd(t);
    if r != [] {
      assert r[0] == t[0];
    }
    assert TrimStart(r) == r;
    assert TrimEnd(r) == r;
  }

  /** The result of `clean_text` holds only allowed characters, has no leading
      or trailing whitespace, and cleaning it again changes nothing. */
  lemma CleanTextLaws(s: string)
    ensures var r := CleanText(s);
      && (forall k :: 0 <= k < |r| ==> Allowed(r[k]))
      && (r != [] ==> !IsWhitespace(r[0]) && !IsWhitespace(r[|r| - 1]))
      && CleanText(r) == r
  {
    CleanTextAllowed(s);
    TrimIdempotent(KeepAllowed(s));
    CleanTextIdempotent(CleanText(s));
  }

  /** Every character of a cleaned text is allowed. */
  lemma CleanTextAllowed(s: string)
    ensures forall k :: 0 <= k < |CleanText(s)| ==> Allowed(CleanText(s)[k])
  {
    var f := KeepAllowed(s);
    var t := TrimStart(f);
    var r := TrimEnd(t);
    AllowedSlice(f, |f| - |t|, |f|);
    AllowedSlice(t, 0, |r|);
  }

  /** Cleaning a trimmed text of allowed characters changes nothing. */
  lemma CleanTextIdempotent(r: string)
    requires forall k :: 0 <= k < |r| ==> Allowed(r[k])
    requires Trim(r) == r
    ensures CleanText(r) == r
  {
    KeepAllowedOfAllowed(r);
  }

  /** A slice of a text of allowed characters has only allowed characters. */
  lemma AllowedSlice(s: string, i: nat, j: nat)
    requires i <= j <= |s|
    requires forall k :: 0 <= k < |s| ==> Allowed(s[k])
    ensures forall k :: 0 <= k < j - i ==> Allowed(s[i..j][k])
  {
    forall k | 0 <= k < j - i ensures Allowed(s[i..j][k]) {
      assert s[i..j][k] == s[i + k];
    }
  }

  // ---------------------------------------------------------------------------
  // extract_title_and_note (src/utils.ts:295-317)
  // ---------------------------------------------------------------------------

  /** A line of the form `# ...\n`: `# `, then no line break, then one. */
  predicate IsH1Line(l: string) {
    |l| >= 3 && l[..2] == "# " && l[|l| - 1] == '\n' && '\n' !in l[..|l| - 1]
  }

  /** One attempt of `/^# .*\n/m` at index `p`: the end of the match, if any. */
  function H1At(s: string, p: nat): (r: Option<nat>)
    requires p <= |s|
    ensures r.Some? <==> AtLineStart(s, p) && StartsWith(s[p..], "# ") && '\n' in s[p + 2..]
    ensures r.Some? ==> p + 3 <= r.value <= |s| && IsH1Line(s[p..r.value])
  {
    if AtLineStart(s, p) && StartsWith(s[p..], "# ") then
      match IndexOfFrom(s, "\n", p + 2)
      case None =>
        NoLineBreakFrom(s, p + 2);
        None
      case Some(e) =>
        LineBreakAt(s, p + 2, e);
        H1LineEnd(s, p, e);
        Some(e + 1)
    else None
  }

  /** Where the search for a line break from `from` fails, there is none. */
  lemma NoLineBreakFrom(s: string, from: nat)
    requires from <= |s| && IndexOfFrom(s, "\n", from).None?
    ensures '\n' !in s[from..]
  {
    IndexOfFromIsFirst(s, "\n", from);
    forall k | from <= k < |s| ensures s[k] != '\n' { assert !StartsWith(s[k..], "\n"); }
    assert forall k :: 0 <= k < |s[from..]| ==> s[from..][k] == s[from + k];
  }

  /** Where the search for a line break from `from` finds `e`, `e` holds one
      and nothing before it from `from` does. */
  lemma LineBreakAt(s: string, from: nat, e: nat)
    requires from <= |s| && IndexOfFrom(s, "\n", from) == Some(e)
    ensures from <= e < |s| && s[e] == '\n'
    ensures forall k :: from <= k < e ==> s[k] != '\n'
  {
    IndexOfFromIsFirst(s, "\n", from);
    assert StartsWith(s[e..], "\n");
    forall k | from <= k < e ensures s[k] != '\n' { assert !StartsWith(s[k..], "\n"); }
  }

  /** `# ` at `p` and the first line break after it at `e` make an h1 line. */
  lemma H1LineEnd(s: string, p: nat, e: nat)
    requires p + 2 <= e < |s| && StartsWith(s[p..], "# ") && s[e] == '\n'
    requires forall k :: p + 2 <= k < e ==> s[k] != '\n'
    ensures IsH1Line(s[p..e + 1]) && '\n' in s[p + 2..]
  {
    var l := s[p..e + 1];
    assert l[..2] == s[p..][..2];
    assert l[..|l| - 1] == s[p..e];
    assert s[p + 2..][e - p - 2] == '\n';
  }

  /** `text.match(pattern)` from index `q`: every match, in order. */
  function H1Matches(s: string, q: nat): seq<string>
    requires q <= |s|
    decreases |s| - q
  {
    if q == |s| then []
    else match H1At(s, q)
      case Some(e) => [s[q..e]] + H1Matches(s, e)
      case None => H1Matches(s, q + 1)
  }

  /** `text.split(pattern)` with the current piece starting at `p` and the
      search at `q`. */
  function H1Pieces(s: string, p: nat, q: nat): seq<string>
    requires p <= q <= |s|
    decreases |s| - q
  {
    if q == |s| then [s[p..]]
    else match H1At(s, q)
      case Some(e) => [s[p..q]] + H1Pieces(s, e, e)
      case None => H1Pieces(s, p, q + 1)
  }

  /** The result of `extract_title_and_note`: the first h1 line, or `""`, and
      the pieces of the text around the h1 lines. */
  function ExtractTitleAndNote(text: string): (string, seq<string>) {
    var matches := H1Matches(text, 0);
    (if matches == [] then "" else matches[0], H1Pieces(text, 0, 0))
  }

  /** The pieces with the matched lines put back between them. */
  function Interleave(pieces: seq<string>, lines: seq<string>): string
    requires |pieces| == |lines| + 1
    decreases |lines|
  {
    if lines == [] then pieces[0] else pieces[0] + lines[0] + Interleave(pieces[1..], lines[1..])
  }

  /** There is one more piece than there are h1 lines, and the pieces with
      the lines put back between them are the text from `p`. */
  lemma {:induction false} PiecesAroundMatches(s: string, p: nat, q: nat)
    requires p <= q <= |s|
    decreases |s| - q
    ensures |H1Pieces(s, p, q)| == |H1Matches(s, q)| + 1
    ensures Interleave(H1Pieces(s, p, q), H1Matches(s, q)) == s[p..]
  {
    if q < |s| {
      match H1At(s, q)
      case Some(e) =>
        PiecesAroundMatches(s, e, e);
        InterleaveStep(s, p, q, e, H1Pieces(s, e, e), H1Matches(s, e));
      case None =>
        PiecesAroundMatches(s, p, q + 1);
    }
  }

  /** Putting one more piece and line in front of an interleaving of the text
      from `e` gives the text from `p`. */
  lemma InterleaveStep(s: string, p: nat, q: nat, e: nat, rest: seq<string>, lines: seq<string>)
    requires p <= q <= e <= |s|
    requires |rest| == |lines| + 1 && Interleave(rest, lines) == s[e..]
    ensures Interleave([s[p..q]] + rest, [s[q..e]] + lines) == s[p..]
  {
    var a, b := s[p..q], s[q..e];
    InterleaveCons(a, b, rest, lines);
    SliceSplit(s, q, e);
    SliceSplit(s, p, q);
  }

  /** Interleaving after one more piece and line. */
  lemma InterleaveCons(x: string, y: string, rest: seq<string>, lines: seq<string>)
    requires |rest| == |lines| + 1
    ensures Interleave([x] + rest, [y] + lines) == x + y + Interleave(rest, lines)
  {
    assert ([x] + rest)[1..] == rest;
    assert ([y] + lines)[1..] == lines;
  }

  /** The text from `i` is its slice up to `j` followed by the text from `j`. */
  lemma SliceSplit(s: string, i: nat, j: nat)
    requires i <= j <= |s|
    ensures s[i..] == s[i..j] + s[j..]
  {
  }

  /** Every match is an h1 line that starts a line of the text. */
  lemma {:induction false} MatchesAreH1Lines(s: string, q: nat)
    requires q <= |s|
    decreases |s| - q
    ensures forall k :: 0 <= k < |H1Matches(s, q)| ==> IsH1Line(H1Matches(s, q)[k])
  {
    if q < |s| {
      match H1At(s, q)
      case Some(e) => MatchesAreH1Lines(s, e);
      case None => MatchesAreH1Lines(s, q + 1);
    }
  }

  /** There is no match from `q` exactly when no index from `q` starts an h1
      line. */
  lemma {:induction false} NoMatchIff(s: string, q: nat)
    requires q <= |s|
    decreases |s| - q
    ensures H1Matches(s, q) == [] <==> forall p :: q <= p <= |s| ==> H1At(s, p).None?
  {
    if q == |s| {
      assert !StartsWith(s[q..], "# ");
    } else if H1At(s, q).None? {
      NoMatchIff(s, q + 1);
      assert H1Matches(s, q) == H1Matches(s, q + 1);
    }
  }

  /** The first match from `q` is the h1 line at the first index from `q`
      that starts one. */
  lemma {:induction false} FirstMatchAt(s: string, q: nat) returns (p: nat)
    requires q <= |s| && H1Matches(s, q) != []
    decreases |s| - q
    ensures q <= p <= |s| && H1At(s, p).Some?
    ensures H1Matches(s, q)[0] == s[p..H1At(s, p).value]
    ensures forall p' :: q <= p' < p ==> H1At(s, p').None?
  {
    if H1At(s, q).Some? {
      p := q;
    } else {
      assert H1Matches(s, q) == H1Matches(s, q + 1);
      p := FirstMatchAt(s, q + 1);
    }
  }

  /** The first match from `q` is the h1 line at the first line start at or
      after `q` that begins one; there is none exactly when no such line
      start exists. */
  lemma FirstMatch(s: string, q: nat)
    requires q <= |s|
    ensures H1Matches(s, q) == [] <==> forall p :: q <= p <= |s| ==> H1At(s, p).None?
    ensures H1Matches(s, q) != [] ==>
      (exists p :: q <= p <= |s| && H1At(s, p).Some?
        && H1Matches(s, q)[0] == s[p..H1At(s, p).value]
        && forall p' :: q <= p' < p ==> H1At(s, p').None?)
  {
    NoMatchIff(s, q);
    if H1Matches(s, q) != [] {
      var p := FirstMatchAt(s, q);
    }
  }

  /** `extract_title_and_note`: the title is the first `# ...\n` line at a
      line start, its line break included, or `""` when there is none; there
      is one more piece than there are such lines; and putting the lines back
      between the pieces gives the text. */
  lemma ExtractTitleAndNoteLaws(text: string)
    ensures var (title, pieces) := ExtractTitleAndNote(text);
      var lines := H1Matches(text, 0);
      && |pieces| == |lines| + 1
      && Interleave(pieces, lines) == text
      && (forall k :: 0 <= k < |lines| ==> IsH1Line(lines[k]))
      && (title == "" <==> forall p :: 0 <= p <= |text| ==> H1At(text, p).None?)
      && (title != "" ==>
            (exists p :: 0 <= p <= |text| && H1At(text, p).Some?
              && title == text[p..H1At(text, p).value]
              && forall p' :: 0 <= p' < p ==> H1At(text, p').None?))
  {
    PiecesAroundMatches(text, 0, 0);
    MatchesAreH1Lines(text, 0);
    FirstMatch(text, 0);
    assert text[0..] == text;
    var lines := H1Matches(text, 0);
    if lines != [] {
      assert IsH1Line(lines[0]);
    }
  }

  // ---------------------------------------------------------------------------
  // The Affinity search term (src/utils.ts:53-59)
  // ---------------------------------------------------------------------------

  /** The loop of `get_startup_by_name` joining the name parts with `+`. */
  method BuildSearchTerm(startupName: string) returns (searchTerm: string)
    ensures searchTerm == Join(Split(startupName, " "), "+")
  {
    var subnames := Split(startupName, " ");
    searchTerm := subnames[0];
    if |subnames| > 1 {
      for i := 1 to |subnames|
        invariant searchTerm == Join(subnames[..i], "+")
      {
        JoinSnoc(subnames[..i], subnames[i], "+");
        assert subnames[..i + 1] == subnames[..i] + [subnames[i]];
        searchTerm := searchTerm + "+" + subnames[i];
      }
      assert subnames[..|subnames|] == subnames;
    }
  }

  /** Every character `a` of `s` replaced by `b`. */
  function ReplaceChar(s: string, a: char, b: char): (r: string)
    ensures |r| == |s|
    ensures forall k :: 0 <= k < |s| ==> r[k] == if s[k] == a then b else s[k]
  {
    if s == [] then [] else [if s[0] == a then b else s[0]] + ReplaceChar(s[1..], a, b)
  }

  /** The character replacement distributes over concatenation. */
  lemma ReplaceCharAppend(a: string, b: string, x: char, y: char)
    ensures ReplaceChar(a + b, x, y) == ReplaceChar(a, x, y) + ReplaceChar(b, x, y)
  {
  }

  /** Replacing spaces in a text whose first space ends `head`. */
  lemma ReplaceAtFirstSpace(head: string, rest: string)
    requires forall k :: 0 <= k < |head| ==> head[k] != ' '
    ensures ReplaceChar(head + " " + rest, ' ', '+') == head + "+" + ReplaceChar(rest, ' ', '+')
  {
    ReplaceCharAbsent(head, ' ', '+');
    assert head + " " + rest == head + (" " + rest);
    ReplaceCharAppend(head, " " + rest, ' ', '+');
    ReplaceCharAppend(" ", rest, ' ', '+');
    assert ReplaceChar(" ", ' ', '+') == "+";
  }

  /** A text without `a` is left alone by replacing `a`. */
  lemma ReplaceCharAbsent(s: string, a: char, b: char)
    requires forall k :: 0 <= k < |s| ==> s[k] != a
    ensures ReplaceChar(s, a, b) == s
  {
  }

  /** The split at the first space of a text. */
  lemma FirstSpace(s: string, i: nat)
    requires FirstAt(s, " ", i)
    ensures i < |s| && s == s[..i] + " " + s[i + 1..]
    ensures forall k :: 0 <= k < i ==> s[k] != ' '
  {
    forall k | 0 <= k < i ensures s[k] != ' ' {
      assert !StartsWith(s[k..], " ");
    }
    assert s[i] == ' ' by { assert StartsWith(s[i..], " "); }
    assert s[..i + 1] == s[..i] + " ";
    assert s == s[..i + 1] + s[i + 1..];
  }

  /** The search term is the name with every space turned into `+`. */
  lemma {:induction false} SearchTermReplacesSpaces(s: string)
    decreases |s|
    ensures Join(Split(s, " "), "+") == ReplaceChar(s, ' ', '+')
  {
    match IndexOf(s, " ")
    case None =>
      forall k | 0 <= k < |s| ensures s[k] != ' ' {
        assert !StartsWith(s[k..], " ");
      }
    case Some(i) =>
      FirstSpace(s, i);
      var head, rest := s[..i], s[i + 1..];
      SearchTermReplacesSpaces(rest);
      ReplaceAtFirstSpace(head, rest);
      var tail := Split(rest, " ");
      assert Split(s, " ") == [head] + tail;
      assert ([head] + tail)[1..] == tail;
      assert Join([head] + tail, "+") == head + "+" + Join(tail, "+");
  }

  // ---------------------------------------------------------------------------
  // is_person_in_venture_network (src/utils.ts:173-185)
  // ---------------------------------------------------------------------------

  /** One of a person's `list_entries`: its own id and the numeric id of the list. */
  datatype ListEntry = ListEntry(id: nat, listId: nat)

  /** The entry matches when the list id, rendered as a string, equals the given id. */
  predicate OnList(entry: ListEntry, ventureNetworkListId: string) {
    DecimalString(entry.listId) == ventureNetworkListId
  }

  /** The scan of `list_entries`: the id of the first entry on the list, or
      None (`null`). */
  method IsPersonInVentureNetwork(listEntries: seq<ListEntry>, ventureNetworkListId: string) returns (r: Option<nat>)
    ensures r.None? <==> forall k :: 0 <= k < |listEntries| ==> !OnList(listEntries[k], ventureNetworkListId)
    ensures r.Some? ==>
      (exists k :: 0 <= k < |listEntries| && OnList(listEntries[k], ventureNetworkListId)
        && r.value == listEntries[k].id
        && forall j :: 0 <= j < k ==> !OnList(listEntries[j], ventureNetworkListId))
  {
    for i := 0 to |listEntries|
      invariant forall j :: 0 <= j < i ==> !OnList(listEntries[j], ventureNetworkListId)
    {
      if DecimalString(listEntries[i].listId) == ventureNetworkListId {
        return Some(listEntries[i].id);
      }
    }
    return None;
  }

  /** For a list id that is the rendering of a number, an entry is on the list
      exactly when its numeric list id is that number. */
  lemma OnListNumeric(entry: ListEntry, n: nat)
    ensures OnList(entry, DecimalString(n)) <==> entry.listId == n
  {
    if OnList(entry, DecimalString(n)) {
      DecimalStringInjective(entry.listId, n);
    }
  }
}
