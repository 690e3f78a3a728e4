/** The helpers of the master-note update in src/main.ts: the header scan
    `extractHeadersFromNotes`, the line search `findLineNumber`, the category
    to heading map `getStartHeader`, and the grouping of categorised lines into
    dated update messages (`get_updates_from_categories`,
    `create_update_messages`). */
module MasterNote {
  import opened Text

  // ---------------------------------------------------------------------------
  // extractHeadersFromNotes (src/main.ts:276-286): /^#+\s+.+$/gm
  // ---------------------------------------------------------------------------

  /** The three character classes of the pattern: `#`, `\s` and `.`. */
  datatype CharClass = Hash | Space | Dot

  predicate InClass(c: char, cls: CharClass) {
    match cls
    case Hash => c == '#'
    case Space => IsWhitespace(c)
    case Dot => c != '\n'
  }

  /** The length of the longest run of `cls` characters starting at `p`. */
  function RunOf(s: string, p: nat, cls: CharClass): (n: nat)
    requires p <= |s|
    decreases |s| - p
    ensures p + n <= |s|
  {
    if p < |s| && InClass(s[p], cls) then 1 + RunOf(s, p + 1, cls) else 0
  }

  /** The run is made of `cls` characters and cannot be extended. */
  lemma {:induction false} RunOfIsMaximal(s: string, p: nat, cls: CharClass)
    requires p <= |s|
    decreases |s| - p
    ensures forall k :: p <= k < p + RunOf(s, p, cls) ==> InClass(s[k], cls)
    ensures p + RunOf(s, p, cls) < |s| ==> !InClass(s[p + RunOf(s, p, cls)], cls)
  {
    if p < |s| && InClass(s[p], cls) {
      RunOfIsMaximal(s, p + 1, cls);
    }
  }

  /** After `v` characters of `\s+` from `q`, `.` can match. */
  predicate DotCanFollow(s: string, q: nat, v: nat) {
    q + v < |s| && s[q + v] != '\n'
  }

  /** `\s+` giving back characters until `.` can match: the longest `v` in
      `1..w` such that a character other than a line break follows the first
      `v` whitespace characters after `q`. */
  function GiveBack(s: string, q: nat, w: nat): (r: Option<nat>)
    requires q + w <= |s|
    ensures r.Some? ==> 1 <= r.value <= w && DotCanFollow(s, q, r.value)
  {
    if w == 0 then None
    else if DotCanFollow(s, q, w) then Some(w)
    else GiveBack(s, q, w - 1)
  }

  /** `GiveBack` keeps as much of the run as it can, and fails only when no
      length of it lets `.` match. */
  lemma {:induction false} GiveBackIsLongest(s: string, q: nat, w: nat)
    requires q + w <= |s|
    ensures var r := GiveBack(s, q, w);
      r.Some? ==> forall v :: r.value < v <= w ==> !DotCanFollow(s, q, v)
    ensures GiveBack(s, q, w).None? <==> forall v :: 1 <= v <= w ==> !DotCanFollow(s, q, v)
  {
    if w > 0 && !DotCanFollow(s, q, w) {
      GiveBackIsLongest(s, q, w - 1);
    }
  }

  /** One attempt of the header pattern at index `p`: the end of the match.
      `#+` never needs to give back (a `#` cannot start `\s+`), `\s+` is
      greedy and gives back as `GiveBack` says, and `.+` runs to the end of
      the line, where `$` holds. */
  function HeaderAt(s: string, p: nat): (r: Option<nat>)
    requires p <= |s|
    ensures r.Some? ==> p + 3 <= r.value <= |s|
  {
    if !AtLineStart(s, p) then None
    else
      var h := RunOf(s, p, Hash);
      if h == 0 then None
      else
        var w := RunOf(s, p + h, Space);
        match GiveBack(s, p + h, w)
        case None => None
        case Some(v) =>
          var e := p + h + v + RunOf(s, p + h + v, Dot);
          Some(e)
  }

  /** `headerRegex.exec(notes)` with `lastIndex == from`: the first match at or
      after `from`, as its start and end. */
  function Exec(s: string, from: nat): (r: Option<(nat, nat)>)
    requires from <= |s|
    decreases |s| - from
    ensures r.Some? ==> from <= r.value.0 && r.value.0 + 3 <= r.value.1 <= |s|
  {
    match HeaderAt(s, from)
    case Some(e) => Some((from, e))
    case None => if from == |s| then None else Exec(s, from + 1)
  }

  /** `exec` finds the left-most match at or after `from`, and none exactly
      when there is no match there. */
  lemma ExecIsFirst(s: string, from: nat)
    requires from <= |s|
    ensures Exec(s, from).Some? ==> HeaderAt(s, Exec(s, from).value.0) == Some(Exec(s, from).value.1)
    ensures Exec(s, from).Some? ==> forall p :: from <= p < Exec(s, from).value.0 ==> HeaderAt(s, p).None?
    ensures Exec(s, from).None? <==> forall p :: from <= p <= |s| ==> HeaderAt(s, p).None?
  {
    ExecNoneIff(s, from);
    if Exec(s, from).Some? {
      ExecFindsFirst(s, from);
    }
  }

  /** A match `exec` finds is a match of the pattern, with none before it. */
  lemma {:induction false} ExecFindsFirst(s: string, from: nat)
    requires from <= |s| && Exec(s, from).Some?
    decreases |s| - from
    ensures HeaderAt(s, Exec(s, from).value.0) == Some(Exec(s, from).value.1)
    ensures forall p :: from <= p < Exec(s, from).value.0 ==> HeaderAt(s, p).None?
  {
    if HeaderAt(s, from).None? {
      assert Exec(s, from) == Exec(s, from + 1);
      ExecFindsFirst(s, from + 1);
    }
  }

  /** `exec` finds nothing exactly when no index from `from` starts a match. */
  lemma {:induction false} ExecNoneIff(s: string, from: nat)
    requires from <= |s|
    decreases |s| - from
    ensures Exec(s, from).None? <==> forall p :: from <= p <= |s| ==> HeaderAt(s, p).None?
  {
    if HeaderAt(s, from).None? && from < |s| {
      assert Exec(s, from) == Exec(s, from + 1);
      ExecNoneIff(s, from + 1);
    }
  }

  /** Every match of the global pattern from `from`, in order. */
  function HeaderMatches(s: string, from: nat): seq<string>
    requires from <= |s|
    decreases |s| - from
  {
    match Exec(s, from)
    case None => []
    case Some((p, e)) => [s[p..e]] + HeaderMatches(s, e)
  }

  /** The `exec` loop of `extractHeadersFromNotes`. */
  method ExtractHeadersFromNotes(notes: string) returns (headers: seq<string>)
    ensures headers == HeaderMatches(notes, 0)
  {
    headers := [];
    var lastIndex := 0;
    var m := Exec(notes, lastIndex);
    while m.Some?
      invariant lastIndex <= |notes|
      invariant m == Exec(notes, lastIndex)
      invariant headers + HeaderMatches(notes, lastIndex) == HeaderMatches(notes, 0)
      decreases |notes| - lastIndex
    {
      var p, e := m.value.0, m.value.1;
      MatchesStep(notes, lastIndex, headers);
      headers := headers + [notes[p..e]];
      lastIndex := e;
      m := Exec(notes, lastIndex);
    }
    MatchesEnd(notes, lastIndex, headers);
  }

  /** One step of the global scan, behind the headers found so far. */
  lemma MatchesStep(s: string, from: nat, found: seq<string>)
    requires from <= |s| && Exec(s, from).Some?
    ensures var (p, e) := Exec(s, from).value;
      found + HeaderMatches(s, from) == (found + [s[p..e]]) + HeaderMatches(s, e)
  {
  }

  /** The scan ends where no match is left. */
  lemma MatchesEnd(s: string, from: nat, found: seq<string>)
    requires from <= |s| && Exec(s, from).None?
    ensures found + HeaderMatches(s, from) == found
  {
  }

  /** A match starts a line with `#`, has a whitespace character after its
      run of `#`, and ends where its last line ends. */
  lemma HeaderAtShape(s: string, p: nat)
    requires p <= |s| && HeaderAt(s, p).Some?
    ensures var e := HeaderAt(s, p).value;
      && AtLineStart(s, p) && s[p] == '#'
      && IsWhitespace(s[p + RunOf(s, p, Hash)])
      && s[e - 1] != '\n' && (e == |s| || s[e] == '\n')
  {
    var h := RunOf(s, p, Hash);
    var w := RunOf(s, p + h, Space);
    var v := GiveBack(s, p + h, w).value;
    RunOfIsMaximal(s, p, Hash);
    RunOfIsMaximal(s, p + h, Space);
    RunOfIsMaximal(s, p + h + v, Dot);
  }

  /** A line `#…#`, then whitespace without a line break, then a character
      that is not whitespace, is matched whole, up to its line break. */
  lemma WholeLineHeader(s: string, p: nat, h: nat, w: nat)
    requires p <= |s| && AtLineStart(s, p) && h >= 1 && w >= 1 && p + h + w < |s|
    requires forall k :: p <= k < p + h ==> s[k] == '#'
    requires forall k :: p + h <= k < p + h + w ==> IsWhitespace(s[k]) && s[k] != '\n'
    requires !IsWhitespace(s[p + h + w])
    ensures HeaderAt(s, p) == Some(p + h + w + RunOf(s, p + h + w, Dot))
    ensures var e := HeaderAt(s, p).value; e == |s| || s[e] == '\n'
    ensures var e := HeaderAt(s, p).value; forall k :: p <= k < e ==> s[k] != '\n'
  {
    RunLength(s, p, h, Hash);
    RunLength(s, p + h, w, Space);
    assert DotCanFollow(s, p + h, w);
    RunOfIsMaximal(s, p + h + w, Dot);
  }

  /** A run of exactly `n` class characters ending at a non-class character. */
  lemma {:induction false} RunLength(s: string, p: nat, n: nat, cls: CharClass)
    requires p + n <= |s|
    requires forall k :: p <= k < p + n ==> InClass(s[k], cls)
    requires p + n == |s| || !InClass(s[p + n], cls)
    decreases n
    ensures RunOf(s, p, cls) == n
  {
    if n > 0 {
      RunLength(s, p + 1, n - 1, cls);
    }
  }

  /** `\s` matches line breaks: a `#` followed by a blank line and a text line
      matches across both lines. */
  lemma HeaderSpansLines()
    ensures HeaderAt("#\n\nTeam", 0) == Some(7)
  {
    var s := "#\n\nTeam";
    RunLength(s, 0, 1, Hash);
    RunLength(s, 1, 2, Space);
    assert GiveBack(s, 1, 2) == Some(2);
    RunLength(s, 3, 4, Dot);
  }

  /** The text of a header line: at least three characters, starting with
      `#` and not ending in a line break. */
  predicate IsHeaderText(m: string) {
    |m| >= 3 && m[0] == '#' && m[|m| - 1] != '\n'
  }

  /** The match `exec` finds is the text of a header line. */
  lemma ExecFindsHeader(s: string, from: nat)
    requires from <= |s| && Exec(s, from).Some?
    ensures IsHeaderText(s[Exec(s, from).value.0..Exec(s, from).value.1])
  {
    var p, e := Exec(s, from).value.0, Exec(s, from).value.1;
    ExecFindsFirst(s, from);
    HeaderAtShape(s, p);
  }

  /** Each header found is a match of the pattern: it begins with `#`, is at
      least three characters long and does not end in a line break. */
  lemma {:induction false} HeadersAreMatches(s: string, from: nat)
    requires from <= |s|
    decreases |s| - from
    ensures forall k :: 0 <= k < |HeaderMatches(s, from)| ==> IsHeaderText(HeaderMatches(s, from)[k])
  {
    if Exec(s, from).Some? {
      var p, e := Exec(s, from).value.0, Exec(s, from).value.1;
      ExecFindsHeader(s, from);
      HeadersAreMatches(s, e);
      var ms := HeaderMatches(s, from);
      assert ms == [s[p..e]] + HeaderMatches(s, e);
      assert forall k :: 0 < k < |ms| ==> ms[k] == HeaderMatches(s, e)[k - 1];
    }
  }

  // ---------------------------------------------------------------------------
  // findLineNumber (src/main.ts:288-302)
  // ---------------------------------------------------------------------------

  /** The scan over the lines of `fileText` from `startLine`: the index and
      text of the first line holding `searchString`, or None (`[null, null]`). */
  method FindLineNumber(fileText: string, searchString: string, startLine: nat) returns (r: Option<(nat, string)>)
    ensures var lines := Split(fileText, "\n");
      r.None? <==> forall i :: startLine <= i < |lines| ==> !Contains(lines[i], searchString)
    ensures var lines := Split(fileText, "\n");
      r.Some? ==> var (i, line) := r.value;
        && startLine <= i < |lines| && line == lines[i] && Contains(line, searchString)
        && forall j :: startLine <= j < i ==> !Contains(lines[j], searchString)
  {
    var lines := Split(fileText, "\n");
    var i := startLine;
    while i < |lines|
      invariant forall j :: startLine <= j < i && j < |lines| ==> !Contains(lines[j], searchString)
      decreases |lines| - i
    {
      if Contains(lines[i], searchString) {
        return Some((i, lines[i]));
      }
      i := i + 1;
    }
    return None;
  }

  // ---------------------------------------------------------------------------
  // getStartHeader (src/main.ts:304-324)
  // ---------------------------------------------------------------------------

  /** The if-chain of `getStartHeader`: the section heading of an update
      category, compared in lower case, or `""`. */
  function StartHeader(updateType: string): string {
    var t := ToLower(updateType);
    if t == "team" then "#### Team"
    else if t == "ideal customer profile" then "#### Problem"
    else if t == "product" then "#### Product"
    else if t == "competition" then "#### Competition"
    else if t == "commercial traction" || t == "market size" then "#### Traction"
    else if t == "funding" then "#### Round Info"
    else ""
  }

  /** The same mapping as a table from lower-case category to heading. */
  const HeaderTable: seq<(string, string)> := [
    ("team", "#### Team"),
    ("ideal customer profile", "#### Problem"),
    ("product", "#### Product"),
    ("competition", "#### Competition"),
    ("commercial traction", "#### Traction"),
    ("market size", "#### Traction"),
    ("funding", "#### Round Info")]

  /** The heading of the first table row for `key`, or `""`. */
  function Lookup(table: seq<(string, string)>, key: string): string
    decreases |table|
  {
    if table == [] then "" else if table[0].0 == key then table[0].1 else Lookup(table[1..], key)
  }

  /** `getStartHeader` is the table lookup of the lowered category. */
  lemma StartHeaderIsLookup(updateType: string)
    ensures StartHeader(updateType) == Lookup(HeaderTable, ToLower(updateType))
  {
    var tb := HeaderTable;
    assert tb[0] == ("team", "#### Team");
    assert tb[1] == ("ideal customer profile", "#### Problem");
    assert tb[2] == ("product", "#### Product");
    assert tb[3] == ("competition", "#### Competition");
    assert tb[4] == ("commercial traction", "#### Traction");
    assert tb[5] == ("market size", "#### Traction");
    assert tb[6] == ("funding", "#### Round Info");
    var t := ToLower(updateType);
    LookupSeven(tb, t);
    if t == "team" {
    } else if t == "ideal customer profile" {
    } else if t == "product" {
    } else if t == "competition" {
    } else if t == "commercial traction" {
    } else if t == "market size" {
    } else if t == "funding" {
    } else {
      assert StartHeader(updateType) == "";
    }
  }

  /** A lookup in a table of seven rows is the chain of its seven tests. */
  lemma LookupSeven(tb: seq<(string, string)>, key: string)
    requires |tb| == 7
    ensures Lookup(tb, key) ==
      if tb[0].0 == key then tb[0].1 else if tb[1].0 == key then tb[1].1
      else if tb[2].0 == key then tb[2].1 else if tb[3].0 == key then tb[3].1
      else if tb[4].0 == key then tb[4].1 else if tb[5].0 == key then tb[5].1
      else if tb[6].0 == key then tb[6].1 else ""
  {
    assert Lookup(tb[6..], key) == if tb[6].0 == key then tb[6].1 else Lookup(tb[7..], key);
    assert Lookup(tb[5..], key) == if tb[5].0 == key then tb[5].1 else Lookup(tb[6..], key);
    assert Lookup(tb[4..], key) == if tb[4].0 == key then tb[4].1 else Lookup(tb[5..], key);
    assert Lookup(tb[3..], key) == if tb[3].0 == key then tb[3].1 else Lookup(tb[4..], key);
    assert Lookup(tb[2..], key) == if tb[2].0 == key then tb[2].1 else Lookup(tb[3..], key);
    assert Lookup(tb[1..], key) == if tb[1].0 == key then tb[1].1 else Lookup(tb[2..], key);
  }

  /** `getStartHeader` ignores case. */
  lemma StartHeaderIgnoresCase(updateType: string)
    ensures StartHeader(ToLower(updateType)) == StartHeader(updateType)
  {
    ToLowerIdempotent(updateType);
  }

  /** The Kelvin sign lowers to `k`, as in JavaScript, so a category spelt
      with it in place of `K` still finds its heading. */
  lemma KelvinSignCategory()
    ensures StartHeader("MAR\U{212A}ET SIZE") == "#### Traction"
  {
    KelvinSignLowers("MAR\U{212A}ET SIZE");
    MarketSizeHeader("market size");
    StartHeaderIgnoresCase("MAR\U{212A}ET SIZE");
  }

  /** `MAR\u212AET SIZE` lowers to `market size`. */
  lemma KelvinSignLowers(s: string)
    requires s == "MAR\U{212A}ET SIZE"
    ensures ToLower(s) == "market size"
  {
    var r := ToLower(s);
    assert r[0] == 'm' && r[1] == 'a' && r[2] == 'r' && r[3] == 'k' && r[4] == 'e' && r[5] == 't';
    assert r[6] == ' ' && r[7] == 's' && r[8] == 'i' && r[9] == 'z' && r[10] == 'e';
  }

  /** `market size` is the sixth row of the table. */
  lemma MarketSizeHeader(t: string)
    requires t == "market size"
    ensures StartHeader(t) == "#### Traction"
  {
    assert ToLower(t) == t by {
      assert forall k :: 0 <= k < |t| ==> LowerChar(t[k]) == t[k];
    }
    assert t != "team" && t != "ideal customer profile" && t != "product";
    assert t != "competition" && t != "commercial traction";
  }

  /** A lookup misses exactly the keys outside the table. */
  lemma {:induction false} LookupMisses(table: seq<(string, string)>, key: string)
    requires forall k :: 0 <= k < |table| ==> table[k].1 != ""
    decreases |table|
    ensures Lookup(table, key) == "" <==> forall k :: 0 <= k < |table| ==> table[k].0 != key
  {
    if table != [] {
      LookupMisses(table[1..], key);
      assert forall k :: 1 <= k < |table| ==> table[k] == table[1..][k - 1];
    }
  }

  /** A lookup that hits gives a heading of the table. */
  lemma {:induction false} LookupHits(table: seq<(string, string)>, key: string)
    decreases |table|
    ensures Lookup(table, key) == "" || exists k :: 0 <= k < |table| && Lookup(table, key) == table[k].1
  {
    if table != [] && table[0].0 != key {
      LookupHits(table[1..], key);
      if Lookup(table, key) != "" {
        var k :| 0 <= k < |table[1..]| && Lookup(table, key) == table[1..][k].1;
        assert table[1..][k] == table[k + 1];
      }
    }
  }

  /** `getStartHeader` gives `""` exactly for categories outside the table, and
      a `####` heading otherwise. */
  lemma StartHeaderEmpty(updateType: string)
    ensures StartHeader(updateType) == "" <==>
      forall k :: 0 <= k < |HeaderTable| ==> HeaderTable[k].0 != ToLower(updateType)
    ensures StartHeader(updateType) != "" ==> StartsWith(StartHeader(updateType), "#### ")
  {
    StartHeaderIsLookup(updateType);
    var t := ToLower(updateType);
    HeaderTableHeadings();
    LookupMisses(HeaderTable, t);
    LookupHits(HeaderTable, t);
  }

  /** Every heading of the table is a non-empty `####` heading. */
  lemma HeaderTableHeadings()
    ensures forall k :: 0 <= k < |HeaderTable| ==> HeaderTable[k].1 != "" && StartsWith(HeaderTable[k].1, "#### ")
  {
    forall k | 0 <= k < |HeaderTable| ensures HeaderTable[k].1 != "" && StartsWith(HeaderTable[k].1, "#### ") {
      var h := HeaderTable[k].1;
      assert h == "#### " + h[5..];
    }
  }

  // ---------------------------------------------------------------------------
  // get_updates_from_categories (src/main.ts:1259-1275)
  // ---------------------------------------------------------------------------

  /** The texts before `::` on a categorised line. */
  function TextOf(line: string): string {
    Split(line, "::")[0]
  }

  /** The category after `::`, or `undefined` on a line without one. */
  function CategoryOf(line: string): string {
    JsAt(Split(line, "::"), 1)
  }

  /** The `updates` object: its entries in insertion order. */
  type Updates = seq<(string, seq<string>)>

  /** Where the object holds `category`: `updates.hasOwnProperty(category)`
      and the entry it names. */
  function KeyIndex(u: Updates, category: string): (r: Option<nat>)
    decreases |u|
    ensures r.Some? ==> r.value < |u| && u[r.value].0 == category
    ensures r.None? <==> forall j :: 0 <= j < |u| ==> u[j].0 != category
  {
    if u == [] then None
    else if u[0].0 == category then Some(0)
    else match KeyIndex(u[1..], category)
      case None => None
      case Some(i) => Some(i + 1)
  }

  /** An object has each key once. */
  predicate UniqueKeys(u: Updates) {
    forall i, j :: 0 <= i < j < |u| ==> u[i].0 != u[j].0
  }

  /** `updates[category] = [text]` for a new key, `updates[category].push(text)`
      for one already there. */
  function AddUpdate(u: Updates, category: string, text: string): Updates {
    match KeyIndex(u, category)
    case None => u + [(category, [text])]
    case Some(i) => u[i := (category, u[i].1 + [text])]
  }

  /** The object after the loop has seen `lines`. */
  function Grouped(lines: seq<string>): Updates
    decreases |lines|
  {
    if lines == [] then []
    else
      var l := lines[|lines| - 1];
      AddUpdate(Grouped(lines[..|lines| - 1]), CategoryOf(l), TextOf(l))
  }

  /** `get_updates_from_categories`: the loop over the lines of the
      categorised text. */
  method GetUpdatesFromCategories(textWithCategory: string) returns (updates: Updates)
    ensures updates == Grouped(Split(textWithCategory, "\n"))
  {
    updates := [];
    var lines := Split(textWithCategory, "\n");
    for n := 0 to |lines|
      invariant updates == Grouped(lines[..n])
    {
      var chunks := Split(lines[n], "::");
      var text := chunks[0];
      var category := JsAt(chunks, 1);
      assert lines[..n + 1][..n] == lines[..n];
      match KeyIndex(updates, category)
      case None =>
        updates := updates + [(category, [text])];
      case Some(i) =>
        updates := updates[i := (category, updates[i].1 + [text])];
    }
    assert lines[..|lines|] == lines;
  }

  /** The texts of the lines of category `category`, in line order. */
  function TextsIn(lines: seq<string>, category: string): seq<string>
    decreases |lines|
  {
    if lines == [] then []
    else
      var l := lines[|lines| - 1];
      TextsIn(lines[..|lines| - 1], category) + (if CategoryOf(l) == category then [TextOf(l)] else [])
  }

  /** The texts an object holds under `category`, `[]` when it has no such key. */
  function TextsUnder(u: Updates, category: string): seq<string>
    decreases |u|
  {
    if u == [] then [] else if u[0].0 == category then u[0].1 else TextsUnder(u[1..], category)
  }

  /** Looking up a key in an object with unique keys finds its entry. */
  lemma {:induction false} TextsUnderAt(u: Updates, i: nat)
    requires UniqueKeys(u) && i < |u|
    decreases i
    ensures TextsUnder(u, u[i].0) == u[i].1
  {
    if i > 0 {
      TextsUnderAt(u[1..], i - 1);
    }
  }

  /** A key the object lacks has no texts. */
  lemma {:induction false} TextsUnderMissing(u: Updates, category: string)
    requires forall j :: 0 <= j < |u| ==> u[j].0 != category
    decreases |u|
    ensures TextsUnder(u, category) == []
  {
    if u != [] {
      TextsUnderMissing(u[1..], category);
    }
  }

  /** One more line keeps the keys unique and adds its text under its
      category, leaving every other category alone. */
  lemma AddUpdateLaws(u: Updates, category: string, text: string, other: string)
    requires UniqueKeys(u)
    ensures UniqueKeys(AddUpdate(u, category, text))
    ensures TextsUnder(AddUpdate(u, category, text), other)
      == TextsUnder(u, other) + (if other == category then [text] else [])
  {
    match KeyIndex(u, category)
    case Some(i) =>
      LookupAfterUpdate(u, i, u[i].1 + [text], other);
      TextsUnderAt(u, i);
    case None =>
      LookupAfterAppend(u, category, [text], other);
      if other == category {
        TextsUnderMissing(u, category);
      }
  }

  /** Changing the texts of entry `i` changes only what its key looks up. */
  lemma {:induction false} LookupAfterUpdate(u: Updates, i: nat, ts: seq<string>, other: string)
    requires UniqueKeys(u) && i < |u|
    decreases i
    ensures TextsUnder(u[i := (u[i].0, ts)], other) == if other == u[i].0 then ts else TextsUnder(u, other)
  {
    var r := u[i := (u[i].0, ts)];
    if i == 0 {
      assert r[1..] == u[1..];
    } else {
      assert r[1..] == u[1..][i - 1 := (u[i].0, ts)];
      LookupAfterUpdate(u[1..], i - 1, ts, other);
    }
  }

  /** Appending an entry for a new key changes only what that key looks up. */
  lemma {:induction false} LookupAfterAppend(u: Updates, category: string, ts: seq<string>, other: string)
    requires UniqueKeys(u) && forall j :: 0 <= j < |u| ==> u[j].0 != category
    decreases |u|
    ensures UniqueKeys(u + [(category, ts)])
    ensures TextsUnder(u + [(category, ts)], other) == if other == category then ts else TextsUnder(u, other)
  {
    if u != [] {
      assert (u + [(category, ts)])[1..] == u[1..] + [(category, ts)];
      LookupAfterAppend(u[1..], category, ts, other);
    }
  }

  /** `get_updates_from_categories` groups: the object has each category once,
      and under each category it holds the texts of that category's lines in
      line order. */
  lemma {:induction false} GroupedByCategory(lines: seq<string>, category: string)
    decreases |lines|
    ensures UniqueKeys(Grouped(lines))
    ensures TextsUnder(Grouped(lines), category) == TextsIn(lines, category)
  {
    if lines != [] {
      var init := lines[..|lines| - 1];
      var l := lines[|lines| - 1];
      GroupedByCategory(init, category);
      AddUpdateLaws(Grouped(init), CategoryOf(l), TextOf(l), category);
    }
  }

  // ---------------------------------------------------------------------------
  // create_update_messages (src/main.ts:1277-1292), with the date a parameter
  // ---------------------------------------------------------------------------

  /** The heading of the message for `category`. */
  function MessageHeader(category: string, currentDate: string): string {
    "###### " + category + " updates on " + currentDate + "\n\n"
  }

  /** The texts each followed by a line break. */
  function Lines(texts: seq<string>): string
    decreases |texts|
  {
    if texts == [] then "" else Lines(texts[..|texts| - 1]) + texts[|texts| - 1] + "\n"
  }

  /** The message of one category. */
  function Message(category: string, currentDate: string, texts: seq<string>): string {
    MessageHeader(category, currentDate) + Lines(texts)
  }

  /** `create_update_messages`: one message per category, in the order of the
      object's entries. */
  method CreateUpdateMessages(updates: Updates, currentDate: string) returns (updateMessages: seq<(string, string)>)
    requires UniqueKeys(updates)
    ensures |updateMessages| == |updates|
    ensures forall k :: 0 <= k < |updates| ==>
      updateMessages[k] == (updates[k].0, Message(updates[k].0, currentDate, updates[k].1))
  {
    updateMessages := [];
    for k := 0 to |updates|
      invariant |updateMessages| == k
      invariant forall j :: 0 <= j < k ==>
        updateMessages[j] == (updates[j].0, Message(updates[j].0, currentDate, updates[j].1))
    {
      var (category, updatesArray) := updates[k];
      var message := MessageHeader(category, currentDate);
      for j := 0 to |updatesArray|
        invariant message == MessageHeader(category, currentDate) + Lines(updatesArray[..j])
      {
        assert updatesArray[..j + 1][..j] == updatesArray[..j];
        message := message + updatesArray[j] + "\n";
      }
      assert updatesArray[..|updatesArray|] == updatesArray;
      updateMessages := updateMessages + [(category, message)];
    }
  }

  /** The lines built front first. */
  lemma {:induction false} LinesCons(t: string, ts: seq<string>)
    decreases |ts|
    ensures Lines([t] + ts) == t + "\n" + Lines(ts)
  {
    if ts != [] {
      var init := ts[..|ts| - 1];
      LinesCons(t, init);
      assert ([t] + ts)[..|ts|] == [t] + init;
    }
  }

  /** Splitting at the line break that ends a first line without one. */
  lemma SplitAfterLine(t: string, rest: string)
    requires Absent(t, "\n")
    ensures Split(t + "\n" + rest, "\n") == [t] + Split(rest, "\n")
  {
    var s := t + "\n" + rest;
    forall j | 0 <= j < |t| ensures !StartsWith(s[j..], "\n") {
      assert s[j] == t[j];
      assert !StartsWith(t[j..], "\n");
    }
    SplitCons(t, "\n", rest);
  }

  /** Splitting the body of a message at its line breaks gives back the texts
      (and the empty piece after the last break), when no text holds a line
      break. */
  lemma {:induction false} SplitLines(texts: seq<string>)
    requires forall k :: 0 <= k < |texts| ==> Absent(texts[k], "\n")
    decreases |texts|
    ensures Split(Lines(texts), "\n") == texts + [""]
  {
    if texts == [] {
      assert Split("", "\n") == [""];
    } else {
      var t, rest := texts[0], texts[1..];
      assert [t] + rest == texts;
      LinesCons(t, rest);
      SplitLines(rest);
      SplitAfterLine(t, Lines(rest));
      assert [t] + (rest + [""]) == texts + [""];
    }
  }

  /** Texts taken from the lines of a split at line breaks hold none. */
  lemma {:induction false} TextsHaveNoBreaks(lines: seq<string>, category: string)
    requires forall k :: 0 <= k < |lines| ==> Absent(lines[k], "\n")
    decreases |lines|
    ensures forall k :: 0 <= k < |TextsIn(lines, category)| ==> Absent(TextsIn(lines, category)[k], "\n")
  {
    if lines != [] {
      var init := lines[..|lines| - 1];
      var l := lines[|lines| - 1];
      TextsHaveNoBreaks(init, category);
      SplitHeadAbsent(l, "::", "\n");
    }
  }

  /** The first piece of a split is a prefix, so it lacks what the text lacks. */
  lemma SplitHeadAbsent(s: string, sep: string, pat: string)
    requires |sep| > 0 && Absent(s, pat)
    ensures Absent(Split(s, sep)[0], pat)
  {
    var h := Split(s, sep)[0];
    assert s[..|h|] == h;
    forall j | 0 <= j <= |h| ensures !StartsWith(h[j..], pat) {
      if StartsWith(h[j..], pat) {
        OccursInPrefix(s, |h|, pat, j);
      }
    }
  }

  /** From categorised text to messages: the message of each category is its
      heading followed by the texts of that category's lines, one per line, so
      splitting its body at line breaks gives back those texts in line order. */
  lemma MessageCarriesTexts(textWithCategory: string, category: string, currentDate: string)
    ensures var lines := Split(textWithCategory, "\n");
      var body := Lines(TextsUnder(Grouped(lines), category));
      && TextsUnder(Grouped(lines), category) == TextsIn(lines, category)
      && Split(body, "\n") == TextsIn(lines, category) + [""]
      && StartsWith(Message(category, currentDate, TextsIn(lines, category)), MessageHeader(category, currentDate))
  {
    var lines := Split(textWithCategory, "\n");
    GroupedByCategory(lines, category);
    TextsHaveNoBreaks(lines, category);
    SplitLines(TextsIn(lines, category));
    var h := MessageHeader(category, currentDate);
    assert (h + Lines(TextsIn(lines, category)))[..|h|] == h;
  }
}
