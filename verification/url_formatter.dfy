/** `format_url_text` of src/formatter.js: the research text about a URL gets
    a title line, and the first occurrence of each of seven `Label:` markers
    becomes a `#### Label` heading. */
module UrlFormatter {
  import opened Text

  /** The seven labels, in the order they are rewritten. */
  const ResearchLabels: seq<string> :=
    ["Problem to be solved", "Product", "Features", "Business Model", "Competition", "Vision", "Extras"]

  function Marker(name: string): string {
    name + ":"
  }

  function SubHeading(name: string): string {
    "#### " + name
  }

  /** `s.replace("name:", "#### name")` for each name in turn. */
  function RewriteMarkers(s: string, names: seq<string>): string
    decreases |names|
  {
    if names == [] then s else RewriteMarkers(ReplaceFirst(s, Marker(names[0]), SubHeading(names[0])), names[1..])
  }

  /** The title line put before the text. */
  function ResearchTitle(url: string): string {
    "## " + url + " Research\n"
  }

  /** src/formatter.js:1-14. */
  function FormatUrlText(finalText: string, url: string): string {
    RewriteMarkers(ResearchTitle(url) + finalText, ResearchLabels)
  }

  /** How many of the markers the chain of rewrites finds, each looked for in
      the text the earlier rewrites left. */
  function MarkersFound(s: string, names: seq<string>): (k: nat)
    decreases |names|
    ensures k <= |names|
  {
    if names == [] then 0
    else (if Absent(s, Marker(names[0])) then 0 else 1)
         + MarkersFound(ReplaceFirst(s, Marker(names[0]), SubHeading(names[0])), names[1..])
  }

  /** Every rewrite that finds its marker grows the text by exactly 4
      characters (`#### ` replaces `:`). */
  lemma {:induction false} RewriteMarkersLength(s: string, names: seq<string>)
    decreases |names|
    ensures |RewriteMarkers(s, names)| == |s| + 4 * MarkersFound(s, names)
  {
    if names != [] {
      var n := names[0];
      ReplaceFirstLength(s, Marker(n), SubHeading(n));
      RewriteMarkersLength(ReplaceFirst(s, Marker(n), SubHeading(n)), names[1..]);
    }
  }

  /** A text holding none of the markers is left as it is. */
  lemma {:induction false} RewriteMarkersNoneFound(s: string, names: seq<string>)
    requires forall n :: n in names ==> Absent(s, Marker(n))
    decreases |names|
    ensures RewriteMarkers(s, names) == s && MarkersFound(s, names) == 0
  {
    if names != [] {
      RewriteMarkersNoneFound(s, names[1..]);
    }
  }

  /** When none of the seven markers occurs in the titled text, the result is
      the title line followed by the text, unchanged. */
  lemma FormatWithoutMarkers(finalText: string, url: string)
    requires forall n :: n in ResearchLabels ==> Absent(ResearchTitle(url) + finalText, Marker(n))
    ensures FormatUrlText(finalText, url) == ResearchTitle(url) + finalText
  {
    RewriteMarkersNoneFound(ResearchTitle(url) + finalText, ResearchLabels);
  }

  /** The output is the titled text grown by 4 characters for every marker
      that was found. */
  lemma FormatLength(finalText: string, url: string)
    ensures |FormatUrlText(finalText, url)|
      == |ResearchTitle(url)| + |finalText| + 4 * MarkersFound(ResearchTitle(url) + finalText, ResearchLabels)
  {
    RewriteMarkersLength(ResearchTitle(url) + finalText, ResearchLabels);
  }

  /** A pattern holding a character the text lacks does not occur in it. */
  lemma AbsentByChar(s: string, pat: string, c: char)
    requires c in pat && c !in s
    ensures Absent(s, pat)
  {
    var k :| 0 <= k < |pat| && pat[k] == c;
    forall j | 0 <= j <= |s| ensures !StartsWith(s[j..], pat) {
      if j + k < |s| { assert s[j + k] in s; }
    }
  }

  /** None of the seven markers holds a line break. */
  lemma MarkersOneLine()
    ensures forall n :: n in ResearchLabels ==> '\n' !in Marker(n)
  {
    forall n | n in ResearchLabels ensures '\n' !in Marker(n) {
      assert '\n' !in n;
    }
  }

  /** Rewrites whose markers neither occur in a prefix ending in a line break
      nor hold a line break leave that prefix alone. */
  lemma {:induction false} RewriteMarkersBehindPrefix(p: string, t: string, names: seq<string>)
    requires p != [] && p[|p| - 1] == '\n'
    requires forall n :: n in names ==> '\n' !in Marker(n) && Absent(p, Marker(n))
    decreases |names|
    ensures RewriteMarkers(p + t, names) == p + RewriteMarkers(t, names)
  {
    if names != [] {
      var n := names[0];
      ReplaceFirstBehindPrefix(p, t, Marker(n), SubHeading(n));
      RewriteMarkersBehindPrefix(p, ReplaceFirst(t, Marker(n), SubHeading(n)), names[1..]);
    }
  }

  /** None of the seven markers starts with `#` or a space, and each ends in `:`. */
  lemma MarkersShape()
    ensures forall n :: n in ResearchLabels ==>
      var m := Marker(n); |m| >= 2 && m[0] != '#' && m[0] != ' ' && m[|m| - 1] == ':'
  {
    forall n | n in ResearchLabels
      ensures var m := Marker(n); |m| >= 2 && m[0] != '#' && m[0] != ' ' && m[|m| - 1] == ':'
    {
      assert 'A' <= n[0] <= 'Z';
    }
  }

  /** A pattern that neither starts with `#` or a space nor ends anywhere but
      at a `:` occurs in the title line only if it occurs in the URL. */
  lemma TitleHidesMarker(url: string, pat: string)
    requires |pat| >= 2 && pat[0] != '#' && pat[0] != ' ' && pat[|pat| - 1] == ':'
    requires Absent(url, pat)
    ensures Absent(ResearchTitle(url), pat)
  {
    var p := ResearchTitle(url);
    var tail := " Research\n";
    assert p == "## " + url + tail;
    forall j | 0 <= j <= |p| ensures !StartsWith(p[j..], pat) {
      if |pat| <= |p| - j {
        var e := j + |pat| - 1;
        if j < 3 {
          assert p[j] == "## "[j];
          assert p[j..][0] == p[j] != pat[0];
        } else if e >= 3 + |url| {
          assert p[e] == tail[e - 3 - |url|];
          assert ':' !in tail;
          assert p[j..][|pat| - 1] == p[e] != ':';
        } else {
          assert p[j..][..|pat|] == url[j - 3..][..|pat|];
          assert !StartsWith(url[j - 3..], pat);
        }
      }
    }
  }

  /** A URL without capital letters, as addresses are usually written, holds
      none of the seven markers. */
  lemma LowerCaseUrlHasNoMarker(url: string)
    requires forall k :: 0 <= k < |url| ==> !('A' <= url[k] <= 'Z')
    ensures forall n :: n in ResearchLabels ==> Absent(url, Marker(n))
  {
    forall n | n in ResearchLabels ensures Absent(url, Marker(n)) {
      assert 'A' <= n[0] <= 'Z' && Marker(n)[0] == n[0];
      AbsentByChar(url, Marker(n), n[0]);
    }
  }

  /** For a URL holding none of the seven markers, such as any `https://`
      address, the title line is never rewritten: the result is the title line
      followed by the rewritten text. */
  lemma FormatKeepsTitle(finalText: string, url: string)
    requires forall n :: n in ResearchLabels ==> Absent(url, Marker(n))
    ensures FormatUrlText(finalText, url) == ResearchTitle(url) + RewriteMarkers(finalText, ResearchLabels)
  {
    var p := ResearchTitle(url);
    MarkersOneLine();
    MarkersShape();
    forall n | n in ResearchLabels ensures Absent(p, Marker(n)) {
      TitleHidesMarker(url, Marker(n));
    }
    RewriteMarkersBehindPrefix(p, finalText, ResearchLabels);
  }
}
