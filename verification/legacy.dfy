/** The older copy of the plugin in the root main.ts: its note helpers and its
    two summary splices, each written out as that file has it, and shown to
    agree with the current ones in src/, so that every property proved of
    those holds of these. */
module LegacyPlugin {
  import opened Text
  import Notes
  import Splices

  /** main.ts:92-94. */
  predicate StartupReadyForAffinity(fileContent: string) {
    Contains(fileContent, "#startups/screened") && Contains(fileContent, "#Affinity")
  }

  /** main.ts:174-180, with its `includes(..) != true` tests. */
  predicate IsSummarizable(fileContent: string) {
    Contains(fileContent, "#network/connected")
    && (Contains(fileContent, "#Entity/VC") || Contains(fileContent, "#Person/VC"))
    && (Contains(fileContent, "#gpt_summarized") != true)
    && (Contains(fileContent, "dataview") != true)
  }

  /** main.ts:276-278. */
  predicate VcReadyForAffinity(fileContent: string) {
    Contains(fileContent, "#gpt_summarized") && Contains(fileContent, "#Affinity")
  }

  /** main.ts:121-125: the disallowed characters removed, then `trim`. */
  function CleanText(startupName: string): string {
    var kept := Notes.KeepAllowed(startupName);
    Trim(kept)
  }

  /** main.ts:96-119: the matches and the split of `/^# .*\n/gm`. */
  function ExtractTitleAndNote(text: string): (string, seq<string>) {
    var matches := Notes.H1Matches(text, 0);
    var title := if matches != [] then matches[0] else "";
    (title, Notes.H1Pieces(text, 0, 0))
  }

  /** main.ts:85. */
  function SelectionSplice(sel: string, newSummary: string): string {
    "#gpt_summarized" + ", #AddHashtags, #review_startup \n" + newSummary + "\n" + "# Stop Indexing \n## Notes\n" + sel
  }

  /** The tag predicates of both copies are the same tests. */
  lemma PredicatesAgree(fileContent: string)
    ensures StartupReadyForAffinity(fileContent) == Notes.StartupReadyForAffinity(fileContent)
    ensures IsSummarizable(fileContent) == Notes.IsSummarizable(fileContent)
    ensures VcReadyForAffinity(fileContent) == Notes.VcReadyForAffinity(fileContent)
  {
  }

  /** The older `is_summarizable` rejects every summarised note and every
      dataview note, and accepts only connected VC notes. */
  lemma IsSummarizableLaws(a: string, b: string, fileContent: string)
    ensures !IsSummarizable(a + "#gpt_summarized" + b)
    ensures !IsSummarizable(a + "dataview" + b)
    ensures IsSummarizable(fileContent) ==>
      (Contains(fileContent, "#network/connected")
        && (Contains(fileContent, "#Entity/VC") || Contains(fileContent, "#Person/VC")))
  {
    Notes.SummarizedVcNote(a, b);
    Notes.DataviewNotSummarizable(a, b);
    PredicatesAgree(a + "#gpt_summarized" + b);
    PredicatesAgree(a + "dataview" + b);
  }

  /** The older `clean_text` is the current one. */
  lemma CleanTextAgrees(s: string)
    ensures CleanText(s) == Notes.CleanText(s)
  {
  }

  /** The result of the older `clean_text` holds only allowed characters, is
      trimmed, and is left alone by a second pass. */
  lemma CleanTextLaws(s: string)
    ensures var r := CleanText(s);
      && (forall k :: 0 <= k < |r| ==> Notes.Allowed(r[k]))
      && (r != [] ==> !IsWhitespace(r[0]) && !IsWhitespace(r[|r| - 1]))
      && CleanText(r) == r
  {
    CleanTextAgrees(s);
    CleanTextAgrees(CleanText(s));
    Notes.CleanTextLaws(s);
  }

  /** The older `extract_title_and_note` is the current one: the same title,
      one more piece than h1 lines, and the pieces with the lines between them
      give back the text. */
  lemma ExtractTitleAndNoteLaws(text: string)
    ensures ExtractTitleAndNote(text) == Notes.ExtractTitleAndNote(text)
    ensures var (title, pieces) := ExtractTitleAndNote(text);
      var lines := Notes.H1Matches(text, 0);
      && |pieces| == |lines| + 1
      && Notes.Interleave(pieces, lines) == text
      && (title == "" <==> lines == [])
  {
    Notes.ExtractTitleAndNoteLaws(text);
    var lines := Notes.H1Matches(text, 0);
    if lines != [] {
      Notes.MatchesAreH1Lines(text, 0);
      assert Notes.IsH1Line(lines[0]);
    }
  }

  /** The older selection splice is the current one: it starts with the tag
      line, ends with the selection unchanged, and is never summarisable. */
  lemma SelectionSpliceLaws(sel: string, newSummary: string)
    ensures SelectionSplice(sel, newSummary) == Splices.SelectionSplice(sel, newSummary)
    ensures var r := SelectionSplice(sel, newSummary);
      && StartsWith(r, Splices.SelectionTagLine)
      && |r| >= |sel| && r[|r| - |sel|..] == sel
      && !IsSummarizable(r)
  {
    var r := SelectionSplice(sel, newSummary);
    assert r == Splices.SelectionSplice(sel, newSummary);
    Splices.SelectionSpliceLaws(sel, newSummary);
    PredicatesAgree(r);
  }

  /** main.ts:182-237: the older `summarize_vc_text`, with its own tailing
      loop; it builds the same replacement as the current one and marks the
      note so that it is never summarised again. */
  method SummarizeVcText(text: string, summarize: string -> string)
    returns (replacement: string, newSummary: string, title: string)
    ensures var (t, substrings) := Notes.ExtractTitleAndNote(text);
      && title == t
      && newSummary == summarize(Splices.VcPrompt(substrings))
      && substrings != []
      && replacement == Splices.VcSplice(substrings, title, newSummary)
    ensures !IsSummarizable(replacement)
  {
    var substrings;
    title, substrings := ExtractTitleAndNote(text).0, ExtractTitleAndNote(text).1;
    Notes.PiecesAroundMatches(text, 0, 0);
    newSummary := summarize(Splices.VcPrompt(substrings));
    var leadingText := substrings[0] + "\n" + title + "\n";
    var tailingText := "";
    var later := substrings[1..];
    for i := 0 to |later|
      invariant tailingText == Splices.Tailing(later[..i])
    {
      Splices.TailingSnoc(later, i);
      tailingText := tailingText + "\n" + later[i];
    }
    assert later[..|later|] == later;
    replacement := leadingText + "#gpt_summarized" + ", #review \n" + newSummary + "\n" + "# Stop Indexing \n## Notes\n" + tailingText;
    assert replacement == Splices.VcSplice(substrings, title, newSummary);
    Splices.VcSpliceNotSummarizable(substrings, title, newSummary);
    PredicatesAgree(replacement);
  }
}
