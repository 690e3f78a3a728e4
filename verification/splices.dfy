/** The text a summary command writes back into a note: the `summarize_vc_text`
    splice of a VC note and the selection splice of a startup note
    (src/main.ts:149-210, 628-646). The language-model call is a parameter. */
module Splices {
  import opened Text
  import opened Notes

  /** The tag that marks a note as summarised. */
  const SummarizedTag: string := "#gpt_summarized"

  /** The tag line that marks a VC note as summarised. */
  const VcTagLine: string := SummarizedTag + ", #review \n"

  /** The tag line that marks a startup selection as summarised. */
  const SelectionTagLine: string := SummarizedTag + ", #AddHashtags, #review_startup \n"

  /** The heading after which the original text is kept out of the index. */
  const StopIndexing: string := "# Stop Indexing \n## Notes\n"

  // ---------------------------------------------------------------------------
  // The prompt of summarize_vc_text (src/main.ts:155-185)
  // ---------------------------------------------------------------------------

  /** `substrings[0].split("Tags:")[1]` AS WRITTEN: for a text without `Tags:`
      the split has one piece, the read gives `undefined` and nothing throws,
      so the `catch` fallback never runs. */
  function HashtagsAsWritten(head: string): string {
    JsAt(Split(head, "Tags:"), 1)
  }

  /** The hashtags the `catch` branch evidently meant to supply: the text after
      the first `Tags:` up to the next one, or the whole text before the title
      when it has no `Tags:`. */
  function Hashtags(head: string): string {
    if Contains(head, "Tags:") then Split(head, "Tags:")[1] else head
  }

  /** The user message sent to the summariser, as written: `"Notes:\n"`, the
      hashtags as the code reads them, a line break and the body of the note
      (`undefined` when there is none). */
  function VcPrompt(substrings: seq<string>): string {
    "Notes:\n" + HashtagsAsWritten(JsAt(substrings, 0)) + "\n" + JsAt(substrings, 1)
  }

  /** The user message the `catch` branch evidently meant: the same, with the
      text before the title standing in for missing hashtags. */
  function IntendedVcPrompt(substrings: seq<string>): string {
    "Notes:\n" + Hashtags(JsAt(substrings, 0)) + "\n" + JsAt(substrings, 1)
  }

  /** A note whose text before the title lacks `Tags:` sends the word
      `undefined` in place of its hashtags as written; the corrected reading
      sends that text itself. */
  lemma UntaggedNoteSendsUndefined(head: string)
    requires !Contains(head, "Tags:")
    ensures HashtagsAsWritten(head) == "undefined"
    ensures Hashtags(head) == head
  {
    assert Split(head, "Tags:") == [head];
  }

  /** The first piece of a split is a prefix of the text without the separator. */
  lemma SplitHead(s: string, sep: string)
    requires |sep| > 0
    ensures StartsWith(s, Split(s, sep)[0]) && Absent(Split(s, sep)[0], sep)
  {
  }

  /** Where the text has `Tags:`, both readings agree, and the hashtags are the
      text right after its first `Tags:`, up to any later one. */
  lemma HashtagsAfterTags(head: string, i: nat)
    requires FirstAt(head, "Tags:", i)
    ensures Hashtags(head) == HashtagsAsWritten(head)
    ensures StartsWith(head[i + 5..], Hashtags(head)) && Absent(Hashtags(head), "Tags:")
  {
    FirstAtUnique(head, "Tags:", i);
    var rest := head[i + 5..];
    assert Split(head, "Tags:") == [head[..i]] + Split(rest, "Tags:");
    SplitHead(rest, "Tags:");
  }

  /** A note whose text before the title lacks `Tags:` sends `undefined` where
      its hashtags belong; the intended prompt sends that text instead. */
  lemma UntaggedPromptSendsUndefined(substrings: seq<string>)
    requires substrings != [] && !Contains(substrings[0], "Tags:")
    ensures VcPrompt(substrings) == "Notes:\nundefined\n" + JsAt(substrings, 1)
    ensures IntendedVcPrompt(substrings) == "Notes:\n" + substrings[0] + "\n" + JsAt(substrings, 1)
  {
    UntaggedNoteSendsUndefined(substrings[0]);
  }

  /** Where the text before the title has `Tags:`, the prompt as written is
      the intended one. */
  lemma TaggedPromptIsIntended(substrings: seq<string>, i: nat)
    requires substrings != [] && FirstAt(substrings[0], "Tags:", i)
    ensures VcPrompt(substrings) == IntendedVcPrompt(substrings)
  {
    HashtagsAfterTags(substrings[0], i);
  }

  /** The note `# Fund\nbody`: a title line and a body, nothing before the title. */
  const FundNote: string := "# Fund\nbody"

  /** Its title line is matched at the start. */
  lemma FundNoteTitle()
    ensures H1At(FundNote, 0) == Some(7)
  {
    var s := FundNote;
    assert s[0..2] == "# ";
    assert !MatchesAt(s, "\n", 2) && !MatchesAt(s, "\n", 3) && !MatchesAt(s, "\n", 4) && !MatchesAt(s, "\n", 5);
    assert MatchesAt(s, "\n", 6);
  }

  /** Its body holds no title line. */
  lemma FundNoteBody()
    ensures H1Matches(FundNote, 7) == [] && H1Pieces(FundNote, 7, 7) == ["body"]
  {
    var s := FundNote;
    assert s[7..] == "body";
    forall q | 7 <= q < |s| ensures H1At(s, q).None? {
      assert s[q..][0] == s[q];
    }
    assert H1Matches(s, 10) == [] && H1Matches(s, 9) == [] && H1Matches(s, 8) == [];
    assert H1Pieces(s, 7, 10) == ["body"] && H1Pieces(s, 7, 9) == ["body"] && H1Pieces(s, 7, 8) == ["body"];
  }

  /** Its one match is the title line. */
  lemma FundNoteMatches()
    ensures H1Matches(FundNote, 0) == ["# Fund\n"]
  {
    FundNoteTitle();
    FundNoteBody();
    assert FundNote[0..7] == "# Fund\n";
  }

  /** Its pieces are the empty text before the title and the body. */
  lemma FundNotePieces()
    ensures H1Pieces(FundNote, 0, 0) == ["", "body"]
  {
    FundNoteTitle();
    FundNoteBody();
    assert FundNote[0..0] == "";
  }

  /** Its title is the title line, and its pieces are the empty text before
      the title and the body. */
  lemma FundNoteSplit()
    ensures ExtractTitleAndNote(FundNote) == ("# Fund\n", ["", "body"])
  {
    FundNoteMatches();
    FundNotePieces();
  }

  /** For the pieces of that note the code as written sends `undefined` as
      the hashtags, where the intended prompt sends the empty text before the
      title. */
  lemma UntitledHeadNoteSendsUndefined()
    ensures VcPrompt(["", "body"]) == "Notes:\nundefined\nbody"
    ensures IntendedVcPrompt(["", "body"]) == "Notes:\n\nbody"
  {
    UntaggedNoteSendsUndefined("");
  }

  // ---------------------------------------------------------------------------
  // The splice of summarize_vc_text (src/main.ts:187-209)
  // ---------------------------------------------------------------------------

  /** `tailing_text` after the loop over `pieces`: each piece behind a line break. */
  function Tailing(pieces: seq<string>): string
    decreases |pieces|
  {
    if pieces == [] then "" else Tailing(pieces[..|pieces| - 1]) + "\n" + pieces[|pieces| - 1]
  }

  /** One more iteration of the tailing loop appends one more piece. */
  lemma TailingSnoc(pieces: seq<string>, i: nat)
    requires i < |pieces|
    ensures Tailing(pieces[..i + 1]) == Tailing(pieces[..i]) + "\n" + pieces[i]
  {
    assert pieces[..i + 1][..i] == pieces[..i];
  }

  /** The replacement text for a note split into `substrings` around its h1
      lines, with title `title` and summary `summary`. */
  function VcSplice(substrings: seq<string>, title: string, summary: string): string
    requires substrings != []
  {
    substrings[0] + "\n" + title + "\n" + VcTagLine + summary + "\n" + StopIndexing + Tailing(substrings[1..])
  }

  /** The tailing text is the pieces joined with line breaks, after one more. */
  lemma {:induction false} TailingJoins(pieces: seq<string>)
    decreases |pieces|
    ensures Tailing(pieces) == if pieces == [] then "" else "\n" + Join(pieces, "\n")
  {
    if |pieces| > 1 {
      var init := pieces[..|pieces| - 1];
      TailingJoins(init);
      JoinSnoc(init, pieces[|pieces| - 1], "\n");
      assert init + [pieces[|pieces| - 1]] == pieces;
    } else if |pieces| == 1 {
      assert pieces[..0] == [];
    }
  }

  /** The splice keeps the text before the title, the title, and every piece
      after it, in order, joined by line breaks after the stop heading. */
  lemma VcSpliceKeepsText(substrings: seq<string>, title: string, summary: string)
    requires substrings != []
    ensures var r := VcSplice(substrings, title, summary);
      var head := substrings[0] + "\n" + title + "\n" + VcTagLine + summary + "\n" + StopIndexing;
      && StartsWith(r, substrings[0] + "\n" + title + "\n")
      && r == head + (if |substrings| == 1 then "" else "\n" + Join(substrings[1..], "\n"))
  {
    var r := VcSplice(substrings, title, summary);
    var lead := substrings[0] + "\n" + title + "\n";
    var rest := VcTagLine + summary + "\n" + StopIndexing + Tailing(substrings[1..]);
    assert r == lead + rest;
    assert r[..|lead|] == lead;
    TailingJoins(substrings[1..]);
  }

  /** The splice is marked `#gpt_summarized`, so the note is never picked for
      summarisation again. */
  lemma VcSpliceNotSummarizable(substrings: seq<string>, title: string, summary: string)
    requires substrings != []
    ensures Contains(VcSplice(substrings, title, summary), "#gpt_summarized")
    ensures !IsSummarizable(VcSplice(substrings, title, summary))
  {
    var a := substrings[0] + "\n" + title + "\n";
    var b := ", #review \n" + summary + "\n" + StopIndexing + Tailing(substrings[1..]);
    assert VcSplice(substrings, title, summary) == a + "#gpt_summarized" + b;
    ContainsInfix(a, "#gpt_summarized", b);
    SummarizedVcNote(a, b);
  }

  /** `summarize_vc_text`: the title and pieces of the note, the summary the
      model returns for the prompt, and the replacement text built by the
      tailing loop. */
  method SummarizeVcText(text: string, summarize: string -> string)
    returns (replacement: string, newSummary: string, title: string)
    ensures var (t, substrings) := ExtractTitleAndNote(text);
      && title == t
      && newSummary == summarize(VcPrompt(substrings))
      && substrings != []
      && replacement == VcSplice(substrings, title, newSummary)
  {
    var substrings;
    title, substrings := ExtractTitleAndNote(text).0, ExtractTitleAndNote(text).1;
    PiecesAroundMatches(text, 0, 0);
    newSummary := summarize(VcPrompt(substrings));
    var leadingText := substrings[0] + "\n" + title + "\n";
    var tailingText := "";
    var later := substrings[1..];
    for i := 0 to |later|
      invariant tailingText == Tailing(later[..i])
    {
      TailingSnoc(later, i);
      tailingText := tailingText + "\n" + later[i];
    }
    assert later[..|later|] == later;
    replacement := leadingText + VcTagLine + newSummary + "\n" + StopIndexing + tailingText;
  }

  // ---------------------------------------------------------------------------
  // The selection splice (src/main.ts:641-646)
  // ---------------------------------------------------------------------------

  /** The text that replaces the selection `sel` once it is summarised. */
  function SelectionSplice(sel: string, summary: string): (r: string)
    ensures StartsWith(r, SelectionTagLine)
    ensures |r| >= |sel| && r[|r| - |sel|..] == sel
  {
    var r := SelectionTagLine + summary + "\n" + StopIndexing + sel;
    assert r[..|SelectionTagLine|] == SelectionTagLine;
    assert r[|r| - |sel|..] == sel;
    r
  }

  /** The replacement of the selection: the splice of the model's summary of it. */
  function SummarizeSelection(sel: string, summarize: string -> string): string {
    SelectionSplice(sel, summarize(sel))
  }

  /** The selection splice is marked `#gpt_summarized`, so the summarised
      selection is never picked for summarisation again. */
  lemma SelectionSpliceLaws(sel: string, summary: string)
    ensures !IsSummarizable(SelectionSplice(sel, summary))
  {
    var b := ", #AddHashtags, #review_startup \n" + summary + "\n" + StopIndexing + sel;
    assert SelectionSplice(sel, summary) == [] + SummarizedTag + b;
    SummarizedVcNote([], b);
  }
}
