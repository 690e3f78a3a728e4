/** The "Fireflies Call Summary" command of src/main.ts: the chunk summaries
    are numbered into one reduce prompt (`summarize_all_paragraphs_together`),
    the consolidated answer has its bold section labels turned into `####`
    headings, and the result is framed with the call title and a review tag.
    The two language-model calls are parameters of type `string -> string`
    (a `null` reply is already mapped to `""` by them). */
module CallSummary {
  import opened Text
  import opened Transcript
  import opened Chunking
  import opened Words

  // ---------------------------------------------------------------------------
  // The reduce prompt (src/main.ts:241-247)
  // ---------------------------------------------------------------------------

  /** The entry of the `i`-th summary (0-based) in the prompt. */
  function SummaryEntry(i: nat, summary: string): string {
    "Summary #" + DecimalString(i + 1) + ":\n" + summary + "\n\n"
  }

  /** The prompt built from `summaries`: their entries, numbered from 1, in order. */
  function ReducePrompt(summaries: seq<string>): string
    decreases |summaries|
  {
    if summaries == [] then ""
    else ReducePrompt(summaries[..|summaries| - 1]) + SummaryEntry(|summaries| - 1, summaries[|summaries| - 1])
  }

  /** The loop of src/main.ts:244-247 accumulating `input_text`. */
  method BuildReducePrompt(paragraphs: seq<string>) returns (inputText: string)
    ensures inputText == ReducePrompt(paragraphs)
  {
    inputText := "";
    for i := 0 to |paragraphs|
      invariant inputText == ReducePrompt(paragraphs[..i])
    {
      assert paragraphs[..i + 1][..i] == paragraphs[..i];
      inputText := inputText + "Summary #" + DecimalString(i + 1) + ":\n";
      inputText := inputText + paragraphs[i] + "\n\n";
    }
    assert paragraphs[..|paragraphs|] == paragraphs;
  }

  /** The prompt for the first `i` summaries is a prefix of the whole prompt,
      and the `i`-th entry follows it directly: the entries appear in list
      order, each with its own number. */
  lemma {:induction false} ReducePromptInOrder(summaries: seq<string>, i: nat)
    requires i < |summaries|
    decreases |summaries|
    ensures StartsWith(ReducePrompt(summaries), ReducePrompt(summaries[..i]) + SummaryEntry(i, summaries[i]))
  {
    var n := |summaries| - 1;
    var pre := summaries[..n];
    if i == n {
      assert summaries[..i] == pre;
    } else {
      ReducePromptInOrder(pre, i);
      assert pre[..i] == summaries[..i];
      var u := ReducePrompt(pre[..i]) + SummaryEntry(i, pre[i]);
      assert ReducePrompt(summaries)[..|u|] == ReducePrompt(pre)[..|u|];
    }
  }

  /** No summaries give the empty prompt, and a non-empty list gives a
      prompt starting with the first summary under number 1. */
  lemma ReducePromptStart(summaries: seq<string>)
    ensures summaries == [] <==> ReducePrompt(summaries) == ""
    ensures summaries != [] ==> StartsWith(ReducePrompt(summaries), "Summary #1:\n" + summaries[0] + "\n\n")
  {
    if summaries != [] {
      ReducePromptInOrder(summaries, 0);
      assert summaries[..0] == [];
      assert DecimalString(1) == "1";
      assert SummaryEntry(0, summaries[0]) == "Summary #1:\n" + summaries[0] + "\n\n";
      assert ReducePrompt(summaries[..0]) == "";
    }
  }

  // ---------------------------------------------------------------------------
  // Bold section labels (src/main.ts:949-970)
  // ---------------------------------------------------------------------------

  /** The seven section names, in the order the rewrites run. */
  const Sections: seq<string> := ["Team", "Problem", "Product", "Traction", "Competition", "Round Info", "Other"]

  function BoldLabel(name: string): string {
    "**" + name + "**"
  }

  function BoldColonLabel(name: string): string {
    "**" + name + ":**"
  }

  function Heading(name: string): string {
    "#### " + name
  }

  // The global regular-expression replacement of `**name**` or `**name:**`
  // (the colon optional) by `#### name`: a left-to-right scan that rewrites
  // every non-overlapping match and resumes after it.
  function RewriteBold(s: string, name: string): string
    decreases |s|
  {
    if s == [] then []
    else if StartsWith(s, BoldColonLabel(name)) then Heading(name) + RewriteBold(s[|name| + 5..], name)
    else if StartsWith(s, BoldLabel(name)) then Heading(name) + RewriteBold(s[|name| + 4..], name)
    else [s[0]] + RewriteBold(s[1..], name)
  }

  /** The seven global rewrites in turn. */
  function RewriteAllBold(s: string, names: seq<string>): string
    decreases |names|
  {
    if names == [] then s else RewriteAllBold(RewriteBold(s, names[0]), names[1..])
  }

  /** A name that can appear in a label without confusing the rewrite. */
  predicate PlainName(name: string) {
    '*' !in name && '#' !in name
  }

  /** A pattern of the kind the rewrite cannot create: it starts with `*`
      and has no `#`. */
  predicate StarPattern(pat: string) {
    |pat| > 0 && pat[0] == '*' && '#' !in pat
  }

  lemma LabelsAreStarPatterns(name: string)
    requires PlainName(name)
    ensures StarPattern(BoldLabel(name)) && StarPattern(BoldColonLabel(name))
  {
  }

  lemma AbsentSuffix(s: string, pat: string, k: nat)
    requires k <= |s| && Absent(s, pat)
    ensures Absent(s[k..], pat)
  {
    forall j | 0 <= j <= |s| - k ensures !StartsWith(s[k..][j..], pat) {
      assert s[k..][j..] == s[k + j..];
    }
  }

  /** The rewritten text begins with a `#`-free string only if the input did. */
  lemma {:induction false} RewriteStartsBack(s: string, name: string, u: string)
    requires '#' !in u
    requires StartsWith(RewriteBold(s, name), u)
    decreases |u|
    ensures StartsWith(s, u)
  {
    if u != [] {
      var r := RewriteBold(s, name);
      assert r[0] == u[0];
      if s == [] {
      } else if !StartsWith(s, BoldColonLabel(name)) && !StartsWith(s, BoldLabel(name)) {
        var rest := RewriteBold(s[1..], name);
        assert r == [s[0]] + rest;
        assert rest[..|u| - 1] == u[1..];
        RewriteStartsBack(s[1..], name, u[1..]);
        assert s[..|u|] == [s[0]] + s[1..][..|u| - 1];
      }
    }
  }

  /** The rewrite leaves no match of its own two labels, and it creates no
      occurrence of any other star pattern. */
  lemma {:induction false} RewriteLeavesNoLabel(s: string, name: string, pat: string)
    requires PlainName(name) && StarPattern(pat)
    requires Absent(s, pat) || pat == BoldLabel(name) || pat == BoldColonLabel(name)
    decreases |s|
    ensures Absent(RewriteBold(s, name), pat)
  {
    var r := RewriteBold(s, name);
    if s == [] {
    } else if StartsWith(s, BoldColonLabel(name)) || StartsWith(s, BoldLabel(name)) {
      var k := if StartsWith(s, BoldColonLabel(name)) then |name| + 5 else |name| + 4;
      var h := Heading(name);
      if Absent(s, pat) { AbsentSuffix(s, pat, k); }
      RewriteLeavesNoLabel(s[k..], name, pat);
      var rest := RewriteBold(s[k..], name);
      assert r == h + rest;
      forall j | 0 <= j <= |r| ensures !StartsWith(r[j..], pat) {
        if j < |h| {
          assert r[j] == h[j];
          assert h[j] in h;
        } else {
          assert r[j..] == rest[j - |h|..];
        }
      }
    } else {
      assert s[0..] == s;
      if Absent(s, pat) { AbsentSuffix(s, pat, 1); }
      RewriteLeavesNoLabel(s[1..], name, pat);
      var rest := RewriteBold(s[1..], name);
      assert r == [s[0]] + rest;
      forall j | 0 <= j <= |r| ensures !StartsWith(r[j..], pat) {
        if j == 0 {
          if StartsWith(r, pat) {
            assert rest[..|pat| - 1] == pat[1..];
            assert forall c :: c in pat[1..] ==> c in pat;
            RewriteStartsBack(s[1..], name, pat[1..]);
          }
        } else {
          assert r[j..] == rest[j - 1..];
        }
      }
    }
  }

  /** A text with neither label is left unchanged by the rewrite. */
  lemma {:induction false} RewriteWithoutLabel(s: string, name: string)
    requires Absent(s, BoldLabel(name)) && Absent(s, BoldColonLabel(name))
    decreases |s|
    ensures RewriteBold(s, name) == s
  {
    if s != [] {
      assert s[0..] == s;
      AbsentSuffix(s, BoldLabel(name), 1);
      AbsentSuffix(s, BoldColonLabel(name), 1);
      RewriteWithoutLabel(s[1..], name);
    }
  }

  /** A star pattern absent before the rewrites stays absent. */
  lemma {:induction false} RewriteAllKeepsAbsent(s: string, names: seq<string>, pat: string)
    requires forall n :: n in names ==> PlainName(n)
    requires StarPattern(pat) && Absent(s, pat)
    decreases |names|
    ensures Absent(RewriteAllBold(s, names), pat)
  {
    if names != [] {
      RewriteLeavesNoLabel(s, names[0], pat);
      RewriteAllKeepsAbsent(RewriteBold(s, names[0]), names[1..], pat);
    }
  }

  /** After the rewrites no label of any of the names remains. */
  lemma {:induction false} RewriteAllLeavesNoLabel(s: string, names: seq<string>)
    requires forall n :: n in names ==> PlainName(n)
    decreases |names|
    ensures forall n :: n in names ==>
      Absent(RewriteAllBold(s, names), BoldLabel(n)) && Absent(RewriteAllBold(s, names), BoldColonLabel(n))
  {
    if names != [] {
      var n0 := names[0];
      var t := RewriteBold(s, n0);
      RewriteAllLeavesNoLabel(t, names[1..]);
      LabelsAreStarPatterns(n0);
      RewriteLeavesNoLabel(s, n0, BoldLabel(n0));
      RewriteLeavesNoLabel(s, n0, BoldColonLabel(n0));
      RewriteAllKeepsAbsent(t, names[1..], BoldLabel(n0));
      RewriteAllKeepsAbsent(t, names[1..], BoldColonLabel(n0));
      forall n | n in names ensures Absent(RewriteAllBold(s, names), BoldLabel(n)) && Absent(RewriteAllBold(s, names), BoldColonLabel(n)) {
        if n != n0 { assert n in names[1..]; }
      }
    }
  }

  /** A text with no label of any of the names is left unchanged. */
  lemma {:induction false} RewriteAllWithoutLabels(s: string, names: seq<string>)
    requires forall n :: n in names ==> Absent(s, BoldLabel(n)) && Absent(s, BoldColonLabel(n))
    decreases |names|
    ensures RewriteAllBold(s, names) == s
  {
    if names != [] {
      RewriteWithoutLabel(s, names[0]);
      RewriteAllWithoutLabels(s, names[1..]);
    }
  }

  lemma SectionsArePlain()
    ensures forall n :: n in Sections ==> PlainName(n)
  {
  }

  /** The bold step of src/main.ts:949-970. */
  function BoldStep(s: string): string {
    RewriteAllBold(s, Sections)
  }

  /** No `**Section**` or `**Section:**` survives the bold step, and running
      it a second time changes nothing. */
  lemma BoldStepCanonical(s: string)
    ensures forall n :: n in Sections ==> Absent(BoldStep(s), BoldLabel(n)) && Absent(BoldStep(s), BoldColonLabel(n))
    ensures BoldStep(BoldStep(s)) == BoldStep(s)
  {
    SectionsArePlain();
    RewriteAllLeavesNoLabel(s, Sections);
    RewriteAllWithoutLabels(BoldStep(s), Sections);
  }

  // ---------------------------------------------------------------------------
  // Stray bullets before headings (src/main.ts:971-983)
  // ---------------------------------------------------------------------------

  function BulletHeading(name: string): string {
    "- " + Heading(name)
  }

  /** `s.replace("- #### name", "#### name")` for each name in turn. */
  function UnbulletAll(s: string, names: seq<string>): string
    decreases |names|
  {
    if names == [] then s else UnbulletAll(ReplaceFirst(s, BulletHeading(names[0]), Heading(names[0])), names[1..])
  }

  /** The bullet step of src/main.ts:971-983. */
  function BulletStep(s: string): string {
    UnbulletAll(s, Sections)
  }

  /** The normalisation of the consolidated summary. */
  function Normalize(s: string): string {
    BulletStep(BoldStep(s))
  }

  // ---------------------------------------------------------------------------
  // Framing (src/main.ts:984-987)
  // ---------------------------------------------------------------------------

  /** The title and tag lines put before the summary. */
  function FrameHeader(meetingName: string): string {
    "## " + meetingName + " call summary" + "\n#review_startup\n"
  }

  /** The summary behind its title and tag lines. */
  function Frame(meetingName: string, body: string): string {
    FrameHeader(meetingName) + body
  }

  /** The formatted summary for a consolidated answer. */
  function FormatCallSummary(meetingName: string, answer: string): string {
    Frame(meetingName, Normalize(answer))
  }

  /** A text without `*` has no bold label. */
  lemma NoStarNoLabel(s: string, pat: string)
    requires '*' !in s && StarPattern(pat)
    ensures Absent(s, pat)
  {
  }

  /** A text without `-` has no bulleted heading, so the bullet step keeps it. */
  lemma {:induction false} NoDashNoBullet(s: string, names: seq<string>)
    requires '-' !in s
    decreases |names|
    ensures UnbulletAll(s, names) == s
  {
    if names != [] {
      forall j | 0 <= j <= |s| ensures !StartsWith(s[j..], BulletHeading(names[0])) {
        if j < |s| { assert s[j] in s; }
      }
      NoDashNoBullet(s, names[1..]);
    }
  }

  /** A text without `*` or `-` is only framed: the rewrites find nothing. */
  lemma FormatWithoutMarkup(meetingName: string, answer: string)
    requires '*' !in answer && '-' !in answer
    ensures FormatCallSummary(meetingName, answer) == FrameHeader(meetingName) + answer
  {
    SectionsArePlain();
    forall n | n in Sections ensures Absent(answer, BoldLabel(n)) && Absent(answer, BoldColonLabel(n)) {
      LabelsAreStarPatterns(n);
      NoStarNoLabel(answer, BoldLabel(n));
      NoStarNoLabel(answer, BoldColonLabel(n));
    }
    RewriteAllWithoutLabels(answer, Sections);
    NoDashNoBullet(answer, Sections);
  }

  lemma HeaderWithoutMarkup(meetingName: string)
    requires '*' !in meetingName && '-' !in meetingName
    ensures '*' !in FrameHeader(meetingName) && '-' !in FrameHeader(meetingName)
  {
    assert '*' !in "## " && '-' !in "## ";
    assert '*' !in " call summary" && '-' !in " call summary";
    assert '*' !in "\n#review_startup\n" && '-' !in "\n#review_startup\n";
  }

  /** With a meeting name and a text free of `*` and `-`, the formatted text
      is the framed text, and it is again free of `*` and `-`. */
  lemma FormatKeepsMarkupFree(meetingName: string, answer: string)
    requires '*' !in meetingName && '-' !in meetingName
    requires '*' !in answer && '-' !in answer
    ensures var r := FormatCallSummary(meetingName, answer);
      r == FrameHeader(meetingName) + answer && '*' !in r && '-' !in r
  {
    FormatWithoutMarkup(meetingName, answer);
    HeaderWithoutMarkup(meetingName);
  }

  /** Formatting is not idempotent: on a text without `*` or `-` and a meeting
      name without them, formatting the formatted text prepends the title and
      tag lines a second time. */
  lemma FormatTwiceFramesTwice(meetingName: string, answer: string, once: string)
    requires '*' !in meetingName && '-' !in meetingName
    requires '*' !in answer && '-' !in answer
    requires once == FormatCallSummary(meetingName, answer)
    ensures FormatCallSummary(meetingName, once) == FrameHeader(meetingName) + once
    ensures FormatCallSummary(meetingName, once) != once
  {
    FormatKeepsMarkupFree(meetingName, answer);
    FormatKeepsMarkupFree(meetingName, once);
    HeaderNonEmpty(meetingName);
    assert |FrameHeader(meetingName) + once| > |once|;
  }

  lemma HeaderNonEmpty(meetingName: string)
    ensures |FrameHeader(meetingName)| > 0
  {
  }

  // ---------------------------------------------------------------------------
  // The whole command (src/main.ts:893-997)
  // ---------------------------------------------------------------------------

  /** Each chunk summarised, in order. */
  function SummarizeEach(summarize: string -> string, chunks: seq<string>): (r: seq<string>)
    decreases |chunks|
    ensures |r| == |chunks| && forall k :: 0 <= k < |chunks| ==> r[k] == summarize(chunks[k])
  {
    if chunks == [] then [] else SummarizeEach(summarize, chunks[..|chunks| - 1]) + [summarize(chunks[|chunks| - 1])]
  }

  /** Summarising one more chunk appends its summary. */
  lemma SummarizeEachSnoc(summarize: string -> string, chunks: seq<string>, i: nat)
    requires i < |chunks|
    ensures SummarizeEach(summarize, chunks[..i + 1]) == SummarizeEach(summarize, chunks[..i]) + [summarize(chunks[i])]
  {
    assert chunks[..i + 1][..i] == chunks[..i];
  }

  /** The text `fireflies_summary` inserts at the cursor. A failure inside the
      `try` leaves `final_summary` at its initial `""`. */
  function CallSummaryText(sentences: seq<Sentence>, investorNames: seq<string>, meetingName: string,
                           summarizeParagraph: string -> string, consolidate: string -> string): string
  {
    match Paragraphs(sentences, investorNames)
    case Failure(_) => ""
    case Success(paragraphs) =>
      var chunks := Chunks(paragraphs, Budget, Threshold);
      FormatCallSummary(meetingName, consolidate(ReducePrompt(SummarizeEach(summarizeParagraph, chunks))))
  }

  /** `fireflies_summary` with the meeting lookup done: the transcript's
      sentences are given, the two model calls are parameters. */
  method FirefliesSummary(sentences: seq<Sentence>, investorNames: seq<string>, meetingName: string,
                          summarizeParagraph: string -> string, consolidate: string -> string)
    returns (finalSummary: string)
    ensures finalSummary == CallSummaryText(sentences, investorNames, meetingName, summarizeParagraph, consolidate)
  {
    finalSummary := "";
    var merged := MergeTurns(sentences, investorNames);
    if merged.Failure? {
      return;
    }
    var paragraphs := merged.value;
    var extendedParagraphs := BuildChunks(paragraphs, Budget, Threshold);
    var summaries: seq<string> := [];
    for i := 0 to |extendedParagraphs|
      invariant summaries == SummarizeEach(summarizeParagraph, extendedParagraphs[..i])
    {
      SummarizeEachSnoc(summarizeParagraph, extendedParagraphs, i);
      summaries := summaries + [summarizeParagraph(extendedParagraphs[i])];
    }
    assert extendedParagraphs[..|extendedParagraphs|] == extendedParagraphs;
    var inputText := BuildReducePrompt(summaries);
    finalSummary := consolidate(inputText);
    finalSummary := Normalize(finalSummary);
    finalSummary := Frame(meetingName, finalSummary);
  }

  /** An empty transcript makes the merge throw; the command then inserts nothing. */
  lemma EmptyTranscriptInsertsNothing(investorNames: seq<string>, meetingName: string,
                                      summarizeParagraph: string -> string, consolidate: string -> string)
    ensures CallSummaryText([], investorNames, meetingName, summarizeParagraph, consolidate) == ""
  {
  }

  /** A non-empty transcript always gives a framed summary: the title and tag
      lines, then the normalised consolidation of the chunk summaries. */
  lemma SummaryIsFramed(sentences: seq<Sentence>, investorNames: seq<string>, meetingName: string,
                        summarizeParagraph: string -> string, consolidate: string -> string)
    requires sentences != []
    ensures var r := CallSummaryText(sentences, investorNames, meetingName, summarizeParagraph, consolidate);
      var h := FrameHeader(meetingName);
      var chunks := Chunks(Paragraphs(sentences, investorNames).value, Budget, Threshold);
      && StartsWith(r, h)
      && r[|h|..] == Normalize(consolidate(ReducePrompt(SummarizeEach(summarizeParagraph, chunks))))
  {
    var h := FrameHeader(meetingName);
    var chunks := Chunks(Paragraphs(sentences, investorNames).value, Budget, Threshold);
    var body := Normalize(consolidate(ReducePrompt(SummarizeEach(summarizeParagraph, chunks))));
    assert CallSummaryText(sentences, investorNames, meetingName, summarizeParagraph, consolidate) == h + body;
    assert (h + body)[..|h|] == h && (h + body)[|h|..] == body;
  }

  /** When no paragraph has enough words, no chunk is summarised: the result
      does not depend on the chunk summariser, and the consolidation sees the
      empty prompt. */
  lemma ShortTranscriptSkipsChunks(sentences: seq<Sentence>, investorNames: seq<string>, meetingName: string,
                                   f: string -> string, g: string -> string, consolidate: string -> string)
    requires sentences != []
    requires var ps := Paragraphs(sentences, investorNames).value;
      forall k :: 0 <= k < |ps| ==> CountWords(ps[k]) < Threshold
    ensures CallSummaryText(sentences, investorNames, meetingName, f, consolidate)
      == CallSummaryText(sentences, investorNames, meetingName, g, consolidate)
      == FormatCallSummary(meetingName, consolidate(""))
  {
    var ps := Paragraphs(sentences, investorNames).value;
    NothingKept(ps, Threshold);
    GroupsOfFinalState(ps, Budget, Threshold);
    assert Chunks(ps, Budget, Threshold) == [];
    assert SummarizeEach(f, []) == [] && SummarizeEach(g, []) == [];
  }

  /** No paragraph reaches the threshold: none is kept. */
  lemma {:induction false} NothingKept(ps: seq<string>, threshold: nat)
    requires forall k :: 0 <= k < |ps| ==> CountWords(ps[k]) < threshold
    decreases |ps|
    ensures Kept(ps, threshold) == []
  {
    if ps != [] {
      NothingKept(ps[..|ps| - 1], threshold);
    }
  }
}
