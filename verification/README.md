# VC Copilot text pipeline, in Dafny

This project models the deterministic text handling of the VC Copilot
Obsidian plugin and proves properties of it. The centre is the
"Fireflies Call Summary" command:

- a call transcript, a list of speaker-attributed sentences, is merged into
  labelled speaker turns (`get_meeting_transcript_by_id`);
- the turns with at least 12 words are packed greedily into chunks of at most
  2500 words;
- each chunk is summarised, the numbered summaries are joined into one
  reduce prompt, and the consolidated answer is normalised (bold section
  labels become `####` headings) and framed with a title and a review tag.

Around it sit the plugin's pure note helpers:

- the word counter;
- `clean_text` and the h1 split `extract_title_and_note`;
- the tag predicates that select notes;
- the Affinity search term and the venture-network list scan;
- the text that the VC-note and selection summaries splice back into a note;
- the header, line and category helpers of the master-note update;
- the URL research formatter;
- the older copies of several of these in the root `main.ts`.

Every call to a language model is a function parameter of type
`string -> string`. The model stays deterministic, and nothing is assumed
about what the model answers.

Modules:

| module | file | models |
|---|---|---|
| `Text` | text.dfy | the JavaScript string operations used: `includes`, `indexOf`, `replace` with a string pattern (first occurrence only), `split`, `join`, `trim`, `toLowerCase`, number to string, an out-of-range array read |
| `Words` | words.dfy | `countWords`: a model of the regex engine running `/\b[a-z\d]+\b/gi`, and a reference count of word runs |
| `Transcript` | transcript.dfy | the turn-merging loop of src/fireflies.ts |
| `Chunking` | chunking.dfy | the greedy chunk packer of src/main.ts |
| `CallSummary` | call_summary.dfy | the reduce prompt, the heading normaliser, the framing and the whole command |
| `UrlFormatter` | url_formatter.dfy | `format_url_text` of src/formatter.js |
| `Notes` | notes.dfy | the pure helpers of src/utils.ts |
| `Splices` | splices.dfy | the text `summarize_vc_text` and the selection summary write back |
| `MasterNote` | master_note.dfy | `extractHeadersFromNotes`, `findLineNumber`, `getStartHeader`, `get_updates_from_categories`, `create_update_messages` |
| `LegacyPlugin` | legacy.dfy | the copies in the root main.ts, and their agreement with the src/ versions |

Loops in the source are methods with loops in the model. Each such method is
proved equal to a specification function, and the properties are lemmas
about that function. The loop methods are:

- `Transcript.MergeTurns`;
- `Chunking.BuildChunks`;
- `CallSummary.BuildReducePrompt` and `CallSummary.FirefliesSummary`;
- `Notes.BuildSearchTerm` and `Notes.IsPersonInVentureNetwork`;
- `Splices.SummarizeVcText`;
- `MasterNote.ExtractHeadersFromNotes`, `MasterNote.FindLineNumber`,
  `MasterNote.GetUpdatesFromCategories` and `MasterNote.CreateUpdateMessages`;
- `LegacyPlugin.SummarizeVcText`.

The chains of `replace` calls and the predicates are functions.

## Code and design description

Where the code and the description of its design disagree, the model follows
the code:

- **Formatting is not idempotent.** The description says formatting twice
  changes nothing. The framing, however, is prepended again on every pass
  (`CallSummary.FormatTwiceFramesTwice`). The bold step alone is idempotent
  (`CallSummary.BoldStepCanonical`).
- **Empty transcript.** The description expects the framing alone. The code
  reads `sentences[0]` of the empty list and throws; the `catch` leaves
  `final_summary` as `""`, and that is what gets inserted
  (`CallSummary.EmptyTranscriptInsertsNothing`).
- **Transcript with nothing kept.** When every paragraph is short, the
  consolidation model is still called, with the empty prompt, and its answer
  is framed (`CallSummary.ShortTranscriptSkipsChunks`).
- **The last turn.** The last turn is pushed raw, with no speaker label and
  no line break (`Transcript.TwoSpeakers`, `Transcript.LabelledBeforeFlush`).

## Model

| member | source | states |
|---|---|---|
| Words.CountWords | src/utils.ts:345-350 | the word count equals the number of maximal `[A-Za-z0-9_]` runs that contain no `_` |
| Words.MatchesAreCleanRuns | src/utils.ts:347 | from a position that is not inside a word, the regex engine finds exactly as many matches as the rest of the text has underscore-free word runs |
| Words.MatchesAreAlnum | src/utils.ts:347 | every match is a non-empty run of ASCII letters and digits |
| Words.NoAlnumNoWords | src/utils.ts:347-349 | a text with no ASCII letter or digit counts 0 words |
| Words.CountWordsConcat | src/utils.ts:347 | the count of a concatenation is at most the sum of the counts, and equal to it when the join is not inside a word |
| Transcript.Paragraphs | src/fireflies.ts:73-100 | the merge fails exactly on the empty sentence list, where `sentences[0]` is read before the loop |
| Transcript.MergeTurns | src/fireflies.ts:73-100 | the loop returns the paragraphs of the merge, or the failure on the empty list |
| Transcript.RunKeepsText | src/fireflies.ts:78-93 | with non-empty sentence texts, the closed turns and the buffer hold all the texts concatenated in order, with no separator |
| Transcript.RunCountsRuns | src/fireflies.ts:78-98 | with non-empty texts, there is one turn per maximal run of one speaker |
| Transcript.RunAlternates | src/fireflies.ts:81-93 | with non-empty texts, consecutive turns have different speakers and no turn is empty |
| Transcript.MergeWithoutEmptyTexts | src/fireflies.ts:73-100 | with non-empty texts: one turn per speaker run, nothing lost or reordered, speakers alternate, and the paragraphs are the labelled turns followed by the raw last one |
| Transcript.LabelledBeforeFlush | src/fireflies.ts:82-98 | every paragraph but the flushed one is `speaker (Investor\|Founder): text\n`, chosen by membership of the investor list; the flushed one is the raw buffer, pushed only when non-empty |
| Transcript.DroppedWhileBufferEmpty | src/fireflies.ts:81-93 | a sentence of another speaker that arrives while the buffer is empty changes nothing: it is dropped and the current speaker stays |
| Transcript.ClosedTurnsHaveText | src/fireflies.ts:82-92 | closed turns are only ever appended, and none is empty |
| Transcript.TwoSpeakers | src/fireflies.ts:73-100 | two sentences of two speakers give the labelled first one and the raw second one |
| Transcript.EmptyFirstSentenceLosesReply | src/fireflies.ts:81-82 | after an empty first sentence, the reply of another speaker is lost and no paragraph is produced |
| Transcript.RunAppend | src/fireflies.ts:78-93 | the loop over a concatenation is the loop over the first part continued over the second |
| Chunking.Chunks | src/main.ts:908-927 | the chunks: each group of the greedy packing of the kept paragraphs, concatenated (laws in `Chunking.ChunksKeepOrder`, `Chunking.ChunksWithinBudget`, `Chunking.ChunksClosedWhenFull`, `Chunking.EmptyChunkOnlyFirst`) |
| Chunking.BuildChunks | src/main.ts:908-927 | the loop returns the chunks of the greedy packing |
| Chunking.Kept | src/main.ts:912-914 | every paragraph that is kept has at least the threshold number of words |
| Chunking.PackKeepsOrder | src/main.ts:911-924 | the groups hold exactly the kept paragraphs, in order |
| Chunking.FillKeepsInv | src/main.ts:914-922 | one step keeps the packing invariant: later groups non-empty, the first paragraph of the first group within budget, shared groups within budget, groups closed only when full |
| Chunking.PackKeepsInv | src/main.ts:911-924 | the packing invariant holds after every prefix of the paragraphs |
| Chunking.GroupMembersAreLong | src/main.ts:912-914 | every paragraph in a group is non-empty and has at least the threshold number of words |
| Chunking.GroupsOfFinalState | src/main.ts:925-927 | the emitted groups are the packer's groups, or none when nothing was kept |
| Chunking.ChunksKeepOrder | src/main.ts:911-927 | the chunks concatenated are the kept paragraphs concatenated in order, and only paragraphs with enough words appear |
| Chunking.ChunksWithinBudget | src/main.ts:916-922 | a chunk of two or more paragraphs is within the budget; a chunk over the budget is a single paragraph |
| Chunking.ChunksClosedWhenFull | src/main.ts:916-922 | each chunk was closed only because the first paragraph of the next one would have taken it over the budget |
| Chunking.EmptyChunkOnlyFirst | src/main.ts:916-927 | a leading `""` chunk appears exactly when the first kept paragraph alone exceeds the budget, and no later chunk is empty |
| CallSummary.ReducePrompt | src/main.ts:242-247 | the reduce prompt: `Summary #k:\n`, the k-th summary and a blank line, for each summary in order (laws in `CallSummary.ReducePromptInOrder` and `CallSummary.ReducePromptStart`) |
| CallSummary.BuildReducePrompt | src/main.ts:242-247 | the prompt loop builds the numbered concatenation of the summaries |
| CallSummary.ReducePromptInOrder | src/main.ts:244-247 | the prompt starts with the entries of the first `i` summaries followed by `Summary #i+1:\n`, summary `i` and a blank line |
| CallSummary.ReducePromptStart | src/main.ts:242-247 | the prompt is empty exactly for no summaries, and otherwise starts with the entry of the first one |
| CallSummary.RewriteLeavesNoLabel | src/main.ts:949 | a global bold rewrite leaves no `**Name**` or `**Name:**` and creates no other bold pattern |
| CallSummary.RewriteWithoutLabel | src/main.ts:949 | a text without the label is left unchanged by its rewrite |
| CallSummary.RewriteAllLeavesNoLabel | src/main.ts:949-970 | after the chain of bold rewrites, none of their labels remains |
| CallSummary.RewriteAllWithoutLabels | src/main.ts:949-970 | a text holding none of the labels is left unchanged by the chain |
| CallSummary.BoldStepCanonical | src/main.ts:949-970 | after the seven bold rewrites, no `**Section**` or `**Section:**` remains, and running them again changes nothing |
| Text.ReplaceFirst | src/main.ts:971-983 | a string-pattern `replace` rewrites the left-most occurrence and nothing else, and leaves a text without the pattern unchanged |
| Text.ReplaceFirstKeepsLater | src/main.ts:971-983 | the `- #### Section` rewrite keeps the text before the first occurrence and leaves any later occurrence in place |
| CallSummary.NoDashNoBullet | src/main.ts:971-983 | a text without `-` is left unchanged by the bullet rewrites |
| CallSummary.Normalize | src/main.ts:949-983 | the seven bold rewrites followed by the seven bullet rewrites (laws in `CallSummary.BoldStepCanonical` and `CallSummary.NoDashNoBullet`) |
| CallSummary.FormatCallSummary | src/main.ts:949-987 | the normalised answer behind the title and tag lines (laws in `CallSummary.FormatWithoutMarkup` and `CallSummary.FormatTwiceFramesTwice`) |
| CallSummary.FormatWithoutMarkup | src/main.ts:949-987 | an answer without `*` or `-` comes out as the framing followed by the answer unchanged |
| CallSummary.FormatKeepsMarkupFree | src/main.ts:949-987 | with a meeting name and an answer free of `*` and `-`, the result is free of them too |
| CallSummary.FormatTwiceFramesTwice | src/main.ts:984-987 | formatting a formatted summary prepends the framing again, so the formatter is not idempotent |
| CallSummary.SummarizeEach | src/main.ts:935-939 | one summary per chunk, in chunk order |
| CallSummary.CallSummaryText | src/main.ts:903-994 | the text the command inserts: `""` when the merge throws, otherwise the formatted consolidation of the chunk summaries (laws in `CallSummary.SummaryIsFramed` and `CallSummary.ShortTranscriptSkipsChunks`) |
| CallSummary.FirefliesSummary | src/main.ts:903-994 | the command inserts the framed, normalised consolidation of the numbered chunk summaries, or `""` when the transcript fails |
| CallSummary.EmptyTranscriptInsertsNothing | src/main.ts:989-994 | for the empty transcript the error is caught and `""` is inserted |
| CallSummary.SummaryIsFramed | src/main.ts:935-987 | for a non-empty transcript the inserted text is `## <meeting> call summary\n#review_startup\n` followed by the normalised consolidation of the numbered summaries of the chunks |
| CallSummary.ShortTranscriptSkipsChunks | src/main.ts:911-948 | when no paragraph is kept, the chunk summariser is never used, and the result is the framed consolidation of the empty prompt |
| CallSummary.NothingKept | src/main.ts:912-914 | when every paragraph is short, nothing is kept |
| UrlFormatter.RewriteMarkersLength | src/formatter.js:3-12 | each rewrite that finds its `X:` marker grows the text by exactly 4 characters |
| UrlFormatter.FormatLength | src/formatter.js:2-12 | the output length is the title plus the input plus 4 for every marker found |
| UrlFormatter.FormatWithoutMarkers | src/formatter.js:2-13 | when none of the seven markers occurs in the titled text, the output is `## url Research\n` followed by the input |
| UrlFormatter.FormatUrlText | src/formatter.js:1-14 | the title line `## <url> Research\n` before the text, then the seven first-occurrence rewrites of `Label:` to `#### Label`, in order (laws in `UrlFormatter.FormatLength` and `UrlFormatter.FormatKeepsTitle`) |
| UrlFormatter.TitleHidesMarker | src/formatter.js:2 | a pattern that starts with neither `#` nor a space and ends in `:` occurs in the title line only if it occurs in the URL |
| UrlFormatter.LowerCaseUrlHasNoMarker | src/formatter.js:3-12 | a URL without capital letters holds none of the seven markers |
| UrlFormatter.FormatKeepsTitle | src/formatter.js:2-12 | for a URL holding none of the seven markers (such as `https://acme.com`), the output is the title line followed by the input with the seven first-occurrence rewrites applied in order |
| Text.ReplaceFirstLength | src/formatter.js:3-12 | a `replace` that finds its pattern changes the length by the difference between the replacement and the pattern |
| Notes.StartupReadyForAffinity | src/utils.ts:287-292 | a startup note is ready for Affinity when it holds both `#startups/screened` and `#Affinity` |
| Notes.IsSummarizable | src/utils.ts:325-336 | a note is summarisable when it holds `#network/connected` and `#Entity/VC` or `#Person/VC`, and neither `#gpt_summarized` nor `dataview` (laws in `Notes.SummarizedVcNote` and `Notes.DataviewNotSummarizable`) |
| Notes.VcReadyForAffinity | src/utils.ts:338-343 | a VC note is ready for Affinity when it holds both `#gpt_summarized` and `#Affinity` |
| Notes.SummarizedVcNote | src/utils.ts:325-343 | a note holding `#gpt_summarized` is never summarisable, and with `#Affinity` it is ready to be pushed |
| Notes.DataviewNotSummarizable | src/utils.ts:325-336 | a note holding `dataview` is never summarisable |
| Notes.KeepAllowed | src/utils.ts:320 | the removal leaves only ASCII letters, digits, whitespace and `.` |
| Notes.CleanText | src/utils.ts:319-323 | `clean_text`: the disallowed characters removed, then trimmed (laws in `Notes.CleanTextLaws`) |
| Notes.CleanTextLaws | src/utils.ts:319-323 | the result has only allowed characters, no leading or trailing whitespace, and cleaning it again changes nothing |
| Notes.H1At | src/utils.ts:306 | the h1 pattern matches at an index exactly when it is a line start with `# ` there and a line break later; the match is one `# …\n` line |
| Notes.PiecesAroundMatches | src/utils.ts:306-316 | the split has one more piece than there are h1 lines, and the pieces with the lines between them give back the text |
| Notes.MatchesAreH1Lines | src/utils.ts:306-307 | every match is a `# …\n` line |
| Notes.FirstMatch | src/utils.ts:307-311 | the first match is the h1 line at the first line start that begins one; there is none exactly when no line start does |
| Notes.ExtractTitleAndNote | src/utils.ts:295-317 | the first match of `/^# .*\n/gm`, or `""`, and the split of the text at every match (laws in `Notes.ExtractTitleAndNoteLaws`) |
| Notes.ExtractTitleAndNoteLaws | src/utils.ts:295-317 | the title is the first h1 line, with its line break, or `""` when there is none; the pieces number one more than the h1 lines and interleave with them back into the text |
| Notes.BuildSearchTerm | src/utils.ts:53-59 | the loop joins the space-separated name parts with `+` |
| Notes.SearchTermReplacesSpaces | src/utils.ts:53-59 | the search term is the name with every space turned into `+` |
| Notes.IsPersonInVentureNetwork | src/utils.ts:173-185 | the scan returns the id of the first entry whose list id, as a string, equals the given id, and null exactly when there is none |
| Notes.OnListNumeric | src/utils.ts:180 | for a numeric id string, an entry matches exactly when its list id is that number |
| Splices.HashtagsAsWritten | src/main.ts:158-159 | `substrings[0].split("Tags:")[1]` as written: the piece after the first `Tags:`, or `undefined` when there is none (proved in `Splices.UntaggedNoteSendsUndefined` and `Splices.HashtagsAfterTags`) |
| Splices.Hashtags | src/main.ts:158-161 | the hashtags the `catch` branch meant: the piece after the first `Tags:`, or the whole text before the title |
| Splices.VcPrompt | src/main.ts:157-185 | the user message as written: `Notes:\n`, the hashtags as the code reads them, a line break, and the body piece (`undefined` when missing) |
| Splices.IntendedVcPrompt | src/main.ts:157-185 | the same message with the text before the title in place of missing hashtags |
| Splices.UntaggedNoteSendsUndefined | src/main.ts:158-168 | without `Tags:` before the title, the code as written sends `undefined` in place of the hashtags; the corrected reading sends the text before the title |
| Splices.HashtagsAfterTags | src/main.ts:158-161 | with `Tags:`, both readings give the text after the first `Tags:` up to any later one |
| Splices.UntaggedPromptSendsUndefined | src/main.ts:157-167 | without `Tags:` before the title, the prompt as written is `Notes:\nundefined\n` and the body, and the intended one has the text before the title there |
| Splices.TaggedPromptIsIntended | src/main.ts:157-167 | with `Tags:` before the title, the prompt as written is the intended one |
| Splices.FundNoteSplit | src/utils.ts:306-316 | the note `# Fund\nbody` has the title `# Fund\n` and the pieces `""` and `body` |
| Splices.UntitledHeadNoteSendsUndefined | src/main.ts:157-185 | for those pieces the prompt as written is `Notes:\nundefined\nbody`, the intended one `Notes:\n\nbody` |
| Splices.TailingJoins | src/main.ts:196-198 | the tailing loop's text is the later pieces joined with line breaks, after one more |
| Splices.VcSplice | src/main.ts:194-206 | the replacement: the text before the title, the title, the tag line, the summary, the stop heading and the tailing text (laws in `Splices.VcSpliceKeepsText` and `Splices.VcSpliceNotSummarizable`) |
| Splices.VcSpliceKeepsText | src/main.ts:194-206 | the splice keeps the text before the title, the title, and every later piece, in order, after the stop heading |
| Splices.VcSpliceNotSummarizable | src/main.ts:194-206 | the spliced note holds `#gpt_summarized`, so it is never selected for summarisation again |
| Splices.SummarizeVcText | src/main.ts:149-210 | returns the splice of the note's pieces, its title and the model's summary of the prompt as written, which carries `undefined` for a note without `Tags:` |
| Splices.SelectionSplice | src/main.ts:641-646 | the replacement starts with `#gpt_summarized, #AddHashtags, #review_startup \n` and ends with the selection unchanged |
| Splices.SummarizeSelection | src/main.ts:628-646 | the replacement of a selection is the splice of the model's summary of the selection itself |
| Splices.SelectionSpliceLaws | src/main.ts:641-646 | the replacement of a selection is never summarisable |
| MasterNote.ExtractHeadersFromNotes | src/main.ts:276-286 | the `exec` loop collects every match of the header pattern, in order |
| MasterNote.Exec | src/main.ts:277-281 | one `exec` from `lastIndex`: a match found lies at or after it, is at least 3 characters long and ends within the text |
| MasterNote.HeaderMatches | src/main.ts:276-286 | the headers collected by repeated `exec` from the end of each match (laws in `MasterNote.HeadersAreMatches`) |
| MasterNote.ExecIsFirst | src/main.ts:281 | `exec` finds the left-most match at or after `lastIndex`, and none exactly when there is none |
| MasterNote.GiveBackIsLongest | src/main.ts:277 | `\s+` keeps the longest whitespace prefix after which `.` can match, and fails only when no prefix allows it |
| MasterNote.HeaderAtShape | src/main.ts:277 | a match starts a line with `#`, has whitespace after its `#` run, and ends at a line end |
| MasterNote.WholeLineHeader | src/main.ts:277 | a line made of `#`s, spaces and then text is matched whole |
| MasterNote.HeaderSpansLines | src/main.ts:277 | because `\s` matches line breaks, a lone `#` followed by a blank line and a text line matches across all three lines |
| MasterNote.HeadersAreMatches | src/main.ts:276-286 | every header found starts with `#`, is at least 3 characters long and does not end in a line break |
| MasterNote.FindLineNumber | src/main.ts:288-302 | returns the first line at or after `startLine` that contains the search string, with its index, or `[null, null]` exactly when there is none |
| MasterNote.StartHeader | src/main.ts:304-324 | the if-chain on the lowered category (laws in `MasterNote.StartHeaderIsLookup`, `MasterNote.StartHeaderEmpty`, `MasterNote.StartHeaderIgnoresCase`) |
| MasterNote.StartHeaderIsLookup | src/main.ts:304-324 | the if-chain is the lookup of the lowered category in the seven-row table |
| MasterNote.StartHeaderIgnoresCase | src/main.ts:304-324 | a category and its lower-case form map to the same heading |
| MasterNote.KelvinSignCategory | src/main.ts:315-318 | `MAR\u212AET SIZE` gets `#### Traction`, because the Kelvin sign lowers to `k` |
| MasterNote.StartHeaderEmpty | src/main.ts:304-324 | the heading is `""` exactly for categories outside the table, and otherwise a `#### ` heading |
| MasterNote.KeyIndex | src/main.ts:1266 | `hasOwnProperty` finds the entry of a key, and fails exactly when there is none |
| MasterNote.GetUpdatesFromCategories | src/main.ts:1259-1275 | the loop builds the grouping of the lines by the text after `::` |
| MasterNote.AddUpdateLaws | src/main.ts:1266-1271 | adding a line keeps every key unique and appends its text under its own category only |
| MasterNote.GroupedByCategory | src/main.ts:1259-1275 | each category appears once, and holds the texts of its lines in line order |
| MasterNote.CreateUpdateMessages | src/main.ts:1277-1292 | one message per category, in entry order: `###### <category> updates on <date>\n\n`, then each text followed by a line break |
| MasterNote.SplitLines | src/main.ts:1283-1286 | splitting a message body at line breaks gives back its texts, followed by one empty piece |
| MasterNote.MessageCarriesTexts | src/main.ts:1259-1292 | the message of a category starts with its heading, and its body splits back into the texts of that category's lines in order |
| LegacyPlugin.PredicatesAgree | main.ts:92-94 | the older tag predicates (also lines 174-180 and 276-278) are the same tests as the current ones |
| LegacyPlugin.IsSummarizable | main.ts:174-180 | the older `is_summarizable`, with its `includes(..) != true` tests |
| LegacyPlugin.IsSummarizableLaws | main.ts:174-180 | the older `is_summarizable` rejects summarised and dataview notes, and accepts only connected VC notes |
| LegacyPlugin.CleanText | main.ts:121-125 | the older `clean_text`: the disallowed characters removed, then trimmed |
| LegacyPlugin.CleanTextAgrees | main.ts:121-125 | the older `clean_text` is the current one |
| LegacyPlugin.CleanTextLaws | main.ts:121-125 | the older `clean_text` leaves only allowed characters, trims, and is idempotent |
| LegacyPlugin.ExtractTitleAndNote | main.ts:96-119 | the older `extract_title_and_note`: the first h1 match, or `""`, and the split at every match |
| LegacyPlugin.ExtractTitleAndNoteLaws | main.ts:96-119 | the older `extract_title_and_note` is the current one: same title, one more piece than h1 lines, and the text is rebuilt from them |
| LegacyPlugin.SelectionSplice | main.ts:85 | the older selection replacement: tag line, summary, stop heading, selection |
| LegacyPlugin.SelectionSpliceLaws | main.ts:85 | the older selection splice is the current one: tag line first, the selection unchanged at the end, never summarisable |
| LegacyPlugin.SummarizeVcText | main.ts:182-237 | the older `summarize_vc_text` sends the same prompt as written, with `undefined` for a note without `Tags:`, builds the same replacement as the current one, and the result is never summarisable |

## Findings

| source | as written | input that shows it | evidently intended | confidence | as-written member | corrected member |
|---|---|---|---|---|---|---|
| src/main.ts:158-168 | the hashtags are the second piece of a split at `Tags:`, read inside a `try` whose `catch` falls back to the text before the title; reading past the end of an array does not throw in JavaScript, so the `catch` never runs | a VC note whose text before its title has no `Tags:` | the prompt carries the text before the title, as the `catch` branch and its notice say | high; not executed | Splices.UntitledHeadNoteSendsUndefined (about Splices.VcPrompt; with Splices.FundNoteSplit for the note `# Fund\nbody`) | Splices.IntendedVcPrompt (proved in Splices.UntaggedPromptSendsUndefined and Splices.TaggedPromptIsIntended) |

The same code is at main.ts:192-199. Both `summarize_vc_text` methods send `Splices.VcPrompt`, the prompt as the code builds it. The intended prompt is `Splices.IntendedVcPrompt`, and the two agree whenever the text before the title holds `Tags:`.

## Left out

- All network I/O is left out. The calls to OpenAI, Affinity, Fireflies and you.com are not modelled. Each model answer is a `string -> string` parameter. In src/main.ts:107-110 a null answer becomes `""`, which such a parameter can return.
- LegacyPlugin.SummarizeVcText: the older `openai_js` (main.ts:42-63) returns the answer unchanged, so a null answer becomes the text `null` through `String(summary)`. The parameter returns a string, so a null answer is not modelled.
- LegacyPlugin.SelectionSplice: for the same reason, the `null` that a null answer puts into the older selection replacement (main.ts:84-85) is not modelled.
- src/search.ts, src/modal.ts, src/prompts.js, the settings tabs, the status bar, `Notice` and the editor cursor helpers (`getCursorRange`, `displaymessage`) are not part of this model.
- `Promise.all` and timer polling are left out. Every loop runs sequentially in the model.
- The date in `create_update_messages` is a parameter in place of `new Date()`.
- Regular expressions treat only `\n` as a line terminator for `.`, `^` and `$`. JavaScript also counts `\r`, U+2028 and U+2029. `\s` and `trim` use the full JavaScript whitespace set.
- `toLowerCase` is modelled for the ASCII letters and for U+212A KELVIN SIGN, which JavaScript lowers to `k` (`MasterNote.KelvinSignCategory`). Every other character is kept as it is. JavaScript lowers the other non-ASCII capitals to characters outside ASCII (U+0130 to `i` followed by U+0307). A category holding one of them matches no table key either way, since the keys are plain ASCII.
- Strings are sequences of Unicode scalar values, while JavaScript strings are sequences of UTF-16 code units. For characters outside the Basic Multilingual Plane, lengths (`Text.ReplaceFirstLength`, `UrlFormatter.FormatLength`), indices and regex positions count one where JavaScript counts two.
- MasterNote.GetUpdatesFromCategories: a line whose category is `hasOwnProperty` sets `updates.hasOwnProperty` to an array, so the test on the next line (src/main.ts:1267) throws a TypeError. The model goes on grouping.
- `MasterNote.GetUpdatesFromCategories` keeps object keys in insertion order. JavaScript lists integer-like keys first, and a `__proto__` key does not become an entry; neither is modelled.
- `MasterNote.FindLineNumber`: `startLine` is a natural number. With a negative start, the source reads a missing line and throws.
- `Notes.IsPersonInVentureNetwork`: a list entry is its `id` and a numeric `list_id`; other shapes of `list_entries` are not modelled.
- The `else` branch of `summarize_vc_text` (`return [text, text, ""]`) cannot be reached, because an array is always truthy. It is not modelled.
- Writing the results back into the vault is not modelled. This covers `editor.replaceRange`, `replaceSelection` and `vault.process`. The model returns the text that would be written.
- The loading and saving of settings is not modelled, including the investor names that get appended again on every save. The investor list, the budget (2500) and the threshold (12) are inputs.
- `Chunking.BuildChunks`: the budget and the threshold are parameters. The laws are proved for every positive threshold, and the command uses 2500 and 12.
