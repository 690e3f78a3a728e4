/** The paragraph-merging loop of `get_meeting_transcript_by_id`
    (src/fireflies.ts): consecutive sentences of one speaker are merged into a
    paragraph, and each finished paragraph is labelled with the speaker's role.
    The GraphQL fetch is replaced by the list of sentences it returns. */
module Transcript {
  import opened Text

  /** One `{speaker_name, text}` record of the transcript. */
  datatype Sentence = Sentence(speakerName: string, text: string)

  /** A merged paragraph before labelling: who spoke and what was said. */
  datatype Turn = Turn(speaker: string, body: string)

  /** Reading `sentences[0]` of an empty list throws a TypeError. */
  datatype MergeError = NoSentences

  /** The role a speaker is given: exact membership in the investor names. */
  function RoleSuffix(speaker: string, investorNames: seq<string>): string {
    if speaker in investorNames then " (Investor)" else " (Founder)"
  }

  /** A finished paragraph as it is pushed: `"<speaker> (Investor|Founder): <text>\n"`. */
  function Label(t: Turn, investorNames: seq<string>): string {
    t.speaker + RoleSuffix(t.speaker, investorNames) + ": " + t.body + "\n"
  }

  function LabelAll(ts: seq<Turn>, investorNames: seq<string>): (r: seq<string>)
    ensures |r| == |ts|
    ensures forall k :: 0 <= k < |ts| ==> r[k] == Label(ts[k], investorNames)
  {
    if ts == [] then [] else LabelAll(ts[..|ts| - 1], investorNames) + [Label(ts[|ts| - 1], investorNames)]
  }

  // ---------------------------------------------------------------------------
  // The loop as a state machine
  // ---------------------------------------------------------------------------

  /** The loop's variables: `current_speaker`, `current_sentence` and the
      paragraphs pushed so far (kept as turns; they are labelled on output). */
  datatype Merger = Merger(speaker: string, buffer: string, closed: seq<Turn>)

  /** The state before the loop: the first sentence's speaker, an empty buffer. */
  function Start(sentences: seq<Sentence>): Merger
    requires sentences != []
  {
    Merger(sentences[0].speakerName, "", [])
  }

  /** One iteration of the loop. A sentence of another speaker that arrives
      while the buffer is empty changes nothing: it is dropped and the
      current speaker stays. */
  function Step(m: Merger, s: Sentence): Merger {
    if s.speakerName == m.speaker then m.(buffer := m.buffer + s.text)
    else if |m.buffer| != 0 then Merger(s.speakerName, s.text, m.closed + [Turn(m.speaker, m.buffer)])
    else m
  }

  /** The state after the loop has consumed `ss`. */
  function Run(m: Merger, ss: seq<Sentence>): Merger
    decreases |ss|
  {
    if ss == [] then m else Step(Run(m, ss[..|ss| - 1]), ss[|ss| - 1])
  }

  /** The buffer left after the loop, pushed raw (no label, no newline) when non-empty. */
  function Flush(m: Merger): seq<string> {
    if |m.buffer| != 0 then [m.buffer] else []
  }

  /** The paragraphs `get_meeting_transcript_by_id` returns, or the error the
      empty list raises. */
  function Paragraphs(sentences: seq<Sentence>, investorNames: seq<string>): (r: Result<seq<string>, MergeError>)
    ensures r.Failure? <==> sentences == []
  {
    if sentences == [] then Failure(NoSentences)
    else
      var m := Run(Start(sentences), sentences);
      Success(LabelAll(m.closed, investorNames) + Flush(m))
  }

  /** Consuming one more sentence is one more step. */
  lemma RunSnoc(m: Merger, ss: seq<Sentence>, i: nat)
    requires i < |ss|
    ensures Run(m, ss[..i + 1]) == Step(Run(m, ss[..i]), ss[i])
  {
    assert ss[..i + 1][..i] == ss[..i];
  }

  /** Labelling one more turn appends its label. */
  lemma LabelAllSnoc(ts: seq<Turn>, t: Turn, investorNames: seq<string>)
    ensures LabelAll(ts + [t], investorNames) == LabelAll(ts, investorNames) + [Label(t, investorNames)]
  {
    assert (ts + [t])[..|ts|] == ts;
  }

  /** The loop of src/fireflies.ts:73-100. */
  method MergeTurns(sentences: seq<Sentence>, investorNames: seq<string>) returns (r: Result<seq<string>, MergeError>)
    ensures r == Paragraphs(sentences, investorNames)
  {
    if |sentences| == 0 {
      return Failure(NoSentences);
    }
    var currentSentence := "";
    var usefulParagraphs: seq<string> := [];
    var currentSpeaker := sentences[0].speakerName;
    for i := 0 to |sentences|
      invariant currentSpeaker == Run(Start(sentences), sentences[..i]).speaker
      invariant currentSentence == Run(Start(sentences), sentences[..i]).buffer
      invariant usefulParagraphs == LabelAll(Run(Start(sentences), sentences[..i]).closed, investorNames)
    {
      RunSnoc(Start(sentences), sentences, i);
      var sentence := sentences[i];
      if sentence.speakerName == currentSpeaker {
        currentSentence := currentSentence + sentence.text;
      } else {
        if |currentSentence| != 0 {
          var labelled := currentSpeaker;
          if currentSpeaker in investorNames {
            labelled := labelled + " (Investor)";
          } else {
            labelled := labelled + " (Founder)";
          }
          ghost var m := Run(Start(sentences), sentences[..i]);
          ghost var t := Turn(m.speaker, m.buffer);
          currentSentence := labelled + ": " + currentSentence + "\n";
          assert currentSentence == Label(t, investorNames);
          LabelAllSnoc(m.closed, t, investorNames);
          usefulParagraphs := usefulParagraphs + [currentSentence];
          currentSentence := sentence.text;
          currentSpeaker := sentence.speakerName;
        }
      }
    }
    assert sentences[..|sentences|] == sentences;
    ghost var m := Run(Start(sentences), sentences);
    assert currentSentence == m.buffer && usefulParagraphs == LabelAll(m.closed, investorNames);
    if |currentSentence| != 0 {
      usefulParagraphs := usefulParagraphs + [currentSentence];
    }
    assert usefulParagraphs == LabelAll(m.closed, investorNames) + Flush(m);
    assert Paragraphs(sentences, investorNames) == Success(LabelAll(m.closed, investorNames) + Flush(m));
    return Success(usefulParagraphs);
  }

  // ---------------------------------------------------------------------------
  // What the merge preserves
  // ---------------------------------------------------------------------------

  /** All sentence texts concatenated in order. */
  function AllText(ss: seq<Sentence>): string
    decreases |ss|
  {
    if ss == [] then "" else AllText(ss[..|ss| - 1]) + ss[|ss| - 1].text
  }

  /** All turn bodies concatenated in order. */
  function TurnsText(ts: seq<Turn>): string
    decreases |ts|
  {
    if ts == [] then "" else TurnsText(ts[..|ts| - 1]) + ts[|ts| - 1].body
  }

  /** The number of maximal runs of one speaker in `ss`. */
  function SpeakerRuns(ss: seq<Sentence>): nat
    decreases |ss|
  {
    if ss == [] then 0
    else if |ss| == 1 then 1
    else SpeakerRuns(ss[..|ss| - 1]) + (if ss[|ss| - 1].speakerName != ss[|ss| - 2].speakerName then 1 else 0)
  }

  /** Every turn has text, and neighbouring turns have different speakers. */
  predicate Alternating(ts: seq<Turn>) {
    (forall k :: 0 <= k < |ts| ==> ts[k].body != "") &&
    (forall k :: 0 <= k < |ts| - 1 ==> ts[k].speaker != ts[k + 1].speaker)
  }

  /** The turns the loop produces: the closed ones and the buffer left at the end. */
  function MergedTurns(sentences: seq<Sentence>): seq<Turn>
    requires sentences != []
  {
    var m := Run(Start(sentences), sentences);
    m.closed + (if |m.buffer| != 0 then [Turn(m.speaker, m.buffer)] else [])
  }

  /** Text conservation when no sentence is empty: the closed turns and the
      buffer hold all the text in order, and the buffer is the last speaker's. */
  lemma {:induction false} RunKeepsText(first: string, ss: seq<Sentence>)
    requires forall k :: 0 <= k < |ss| ==> ss[k].text != ""
    requires ss != [] ==> ss[0].speakerName == first
    decreases |ss|
    ensures var m := Run(Merger(first, "", []), ss);
      && TurnsText(m.closed) + m.buffer == AllText(ss)
      && (ss != [] ==> m.buffer != "" && m.speaker == ss[|ss| - 1].speakerName)
  {
    if ss != [] {
      var pre := ss[..|ss| - 1];
      var s := ss[|ss| - 1];
      assert pre + [s] == ss;
      if pre != [] {
        assert forall k :: 0 <= k < |pre| ==> pre[k] == ss[k];
        RunKeepsText(first, pre);
      }
      StepKeepsText(Run(Merger(first, "", []), pre), s);
    }
  }

  /** One step appends the sentence's text to the text held in the state,
      unless the sentence is dropped. */
  lemma StepKeepsText(m: Merger, s: Sentence)
    requires s.speakerName == m.speaker || m.buffer != ""
    ensures TurnsText(Step(m, s).closed) + Step(m, s).buffer == TurnsText(m.closed) + m.buffer + s.text
    ensures Step(m, s).speaker == s.speakerName
  {
    if s.speakerName != m.speaker {
      var t := Turn(m.speaker, m.buffer);
      assert (m.closed + [t])[..|m.closed|] == m.closed;
    }
  }

  /** When no sentence is empty, one turn is closed per change of speaker. */
  lemma {:induction false} RunCountsRuns(first: string, ss: seq<Sentence>)
    requires forall k :: 0 <= k < |ss| ==> ss[k].text != ""
    requires ss != [] ==> ss[0].speakerName == first
    decreases |ss|
    ensures ss != [] ==> |Run(Merger(first, "", []), ss).closed| + 1 == SpeakerRuns(ss)
  {
    if |ss| > 1 {
      var pre := ss[..|ss| - 1];
      assert forall k :: 0 <= k < |pre| ==> pre[k] == ss[k];
      assert pre[|pre| - 1] == ss[|ss| - 2];
      RunCountsRuns(first, pre);
      RunKeepsText(first, pre);
    } else if |ss| == 1 {
      assert ss[..0] == [];
    }
  }

  /** When no sentence is empty, the closed turns followed by the buffered one
      alternate between speakers and all have text. */
  lemma {:induction false} RunAlternates(first: string, ss: seq<Sentence>)
    requires forall k :: 0 <= k < |ss| ==> ss[k].text != ""
    requires ss != [] ==> ss[0].speakerName == first
    decreases |ss|
    ensures var m := Run(Merger(first, "", []), ss);
      ss != [] ==> Alternating(m.closed + [Turn(m.speaker, m.buffer)])
  {
    if ss != [] {
      var pre := ss[..|ss| - 1];
      var s := ss[|ss| - 1];
      var m0 := Merger(first, "", []);
      assert Run(m0, ss) == Step(Run(m0, pre), s);
      if pre == [] {
        assert Run(m0, pre) == m0 && s == ss[0];
      } else {
        assert forall k :: 0 <= k < |pre| ==> pre[k].text != "" by {
          forall k | 0 <= k < |pre| ensures pre[k].text != "" { assert pre[k] == ss[k]; }
        }
        assert pre[0] == ss[0];
        RunAlternates(first, pre);
        RunKeepsText(first, pre);
        StepAlternates(Run(m0, pre), s);
      }
    }
  }

  /** One step with a non-empty sentence keeps the turns alternating. */
  lemma StepAlternates(m: Merger, s: Sentence)
    requires s.text != "" && m.buffer != ""
    requires Alternating(m.closed + [Turn(m.speaker, m.buffer)])
    ensures var m' := Step(m, s); Alternating(m'.closed + [Turn(m'.speaker, m'.buffer)])
  {
    var t := Turn(m.speaker, m.buffer);
    var before := m.closed + [t];
    var m' := Step(m, s);
    var after := m'.closed + [Turn(m'.speaker, m'.buffer)];
    if s.speakerName == m.speaker {
      assert after == m.closed + [Turn(m.speaker, m.buffer + s.text)];
      assert |after| == |before|;
      assert forall k :: 0 <= k < |after| ==> after[k].speaker == before[k].speaker;
      assert forall k :: 0 <= k < |after| ==> after[k].body != "" by {
        forall k | 0 <= k < |after| ensures after[k].body != "" {
          if k < |m.closed| { assert after[k] == before[k]; }
        }
      }
    } else {
      assert after == before + [Turn(s.speakerName, s.text)];
      assert forall k :: 0 <= k < |before| ==> after[k] == before[k];
      assert after[|before| - 1].speaker != after[|before|].speaker;
    }
  }

  /** With no empty sentence the merge loses nothing and reorders nothing: the
      turns hold all sentence texts in order, there is one turn per maximal
      same-speaker run, neighbouring turns have different speakers, and the
      paragraphs are the labelled turns except the last, which is pushed raw. */
  lemma MergeWithoutEmptyTexts(sentences: seq<Sentence>, investorNames: seq<string>)
    requires sentences != []
    requires forall k :: 0 <= k < |sentences| ==> sentences[k].text != ""
    ensures var ts := MergedTurns(sentences);
      && |ts| == SpeakerRuns(sentences)
      && TurnsText(ts) == AllText(sentences)
      && Alternating(ts)
      && Paragraphs(sentences, investorNames)
         == Success(LabelAll(ts[..|ts| - 1], investorNames) + [ts[|ts| - 1].body])
  {
    MergedTurnsLast(sentences);
    MergedTurnsLaws(sentences);
    var m := Run(Start(sentences), sentences);
    var ts := MergedTurns(sentences);
    assert Paragraphs(sentences, investorNames) == Success(LabelAll(m.closed, investorNames) + [m.buffer]);
  }

  /** With no empty sentence, the buffer is left non-empty, and the merged
      turns are the closed ones followed by the buffered one. */
  lemma MergedTurnsLast(sentences: seq<Sentence>)
    requires sentences != []
    requires forall k :: 0 <= k < |sentences| ==> sentences[k].text != ""
    ensures var m := Run(Start(sentences), sentences);
      var ts := MergedTurns(sentences);
      && m.buffer != ""
      && ts == m.closed + [Turn(m.speaker, m.buffer)]
      && ts[..|ts| - 1] == m.closed && ts[|ts| - 1].body == m.buffer
  {
    RunKeepsText(sentences[0].speakerName, sentences);
    var m := Run(Start(sentences), sentences);
    var ts := MergedTurns(sentences);
    assert ts == m.closed + [Turn(m.speaker, m.buffer)];
    assert ts[..|ts| - 1] == m.closed;
  }

  /** With no empty sentence: one merged turn per speaker run, all the text in
      order, and alternating speakers. */
  lemma MergedTurnsLaws(sentences: seq<Sentence>)
    requires sentences != []
    requires forall k :: 0 <= k < |sentences| ==> sentences[k].text != ""
    ensures var ts := MergedTurns(sentences);
      && |ts| == SpeakerRuns(sentences)
      && TurnsText(ts) == AllText(sentences)
      && Alternating(ts)
  {
    MergedTurnsLast(sentences);
    RunKeepsText(sentences[0].speakerName, sentences);
    RunCountsRuns(sentences[0].speakerName, sentences);
    RunAlternates(sentences[0].speakerName, sentences);
  }

  /** Consuming `a + b` is consuming `a`, then `b`. */
  lemma {:induction false} RunAppend(m: Merger, a: seq<Sentence>, b: seq<Sentence>)
    decreases |b|
    ensures Run(m, a + b) == Run(Run(m, a), b)
  {
    if b == [] {
      assert a + b == a;
    } else {
      assert (a + b)[..|a + b| - 1] == a + b[..|b| - 1];
      RunAppend(m, a, b[..|b| - 1]);
    }
  }

  /** A sentence of another speaker that arrives while the buffer is empty
      has no effect on the result: it is as if it were not there. */
  lemma DroppedWhileBufferEmpty(pre: seq<Sentence>, s: Sentence, rest: seq<Sentence>, investorNames: seq<string>)
    requires pre != []
    requires Run(Start(pre), pre).buffer == ""
    requires s.speakerName != Run(Start(pre), pre).speaker
    ensures Paragraphs(pre + [s] + rest, investorNames) == Paragraphs(pre + rest, investorNames)
  {
    var m0 := Start(pre);
    assert Start(pre + [s] + rest) == m0 && Start(pre + rest) == m0;
    RunAppend(m0, pre + [s], rest);
    RunAppend(m0, pre, [s]);
    assert Run(Run(m0, pre), [s]) == Step(Run(Run(m0, pre), []), s);
    RunAppend(m0, pre, rest);
  }

  /** Every paragraph except the final flush carries its speaker's label and
      non-empty text. */
  lemma {:induction false} ClosedTurnsHaveText(m: Merger, ss: seq<Sentence>)
    requires forall k :: 0 <= k < |m.closed| ==> m.closed[k].body != ""
    decreases |ss|
    ensures var r := Run(m, ss);
      |m.closed| <= |r.closed| && r.closed[..|m.closed|] == m.closed &&
      forall k :: 0 <= k < |r.closed| ==> r.closed[k].body != ""
  {
    if ss != [] {
      ClosedTurnsHaveText(m, ss[..|ss| - 1]);
    }
  }

  lemma LabelledBeforeFlush(sentences: seq<Sentence>, investorNames: seq<string>)
    requires sentences != []
    ensures var m := Run(Start(sentences), sentences);
      && Paragraphs(sentences, investorNames).Success?
      && var ps := Paragraphs(sentences, investorNames).value;
      && |ps| == |m.closed| + (if m.buffer == "" then 0 else 1)
      && (forall k :: 0 <= k < |m.closed| ==>
            && m.closed[k].body != ""
            && ps[k] == m.closed[k].speaker + RoleSuffix(m.closed[k].speaker, investorNames)
                        + ": " + m.closed[k].body + "\n")
      && (m.buffer != "" ==> ps[|ps| - 1] == m.buffer)
  {
    ClosedTurnsHaveText(Start(sentences), sentences);
  }

  // ---------------------------------------------------------------------------
  // Worked examples
  // ---------------------------------------------------------------------------

  /** Two speakers with text: the first turn is labelled, the second is the
      final flush and stays raw. */
  lemma TwoSpeakers(a: Sentence, b: Sentence, investorNames: seq<string>)
    requires a.speakerName != b.speakerName && a.text != "" && b.text != ""
    ensures Paragraphs([a, b], investorNames)
      == Success([a.speakerName + RoleSuffix(a.speakerName, investorNames) + ": " + a.text + "\n", b.text])
  {
    var ss := [a, b];
    var m0 := Start(ss);
    assert ss[..1] == [a] && ss[..1][..0] == [];
    assert Run(m0, ss[..1]) == Merger(a.speakerName, a.text, []);
    var t := Turn(a.speakerName, a.text);
    assert Run(m0, ss) == Merger(b.speakerName, b.text, [t]);
    assert [t][..0] == [];
    assert LabelAll([t], investorNames) == [Label(t, investorNames)];
    assert Flush(Run(m0, ss)) == [b.text];
    assert Paragraphs(ss, investorNames) == Success(LabelAll([t], investorNames) + [b.text]);
    assert [Label(t, investorNames)] + [b.text] == [Label(t, investorNames), b.text];
  }

  /** When the first sentence is empty, a sentence of another speaker right
      after it is lost: nothing at all is returned. */
  lemma EmptyFirstSentenceLosesReply(a: Sentence, b: Sentence, investorNames: seq<string>)
    requires a.text == "" && b.speakerName != a.speakerName
    ensures Paragraphs([a, b], investorNames) == Success([])
  {
    var ss := [a, b];
    var m0 := Start(ss);
    assert ss[..1] == [a] && ss[..1][..0] == [];
    assert Run(m0, ss[..1]) == m0;
    assert Run(m0, ss) == m0;
  }
}
