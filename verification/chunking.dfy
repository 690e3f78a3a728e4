/** The chunk builder of `fireflies_summary` (src/main.ts:908-927): a single
    greedy pass that drops short paragraphs and packs the others into chunks
    that fit the word budget of one summarisation request. */
module Chunking {
  import opened Text
  import opened Words

  /** The word budget of one chunk. */
  const Budget: nat := 2500

  /** Paragraphs with fewer words than this are not relevant enough to keep. */
  const Threshold: nat := 12

  /** The state of the loop, with the open chunk kept as the list of paragraphs
      it was built from: `extended_paragraphs` are the concatenations of
      `closed`, `long_paragraph` is the concatenation of `open`. */
  datatype Packing = Packing(closed: seq<seq<string>>, open: seq<string>)

  /** One iteration for paragraph `x`. */
  function Fill(p: Packing, x: string, budget: nat, threshold: nat): Packing {
    var n := CountWords(x);
    if n < threshold then p
    else if n + CountWords(Flatten(p.open)) <= budget then p.(open := p.open + [x])
    else Packing(p.closed + [p.open], [x])
  }

  /** The state after the loop has consumed `ps`. */
  function Pack(ps: seq<string>, budget: nat, threshold: nat): Packing
    decreases |ps|
  {
    if ps == [] then Packing([], [])
    else Fill(Pack(ps[..|ps| - 1], budget, threshold), ps[|ps| - 1], budget, threshold)
  }

  /** The paragraph groups behind the emitted chunks: the closed ones, then
      the open one if its text is not empty. */
  function Groups(ps: seq<string>, budget: nat, threshold: nat): seq<seq<string>> {
    var p := Pack(ps, budget, threshold);
    p.closed + (if |Flatten(p.open)| != 0 then [p.open] else [])
  }

  /** Each group concatenated. */
  function Concats(gs: seq<seq<string>>): (r: seq<string>)
    decreases |gs|
    ensures |r| == |gs|
    ensures forall k :: 0 <= k < |gs| ==> r[k] == Flatten(gs[k])
  {
    if gs == [] then [] else Concats(gs[..|gs| - 1]) + [Flatten(gs[|gs| - 1])]
  }

  /** The chunks `extended_paragraphs` holds after the loop and the final push. */
  function Chunks(ps: seq<string>, budget: nat, threshold: nat): seq<string> {
    Concats(Groups(ps, budget, threshold))
  }

  /** The paragraphs with at least `threshold` words, in order. */
  function Kept(ps: seq<string>, threshold: nat): (r: seq<string>)
    decreases |ps|
    ensures forall k :: 0 <= k < |r| ==> CountWords(r[k]) >= threshold
  {
    if ps == [] then []
    else Kept(ps[..|ps| - 1], threshold) + (if CountWords(ps[|ps| - 1]) >= threshold then [ps[|ps| - 1]] else [])
  }

  /** The loop of src/main.ts:908-927. */
  method BuildChunks(paragraphs: seq<string>, budget: nat, threshold: nat) returns (chunks: seq<string>)
    ensures chunks == Chunks(paragraphs, budget, threshold)
  {
    var longParagraph := "";
    var extendedParagraphs: seq<string> := [];
    for i := 0 to |paragraphs|
      invariant longParagraph == Flatten(Pack(paragraphs[..i], budget, threshold).open)
      invariant extendedParagraphs == Concats(Pack(paragraphs[..i], budget, threshold).closed)
    {
      assert paragraphs[..i + 1][..i] == paragraphs[..i];
      ghost var p := Pack(paragraphs[..i], budget, threshold);
      var paragraph := paragraphs[i];
      var numberOfWords := CountWords(paragraph);
      if numberOfWords >= threshold {
        if numberOfWords + CountWords(longParagraph) <= budget {
          longParagraph := longParagraph + paragraph;
          assert (p.open + [paragraph])[..|p.open|] == p.open;
        } else {
          assert (p.closed + [p.open])[..|p.closed|] == p.closed;
          extendedParagraphs := extendedParagraphs + [longParagraph];
          longParagraph := paragraph;
          FlattenOne(paragraph);
        }
      }
    }
    assert paragraphs[..|paragraphs|] == paragraphs;
    ghost var p := Pack(paragraphs, budget, threshold);
    if |longParagraph| != 0 {
      assert (p.closed + [p.open])[..|p.closed|] == p.closed;
      extendedParagraphs := extendedParagraphs + [longParagraph];
    } else {
      assert p.closed + [] == p.closed;
    }
    chunks := extendedParagraphs;
  }

  lemma FlattenOne<T>(x: seq<T>)
    ensures Flatten([x]) == x
  {
    assert [x][..0] == [];
  }

  // ---------------------------------------------------------------------------
  // Invariants of the packing
  // ---------------------------------------------------------------------------

  /** Every group of the state, the open one last. */
  function AllGroups(p: Packing): seq<seq<string>> {
    p.closed + [p.open]
  }

  /** The groups hold exactly the kept paragraphs, in order. */
  lemma {:induction false} PackKeepsOrder(ps: seq<string>, budget: nat, threshold: nat)
    decreases |ps|
    ensures Flatten(AllGroups(Pack(ps, budget, threshold))) == Kept(ps, threshold)
  {
    if ps == [] {
      FlattenOne<string>([]);
    } else {
      var pre := ps[..|ps| - 1];
      var x := ps[|ps| - 1];
      PackKeepsOrder(pre, budget, threshold);
      var p := Pack(pre, budget, threshold);
      var q := Fill(p, x, budget, threshold);
      assert AllGroups(p)[..|p.closed|] == p.closed;
      if CountWords(x) >= threshold {
        if q.closed == p.closed {
          assert AllGroups(q)[..|p.closed|] == p.closed;
          assert (p.open + [x])[..|p.open|] == p.open;
          assert Flatten(p.open + [x]) == Flatten(p.open) + x;
          FlattenOne(x);
        } else {
          assert AllGroups(q) == AllGroups(p) + [[x]];
          FlattenAppend(AllGroups(p), [[x]]);
          FlattenOne([x]);
        }
      }
    }
  }

  /** Every group after the first holds at least one paragraph. */
  predicate LaterGroupsNonEmpty(gs: seq<seq<string>>) {
    forall k :: 0 < k < |gs| ==> gs[k] != []
  }

  /** The first group, when it has a paragraph, starts with one within the budget. */
  predicate FirstGroupFits(gs: seq<seq<string>>, budget: nat) {
    gs != [] && gs[0] != [] ==> CountWords(gs[0][0]) <= budget
  }

  /** A group of two or more paragraphs is within the budget. */
  predicate SharedGroupsFit(gs: seq<seq<string>>, budget: nat) {
    forall k :: 0 <= k < |gs| && |gs[k]| >= 2 ==> CountWords(Flatten(gs[k])) <= budget
  }

  /** Greedy closing: a group was closed only because the first paragraph of
      the next one did not fit into it. */
  predicate ClosedWhenFull(gs: seq<seq<string>>, budget: nat) {
    forall k :: 0 <= k < |gs| - 1 && gs[k + 1] != [] ==> CountWords(gs[k + 1][0]) + CountWords(Flatten(gs[k])) > budget
  }

  predicate PackInv(gs: seq<seq<string>>, budget: nat) {
    gs != [] && LaterGroupsNonEmpty(gs) && FirstGroupFits(gs, budget)
    && SharedGroupsFit(gs, budget) && ClosedWhenFull(gs, budget)
  }

  lemma EmptyHasNoWords()
    ensures CountWords("") == 0
  {
  }

  /** Adding a paragraph that fits to the last group keeps the invariant. */
  lemma ExtendKeepsInv(gs: seq<seq<string>>, x: string, budget: nat)
    requires PackInv(gs, budget)
    requires CountWords(x) + CountWords(Flatten(gs[|gs| - 1])) <= budget
    ensures PackInv(gs[..|gs| - 1] + [gs[|gs| - 1] + [x]], budget)
  {
    var last := |gs| - 1;
    var open := gs[last];
    var hs := gs[..last] + [open + [x]];
    assert forall k :: 0 <= k < last ==> hs[k] == gs[k];
    assert hs[last] == open + [x];
    ExtendedGroupFits(open, x, budget);
    assert LaterGroupsNonEmpty(hs);
    assert FirstGroupFits(hs, budget);
    assert SharedGroupsFit(hs, budget) by {
      forall k | 0 <= k < |hs| && |hs[k]| >= 2 ensures CountWords(Flatten(hs[k])) <= budget {
        if k < last { assert hs[k] == gs[k]; }
      }
    }
    assert ClosedWhenFull(hs, budget) by {
      forall k | 0 <= k < |hs| - 1 && hs[k + 1] != []
        ensures CountWords(hs[k + 1][0]) + CountWords(Flatten(hs[k])) > budget
      {
        assert hs[k] == gs[k];
        assert hs[k + 1][0] == gs[k + 1][0];
      }
    }
  }

  /** A group extended by a paragraph that fits stays within the budget and
      keeps its first paragraph. */
  lemma ExtendedGroupFits(open: seq<string>, x: string, budget: nat)
    requires CountWords(x) + CountWords(Flatten(open)) <= budget
    ensures CountWords(Flatten(open + [x])) <= budget
    ensures open != [] ==> (open + [x])[0] == open[0]
    ensures open == [] ==> CountWords(x) <= budget
  {
    assert (open + [x])[..|open|] == open;
    assert Flatten(open + [x]) == Flatten(open) + x;
    CountWordsConcat(Flatten(open), x);
  }

  /** Starting a new group with a paragraph that does not fit into the last
      one keeps the invariant. */
  lemma CloseKeepsInv(gs: seq<seq<string>>, x: string, budget: nat)
    requires PackInv(gs, budget)
    requires CountWords(x) + CountWords(Flatten(gs[|gs| - 1])) > budget
    ensures PackInv(gs + [[x]], budget)
  {
    var hs := gs + [[x]];
    assert forall k :: 0 <= k < |gs| ==> hs[k] == gs[k];
    if |gs| == 1 && gs[0] == [] {
      EmptyHasNoWords();
      FlattenOne<string>([]);
    }
    assert LaterGroupsNonEmpty(hs);
    assert FirstGroupFits(hs, budget);
    assert SharedGroupsFit(hs, budget) by {
      forall k | 0 <= k < |hs| && |hs[k]| >= 2 ensures CountWords(Flatten(hs[k])) <= budget {
        assert k < |gs|;
        assert hs[k] == gs[k];
      }
    }
    assert ClosedWhenFull(hs, budget) by {
      forall k | 0 <= k < |hs| - 1 && hs[k + 1] != []
        ensures CountWords(hs[k + 1][0]) + CountWords(Flatten(hs[k])) > budget
      {
        assert hs[k] == gs[k];
        if k + 1 < |gs| { assert hs[k + 1] == gs[k + 1]; }
      }
    }
  }

  /** One iteration keeps the invariant. */
  lemma FillKeepsInv(p: Packing, x: string, budget: nat, threshold: nat)
    requires PackInv(AllGroups(p), budget)
    ensures PackInv(AllGroups(Fill(p, x, budget, threshold)), budget)
  {
    var gs := AllGroups(p);
    assert gs[..|gs| - 1] == p.closed && gs[|gs| - 1] == p.open;
    if CountWords(x) < threshold {
    } else if CountWords(x) + CountWords(Flatten(p.open)) <= budget {
      ExtendKeepsInv(gs, x, budget);
    } else {
      CloseKeepsInv(gs, x, budget);
      assert AllGroups(Fill(p, x, budget, threshold)) == gs + [[x]];
    }
  }

  lemma {:induction false} PackKeepsInv(ps: seq<string>, budget: nat, threshold: nat)
    decreases |ps|
    ensures PackInv(AllGroups(Pack(ps, budget, threshold)), budget)
  {
    if ps != [] {
      PackKeepsInv(ps[..|ps| - 1], budget, threshold);
      FillKeepsInv(Pack(ps[..|ps| - 1], budget, threshold), ps[|ps| - 1], budget, threshold);
    }
  }

  // ---------------------------------------------------------------------------
  // What the emitted chunks satisfy
  // ---------------------------------------------------------------------------

  /** A list of non-empty strings with at least one element has non-empty text. */
  lemma {:induction false} FlattenNonEmpty(xs: seq<string>)
    requires xs != [] && forall k :: 0 <= k < |xs| ==> xs[k] != ""
    decreases |xs|
    ensures Flatten(xs) != ""
  {
    assert |Flatten(xs)| >= |xs[|xs| - 1]|;
  }

  /** The concatenation of the group texts is the concatenation of all the
      paragraphs in the groups. */
  lemma {:induction false} ConcatsFlatten(gs: seq<seq<string>>)
    decreases |gs|
    ensures Flatten(Concats(gs)) == Flatten(Flatten(gs))
  {
    if gs != [] {
      var pre := gs[..|gs| - 1];
      ConcatsFlatten(pre);
      assert Concats(gs)[..|gs| - 1] == Concats(pre);
      FlattenAppend(Flatten(pre), gs[|gs| - 1]);
    }
  }

  /** Each paragraph in a group is one of the kept paragraphs. */
  lemma {:induction false} FlattenHasMembers<T>(gs: seq<seq<T>>, k: int, j: int)
    requires 0 <= k < |gs| && 0 <= j < |gs[k]|
    decreases |gs|
    ensures gs[k][j] in Flatten(gs)
  {
    if k < |gs| - 1 {
      FlattenHasMembers(gs[..|gs| - 1], k, j);
    } else {
      var pre := Flatten(gs[..|gs| - 1]);
      assert Flatten(gs)[|pre| + j] == gs[k][j];
    }
  }

  /** With a positive threshold every paragraph in a group has text. */
  lemma GroupMembersAreLong(ps: seq<string>, budget: nat, threshold: nat)
    requires threshold > 0
    ensures var all := AllGroups(Pack(ps, budget, threshold));
      forall k, j :: 0 <= k < |all| && 0 <= j < |all[k]| ==> all[k][j] != "" && CountWords(all[k][j]) >= threshold
  {
    var all := AllGroups(Pack(ps, budget, threshold));
    var kept := Kept(ps, threshold);
    PackKeepsOrder(ps, budget, threshold);
    EmptyHasNoWords();
    forall k, j | 0 <= k < |all| && 0 <= j < |all[k]|
      ensures all[k][j] != "" && CountWords(all[k][j]) >= threshold
    {
      FlattenHasMembers(all, k, j);
      var i :| 0 <= i < |kept| && kept[i] == all[k][j];
    }
  }

  /** The emitted groups are all the groups of the final state, unless
      nothing was kept. */
  lemma GroupsOfFinalState(ps: seq<string>, budget: nat, threshold: nat)
    requires threshold > 0
    ensures Groups(ps, budget, threshold)
      == (if Kept(ps, threshold) == [] then [] else AllGroups(Pack(ps, budget, threshold)))
  {
    var p := Pack(ps, budget, threshold);
    var all := AllGroups(p);
    var kept := Kept(ps, threshold);
    PackKeepsOrder(ps, budget, threshold);
    PackKeepsInv(ps, budget, threshold);
    GroupMembersAreLong(ps, budget, threshold);
    assert LaterGroupsNonEmpty(all);
    if kept == [] {
      assert p.open == [] by {
        if p.open != [] { FlattenHasMembers(all, |all| - 1, 0); }
      }
      FlattenOne<string>([]);
    } else {
      assert p.open != [] by {
        if |all| == 1 {
          assert all == [p.open];
          FlattenOne(p.open);
        }
      }
      assert forall j :: 0 <= j < |p.open| ==> p.open[j] == all[|all| - 1][j];
      FlattenNonEmpty(p.open);
    }
  }

  /** The groups partition the kept paragraphs in order, so the chunks
      concatenated are the kept paragraphs concatenated; no paragraph with
      fewer than `threshold` words is in a chunk. */
  lemma ChunksKeepOrder(ps: seq<string>, budget: nat, threshold: nat)
    requires threshold > 0
    ensures var gs := Groups(ps, budget, threshold);
      var cs := Chunks(ps, budget, threshold);
      && |cs| == |gs|
      && (forall k :: 0 <= k < |gs| ==> cs[k] == Flatten(gs[k]))
      && Flatten(gs) == Kept(ps, threshold)
      && Flatten(cs) == Flatten(Kept(ps, threshold))
      && (forall k, j :: 0 <= k < |gs| && 0 <= j < |gs[k]| ==> CountWords(gs[k][j]) >= threshold)
  {
    GroupsOfFinalState(ps, budget, threshold);
    GroupMembersAreLong(ps, budget, threshold);
    PackKeepsOrder(ps, budget, threshold);
    FlattenOne<string>([]);
    ConcatsFlatten(Groups(ps, budget, threshold));
  }

  /** Every chunk of two or more paragraphs is within the budget, so a chunk
      over the budget is a single paragraph. */
  lemma ChunksWithinBudget(ps: seq<string>, budget: nat, threshold: nat)
    requires threshold > 0
    ensures var gs := Groups(ps, budget, threshold);
      var cs := Chunks(ps, budget, threshold);
      && (forall k :: 0 <= k < |gs| && |gs[k]| >= 2 ==> CountWords(cs[k]) <= budget)
      && (forall k :: 0 <= k < |gs| && CountWords(cs[k]) > budget ==> |gs[k]| == 1)
  {
    GroupsOfFinalState(ps, budget, threshold);
    PackKeepsInv(ps, budget, threshold);
    EmptyHasNoWords();
    FlattenOne<string>([]);
  }

  /** A chunk is closed only when the next paragraph does not fit into it. */
  lemma ChunksClosedWhenFull(ps: seq<string>, budget: nat, threshold: nat)
    requires threshold > 0
    ensures var gs := Groups(ps, budget, threshold);
      var cs := Chunks(ps, budget, threshold);
      && (forall k :: 0 < k < |gs| ==> gs[k] != [])
      && (forall k :: 0 <= k < |gs| - 1 ==> CountWords(gs[k + 1][0]) + CountWords(cs[k]) > budget)
  {
    GroupsOfFinalState(ps, budget, threshold);
    PackKeepsInv(ps, budget, threshold);
  }

  /** The text of a list of groups starts with the first paragraph of its
      first group. */
  lemma FlattenHead<T>(gs: seq<seq<T>>)
    requires gs != [] && gs[0] != []
    ensures Flatten(gs) != [] && Flatten(gs)[0] == gs[0][0]
  {
    assert gs == [gs[0]] + gs[1..];
    FlattenCons(gs[0], gs[1..]);
  }

  /** An empty first group adds nothing to the text. */
  lemma FlattenSkipEmpty<T>(gs: seq<seq<T>>)
    requires gs != [] && gs[0] == []
    ensures Flatten(gs) == Flatten(gs[1..])
  {
    assert gs == [gs[0]] + gs[1..];
    FlattenCons(gs[0], gs[1..]);
  }

  /** Groups after the first that hold only non-empty paragraphs give
      non-empty chunks. */
  lemma LaterChunksNonEmpty(gs: seq<seq<string>>)
    requires LaterGroupsNonEmpty(gs)
    requires forall k, j :: 0 <= k < |gs| && 0 <= j < |gs[k]| ==> gs[k][j] != ""
    ensures forall k :: 0 < k < |Concats(gs)| ==> Concats(gs)[k] != ""
  {
    forall k | 0 < k < |gs| ensures Flatten(gs[k]) != "" {
      FlattenNonEmpty(gs[k]);
    }
  }

  /** In an invariant state holding the kept paragraphs, the first group is
      empty exactly when the first kept paragraph alone is over the budget. */
  lemma FirstGroupEmptyIff(gs: seq<seq<string>>, kept: seq<string>, budget: nat)
    requires PackInv(gs, budget) && Flatten(gs) == kept && kept != []
    requires forall k, j :: 0 <= k < |gs| && 0 <= j < |gs[k]| ==> gs[k][j] != ""
    ensures Flatten(gs[0]) == "" <==> CountWords(kept[0]) > budget
  {
    if gs[0] == [] {
      FlattenSkipEmpty(gs);
      assert |gs| > 1;
      assert gs[1..][0] == gs[1];
      FlattenHead(gs[1..]);
      EmptyHasNoWords();
      assert CountWords(gs[1][0]) + CountWords(Flatten(gs[0])) > budget;
    } else {
      FlattenHead(gs);
      FlattenNonEmpty(gs[0]);
    }
  }

  /** The empty chunk: it is emitted exactly when the first kept paragraph
      alone is over the budget, and never after the first position (in
      particular no empty leftover is pushed at the end). */
  lemma EmptyChunkOnlyFirst(ps: seq<string>, budget: nat, threshold: nat)
    requires threshold > 0
    ensures var cs := Chunks(ps, budget, threshold);
      var kept := Kept(ps, threshold);
      && ((cs != [] && cs[0] == "") <==> (kept != [] && CountWords(kept[0]) > budget))
      && (forall k :: 0 < k < |cs| ==> cs[k] != "")
  {
    GroupsOfFinalState(ps, budget, threshold);
    var gs := Groups(ps, budget, threshold);
    var kept := Kept(ps, threshold);
    if kept != [] {
      GroupMembersAreLong(ps, budget, threshold);
      PackKeepsOrder(ps, budget, threshold);
      PackKeepsInv(ps, budget, threshold);
      assert gs == AllGroups(Pack(ps, budget, threshold));
      LaterChunksNonEmpty(gs);
      FirstGroupEmptyIff(gs, kept, budget);
    }
  }
}
