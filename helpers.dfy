/** The word-budget summarizer of `helpers.py`: `summarize_lexrank(text, max_words)` and the
    two-pass `summarize_long_text(text, target_words)`.

    The LexRank ranking (sumy's tokenizer, similarity graph and power iteration) is a parameter
    `rank`: `rank(text)` is `Some(sentences)`, the sentences of `text` best first, or `None`
    when sumy raises, in which case the regular-expression split in document order is used. */
module Helpers {
  import opened Wrappers
  import opened Strings
  import opened Sentences
  import Chunking

  /** `summarize_long_text` chunks at this many characters. */
  const LongTextChunkChars: nat := 4000
  /** `summarize_long_text` summarizes each chunk to this many words. */
  const ChunkSummaryWords: nat := 100

  /** The longest prefix of `candidates` whose total `len(s.split())` stays within `budget`:
      selection stops at the first sentence that would overflow and never skips it. */
  function WithinBudget(candidates: seq<string>, budget: int): (taken: seq<string>)
    ensures |taken| <= |candidates| && taken == candidates[..|taken|]
    decreases |candidates|
  {
    if candidates == [] then []
    else
      var n := WordCount(candidates[0]);
      if n > budget then [] else [candidates[0]] + WithinBudget(candidates[1..], budget - n)
  }

  /** `taken` is what a budgeted selection may return: a prefix of the candidates that fits
      in the budget (or is empty), and that is followed by nothing or by the first candidate
      that would overflow. */
  predicate BudgetPrefix(candidates: seq<string>, budget: int, taken: seq<string>)
  {
    && |taken| <= |candidates| && taken == candidates[..|taken|]
    && (taken == [] || |WordsOfEach(taken)| <= budget)
    && (|taken| < |candidates| ==> |WordsOfEach(taken)| + WordCount(candidates[|taken|]) > budget)
  }

  /** What `WithinBudget` selects: the longest prefix within the budget. */
  lemma {:induction false} WithinBudgetSpec(candidates: seq<string>, budget: int)
    ensures BudgetPrefix(candidates, budget, WithinBudget(candidates, budget))
    decreases |candidates|
  {
    if candidates != [] {
      var n := WordCount(candidates[0]);
      if n <= budget {
        WithinBudgetSpec(candidates[1..], budget - n);
        BudgetPrefixCons(candidates, budget, WithinBudget(candidates[1..], budget - n));
      }
    }
  }

  /** An accepted first candidate followed by a selection from the rest. */
  lemma BudgetPrefixCons(candidates: seq<string>, budget: int, rest: seq<string>)
    requires candidates != [] && WordCount(candidates[0]) <= budget
    requires BudgetPrefix(candidates[1..], budget - WordCount(candidates[0]), rest)
    ensures BudgetPrefix(candidates, budget, [candidates[0]] + rest)
  {
    var taken := [candidates[0]] + rest;
    assert taken[0] == candidates[0] && taken[1..] == rest;
    assert WordsOfEach(taken) == Words(candidates[0]) + WordsOfEach(rest);
    assert candidates[..|taken|] == [candidates[0]] + candidates[1..][..|rest|];
    if |taken| < |candidates| {
      assert candidates[|taken|] == candidates[1..][|rest|];
    }
  }

  /** The sentences `summarize_lexrank` walks through: the ranking, or the split on failure. */
  function Candidates(text: string, rank: string -> Option<seq<string>>): seq<string>
  {
    match rank(text)
    case Some(ranked) => ranked
    case None => SplitSentences(text)
  }

  /** `summarize_lexrank(text, max_words)`: never more than `max_words` words; `""` when the
      budget is negative or when the first candidate alone does not fit. */
  function Summarize(text: string, maxWords: int, rank: string -> Option<seq<string>>): (summary: string)
    ensures summary == "" || WordCount(summary) <= maxWords
    ensures maxWords < 0 ==> summary == ""
    ensures var c := Candidates(text, rank);
      c != [] && WordCount(c[0]) > maxWords ==> summary == ""
  {
    var taken := WithinBudget(Candidates(text, rank), maxWords);
    WithinBudgetSpec(Candidates(text, rank), maxWords);
    WordsOfJoin(" ", taken);
    Join(" ", taken)
  }

  /** The selection loop of `summarize_lexrank`, shared by the ranked and the fallback path. */
  method SelectWithinBudget(candidates: seq<string>, maxWords: int) returns (selected: seq<string>)
    ensures selected == WithinBudget(candidates, maxWords)
  {
    selected := [];
    var wordCount := 0;
    var i := 0;
    SelectBegin(candidates, maxWords);
    while i < |candidates|
      invariant i <= |candidates|
      invariant Selecting(candidates, maxWords, i, selected, wordCount)
    {
      var sentenceWordCount := |Words(candidates[i])|;
      if wordCount + sentenceWordCount > maxWords {
        SelectStop(candidates, maxWords, i, selected, wordCount);
        break;
      }
      SelectStep(candidates, maxWords, i, selected, wordCount);
      selected := selected + [candidates[i]];
      wordCount := wordCount + sentenceWordCount;
      i := i + 1;
    }
    if i == |candidates| {
      SelectEnd(candidates, maxWords, selected, wordCount);
    }
  }

  /** The state of the selection loop after `i` accepted sentences: they are the first `i`
      candidates, `used` counts their words, and the rest of the selection is made from the
      remaining candidates with the remaining budget. */
  predicate Selecting(candidates: seq<string>, budget: int, i: nat, selected: seq<string>, used: int)
  {
    && i <= |candidates|
    && selected == candidates[..i]
    && used == |WordsOfEach(selected)|
    && WithinBudget(candidates, budget) == selected + WithinBudget(candidates[i..], budget - used)
  }

  lemma SelectBegin(candidates: seq<string>, budget: int)
    ensures Selecting(candidates, budget, 0, [], 0)
  {
    assert candidates[0..] == candidates;
  }

  lemma WithinBudgetStep(candidates: seq<string>, i: nat, budget: int)
    requires i < |candidates|
    ensures var n := WordCount(candidates[i]);
      WithinBudget(candidates[i..], budget) ==
        if n > budget then [] else [candidates[i]] + WithinBudget(candidates[i + 1..], budget - n)
  {
    var rest := candidates[i..];
    assert rest[0] == candidates[i] && rest[1..] == candidates[i + 1..];
  }

  /** One accepted sentence moves from the rest of the selection to what has been selected. */
  lemma SelectStep(candidates: seq<string>, budget: int, i: nat, selected: seq<string>, used: int)
    requires Selecting(candidates, budget, i, selected, used)
    requires i < |candidates| && used + |Words(candidates[i])| <= budget
    ensures Selecting(candidates, budget, i + 1, selected + [candidates[i]], used + |Words(candidates[i])|)
  {
    var c := candidates[i];
    var after := WithinBudget(candidates[i + 1..], budget - (used + |Words(c)|));
    WithinBudgetStep(candidates, i, budget - used);
    assert WithinBudget(candidates[i..], budget - used) == [c] + after;
    PrefixSnoc(candidates, i);
    AppendAssoc(selected, [c], after);
    WordsOfEachSnoc(selected, c);
  }

  /** The first sentence that would overflow ends the selection. */
  lemma SelectStop(candidates: seq<string>, budget: int, i: nat, selected: seq<string>, used: int)
    requires Selecting(candidates, budget, i, selected, used)
    requires i < |candidates| && used + |Words(candidates[i])| > budget
    ensures selected == WithinBudget(candidates, budget)
  {
    WithinBudgetStep(candidates, i, budget - used);
    assert selected + [] == selected;
  }

  /** Running out of candidates ends the selection. */
  lemma SelectEnd(candidates: seq<string>, budget: int, selected: seq<string>, used: int)
    requires Selecting(candidates, budget, |candidates|, selected, used)
    ensures selected == WithinBudget(candidates, budget)
  {
    assert candidates[|candidates|..] == [];
    assert selected + [] == selected;
  }

  lemma WordsOfEachSnoc(parts: seq<string>, s: string)
    ensures WordsOfEach(parts + [s]) == WordsOfEach(parts) + Words(s)
  {
    WordsOfEachAppend(parts, [s]);
    assert WordsOfEach([s]) == Words(s) + WordsOfEach([]);
  }

  /** `summarize_lexrank(text, max_words)`: select within the budget, then space-join. */
  method SummarizeLexRank(text: string, maxWords: int, rank: string -> Option<seq<string>>)
    returns (summary: string)
    ensures summary == Summarize(text, maxWords, rank)
    ensures summary == "" || WordCount(summary) <= maxWords
  {
    var selected;
    match rank(text) {
      case Some(ranked) =>
        selected := SelectWithinBudget(ranked, maxWords);
      case None =>
        var sentences := SplitSentences(text);
        selected := SelectWithinBudget(sentences, maxWords);
    }
    summary := Join(" ", selected);
  }

  /** The summary is the space-join of a prefix of the candidates, and that prefix ends just
      before the first candidate that would overflow the budget. */
  lemma SummarizeIsPrefix(text: string, maxWords: int, rank: string -> Option<seq<string>>)
    ensures var c := Candidates(text, rank);
      exists k :: 0 <= k <= |c| && Summarize(text, maxWords, rank) == Join(" ", c[..k]) &&
        (k < |c| ==> |WordsOfEach(c[..k])| + WordCount(c[k]) > maxWords)
  {
    var c := Candidates(text, rank);
    var taken := WithinBudget(c, maxWords);
    WithinBudgetSpec(c, maxWords);
    assert Summarize(text, maxWords, rank) == Join(" ", c[..|taken|]);
  }

  /** When every candidate fits, all of them are kept, in their order. */
  lemma {:induction false} WithinBudgetAll(candidates: seq<string>, budget: int)
    requires |WordsOfEach(candidates)| <= budget
    ensures WithinBudget(candidates, budget) == candidates
    decreases |candidates|
  {
    if candidates != [] {
      WithinBudgetAll(candidates[1..], budget - WordCount(candidates[0]));
    }
  }

  /** On the fallback path the summary's words are the first words of `text`, in order:
      the summary is a lead of the document. */
  lemma FallbackIsLead(text: string, maxWords: int, rank: string -> Option<seq<string>>)
    requires rank(text) == None
    ensures var w := Words(Summarize(text, maxWords, rank));
      |w| <= |Words(text)| && w == Words(text)[..|w|]
  {
    var c := SplitSentences(text);
    var taken := WithinBudget(c, maxWords);
    WithinBudgetSpec(c, maxWords);
    WordsOfJoin(" ", taken);
    SplitSentencesWords(text);
    WordsOfEachPrefix(c, |taken|);
  }

  /** On the fallback path a text that is short enough is kept word for word. */
  lemma FallbackKeepsShortText(text: string, maxWords: int, rank: string -> Option<seq<string>>)
    requires rank(text) == None
    requires WordCount(text) <= maxWords
    ensures Words(Summarize(text, maxWords, rank)) == Words(text)
  {
    var c := SplitSentences(text);
    SplitSentencesWords(text);
    WithinBudgetAll(c, maxWords);
    WordsOfJoin(" ", c);
  }

  /** On the fallback path a whitespace-only text comes back as it is (not as `""`): it is
      one sentence of no words, and that sentence fits in any budget that is not negative. */
  lemma FallbackOfBlank(text: string, maxWords: int, rank: string -> Option<seq<string>>)
    requires rank(text) == None && AllWhitespace(text) && maxWords >= 0
    ensures Summarize(text, maxWords, rank) == text
  {
    forall i | 1 <= i ensures !IsBreak(text, i) {
      if 0 < i < |text| {
        assert IsWhitespace(text[i - 1]);
      }
    }
    FindBreakNone(text, 1);
    assert SplitSentences(text) == [text];
    WordsOfWhitespace(text);
    assert WithinBudget([text], maxWords) == [text] + WithinBudget([], maxWords);
  }

  /** The per-chunk summaries of the first pass, in chunk order. */
  function ChunkSummaries(chunks: seq<string>, rank: string -> Option<seq<string>>): (summaries: seq<string>)
    ensures |summaries| == |chunks|
    ensures forall i :: 0 <= i < |summaries| ==> WordCount(summaries[i]) <= ChunkSummaryWords
    ensures forall i :: 0 <= i < |chunks| ==> summaries[i] == Summarize(chunks[i], ChunkSummaryWords, rank)
  {
    seq(|chunks|, i requires 0 <= i < |chunks| => Summarize(chunks[i], ChunkSummaryWords, rank))
  }

  /** `summarize_long_text(text, target_words)`: chunk at 4000 characters, summarize each
      chunk to 100 words, join those summaries with newlines in chunk order and summarize
      the result to the target. */
  function SummarizeLongText(text: string, targetWords: int, rank: string -> Option<seq<string>>): (summary: string)
    ensures summary == "" || WordCount(summary) <= targetWords
  {
    var combined := Join("\n", ChunkSummaries(Chunking.Chunks(text, LongTextChunkChars), rank));
    Summarize(combined, targetWords, rank)
  }

  /** The first pass holds every chunk to 100 words, so the text the second pass ranks has
      at most 100 words per chunk. */
  lemma {:induction false} CombinedWithinBudget(chunks: seq<string>, rank: string -> Option<seq<string>>)
    ensures WordCount(Join("\n", ChunkSummaries(chunks, rank))) <= ChunkSummaryWords * |chunks|
    decreases |chunks|
  {
    var summaries := ChunkSummaries(chunks, rank);
    WordsOfJoin("\n", summaries);
    if chunks != [] {
      CombinedWithinBudget(chunks[1..], rank);
      assert ChunkSummaries(chunks[1..], rank) == summaries[1..];
      WordsOfJoin("\n", summaries[1..]);
    }
  }
}
