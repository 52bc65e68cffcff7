/** The sentence splitter `re.split(r'(?<=[.!?])\s+', text)` that chunking, the summarizers'
    fallback and the bullet digest all use. A split point is a maximal run of whitespace that
    immediately follows `.`, `!` or `?`; the run itself is dropped. Abbreviations, decimals and
    quotations are not treated specially. */
module Sentences {
  import opened Wrappers
  import opened Strings

  predicate IsTerminator(c: char)
  {
    c == '.' || c == '!' || c == '?'
  }

  /** A match of the pattern may start at `i`: the character before is a terminator
      (the look-behind) and the character at `i` is whitespace. */
  predicate IsBreak(s: string, i: int)
  {
    0 < i < |s| && IsTerminator(s[i - 1]) && IsWhitespace(s[i])
  }

  /** The leftmost position at or after `from` where a match starts. */
  function FindBreak(s: string, from: nat): (r: Option<nat>)
    ensures r.Some? ==> from <= r.value && IsBreak(s, r.value)
    ensures r.Some? ==> forall i :: from <= i < r.value ==> !IsBreak(s, i)
    ensures r.None? ==> forall i :: from <= i ==> !IsBreak(s, i)
    decreases |s| - from
  {
    if from >= |s| then None
    else if IsBreak(s, from) then Some(from)
    else FindBreak(s, from + 1)
  }

  /** Where the greedy `\s+` that starts at `i` stops. */
  function RunEnd(s: string, i: nat): (e: nat)
    requires i <= |s|
    ensures i <= e <= |s|
    ensures forall j :: i <= j < e ==> IsWhitespace(s[j])
    ensures e == |s| || !IsWhitespace(s[e])
    decreases |s| - i
  {
    if i < |s| && IsWhitespace(s[i]) then RunEnd(s, i + 1) else i
  }

  /** `re.split(r'(?<=[.!?])\s+', s)`: always at least one piece (`[""]` for `""`). */
  function SplitSentences(s: string): (pieces: seq<string>)
    ensures |pieces| >= 1
    ensures |pieces[0]| <= |s| && pieces[0] == s[..|pieces[0]|]
    decreases |s|
  {
    match FindBreak(s, 1)
    case None => [s]
    case Some(k) => [s[..k]] + SplitSentences(s[RunEnd(s, k)..])
  }

  /** What a result of the splitter looks like: every piece but the last is a non-empty
      sentence ending in a terminator, no piece contains a split point, and every piece
      after the first is empty or starts with a non-whitespace character (the whole
      whitespace run between two sentences was consumed). */
  predicate SplitShaped(pieces: seq<string>)
  {
    && |pieces| >= 1
    && (forall j :: 0 <= j < |pieces| - 1 ==> pieces[j] != [] && IsTerminator(pieces[j][|pieces[j]| - 1]))
    && (forall j, i :: 0 <= j < |pieces| && 0 <= i < |pieces[j]| ==> !IsBreak(pieces[j], i))
    && (forall j :: 0 < j < |pieces| ==> pieces[j] == [] || !IsWhitespace(pieces[j][0]))
  }

  /** The splitter cuts at every split point and only there, and it loses no word:
      the words of the pieces, in order, are the words of `s`. */
  lemma SplitSentencesShape(s: string)
    ensures SplitShaped(SplitSentences(s))
    ensures WordsOfEach(SplitSentences(s)) == Words(s)
  {
    SplitSentencesShaped(s);
    SplitSentencesWords(s);
  }

  lemma {:induction false} SplitSentencesShaped(s: string)
    ensures SplitShaped(SplitSentences(s))
    decreases |s|
  {
    match FindBreak(s, 1)
    case None =>
      forall i | 0 <= i < |s| ensures !IsBreak(s, i) {
        if i >= 1 { }
      }
    case Some(k) =>
      var e := RunEnd(s, k);
      var first, rest := s[..k], s[e..];
      var tail := SplitSentences(rest);
      SplitSentencesShaped(rest);
      assert SplitSentences(s) == [first] + tail;
      forall i | 0 <= i < |first| ensures !IsBreak(first, i) {
        if IsBreak(first, i) {
          assert IsBreak(s, i);
        }
      }
      assert first[k - 1] == s[k - 1];
      if tail[0] != [] {
        assert tail[0][0] == rest[0] == s[e];
      }
      ShapedCons(first, tail);
  }

  /** A sentence ending in a terminator, with no split point inside, followed by a
      split-shaped tail whose first piece does not start with whitespace. */
  lemma ShapedCons(first: string, tail: seq<string>)
    requires first != [] && IsTerminator(first[|first| - 1])
    requires forall i :: 0 <= i < |first| ==> !IsBreak(first, i)
    requires SplitShaped(tail)
    requires tail[0] == [] || !IsWhitespace(tail[0][0])
    ensures SplitShaped([first] + tail)
  {
    var pieces := [first] + tail;
    assert pieces[0] == first;
    forall j | 0 <= j < |pieces| - 1 ensures pieces[j] != [] && IsTerminator(pieces[j][|pieces[j]| - 1]) {
      if j > 0 {
        assert pieces[j] == tail[j - 1];
      }
    }
    forall j, i | 0 <= j < |pieces| && 0 <= i < |pieces[j]| ensures !IsBreak(pieces[j], i) {
      if j > 0 {
        assert pieces[j] == tail[j - 1];
      }
    }
    forall j | 0 < j < |pieces| ensures pieces[j] == [] || !IsWhitespace(pieces[j][0]) {
      assert pieces[j] == tail[j - 1];
    }
  }

  lemma {:induction false} SplitSentencesWords(s: string)
    ensures WordsOfEach(SplitSentences(s)) == Words(s)
    decreases |s|
  {
    match FindBreak(s, 1)
    case None =>
      assert WordsOfEach([s]) == Words(s) + WordsOfEach([]);
    case Some(k) =>
      var e := RunEnd(s, k);
      var tail := SplitSentences(s[e..]);
      SplitSentencesWords(s[e..]);
      var pieces := [s[..k]] + tail;
      assert SplitSentences(s) == pieces;
      assert pieces[1..] == tail;
      WordsAroundRun(s, k, e);
  }

  /** Cutting out a whitespace run that separates two parts keeps all words. */
  lemma WordsAroundRun(s: string, k: nat, e: nat)
    requires k < e <= |s|
    requires forall j :: k <= j < e ==> IsWhitespace(s[j])
    ensures Words(s) == Words(s[..k]) + Words(s[e..])
  {
    var gap := s[k..e];
    forall j | 0 <= j < |gap| ensures IsWhitespace(gap[j]) {
      assert gap[j] == s[k + j];
    }
    SliceThree(s, k, e);
    WordsAroundGap(s[..k], gap, s[e..]);
  }

  lemma {:induction false} FindBreakAt(s: string, from: nat, k: nat)
    requires from <= k && IsBreak(s, k)
    requires forall i :: from <= i < k ==> !IsBreak(s, i)
    ensures FindBreak(s, from) == Some(k)
    decreases k - from
  {
    if from < k {
      FindBreakAt(s, from + 1, k);
    }
  }

  lemma {:induction false} FindBreakNone(s: string, from: nat)
    requires forall i :: from <= i ==> !IsBreak(s, i)
    ensures FindBreak(s, from) == None
    decreases |s| - from
  {
    if from < |s| {
      FindBreakNone(s, from + 1);
    }
  }

  /** Splitting the space-join of split-shaped pieces gives back exactly those pieces. */
  lemma {:induction false} SplitJoined(pieces: seq<string>)
    requires SplitShaped(pieces)
    ensures SplitSentences(Join(" ", pieces)) == pieces
    decreases |pieces|
  {
    var p := pieces[0];
    if |pieces| == 1 {
      assert forall i :: 1 <= i ==> !IsBreak(p, i);
      FindBreakNone(p, 1);
    } else {
      var tail := pieces[1..];
      var joined := Join(" ", tail);
      var x := p + " " + joined;
      assert Join(" ", pieces) == x;
      var k := |p|;
      forall i | 1 <= i < k ensures !IsBreak(x, i) {
        assert !IsBreak(p, i);
        assert x[i - 1] == p[i - 1] && x[i] == p[i];
      }
      assert x[k - 1] == p[k - 1] && x[k] == ' ';
      FindBreakAt(x, 1, k);
      assert SplitShaped(tail) by {
        assert forall j :: 0 <= j < |tail| ==> tail[j] == pieces[j + 1];
      }
      if tail[0] != [] {
        assert x[k + 1] == joined[0] == tail[0][0];
        assert RunEnd(x, k) == k + 1;
      } else {
        assert |pieces| == 2 && joined == [];
        assert RunEnd(x, k) == k + 1;
      }
      assert x[k + 1..] == joined;
      SplitJoined(tail);
    }
  }

  /** Any non-empty prefix of a split result re-splits to itself: joining the first `n`
      sentences with single spaces yields a text whose sentences are exactly those `n`. */
  lemma SplitPrefixJoined(s: string, n: nat)
    requires 1 <= n <= |SplitSentences(s)|
    ensures SplitSentences(Join(" ", SplitSentences(s)[..n])) == SplitSentences(s)[..n]
  {
    SplitSentencesShaped(s);
    ShapedPrefix(SplitSentences(s), n);
    SplitJoined(SplitSentences(s)[..n]);
  }

  /** A non-empty prefix of split-shaped pieces is split-shaped. */
  lemma ShapedPrefix(pieces: seq<string>, n: nat)
    requires SplitShaped(pieces) && 1 <= n <= |pieces|
    ensures SplitShaped(pieces[..n])
  {
    var prefix := pieces[..n];
    assert forall j :: 0 <= j < n ==> prefix[j] == pieces[j];
  }
}
