/** `chunk_text(text, max_chars)`: a text that fits is returned whole; a longer text is cut
    into sentences that are packed greedily, in order, into buffers of at most `max_chars`
    characters. A buffer is flushed (stripped, and only if something but whitespace is left)
    as soon as the next sentence plus one space would overflow it; a single sentence longer
    than `max_chars` is never cut and becomes a chunk on its own. */
module Chunking {
  import opened Strings
  import opened Sentences

  /** `buf += (" " if buf else "") + s` */
  function Append(buf: string, s: string): (r: string)
    ensures |r| <= |buf| + |s| + 1
  {
    if buf == "" then s else buf + " " + s
  }

  /** The buffer a group of sentences is packed into, starting from `""`. */
  function Buffer(group: seq<string>): string
  {
    if group == [] then "" else Append(Buffer(group[..|group| - 1]), group[|group| - 1])
  }

  /** The state of the packing loop as groups of sentences: the groups already flushed and
      the group still in the buffer. */
  datatype Packing = Packing(closed: seq<seq<string>>, open: seq<string>)
  {
    function Groups(): seq<seq<string>>
    {
      closed + [open]
    }
  }

  /** The packing after the loop has seen `sentences`, one step per sentence. */
  function Pack(sentences: seq<string>, maxChars: int): Packing
  {
    if sentences == [] then Packing([], [])
    else
      var p := Pack(sentences[..|sentences| - 1], maxChars);
      var s := sentences[|sentences| - 1];
      if |Buffer(p.open)| + |s| + 1 > maxChars then Packing(p.closed + [p.open], [s])
      else Packing(p.closed, p.open + [s])
  }

  /** What flushing each group leaves: its buffer stripped, unless that is empty. */
  function Render(groups: seq<seq<string>>): seq<string>
  {
    if groups == [] then []
    else
      var chunk := Strip(Buffer(groups[|groups| - 1]));
      Render(groups[..|groups| - 1]) + (if chunk != "" then [chunk] else [])
  }

  /** `chunk_text(text, max_chars)` */
  function Chunks(text: string, maxChars: int): seq<string>
  {
    if |text| <= maxChars then [text]
    else Render(Pack(SplitSentences(text), maxChars).Groups())
  }

  /** `chunk_text(text, max_chars)` */
  method ChunkText(text: string, maxChars: int) returns (chunks: seq<string>)
    ensures chunks == Chunks(text, maxChars)
    ensures |text| <= maxChars ==> chunks == [text]
    ensures |text| > maxChars ==> forall c :: c in chunks ==> c != "" && Strip(c) == c
    ensures WordsOfEach(chunks) == Words(text)
  {
    ChunksShape(text, maxChars);
    if |text| <= maxChars {
      return [text];
    }
    var sentences := SplitSentences(text);
    chunks := PackSentences(sentences, maxChars);
  }

  /** The loop of `chunk_text`, with the buffer `buf` and the list `chunks` it appends to. */
  method PackSentences(sentences: seq<string>, maxChars: int) returns (chunks: seq<string>)
    ensures chunks == Render(Pack(sentences, maxChars).Groups())
  {
    chunks := [];
    var buf := "";
    ghost var packed := Packing([], []);
    for i := 0 to |sentences|
      invariant packed == Pack(sentences[..i], maxChars)
      invariant chunks == Render(packed.closed)
      invariant buf == Buffer(packed.open)
    {
      var s := sentences[i];
      PackSnoc(sentences, i, maxChars);
      if |buf| + |s| + 1 > maxChars {
        RenderSnoc(packed.closed, packed.open);
        if Strip(buf) != "" {
          chunks := chunks + [Strip(buf)];
        }
        buf := s;
        packed := Packing(packed.closed + [packed.open], [s]);
      } else {
        buf := buf + (if buf != "" then " " else "") + s;
        packed := Packing(packed.closed, packed.open + [s]);
      }
    }
    assert sentences[..|sentences|] == sentences;
    RenderSnoc(packed.closed, packed.open);
    if Strip(buf) != "" {
      chunks := chunks + [Strip(buf)];
    }
  }

  lemma PackSnoc(sentences: seq<string>, i: nat, maxChars: int)
    requires i < |sentences|
    ensures var p := Pack(sentences[..i], maxChars); var s := sentences[i];
      Pack(sentences[..i + 1], maxChars) ==
        if |Buffer(p.open)| + |s| + 1 > maxChars then Packing(p.closed + [p.open], [s])
        else Packing(p.closed, p.open + [s])
  {
    assert sentences[..i + 1][..i] == sentences[..i];
  }

  lemma RenderSnoc(groups: seq<seq<string>>, g: seq<string>)
    ensures var chunk := Strip(Buffer(g));
      Render(groups + [g]) == Render(groups) + (if chunk != "" then [chunk] else [])
  {
    assert (groups + [g])[..|groups|] == groups;
  }

  /** The packing is greedy over consecutive runs of the sentences: only the first group may
      be empty (when the first sentence did not fit next to the empty buffer), every sentence
      added to a group fitted (`len(buf) + len(s) + 1 <= max_chars`), and every new group was
      forced by a sentence that did not fit in the previous one. */
  predicate Greedy(groups: seq<seq<string>>, maxChars: int)
  {
    && (forall j :: 0 < j < |groups| ==> groups[j] != [])
    && (forall j, i :: 0 <= j < |groups| && 0 <= i < |groups[j]| && (j == 0 || 0 < i) ==>
          |Buffer(groups[j][..i])| + |groups[j][i]| + 1 <= maxChars)
    && (forall j :: 0 < j < |groups| ==> |Buffer(groups[j - 1])| + |groups[j][0]| + 1 > maxChars)
  }

  function Flatten(groups: seq<seq<string>>): seq<string>
  {
    if groups == [] then [] else Flatten(groups[..|groups| - 1]) + groups[|groups| - 1]
  }

  /** The groups of the packing are consecutive runs of the sentences, in order, none
      dropped, and packed greedily. */
  lemma PackIsGreedy(sentences: seq<string>, maxChars: int)
    ensures Flatten(Pack(sentences, maxChars).Groups()) == sentences
    ensures Greedy(Pack(sentences, maxChars).Groups(), maxChars)
  {
    PackFlatten(sentences, maxChars);
    PackGreedy(sentences, maxChars);
  }

  lemma {:induction false} PackFlatten(sentences: seq<string>, maxChars: int)
    ensures Flatten(Pack(sentences, maxChars).Groups()) == sentences
    decreases |sentences|
  {
    if sentences == [] {
      assert Pack(sentences, maxChars).Groups() == [[]];
      assert Flatten([[]]) == Flatten([]) + [];
    } else {
      var init := sentences[..|sentences| - 1];
      var s := sentences[|sentences| - 1];
      var p := Pack(init, maxChars);
      PackFlatten(init, maxChars);
      var g := p.Groups();
      assert g[..|g| - 1] == p.closed;
      if |Buffer(p.open)| + |s| + 1 > maxChars {
        var g' := g + [[s]];
        assert Pack(sentences, maxChars).Groups() == g';
        assert g'[..|g'| - 1] == g;
      } else {
        var g' := p.closed + [p.open + [s]];
        assert Pack(sentences, maxChars).Groups() == g';
        assert g'[..|g'| - 1] == p.closed;
      }
      assert sentences == init + [s];
    }
  }

  lemma {:induction false} PackGreedy(sentences: seq<string>, maxChars: int)
    ensures Greedy(Pack(sentences, maxChars).Groups(), maxChars)
    decreases |sentences|
  {
    if sentences != [] {
      var init := sentences[..|sentences| - 1];
      var s := sentences[|sentences| - 1];
      var p := Pack(init, maxChars);
      PackGreedy(init, maxChars);
      if |Buffer(p.open)| + |s| + 1 > maxChars {
        GreedyNewGroup(p.Groups(), s, maxChars);
        assert Pack(sentences, maxChars).Groups() == p.Groups() + [[s]];
      } else {
        GreedyExtend(p.closed, p.open, s, maxChars);
        assert Pack(sentences, maxChars).Groups() == p.closed + [p.open + [s]];
      }
    }
  }

  lemma GreedyNewGroup(groups: seq<seq<string>>, s: string, maxChars: int)
    requires groups != [] && Greedy(groups, maxChars)
    requires |Buffer(groups[|groups| - 1])| + |s| + 1 > maxChars
    ensures Greedy(groups + [[s]], maxChars)
  {
    var g' := groups + [[s]];
    var n := |groups|;
    assert g'[n] == [s];
    forall j | 0 < j < |g'| ensures g'[j] != [] {
      if j < n {
        assert g'[j] == groups[j];
      }
    }
    forall j, i | 0 <= j < |g'| && 0 <= i < |g'[j]| && (j == 0 || 0 < i)
      ensures |Buffer(g'[j][..i])| + |g'[j][i]| + 1 <= maxChars
    {
      assert j < n;
      assert g'[j] == groups[j];
    }
    forall j | 0 < j < |g'| ensures |Buffer(g'[j - 1])| + |g'[j][0]| + 1 > maxChars {
      assert g'[j - 1] == groups[j - 1];
      if j < n {
        assert g'[j] == groups[j];
      }
    }
  }

  lemma GreedyExtend(closed: seq<seq<string>>, open: seq<string>, s: string, maxChars: int)
    requires Greedy(closed + [open], maxChars)
    requires |Buffer(open)| + |s| + 1 <= maxChars
    ensures Greedy(closed + [open + [s]], maxChars)
  {
    var g := closed + [open];
    var last := open + [s];
    var g' := closed + [last];
    var n := |closed|;
    assert forall j :: 0 <= j < n ==> g'[j] == g[j];
    assert g[n] == open && g'[n] == last;
    forall j, i | 0 <= j < |g'| && 0 <= i < |g'[j]| && (j == 0 || 0 < i)
      ensures |Buffer(g'[j][..i])| + |g'[j][i]| + 1 <= maxChars
    {
      if j == n {
        if i < |open| {
          assert last[..i] == open[..i] && last[i] == open[i];
        } else {
          assert last[..i] == open;
        }
      }
    }
    forall j | 0 < j < |g'| ensures |Buffer(g'[j - 1])| + |g'[j][0]| + 1 > maxChars {
      if j == n {
        assert open != [] && last[0] == open[0];
      }
    }
  }

  /** A group of two or more sentences fits in `max_chars` characters. */
  lemma MultiSentenceGroupFits(groups: seq<seq<string>>, maxChars: int, j: nat)
    requires Greedy(groups, maxChars) && j < |groups| && |groups[j]| >= 2
    ensures |Buffer(groups[j])| <= maxChars
  {
    var g := groups[j];
    var n := |g| - 1;
    assert g[..n + 1] == g;
    assert |Buffer(g[..n])| + |g[n]| + 1 <= maxChars;
  }

  /** Every chunk is the stripped, non-empty buffer of one group; rendering keeps every word. */
  lemma RenderShape(groups: seq<seq<string>>)
    ensures forall c :: c in Render(groups) ==> c != "" && Strip(c) == c
    ensures forall c :: c in Render(groups) ==> exists j :: 0 <= j < |groups| && c == Strip(Buffer(groups[j]))
    ensures WordsOfEach(Render(groups)) == WordsOfEach(Flatten(groups))
  {
    RenderStripped(groups);
    RenderFrom(groups);
    RenderWords(groups);
  }

  lemma {:induction false} RenderStripped(groups: seq<seq<string>>)
    ensures forall c :: c in Render(groups) ==> c != "" && Strip(c) == c
    decreases |groups|
  {
    if groups != [] {
      RenderStripped(groups[..|groups| - 1]);
      StripOfStripped(Strip(Buffer(groups[|groups| - 1])));
    }
  }

  lemma {:induction false} RenderFrom(groups: seq<seq<string>>)
    ensures forall c :: c in Render(groups) ==> exists j :: 0 <= j < |groups| && c == Strip(Buffer(groups[j]))
    decreases |groups|
  {
    if groups != [] {
      var init := groups[..|groups| - 1];
      RenderFrom(init);
      assert forall j :: 0 <= j < |init| ==> init[j] == groups[j];
    }
  }

  lemma {:induction false} RenderWords(groups: seq<seq<string>>)
    ensures WordsOfEach(Render(groups)) == WordsOfEach(Flatten(groups))
    decreases |groups|
  {
    if groups != [] {
      var init := groups[..|groups| - 1];
      var g := groups[|groups| - 1];
      RenderWords(init);
      var chunk := Strip(Buffer(g));
      var tail := if chunk != "" then [chunk] else [];
      assert Render(groups) == Render(init) + tail;
      WordsOfEachAppend(Render(init), tail);
      WordsOfEachAppend(Flatten(init), g);
      WordsOfBuffer(g);
      WordsOfStrip(Buffer(g));
      if chunk == "" {
        WordsOfWhitespace(Buffer(g));
      } else {
        assert WordsOfEach([chunk]) == Words(chunk) + WordsOfEach([]);
      }
    }
  }

  /** The buffer of a group holds exactly the words of its sentences. */
  lemma {:induction false} WordsOfBuffer(group: seq<string>)
    ensures Words(Buffer(group)) == WordsOfEach(group)
    decreases |group|
  {
    if group != [] {
      var init := group[..|group| - 1];
      var s := group[|group| - 1];
      WordsOfBuffer(init);
      var b := Buffer(init);
      assert group == init + [s];
      WordsOfEachAppend(init, [s]);
      assert WordsOfEach([s]) == Words(s) + WordsOfEach([]);
      if b != "" {
        WordsAroundGap(b, " ", s);
      }
    }
  }

  lemma {:induction false} FlattenMember(groups: seq<seq<string>>, j: nat, i: nat)
    requires j < |groups| && i < |groups[j]|
    ensures groups[j][i] in Flatten(groups)
    decreases |groups|
  {
    if j < |groups| - 1 {
      FlattenMember(groups[..|groups| - 1], j, i);
    }
  }

  /** What `chunk_text` promises: on a text longer than `max_chars`, every chunk is non-empty
      and stripped and a chunk longer than `max_chars` is a single sentence of the text,
      stripped; on any text, the chunks hold exactly the words of the text, in order. */
  lemma ChunksShape(text: string, maxChars: int)
    ensures |text| > maxChars ==> forall c :: c in Chunks(text, maxChars) ==> c != "" && Strip(c) == c
    ensures |text| > maxChars ==> forall c :: c in Chunks(text, maxChars) && |c| > maxChars ==>
      exists s :: s in SplitSentences(text) && c == Strip(s)
    ensures WordsOfEach(Chunks(text, maxChars)) == Words(text)
  {
    if |text| <= maxChars {
      assert WordsOfEach([text]) == Words(text) + WordsOfEach([]);
    } else {
      var sentences := SplitSentences(text);
      var groups := Pack(sentences, maxChars).Groups();
      PackIsGreedy(sentences, maxChars);
      RenderStripped(groups);
      RenderWords(groups);
      SplitSentencesWords(text);
      OversizedChunks(text, maxChars);
    }
  }

  lemma OversizedChunks(text: string, maxChars: int)
    requires |text| > maxChars
    ensures forall c :: c in Chunks(text, maxChars) && |c| > maxChars ==>
      exists s :: s in SplitSentences(text) && c == Strip(s)
  {
    var sentences := SplitSentences(text);
    var groups := Pack(sentences, maxChars).Groups();
    PackIsGreedy(sentences, maxChars);
    RenderFrom(groups);
    RenderStripped(groups);
    forall c | c in Render(groups) && |c| > maxChars
      ensures exists s :: s in sentences && c == Strip(s)
    {
      var j :| 0 <= j < |groups| && c == Strip(Buffer(groups[j]));
      OversizedGroup(groups, maxChars, j);
      FlattenMember(groups, j, 0);
    }
  }

  /** A group whose chunk overflows `max_chars` holds a single sentence. */
  lemma OversizedGroup(groups: seq<seq<string>>, maxChars: int, j: nat)
    requires Greedy(groups, maxChars) && j < |groups|
    requires Strip(Buffer(groups[j])) != "" && |Strip(Buffer(groups[j]))| > maxChars
    ensures |groups[j]| == 1 && Strip(Buffer(groups[j])) == Strip(groups[j][0])
  {
    var g := groups[j];
    if |g| >= 2 {
      MultiSentenceGroupFits(groups, maxChars, j);
    }
    assert g[..0] == [];
  }
}
