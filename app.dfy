/** The pipeline of `app.py`: the sentence-count summarizer `summarize_lexrank(text, sentences)`,
    the two-pass `summarize_long_text(text, target_sentences)`, and the data steps of the
    "Generate Summary" run. The run collects sources from comma-separated links and uploaded
    files, separates the ones with text from the empty ones, summarizes each source, summarizes
    the summaries, and lists the resulting sentences as bullets.

    The fetchers, the PDF reader, the UTF-8 decoder and the LexRank ranking are parameters
    (`Services`). In this file `rank(text, n)` is `Some(sentences)`, the `n` best sentences of
    `text` as sumy returns them, or `None` when sumy raises. */
module App {
  import opened Wrappers
  import opened Strings
  import opened Sentences
  import Chunking
  import Cleaning
  import YouTube

  /** `summarize_long_text` chunks at this many characters. */
  const LongTextChunkChars: nat := 4000
  /** Bounds of the per-chunk sentence count `max(3, min(7, target_sentences))`. */
  const MinChunkSentences: int := 3
  const MaxChunkSentences: int := 7
  /** The bullet list holds at least this many entries when there are enough sentences. */
  const MinBullets: int := 5

  function Min(a: int, b: int): int { if a <= b then a else b }
  function Max(a: int, b: int): int { if a >= b then a else b }

  /** Python's `xs[:n]`: the first `n` items, or all but the last `-n` when `n` is negative. */
  function Slice<T>(xs: seq<T>, n: int): (r: seq<T>)
    ensures |r| <= |xs| && r == xs[..|r|]
    ensures n >= 0 ==> |r| == Min(n, |xs|)
    ensures n < 0 ==> |r| == Max(0, |xs| + n)
  {
    if n >= 0 then (if n <= |xs| then xs[..n] else xs)
    else if |xs| + n >= 0 then xs[..|xs| + n]
    else []
  }

  /** `summarize_lexrank(text, sentences)`: the ranked sentences joined by spaces or, when
      the ranking fails, the first `sentences` pieces of the split joined by spaces. The
      fallback keeps the lead of `text` in document order: splitting it again gives exactly
      those sentences, so there are at most `sentences` of them, and its words are the first
      words of `text`. */
  function SummarizeCount(text: string, sentences: int, rank: (string, int) -> Option<seq<string>>): (summary: string)
    ensures rank(text, sentences) == None && sentences >= 1 ==>
      var split := SplitSentences(text);
      SplitSentences(summary) == split[..Min(sentences, |split|)]
    ensures rank(text, sentences) == None && sentences >= 1 ==> |SplitSentences(summary)| <= sentences
    ensures rank(text, sentences) == None ==>
      var w := Words(summary);
      |w| <= |Words(text)| && w == Words(text)[..|w|]
  {
    match rank(text, sentences)
    case Some(ranked) => Join(" ", ranked)
    case None =>
      var split := SplitSentences(text);
      var lead := Slice(split, sentences);
      LeadWords(text, |lead|);
      if sentences >= 1 then
        SplitPrefixJoined(text, |lead|);
        Join(" ", lead)
      else Join(" ", lead)
  }

  /** The words of the first `n` sentences joined by spaces are the first words of `text`. */
  lemma LeadWords(text: string, n: nat)
    requires n <= |SplitSentences(text)|
    ensures var w := Words(Join(" ", SplitSentences(text)[..n]));
      |w| <= |Words(text)| && w == Words(text)[..|w|]
  {
    var split := SplitSentences(text);
    WordsOfJoin(" ", split[..n]);
    SplitSentencesWords(text);
    WordsOfEachPrefix(split, n);
  }

  /** `max(3, min(7, target_sentences))`: always between 3 and 7, and the target itself
      whenever the target is in that range. */
  function PerChunk(target: int): (n: int)
    ensures MinChunkSentences <= n <= MaxChunkSentences
    ensures MinChunkSentences <= target <= MaxChunkSentences ==> n == target
  {
    Max(MinChunkSentences, Min(MaxChunkSentences, target))
  }

  /** The per-chunk summaries of the first pass, in chunk order. */
  function ChunkSummaries(chunks: seq<string>, target: int, rank: (string, int) -> Option<seq<string>>): (summaries: seq<string>)
    ensures |summaries| == |chunks|
    ensures forall i :: 0 <= i < |chunks| ==> summaries[i] == SummarizeCount(chunks[i], PerChunk(target), rank)
    ensures forall i :: 0 <= i < |chunks| && rank(chunks[i], PerChunk(target)) == None ==>
      |SplitSentences(summaries[i])| <= PerChunk(target)
  {
    seq(|chunks|, i requires 0 <= i < |chunks| => SummarizeCount(chunks[i], PerChunk(target), rank))
  }

  /** `summarize_long_text(text, target_sentences)`: chunk at 4000 characters, summarize
      each chunk to the clamped count, join those summaries with newlines in chunk order and
      summarize the result to the target. When the final ranking fails, the result is the
      lead of the combined summaries and has at most `target` sentences. */
  function SummarizeLongText(text: string, target: int, rank: (string, int) -> Option<seq<string>>): (summary: string)
    ensures var combined := Join("\n", ChunkSummaries(Chunking.Chunks(text, LongTextChunkChars), target, rank));
      rank(combined, target) == None && target >= 1 ==> |SplitSentences(summary)| <= target
  {
    var combined := Join("\n", ChunkSummaries(Chunking.Chunks(text, LongTextChunkChars), target, rank));
    SummarizeCount(combined, target, rank)
  }

  // ---------------------------------------------------------------- the run

  /** An uploaded file: its name, its MIME type and its bytes. */
  datatype Upload = Upload(name: string, mimeType: string, data: seq<bv8>)

  /** A labelled source text. */
  datatype Source = Source(title: string, text: string)

  /** A labelled per-source summary. */
  datatype Summary = Summary(title: string, summary: string)

  /** What the run shows: the per-source summaries, the consolidated summary and its bullets. */
  datatype Report = Report(perSource: seq<Summary>, overall: string, bullets: seq<string>)

  /** The report, or `None` when no source had text ("Couldn't extract any text"), and the
      labels of the sources without text. */
  datatype Outcome = Outcome(report: Option<Report>, emptyLabels: seq<string>)

  /** The calls the run makes into code outside this model. Each fetcher yields `""` when it
      finds nothing. */
  datatype Services = Services(
    fetchTranscript: string -> string,
    fetchWebText: string -> string,
    readPdf: seq<bv8> -> string,
    decodeUtf8: seq<bv8> -> string,
    rank: (string, int) -> Option<seq<string>>)

  /** `[p.strip() for p in parts if p.strip()]` */
  function StrippedNonBlank(parts: seq<string>): (r: seq<string>)
    ensures |r| <= |parts|
    ensures forall j :: 0 <= j < |r| ==>
      r[j] != [] && !IsWhitespace(r[j][0]) && !IsWhitespace(r[j][|r[j]| - 1])
  {
    if parts == [] then []
    else
      var p := Strip(parts[0]);
      (if p != "" then [p] else []) + StrippedNonBlank(parts[1..])
  }

  /** Stripping and dropping blank pieces loses no word. */
  lemma {:induction false} WordsOfStrippedNonBlank(parts: seq<string>)
    ensures WordsOfEach(StrippedNonBlank(parts)) == WordsOfEach(parts)
  {
    if parts != [] {
      var p := Strip(parts[0]);
      var head: seq<string> := if p != "" then [p] else [];
      WordsOfStrippedNonBlank(parts[1..]);
      WordsOfEachAppend(head, StrippedNonBlank(parts[1..]));
      WordsOfStrip(parts[0]);
      WordsOfWhitespace(parts[0]);
      assert WordsOfEach([p]) == Words(p) + WordsOfEach([]);
    }
  }

  /** Pieces that are already non-blank and stripped pass through unchanged. */
  lemma {:induction false} StrippedNonBlankKeeps(parts: seq<string>)
    requires forall j :: 0 <= j < |parts| ==>
      parts[j] != [] && !IsWhitespace(parts[j][0]) && !IsWhitespace(parts[j][|parts[j]| - 1])
    ensures StrippedNonBlank(parts) == parts
  {
    if parts != [] {
      StripOfStripped(parts[0]);
      StrippedNonBlankKeeps(parts[1..]);
    }
  }

  /** Stripping and dropping blank pieces adds no character. */
  lemma {:induction false} StrippedNonBlankWithout(parts: seq<string>, c: char)
    requires forall k :: 0 <= k < |parts| ==> c !in parts[k]
    ensures forall j :: 0 <= j < |StrippedNonBlank(parts)| ==> c !in StrippedNonBlank(parts)[j]
  {
    if parts != [] {
      StrippedNonBlankWithout(parts[1..], c);
      StripWithout(parts[0], c);
    }
  }

  /** The link list: `[u.strip() for u in urls_input.split(",") if u.strip()]`. Every link is
      non-empty, has no whitespace at its ends and holds no comma. */
  function Urls(input: string): (urls: seq<string>)
    ensures forall j :: 0 <= j < |urls| ==>
      urls[j] != [] && !IsWhitespace(urls[j][0]) && !IsWhitespace(urls[j][|urls[j]| - 1]) && ',' !in urls[j]
  {
    StrippedNonBlankWithout(SplitOn(input, ','), ',');
    StrippedNonBlank(SplitOn(input, ','))
  }

  /** Links that are non-blank, stripped and free of commas survive being written
      comma-separated, with or without a space after each comma. */
  lemma UrlsRoundTrip(urls: seq<string>)
    requires urls != []
    requires forall j :: 0 <= j < |urls| ==>
      urls[j] != [] && !IsWhitespace(urls[j][0]) && !IsWhitespace(urls[j][|urls[j]| - 1]) && ',' !in urls[j]
    ensures Urls(Join(",", urls)) == urls
    ensures Urls(Join(", ", urls)) == urls
  {
    SplitOnJoin(urls, ',');
    StrippedNonBlankKeeps(urls);
    UrlsPadded("", urls);
    assert "" + Join(", ", urls) == Join(", ", urls);
  }

  /** The step of the `", "` round trip: a piece that follows a comma starts with whitespace,
      which `strip()` removes. */
  lemma {:induction false} UrlsPadded(w: string, urls: seq<string>)
    requires AllWhitespace(w) && urls != []
    requires forall j :: 0 <= j < |urls| ==>
      urls[j] != [] && !IsWhitespace(urls[j][0]) && !IsWhitespace(urls[j][|urls[j]| - 1]) && ',' !in urls[j]
    ensures StrippedNonBlank(SplitOn(w + Join(", ", urls), ',')) == urls
    decreases |urls|
  {
    if |urls| == 1 {
      UrlsPaddedLast(w, urls[0]);
      assert Join(", ", urls) == urls[0];
    } else {
      UrlsPadded(" ", urls[1..]);
      UrlsPaddedStep(w, urls);
    }
  }

  lemma UrlsPaddedLast(w: string, u: string)
    requires AllWhitespace(w)
    requires u != [] && !IsWhitespace(u[0]) && !IsWhitespace(u[|u| - 1]) && ',' !in u
    ensures StrippedNonBlank(SplitOn(w + u, ',')) == [u]
  {
    PaddedWithout(w, u, ',');
    StripPadded(w, u);
    SplitOnWithout(w + u, ',');
    StrippedNonBlankCons(w + u, []);
  }

  lemma UrlsPaddedStep(w: string, urls: seq<string>)
    requires AllWhitespace(w) && |urls| > 1
    requires urls[0] != [] && !IsWhitespace(urls[0][0]) && !IsWhitespace(urls[0][|urls[0]| - 1]) && ',' !in urls[0]
    requires StrippedNonBlank(SplitOn(" " + Join(", ", urls[1..]), ',')) == urls[1..]
    ensures StrippedNonBlank(SplitOn(w + Join(", ", urls), ',')) == urls
  {
    var rest := " " + Join(", ", urls[1..]);
    JoinAfterComma(w, urls);
    LinkThenRest(w, urls[0], rest);
    assert [urls[0]] + urls[1..] == urls;
  }

  /** A padded link followed by a comma contributes that link and nothing else. */
  lemma LinkThenRest(w: string, u: string, rest: string)
    requires AllWhitespace(w)
    requires u != [] && !IsWhitespace(u[0]) && !IsWhitespace(u[|u| - 1]) && ',' !in u
    ensures StrippedNonBlank(SplitOn((w + u) + [','] + rest, ',')) == [u] + StrippedNonBlank(SplitOn(rest, ','))
  {
    PaddedWithout(w, u, ',');
    StripPadded(w, u);
    SplitOnAt(w + u, ',', rest);
    StrippedNonBlankCons(w + u, SplitOn(rest, ','));
  }

  lemma PaddedWithout(w: string, u: string, c: char)
    requires AllWhitespace(w) && !IsWhitespace(c) && c !in u
    ensures c !in w + u
  {
    assert forall k :: 0 <= k < |w| ==> (w + u)[k] == w[k];
    assert forall k :: |w| <= k < |w + u| ==> (w + u)[k] == u[k - |w|];
  }

  lemma JoinAfterComma(w: string, urls: seq<string>)
    requires |urls| > 1
    ensures w + Join(", ", urls) == (w + urls[0]) + [','] + (" " + Join(", ", urls[1..]))
  {
    var tail := Join(", ", urls[1..]);
    assert Join(", ", urls) == urls[0] + ", " + tail;
    CommaRegroup(w, urls[0], tail);
  }

  lemma CommaRegroup(w: string, u: string, tail: string)
    ensures w + (u + ", " + tail) == (w + u) + [','] + (" " + tail)
  {
    assert ", " == [','] + " ";
  }

  lemma StrippedNonBlankCons(p: string, rest: seq<string>)
    requires Strip(p) != ""
    ensures StrippedNonBlank([p] + rest) == [Strip(p)] + StrippedNonBlank(rest)
  {
    assert ([p] + rest)[0] == p && ([p] + rest)[1..] == rest;
  }

  /** A blank link field yields no links, so the `urls_input.strip()` guard changes nothing. */
  lemma {:induction false} UrlsOfBlank(input: string)
    requires AllWhitespace(input)
    ensures Urls(input) == []
  {
    BlankPieces(input);
    StrippedOfBlank(SplitOn(input, ','));
  }

  lemma {:induction false} BlankPieces(s: string)
    requires AllWhitespace(s)
    ensures forall j :: 0 <= j < |SplitOn(s, ',')| ==> AllWhitespace(SplitOn(s, ',')[j])
    decreases |s|
  {
    if s != [] {
      BlankPieces(s[1..]);
      var rest := SplitOn(s[1..], ',');
      if s[0] != ',' {
        assert AllWhitespace([s[0]] + rest[0]);
        assert SplitOn(s, ',')[1..] == rest[1..];
      }
    }
  }

  lemma {:induction false} StrippedOfBlank(parts: seq<string>)
    requires forall j :: 0 <= j < |parts| ==> AllWhitespace(parts[j])
    ensures StrippedNonBlank(parts) == []
  {
    if parts != [] {
      StrippedOfBlank(parts[1..]);
    }
  }

  /** The text fetched for a link: the transcript when it names a YouTube video, the page
      text otherwise. */
  function FetchLink(u: string, services: Services): string
  {
    match YouTube.ExtractYoutubeId(u)
    case Some(id) => services.fetchTranscript(id)
    case None => services.fetchWebText(u)
  }

  /** The source a link contributes: labelled `YouTube: u` when an id is found and `Web: u`
      otherwise; its text is the cleaned fetched text, or `""` when nothing was fetched. */
  function LinkSource(u: string, services: Services): (r: Source)
    ensures r.text == Cleaning.CleanText(FetchLink(u, services))
    ensures r.text == "" || Cleaning.SingleSpaced(r.text)
  {
    var yid := YouTube.ExtractYoutubeId(u);
    var txt := FetchLink(u, services);
    var title := (if yid.Some? then "YouTube: " else "Web: ") + u;
    Cleaning.CleanTextBlank(txt);
    if txt != "" then Source(title, Cleaning.CleanText(txt)) else Source(title, "")
  }

  /** A link is labelled `YouTube: u` exactly when the pattern matches somewhere in `u`,
      and `Web: u` exactly when it matches nowhere. */
  lemma LinkSourceTitle(u: string, services: Services)
    ensures LinkSource(u, services).title == "YouTube: " + u <==> exists p, id :: YouTube.IsMatch(u, p, id)
    ensures LinkSource(u, services).title == "Web: " + u <==> forall p, id :: !YouTube.IsMatch(u, p, id)
  {
    var yt, web := "YouTube: " + u, "Web: " + u;
    assert yt[0] != web[0];
    match YouTube.ExtractYoutubeId(u)
    case Some(id) =>
      var p :| YouTube.IsLeftmostMatch(u, 0, p, id);
      assert YouTube.IsMatch(u, p, id);
    case None =>
  }

  predicate IsAsciiLetter(c: char)
  {
    ('A' <= c <= 'Z') || ('a' <= c <= 'z')
  }

  /** The position of an ASCII letter in the alphabet, whatever its case. */
  function AlphabetIndex(c: char): int
  {
    if 'a' <= c <= 'z' then c as int - 'a' as int else c as int - 'A' as int
  }

  /** Python's `s.lower()` on the characters that can end up in `.pdf`: no capital is left,
      a letter keeps its place in the alphabet and becomes lower case, and every character
      that is not an ASCII capital is kept. */
  function AsciiLower(s: string): (r: string)
    ensures |r| == |s|
    ensures forall i :: 0 <= i < |s| ==> !('A' <= r[i] <= 'Z')
    ensures forall i :: 0 <= i < |s| ==> ('a' <= r[i] <= 'z' <==> IsAsciiLetter(s[i]))
    ensures forall i :: 0 <= i < |s| && IsAsciiLetter(s[i]) ==> AlphabetIndex(r[i]) == AlphabetIndex(s[i])
    ensures forall i :: 0 <= i < |s| && !('A' <= s[i] <= 'Z') ==> r[i] == s[i]
  {
    seq(|s|, i requires 0 <= i < |s| => if 'A' <= s[i] <= 'Z' then (s[i] as int + 32) as char else s[i])
  }

  /** Lowering twice is lowering once. */
  lemma AsciiLowerIdempotent(s: string)
    ensures AsciiLower(AsciiLower(s)) == AsciiLower(s)
  {
    var r := AsciiLower(s);
    assert forall i :: 0 <= i < |r| ==> AsciiLower(r)[i] == r[i];
  }

  predicate EndsWith(s: string, suffix: string)
  {
    |suffix| <= |s| && s[|s| - |suffix|..] == suffix
  }

  /** The name ends in a dot followed by `p`, `d` and `f` in either case. */
  predicate HasPdfExtension(name: string)
  {
    && |name| >= 4
    && name[|name| - 4] == '.'
    && (name[|name| - 3] == 'p' || name[|name| - 3] == 'P')
    && (name[|name| - 2] == 'd' || name[|name| - 2] == 'D')
    && (name[|name| - 1] == 'f' || name[|name| - 1] == 'F')
  }

  /** `f.type == "application/pdf" or f.name.lower().endswith(".pdf")` */
  predicate IsPdfUpload(f: Upload)
  {
    f.mimeType == "application/pdf" || EndsWith(AsciiLower(f.name), ".pdf")
  }

  /** The lower-cased name ends with `.pdf` exactly when the name has a PDF extension. */
  lemma PdfSuffix(name: string)
    ensures EndsWith(AsciiLower(name), ".pdf") <==> HasPdfExtension(name)
  {
    var low := AsciiLower(name);
    if |name| >= 4 {
      var n := |name|;
      assert low[n - 4..] == [low[n - 4], low[n - 3], low[n - 2], low[n - 1]];
    }
  }

  /** The source an upload contributes: a PDF read as PDF and labelled `PDF: name`, anything
      else decoded as UTF-8 and labelled `TXT: name`; its text is cleaned. */
  function UploadSource(f: Upload, services: Services): (r: Source)
    ensures |r.title| >= 5 && r.title[5..] == f.name
    ensures r.title[..5] == "PDF: " <==> f.mimeType == "application/pdf" || HasPdfExtension(f.name)
    ensures r.title[..5] == "PDF: " ==> r.text == Cleaning.CleanText(services.readPdf(f.data))
    ensures r.title[..5] != "PDF: " ==> r.title[..5] == "TXT: " && r.text == Cleaning.CleanText(services.decodeUtf8(f.data))
    ensures r.text == "" || Cleaning.SingleSpaced(r.text)
  {
    PdfSuffix(f.name);
    var txt := if IsPdfUpload(f) then services.readPdf(f.data) else services.decodeUtf8(f.data);
    var title := (if IsPdfUpload(f) then "PDF: " else "TXT: ") + f.name;
    assert title[..5] == (if IsPdfUpload(f) then "PDF: " else "TXT: ");
    Source(title, Cleaning.CleanText(txt))
  }

  /** `[f(x) for x in xs]`, built by appending one item at a time as the run's loops do. */
  function MapEach<A, B>(f: A -> B, xs: seq<A>): (r: seq<B>)
    ensures |r| == |xs|
    ensures forall i :: 0 <= i < |xs| ==> r[i] == f(xs[i])
  {
    if xs == [] then []
    else
      var front := xs[..|xs| - 1];
      var r := MapEach(f, front) + [f(xs[|front|])];
      assert forall i :: 0 <= i < |front| ==> front[i] == xs[i];
      r
  }

  lemma MapEachSnoc<A, B>(f: A -> B, xs: seq<A>, k: nat)
    requires k < |xs|
    ensures MapEach(f, xs[..k + 1]) == MapEach(f, xs[..k]) + [f(xs[k])]
  {
    assert xs[..k + 1][..k] == xs[..k];
  }

  /** The sources of the links: the i-th is the source of the i-th link. */
  function LinkSources(urls: seq<string>, services: Services): (r: seq<Source>)
    ensures |r| == |urls|
    ensures forall i :: 0 <= i < |urls| ==> r[i] == LinkSource(urls[i], services)
  {
    MapEach(u => LinkSource(u, services), urls)
  }

  lemma LinkSourcesSnoc(urls: seq<string>, k: nat, services: Services)
    requires k < |urls|
    ensures LinkSources(urls[..k + 1], services) == LinkSources(urls[..k], services) + [LinkSource(urls[k], services)]
  {
    MapEachSnoc(u => LinkSource(u, services), urls, k);
  }

  /** The sources of the uploads: the i-th is the source of the i-th upload. */
  function UploadSources(uploads: seq<Upload>, services: Services): (r: seq<Source>)
    ensures |r| == |uploads|
    ensures forall i :: 0 <= i < |uploads| ==> r[i] == UploadSource(uploads[i], services)
  {
    MapEach(f => UploadSource(f, services), uploads)
  }

  lemma UploadSourcesSnoc(uploads: seq<Upload>, k: nat, services: Services)
    requires k < |uploads|
    ensures UploadSources(uploads[..k + 1], services) == UploadSources(uploads[..k], services) + [UploadSource(uploads[k], services)]
  {
    MapEachSnoc(f => UploadSource(f, services), uploads, k);
  }

  /** All sources of a run: the links in order, then the uploads in order. */
  function Sources(urlsInput: string, uploads: seq<Upload>, services: Services): seq<Source>
  {
    LinkSources(Urls(urlsInput), services) + UploadSources(uploads, services)
  }

  /** A source whose text went through `clean_text`. */
  predicate Cleaned(s: Source)
  {
    s.text == "" || Cleaning.SingleSpaced(s.text)
  }

  /** `txt and txt.strip()` */
  predicate HasText(s: Source)
  {
    s.text != "" && Strip(s.text) != ""
  }

  /** `non_empty`: the sources with text, in order. */
  function NonEmpty(sources: seq<Source>): (r: seq<Source>)
    ensures forall j :: 0 <= j < |r| ==> HasText(r[j])
  {
    if sources == [] then []
    else (if HasText(sources[0]) then [sources[0]] else []) + NonEmpty(sources[1..])
  }

  /** `empty`: the labels of the sources without text, in order; with `non_empty` it accounts
      for every source. */
  function EmptyLabels(sources: seq<Source>): (labels: seq<string>)
    ensures |labels| + |NonEmpty(sources)| == |sources|
  {
    if sources == [] then []
    else (if HasText(sources[0]) then [] else [sources[0].title]) + EmptyLabels(sources[1..])
  }

  /** Every source lands on exactly one side: those with text in `non_empty`, the others'
      labels in `empty`, and no source is lost or counted twice. */
  lemma {:induction false} Partition(sources: seq<Source>)
    ensures |NonEmpty(sources)| + |EmptyLabels(sources)| == |sources|
    ensures forall i :: 0 <= i < |sources| && HasText(sources[i]) ==> sources[i] in NonEmpty(sources)
    ensures forall i :: 0 <= i < |sources| && !HasText(sources[i]) ==>
      sources[i].title in EmptyLabels(sources) && sources[i] !in NonEmpty(sources)
    ensures forall s :: s in NonEmpty(sources) ==> s in sources
  {
    if sources != [] {
      Partition(sources[1..]);
      forall i | 1 <= i < |sources| ensures sources[i] == sources[1..][i - 1] { }
    }
  }

  /** Both sides of the partition keep the order of the sources: filtering distributes over
      concatenation. */
  lemma {:induction false} NonEmptyAppend(a: seq<Source>, b: seq<Source>)
    ensures NonEmpty(a + b) == NonEmpty(a) + NonEmpty(b)
    decreases |a|
  {
    if a == [] {
      assert a + b == b;
    } else {
      var ab := a + b;
      assert ab[0] == a[0] && ab[1..] == a[1..] + b;
      NonEmptyAppend(a[1..], b);
      var head := if HasText(a[0]) then [a[0]] else [];
      assert head + (NonEmpty(a[1..]) + NonEmpty(b)) == (head + NonEmpty(a[1..])) + NonEmpty(b);
    }
  }

  lemma {:induction false} EmptyLabelsAppend(a: seq<Source>, b: seq<Source>)
    ensures EmptyLabels(a + b) == EmptyLabels(a) + EmptyLabels(b)
    decreases |a|
  {
    if a == [] {
      assert a + b == b;
    } else {
      var ab := a + b;
      assert ab[0] == a[0] && ab[1..] == a[1..] + b;
      EmptyLabelsAppend(a[1..], b);
      var head := if HasText(a[0]) then [] else [a[0].title];
      assert head + (EmptyLabels(a[1..]) + EmptyLabels(b)) == (head + EmptyLabels(a[1..])) + EmptyLabels(b);
    }
  }

  /** Sources built by the run have cleaned text, so for them `txt and txt.strip()` is just
      a test for the empty string. */
  lemma CleanedHasText(s: Source)
    requires Cleaned(s)
    ensures HasText(s) <==> s.text != ""
  {
    if s.text != "" {
      assert !IsWhitespace(s.text[0]);
    }
  }

  /** The summary of one source. */
  function SummarizeSource(s: Source, maxSentences: int, rank: (string, int) -> Option<seq<string>>): Summary
  {
    Summary(s.title, SummarizeLongText(s.text, maxSentences, rank))
  }

  /** The per-source summaries: the i-th is the long-text summary of the i-th source with
      text, under that source's label. */
  function PerSource(nonEmpty: seq<Source>, maxSentences: int, rank: (string, int) -> Option<seq<string>>): (r: seq<Summary>)
    ensures |r| == |nonEmpty|
    ensures forall i :: 0 <= i < |nonEmpty| ==> r[i] == SummarizeSource(nonEmpty[i], maxSentences, rank)
  {
    MapEach(s => SummarizeSource(s, maxSentences, rank), nonEmpty)
  }

  lemma PerSourceSnoc(nonEmpty: seq<Source>, k: nat, maxSentences: int, rank: (string, int) -> Option<seq<string>>)
    requires k < |nonEmpty|
    ensures PerSource(nonEmpty[..k + 1], maxSentences, rank) ==
      PerSource(nonEmpty[..k], maxSentences, rank) + [SummarizeSource(nonEmpty[k], maxSentences, rank)]
  {
    MapEachSnoc(s => SummarizeSource(s, maxSentences, rank), nonEmpty, k);
  }

  /** The summary texts of the per-source summaries, in order. */
  function SummaryTexts(perSource: seq<Summary>): seq<string>
  {
    seq(|perSource|, i requires 0 <= i < |perSource| => perSource[i].summary)
  }

  /** `"\n\n".join(s for _, s in per_summaries)`: it starts with the first summary, and the
      blank lines between summaries neither lose nor merge a word. */
  function Consolidated(perSource: seq<Summary>): (r: string)
    ensures perSource != [] ==> |perSource[0].summary| <= |r| && r[..|perSource[0].summary|] == perSource[0].summary
    ensures Words(r) == WordsOfEach(SummaryTexts(perSource))
  {
    assert AllWhitespace("\n\n");
    WordsOfJoin("\n\n", SummaryTexts(perSource));
    Join("\n\n", SummaryTexts(perSource))
  }

  /** The bullet cap `max(5, max_sentences)`. */
  function BulletCap(maxSentences: int): (n: int)
    ensures n >= MinBullets && n >= maxSentences
    ensures n == MinBullets || n == maxSentences
  {
    Max(MinBullets, maxSentences)
  }

  /** The crisp takeaways: the stripped, non-blank sentences of `overall`, at most
      `max(5, max_sentences)` of them, each non-empty and stripped. */
  function Bullets(overall: string, maxSentences: int): (b: seq<string>)
    ensures |b| <= BulletCap(maxSentences)
    ensures forall j :: 0 <= j < |b| ==> b[j] != [] && !IsWhitespace(b[j][0]) && !IsWhitespace(b[j][|b[j]| - 1])
  {
    var all := StrippedNonBlank(SplitSentences(overall));
    var b := Slice(all, BulletCap(maxSentences));
    assert forall j :: 0 <= j < |b| ==> b[j] == all[j];
    b
  }

  /** The bullets are the leading sentences of `overall`: their words are the first words of
      `overall`, and all of them when the cap is not reached. */
  lemma BulletsWords(overall: string, maxSentences: int)
    ensures var w := WordsOfEach(Bullets(overall, maxSentences));
      |w| <= |Words(overall)| && w == Words(overall)[..|w|]
    ensures |StrippedNonBlank(SplitSentences(overall))| <= BulletCap(maxSentences) ==>
      WordsOfEach(Bullets(overall, maxSentences)) == Words(overall)
  {
    var all := StrippedNonBlank(SplitSentences(overall));
    var b := Bullets(overall, maxSentences);
    assert b == all[..|b|];
    WordsOfStrippedNonBlank(SplitSentences(overall));
    SplitSentencesWords(overall);
    WordsOfEachPrefix(all, |b|);
    if |all| <= BulletCap(maxSentences) {
      assert |b| == |all|;
      assert all[..|all|] == all;
    }
  }

  /** What a run computes from its inputs. A report holds one summary per source with text,
      in source order and under that source's label, the labels of the other sources complete
      the count, and the bullets respect the cap. */
  function Digest(urlsInput: string, uploads: seq<Upload>, maxSentences: int, services: Services): (d: Outcome)
    ensures var sources := Sources(urlsInput, uploads, services);
      var nonEmpty := NonEmpty(sources);
      d.emptyLabels == EmptyLabels(sources) &&
      (d.report.Some? ==>
        && |d.report.value.perSource| == |nonEmpty|
        && |nonEmpty| + |d.emptyLabels| == |sources|
        && (forall i :: 0 <= i < |nonEmpty| ==>
             d.report.value.perSource[i] == SummarizeSource(nonEmpty[i], maxSentences, services.rank))
        && |d.report.value.bullets| <= BulletCap(maxSentences))
  {
    var sources := Sources(urlsInput, uploads, services);
    var nonEmpty := NonEmpty(sources);
    var empty := EmptyLabels(sources);
    Partition(sources);
    if nonEmpty == [] then Outcome(None, empty)
    else
      var perSource := PerSource(nonEmpty, maxSentences, services.rank);
      var overall := SummarizeLongText(Consolidated(perSource), maxSentences, services.rank);
      Outcome(Some(Report(perSource, overall, Bullets(overall, maxSentences))), empty)
  }

  /** A run reports exactly when some source has text. */
  lemma DigestReports(urlsInput: string, uploads: seq<Upload>, maxSentences: int, services: Services)
    ensures var sources := Sources(urlsInput, uploads, services);
      Digest(urlsInput, uploads, maxSentences, services).report.None? <==>
        forall i :: 0 <= i < |sources| ==> sources[i].text == ""
  {
    var sources := Sources(urlsInput, uploads, services);
    SourcesCleaned(urlsInput, uploads, services);
    NoTextNoneKept(sources);
  }

  /** Every source of a run has cleaned text. */
  lemma SourcesCleaned(urlsInput: string, uploads: seq<Upload>, services: Services)
    ensures var sources := Sources(urlsInput, uploads, services);
      forall i :: 0 <= i < |sources| ==> (HasText(sources[i]) <==> sources[i].text != "")
  {
    var links := LinkSources(Urls(urlsInput), services);
    var files := UploadSources(uploads, services);
    LinksCleaned(Urls(urlsInput), services);
    UploadsCleaned(uploads, services);
    AppendCleaned(links, files);
  }

  /** Every link source has cleaned text. */
  lemma LinksCleaned(urls: seq<string>, services: Services)
    ensures forall i :: 0 <= i < |urls| ==> Cleaned(LinkSources(urls, services)[i])
  {
    forall i | 0 <= i < |urls| ensures Cleaned(LinkSources(urls, services)[i]) {
      assert LinkSources(urls, services)[i] == LinkSource(urls[i], services);
    }
  }

  /** Every upload source has cleaned text. */
  lemma UploadsCleaned(uploads: seq<Upload>, services: Services)
    ensures forall i :: 0 <= i < |uploads| ==> Cleaned(UploadSources(uploads, services)[i])
  {
    forall i | 0 <= i < |uploads| ensures Cleaned(UploadSources(uploads, services)[i]) {
      assert UploadSources(uploads, services)[i] == UploadSource(uploads[i], services);
    }
  }

  /** For cleaned sources `txt and txt.strip()` is a test for the empty string. */
  lemma AppendCleaned(a: seq<Source>, b: seq<Source>)
    requires forall i :: 0 <= i < |a| ==> Cleaned(a[i])
    requires forall i :: 0 <= i < |b| ==> Cleaned(b[i])
    ensures forall i :: 0 <= i < |a + b| ==> (HasText((a + b)[i]) <==> (a + b)[i].text != "")
  {
    forall i | 0 <= i < |a + b| ensures HasText((a + b)[i]) <==> (a + b)[i].text != "" {
      CleanedHasText(if i < |a| then a[i] else b[i - |a|]);
    }
  }

  lemma NoTextNoneKept(sources: seq<Source>)
    requires forall i :: 0 <= i < |sources| ==> (HasText(sources[i]) <==> sources[i].text != "")
    ensures NonEmpty(sources) == [] <==> forall i :: 0 <= i < |sources| ==> sources[i].text == ""
  {
    Partition(sources);
    if NonEmpty(sources) != [] {
      var s := NonEmpty(sources)[0];
      assert s in NonEmpty(sources);
      assert s in sources;
    }
  }

  /** The sources of the links: nothing unless the link field is non-blank. */
  method CollectLinks(urlsInput: string, services: Services) returns (sources: seq<Source>)
    ensures sources == LinkSources(Urls(urlsInput), services)
  {
    sources := [];
    var urls := Urls(urlsInput);
    if Strip(urlsInput) != "" {
      for k := 0 to |urls|
        invariant sources == LinkSources(urls[..k], services)
      {
        LinkSourcesSnoc(urls, k, services);
        sources := sources + [LinkSource(urls[k], services)];
      }
      assert urls[..|urls|] == urls;
    } else {
      UrlsOfBlank(urlsInput);
    }
  }

  /** The sources of the uploads, in upload order. */
  method CollectUploads(uploads: seq<Upload>, services: Services) returns (sources: seq<Source>)
    ensures sources == UploadSources(uploads, services)
  {
    sources := [];
    for k := 0 to |uploads|
      invariant sources == UploadSources(uploads[..k], services)
    {
      UploadSourcesSnoc(uploads, k, services);
      var source := UploadSource(uploads[k], services);
      sources := sources + [source];
    }
    assert uploads[..|uploads|] == uploads;
  }

  /** The first half of the run: the sources of the links, then those of the uploads, in one
      list. */
  method CollectSources(urlsInput: string, uploads: seq<Upload>, services: Services)
    returns (sources: seq<Source>)
    ensures sources == Sources(urlsInput, uploads, services)
  {
    var links := CollectLinks(urlsInput, services);
    var files := CollectUploads(uploads, services);
    sources := links + files;
  }

  /** The per-source summaries, one after the other. */
  method SummarizeSources(nonEmpty: seq<Source>, maxSentences: int, rank: (string, int) -> Option<seq<string>>)
    returns (perSummaries: seq<Summary>)
    ensures perSummaries == PerSource(nonEmpty, maxSentences, rank)
  {
    perSummaries := [];
    for k := 0 to |nonEmpty|
      invariant perSummaries == PerSource(nonEmpty[..k], maxSentences, rank)
    {
      PerSourceSnoc(nonEmpty, k, maxSentences, rank);
      var summary := SummarizeLongText(nonEmpty[k].text, maxSentences, rank);
      perSummaries := perSummaries + [Summary(nonEmpty[k].title, summary)];
    }
    assert nonEmpty[..|nonEmpty|] == nonEmpty;
  }

  /** The "Generate Summary" run. */
  method Run(urlsInput: string, uploads: seq<Upload>, maxSentences: int, services: Services)
    returns (outcome: Outcome)
    ensures outcome == Digest(urlsInput, uploads, maxSentences, services)
  {
    var sources := CollectSources(urlsInput, uploads, services);
    var nonEmpty := NonEmpty(sources);
    var empty := EmptyLabels(sources);
    if nonEmpty == [] {
      outcome := Outcome(None, empty);
    } else {
      var perSummaries := SummarizeSources(nonEmpty, maxSentences, services.rank);
      var combined := Consolidated(perSummaries);
      var overall := SummarizeLongText(combined, maxSentences, services.rank);
      var bullets := Bullets(overall, maxSentences);
      outcome := Outcome(Some(Report(perSummaries, overall, bullets)), empty);
    }
  }
}
