# Extractive summarizer: a Dafny model

This project models the text pipeline of a small Streamlit summarizer. The pipeline lives in
`helpers.py` and `app.py`. It takes links and uploaded files, fetches their text, and cleans it.
It then cuts long texts into chunks of whole sentences and summarizes each chunk with LexRank.
The chunk summaries are summarized again, and the overall summary is cut into bullet points.
The model covers everything in that pipeline that is string and sequence logic:

- `strings.dfy` (`Strings`): the parts of Python's `str` the code relies on:
  - `isspace()`
  - `strip()`
  - `split()` without arguments, and `split(",")`
  - `sep.join(...)`
- `sentences.dfy` (`Sentences`): the splitter `re.split(r'(?<=[.!?])\s+', text)`, used at
  `helpers.py:83`, `helpers.py:115`, `app.py:78`, `app.py:99` and `app.py:196`.
- `chunking.dfy` (`Chunking`): `chunk_text`, the greedy packing of sentences into chunks.
  The code is the same in both files.
- `cleaning.dfy` (`Cleaning`): `clean_text`, which collapses whitespace runs and strips.
- `youtube.dfy` (`YouTube`): `extract_youtube_id`, the leftmost match of the video-link pattern.
- `helpers.dfy` (`Helpers`): the word-budget `summarize_lexrank(text, max_words)` and the two-pass
  `summarize_long_text(text, target_words)` of `helpers.py`.
- `app.dfy` (`App`): three parts of `app.py`:
  - the sentence-count `summarize_lexrank(text, sentences)`
  - its `summarize_long_text(text, target_sentences)`
  - the data steps of the "Generate Summary" run: links, uploads, the partition into sources
    with and without text, per-source summaries, the consolidated summary and the bullets.
- `wrappers.dfy` (`Wrappers`): `Option`.

The loops of the source are methods with loop invariants:

| Method | Source loop |
|---|---|
| `Chunking.ChunkText` and `Chunking.PackSentences` | the buffer loop of `chunk_text` |
| `Helpers.SelectWithinBudget` | the budget loop of `summarize_lexrank` |
| `App.CollectLinks`, `App.CollectUploads`, `App.SummarizeSources` | the loops of the run |

Each method is proved equal to a function, and the properties are proved about that function.

Calls into code that cannot be seen become parameters:

- **LexRank ranking.** It is a function that returns `Some(sentences)`, or `None` when sumy
  raises. Every property about the summarizers therefore holds for any ranking.
- **Fetchers, PDF reader and UTF-8 decoder.** These are the fields of `App.Services`.

Behaviour of the code worth noting:

- **Short texts.** `chunk_text` returns `[text]` for every text of at most `max_chars`
  characters, so `""` gives `[""]` and not `[]`. The splitter also returns `[""]` for `""`, and
  it can return empty pieces.
- **Bullet cap.** The run caps the bullets at `max(5, max_sentences)`, not at a fixed 5.
- **Sentence counts.** `app.py` summarizes by sentence count, not by word budget. Its per-chunk
  count is clamped to 3..7.
- **Empty sources.** The run records only the labels of sources without text, not a failure
  reason.
- **Whitespace-only fallback.** On the fallback path, `summarize_lexrank` in `helpers.py`
  returns a whitespace-only text unchanged rather than `""` (`Helpers.FallbackOfBlank`).

## Model

| member | source | states |
|---|---|---|
| Strings.Strip | helpers.py:87-88 | `strip()` removes exactly the leading and trailing whitespace: the result is the middle slice between two all-whitespace ends, its end characters are not whitespace, and it is empty iff the text is all whitespace |
| Strings.StripOfStripped | app.py:197 | stripping a string whose end characters are not whitespace leaves it unchanged |
| Strings.StripPadded | app.py:141 | whitespace put in front of a stripped string is removed again by `strip()` |
| Strings.Words | helpers.py:106 | `split()`: a text that starts with a non-whitespace character has at least one word; its other promises are the lemmas `WordsAreRuns`, `WordsAppend` and `WordsOfStrip` |
| Strings.WordsAreRuns | helpers.py:106 | every word of `split()` is a non-empty run of non-whitespace characters |
| Strings.WordsAppend | helpers.py:106 | at a whitespace boundary, the words of a concatenation are the words of its parts, in order |
| Strings.WordsOfStrip | helpers.py:87-88 | `strip()` keeps every word of the text |
| Strings.Join | helpers.py:112 | `sep.join(parts)` starts with the first part; its words and its round trip with `split` are the lemmas `WordsOfJoin`, `JoinSplitOn` and `SplitOnJoin` |
| Strings.WordsOfJoin | helpers.py:112 | joining pieces with a whitespace separator and splitting into words gives the words of the pieces, in order |
| Strings.SplitOn | app.py:141 | `s.split(",")` returns at least one piece and no piece holds the separator; its round trip with `join` is the lemmas `JoinSplitOn` and `SplitOnJoin` |
| Strings.JoinSplitOn | app.py:141 | `",".join(s.split(","))` is `s` |
| Strings.SplitOnJoin | app.py:141 | splitting the comma-join of comma-free pieces gives back the pieces |
| Sentences.FindBreak | helpers.py:83 | the leftmost split point at or after a position: whitespace right after `.`, `!` or `?`, with none before it |
| Sentences.RunEnd | helpers.py:83 | the greedy `\s+` ends at the first non-whitespace character |
| Sentences.SplitSentences | helpers.py:83 | the splitter returns at least one piece, and the first piece is a prefix of the text |
| Sentences.SplitSentencesShape | helpers.py:83 | every piece but the last ends in a terminator, no piece holds a split point, later pieces do not start with whitespace, and the pieces hold exactly the words of the text |
| Sentences.SplitJoined | helpers.py:83 | splitting the space-join of such pieces gives back the same pieces |
| Sentences.SplitPrefixJoined | app.py:99 | space-joining the first n sentences and splitting again gives exactly those n sentences |
| Chunking.Append | helpers.py:91 | appending a sentence grows the buffer by at most the sentence and one space |
| Chunking.ChunkText | helpers.py:78-94 | `chunk_text` returns `[text]` when the text fits. Otherwise every chunk is non-empty and stripped. The chunks hold exactly the words of the text, in order |
| Chunking.PackSentences | helpers.py:84-93 | the buffer loop flushes exactly the stripped non-blank buffers of the greedy packing, in order |
| Chunking.PackIsGreedy | helpers.py:85-91 | the groups are consecutive runs of the sentences in order; within a group every sentence fitted when added; every new group starts because the next sentence would have overflowed |
| Chunking.MultiSentenceGroupFits | helpers.py:86-91 | a chunk of two or more sentences has at most `max_chars` characters |
| Chunking.OversizedChunks | helpers.py:86-93 | a chunk longer than `max_chars` is a single stripped sentence of the split |
| Chunking.ChunksShape | helpers.py:78-94 | the promises of the chunk function `Chunking.Chunks`: stripped non-empty chunks on the long path, oversized chunks are single sentences of the split, and no word is lost or reordered |
| Chunking.RenderShape | helpers.py:87-93 | each flushed chunk is the stripped buffer of one group, never empty, and flushing keeps all words |
| Chunking.WordsOfBuffer | helpers.py:91 | the buffer built with single spaces holds exactly the words of its sentences |
| Cleaning.Collapse | helpers.py:139 | `re.sub(r'\s+', ' ', t)`: every whitespace character left is a single space not followed by whitespace; the result is empty iff the input is, and starts with whitespace iff the input does |
| Cleaning.CleanText | helpers.py:138-140 | `clean_text` gives a single-spaced string (no whitespace at its ends, single spaces between words) with the same words as its input |
| Cleaning.CleanTextIsJoinedWords | helpers.py:138-140 | `clean_text(t) == " ".join(t.split())` |
| Cleaning.CleanTextIdempotent | app.py:111-113 | cleaning twice is cleaning once |
| Cleaning.CleanTextBlank | app.py:111-113 | a cleaned text needs no further stripping, and it is empty iff the input was all whitespace |
| YouTube.IdRunEnd | helpers.py:13 | the greedy group `[A-Za-z0-9_\-]+` ends at the first character outside the class |
| YouTube.PrefixesExclusive | helpers.py:13 | the two alternatives of the pattern never start at the same position |
| YouTube.MatchAtSpec | helpers.py:13 | the attempt at a position succeeds exactly with the match there, and with its group |
| YouTube.MatchDeterminesId | helpers.py:13 | a position has at most one match, so its group is unique |
| YouTube.Search | helpers.py:16 | `search` from a position finds the leftmost match at or after it, or reports that there is none |
| YouTube.ExtractYoutubeId | helpers.py:15-17 | the id is the group of the leftmost match: a maximal run of at least 6 id characters right after a prefix, and `None` iff there is no match anywhere |
| Helpers.WithinBudget | helpers.py:103-110 | the selected sentences are a prefix of the candidates, in order |
| Helpers.WithinBudgetSpec | helpers.py:103-110 | the selection is a prefix of the candidates that fits the budget (or is empty), followed by nothing or by the first candidate that would overflow |
| Helpers.WithinBudgetAll | helpers.py:118-123 | when all candidates fit, all are selected in order |
| Helpers.SelectWithinBudget | helpers.py:103-110 | the selection loop with its `break` selects exactly the longest prefix within the budget |
| Helpers.Summarize | helpers.py:96-125 | `summarize_lexrank` has at most `max_words` words; it is `""` for a negative budget and when the first candidate alone overflows |
| Helpers.SummarizeLexRank | helpers.py:96-125 | the method form returns the budgeted join of the ranking, or of the split when ranking fails, and it has at most `max_words` words |
| Helpers.SummarizeIsPrefix | helpers.py:105-123 | the summary is the space-join of a prefix of the candidates that ends just before the first one that would overflow |
| Helpers.FallbackIsLead | helpers.py:113-125 | on the fallback path the summary's words are the first words of the text |
| Helpers.FallbackKeepsShortText | helpers.py:113-125 | on the fallback path a text within the budget keeps all its words |
| Helpers.FallbackOfBlank | helpers.py:113-125 | on the fallback path a whitespace-only text is returned unchanged |
| Helpers.ChunkSummaries | helpers.py:132 | one summary per chunk, in chunk order, each the 100-word summary of its chunk and so at most 100 words long |
| Helpers.SummarizeLongText | helpers.py:127-136 | `summarize_long_text` returns at most `target_words` words |
| Helpers.CombinedWithinBudget | helpers.py:130-133 | the newline-joined chunk summaries have at most 100 words per chunk |
| App.Slice | app.py:99 | Python's `xs[:n]` is a prefix of length `min(n, len)`, or of length `max(0, len + n)` when `n` is negative |
| App.SummarizeCount | app.py:91-100 | when the ranking fails, the summary re-splits into exactly the first `sentences` sentences of the text, so it has at most that many, and its words are the first words of the text |
| App.LeadWords | app.py:99 | the first n sentences joined by spaces hold the first words of the text |
| App.PerChunk | app.py:105 | the per-chunk count `max(3, min(7, target))` lies in 3..7 and equals the target when the target is in that range |
| App.ChunkSummaries | app.py:106 | one summary per chunk, in chunk order, each at the clamped count; a chunk whose ranking fails gets at most the clamped count of sentences |
| App.SummarizeLongText | app.py:102-109 | when the final ranking fails, `summarize_long_text` has at most `target_sentences` sentences |
| App.StrippedNonBlank | app.py:197 | each kept piece is non-empty and stripped, and there are at most as many as pieces |
| App.WordsOfStrippedNonBlank | app.py:197 | stripping and dropping blank pieces loses no word |
| App.StrippedNonBlankKeeps | app.py:141 | pieces already stripped and non-blank pass through unchanged |
| App.StrippedNonBlankWithout | app.py:141 | stripping and dropping blank pieces brings in no comma |
| App.Urls | app.py:140-141 | every link is non-empty, has no whitespace at its ends and holds no comma |
| App.UrlsRoundTrip | app.py:141 | stripped, non-blank, comma-free links survive being written separated by `","` and by `", "`, the form of the placeholder at `app.py:124` |
| App.UrlsPadded | app.py:141 | after leading whitespace, links joined by `", "` split and strip back into the same links |
| App.UrlsOfBlank | app.py:140-141 | a blank link field yields no links, so the `urls_input.strip()` guard changes nothing |
| App.LinkSource | app.py:142-153 | a link's text is the cleaned fetched text (transcript for a video link, page text otherwise), empty or single-spaced |
| App.LinkSourceTitle | app.py:143-149 | a link is labelled `YouTube: u` iff the video pattern matches in `u`, and `Web: u` iff it matches nowhere |
| App.AsciiLower | app.py:158 | `lower()` leaves no capital `A`..`Z`; a character of the result is a lower-case letter iff the input character is a letter, and then it is the same letter; every other character is kept |
| App.AsciiLowerIdempotent | app.py:158 | lower-casing twice is lower-casing once |
| App.PdfSuffix | app.py:158 | the lower-cased name ends with `.pdf` iff the name ends with a dot and `p`, `d`, `f` in either case |
| App.UploadSource | app.py:156-167 | an upload is labelled `PDF: name` iff its type is `application/pdf` or its name has a PDF extension, and its text is then the cleaned PDF text; otherwise it is labelled `TXT: name` and its text is the cleaned decoded bytes |
| App.LinkSources | app.py:142-153 | one source per link, the i-th being the source of the i-th link |
| App.UploadSources | app.py:156-167 | one source per upload, the i-th being the source of the i-th upload |
| App.NonEmpty | app.py:170 | every kept source has non-blank text |
| App.EmptyLabels | app.py:171 | the empty labels and the kept sources together count every source once |
| App.Partition | app.py:170-171 | every source lands on exactly one side: sources with text in `non_empty`, the labels of the others in `empty`; the sizes add up |
| App.NonEmptyAppend | app.py:170 | the filter keeps the order of the sources |
| App.EmptyLabelsAppend | app.py:171 | the list of empty labels keeps the order of the sources |
| App.CleanedHasText | app.py:170-171 | for cleaned text, `txt and txt.strip()` holds iff the text is not empty |
| App.SourcesCleaned | app.py:138-167 | for every source of a run, having text means a non-empty text |
| App.NoTextNoneKept | app.py:170-174 | `non_empty` is empty iff every source's text is empty |
| App.PerSource | app.py:178-181 | one summary per source with text, the i-th being the long-text summary of the i-th such source under its label |
| App.Consolidated | app.py:188 | the blank-line join starts with the first summary and holds exactly the words of the summaries, in order |
| App.BulletCap | app.py:198 | the cap `max(5, max_sentences)` is at least 5 and at least `max_sentences`, and is one of them |
| App.Bullets | app.py:196-198 | there are at most `max(5, max_sentences)` bullets, each non-empty and stripped |
| App.BulletsWords | app.py:196-198 | the bullets hold the first words of the overall summary, and all of them when the cap is not reached |
| App.Digest | app.py:136-198 | the run's empty labels are those of the sources without text; a report has one summary per source with text, in order and under its label, the empty labels complete the count, and the bullets respect the cap |
| App.DigestReports | app.py:170-174 | a run reports iff some source has text |
| App.CollectLinks | app.py:139-153 | the link loop builds one source per link, in order, and nothing for a blank field |
| App.CollectUploads | app.py:155-167 | the upload loop builds one source per upload, in order |
| App.CollectSources | app.py:138-167 | the sources are the link sources followed by the upload sources |
| App.SummarizeSources | app.py:176-181 | the per-source loop summarizes every source with text, in order |
| App.Run | app.py:136-198 | the run computes exactly the outcome of the pipeline for its inputs |

## Left out

- Fetching is not modelled: `fetch_web_text`, `fetch_youtube_transcript` and `read_pdf`
  (trafilatura, the transcript API and PyMuPDF). They are network and file I/O. They appear as
  the parameters `fetchWebText`, `fetchTranscript` and `readPdf` of `App.Services`, in the form
  `app.py` uses, where each returns `""` when it finds nothing. The `(text, error)` pairs of the
  `helpers.py` versions are not modelled.
- sumy's LexRank internals are not modelled. These are its tokenizer, cosine similarity and power
  iteration, all floating point inside a foreign library. The ranking is a parameter: any
  function of the text that returns sentences or reports failure.
- Helpers.SummarizeLexRank: the ranked path is trusted to return the sentences as sumy gives them.
  sumy's own sentence tokenizer is part of the ranking, and it is not the regular-expression
  split.
- App.SummarizeLongText: the ranked path of `app.py`'s `summarize_lexrank` joins whatever the
  ranking returns. Nothing is claimed about how many sentences sumy returns.
- `data.decode("utf-8", errors="ignore")` is the parameter `decodeUtf8`. Its `try`/`except` never
  fires on bytes, so the `""` branch at `app.py:164-165` is not modelled.
- An exception raised by `read_pdf` on a broken file is not modelled. It ends the run in the
  source, and the parameter always returns a string.
- App.AsciiLower: `str.lower()` is modelled on ASCII letters only. The test it feeds compares the
  result with `.pdf`. A non-ASCII character that lowers to `p`, `d` or `f` would be missed, but
  under Python's full lower-case mappings no character other than `P`, `D` and `F` lowers to
  one of them. The one mapping that yields two characters, U+0130 to `i` and a combining dot,
  cannot complete a `.pdf` suffix either.
- All Streamlit calls are left out: widgets, `st.write`, expanders and the spinner. They only
  display values the model computes; `App.Outcome` is what the run shows.
- The `@st.cache_data` memoization is left out. It does not change results.
- `chunk_text`, `clean_text` and `extract_youtube_id` appear in both files with the same text.
  Each is modelled once, and the rows above cite the `helpers.py` lines.
- Both files' `summarize_long_text` chunk through `Chunking.Chunks`. The method form of
  `chunk_text` is `Chunking.ChunkText`.
