# Auto Tweet Thread Writer: a verified model of the thread writer

The Auto Tweet Thread Writer turns a web page into a numbered Twitter thread. This project
models its thread writer (`auto_tweet_thread_writer/writer.py`) in Dafny and proves what the
code does:

- **`_summarize_text`**: the naive summariser, which is the first `target_words`
  whitespace-separated words joined by single spaces, or `""` for a text with no words. The
  language-model branch is a parameter.
- **`_chunk_text`**: the thread assembler.
  - It strips the summary and cuts it at every `". "`.
  - It packs the stripped, non-empty fragments greedily into parts. A tentative part of
    length `L` is accepted while `L + 15 <= 260`.
  - It splits the longest part at half its length until there are enough parts.
  - It merges the adjacent pair with the smallest combined length until there are few
    enough.
  - It returns `parts[:n_parts]`.
- **`generate_thread`**:
  - rejects `max_tweets` outside 3..20 before anything is fetched;
  - picks the title (`title or page_title or url`) and the text to summarise
    (`content if content else description`);
  - numbers each part as a tweet: `"<emoji> <i>/<max> "`, with the hook
    `"<title> – here’s what you’ll learn:"` and a line break in the first tweet.

The files:

- `text.dfy` (module `PyStr`) models the Python string operations the code relies on: `strip`,
  `split(sep)`, `split()`, `join`, slicing `xs[:n]` (negative `n` included), `[x] * n` and
  `str(i)`. Whitespace is exactly the set of code points `str.isspace()` accepts.
- `chunker.dfy` (module `Chunker`) models `_chunk_text`.
  - `ChunkText` is the imperative version. Its three loops are the methods `PackSentences`
    (a `for` loop), `SplitLongest` and `MergeClosest` (`while` loops). Each loop is proved
    equal to a function, and `ChunkText` is proved equal to the function `Chunk`.
  - `Chunk` is built from the packing (`Greedy`), splitting (`SplitAll`) and merging
    (`MergeAll`) functions. The lemmas are proved about these functions.
- `summarizer.dfy` (module `Summarizer`) models `_summarize_text`.
- `thread.dfy` (module `ThreadWriter`) models `generate_thread`.
  - `FormatTweets` is the formatting loop.
  - `GenerateThread` is the whole operation, returning a `Result`.
- `wrappers.dfy` (module `Wrappers`) holds `Option` and `Result`.

Two consequences of the code:

- Packing joins short sentences, so `"A. B. C."` with three tweets is packed into the single
  part `"A. B. C."`. The split loop then cuts that part by length, not at the sentences.
- When the first stripped, non-empty sentence (the first fragment) is longer than 245
  characters on its own, packing puts the empty string before it as the first part. When
  packing makes no more parts than `max_tweets`, that empty part is still the first one
  returned (`Chunker.ChunkEmptyHead`), and the first tweet then carries only its header and
  the hook. With more parts than `max_tweets`, the merge loop may join the empty part to the
  next one.

## Model

| member | source | states |
|---|---|---|
| PyStr.StripIsStrippedFrom | auto_tweet_thread_writer/writer.py:58 | `s.strip()` is `s` with exactly its leading and trailing whitespace removed |
| PyStr.StripEmpty | auto_tweet_thread_writer/writer.py:58-59 | `s.strip()` is empty exactly when `s` is blank, derived from the description above |
| PyStr.NonWhitespaceStrip | auto_tweet_thread_writer/writer.py:90 | `s.strip()` keeps every non-whitespace character of `s`, in order |
| PyStr.StrippedFromUnique | auto_tweet_thread_writer/writer.py:58 | at most one string is `s` with its surrounding whitespace removed, so the declarative description fixes the result |
| PyStr.StripTrimmed | auto_tweet_thread_writer/writer.py:144 | stripping a string with no whitespace at its ends changes nothing (idempotence of `strip`) |
| PyStr.StripKeepsLast | auto_tweet_thread_writer/writer.py:90 | a string ending in a non-whitespace character keeps that last character when stripped, so the result is not empty |
| PyStr.SplitOn | auto_tweet_thread_writer/writer.py:62 | `s.split(sep)` has at least one piece; joining the pieces with `sep` gives `s` back |
| PyStr.SplitOnPieces | auto_tweet_thread_writer/writer.py:62 | no piece of `s.split(sep)` contains `sep` |
| PyStr.SplitOnLast | auto_tweet_thread_writer/writer.py:62 | the last piece is a suffix of `s`, and it is empty only when `s` is empty or ends with `sep` |
| PyStr.JoinSnoc | auto_tweet_thread_writer/writer.py:71 | joining one more part appends the separator and the part |
| PyStr.Words | auto_tweet_thread_writer/writer.py:26-28 | `text.split()` yields only non-empty words without whitespace, and yields none exactly when the text is blank |
| PyStr.WordsOfInterleave | auto_tweet_thread_writer/writer.py:26-28 | words set between whitespace gaps (any whitespace at the ends, a non-empty run between two words) are exactly what `text.split()` returns, whatever the whitespace |
| PyStr.WordsCoverText | auto_tweet_thread_writer/writer.py:26-28 | every text is its `split()` words set between whitespace gaps, so with the lemma above `split()` is determined on every input |
| PyStr.WordsOfJoin | auto_tweet_thread_writer/writer.py:48 | splitting `" ".join(words)` gives back `words` (round trip) |
| PyStr.JoinWordsSingleSpaced | auto_tweet_thread_writer/writer.py:48 | words joined by `" "` have single spaces between them and no whitespace at either end |
| PyStr.SliceTo | auto_tweet_thread_writer/writer.py:99 | `xs[:n]` is a prefix of `xs`, of length `min(n, len(xs))` for `n >= 0` and `max(len(xs) + n, 0)` for negative `n` |
| PyStr.Repeat | auto_tweet_thread_writer/writer.py:60 | `[x] * n` has `max(n, 0)` elements, all equal to `x` |
| PyStr.NatToString | auto_tweet_thread_writer/writer.py:140 | `str(i)` is a non-empty run of decimal digits with no leading zero |
| PyStr.DecimalRoundTrip | auto_tweet_thread_writer/writer.py:140 | reading back the digits of `str(n)` gives `n` |
| Chunker.Fragments | auto_tweet_thread_writer/writer.py:66-69 | the fragments packing consumes are the stripped sentences that are not empty |
| Chunker.GreedyHasBounds | auto_tweet_thread_writer/writer.py:64-81 | greedy packing cuts the fragments into runs of consecutive fragments, one run per part, each part being its run joined with ". "; only the first run can be empty; a run of two or more fragments is at most 245 long; and a part is closed only when adding the next fragment would make it longer than 245 |
| Chunker.GreedyUnique | auto_tweet_thread_writer/writer.py:64-81 | those rules together with the rule for the empty first part leave no choice: any list of parts that follows them is the result of greedy packing |
| Chunker.GreedyShape | auto_tweet_thread_writer/writer.py:64-81 | greedy packing: every part is stripped; only the first part can be empty, and it is empty exactly when the first fragment is longer than 245; a part longer than 245 is a single fragment; joining the non-spurious parts with ". " gives exactly the fragments joined with ". " |
| Chunker.FragmentsHaveNoDelimiter | auto_tweet_thread_writer/writer.py:62-67 | no fragment of the summary contains ". " |
| Chunker.PackedNonEmpty | auto_tweet_thread_writer/writer.py:58-81 | a summary that is not blank has at least one fragment and packs into at least one part, so `max` in line 86 is never taken over no parts |
| Chunker.PackedLongPartsAreFragments | auto_tweet_thread_writer/writer.py:66-81 | a packed part longer than 245 characters is a single fragment and contains no ". " |
| Chunker.LongestIndex | auto_tweet_thread_writer/writer.py:86 | the index is that of a longest part, and the first such index |
| Chunker.SplitAt | auto_tweet_thread_writer/writer.py:87-90 | a split adds exactly one part |
| Chunker.SplitAtShape | auto_tweet_thread_writer/writer.py:87-90 | a split leaves the other parts in order; the two halves replace the part in place, each is the half of the part stripped at its ends only, each is at most half (rounded up) as long, and the second is not empty when a stripped, non-empty part is cut |
| Chunker.PopInsertInsert | auto_tweet_thread_writer/writer.py:87-90 | `pop(idx)` followed by the two `insert`s is the in-place replacement that `SplitAt` describes |
| Chunker.SplitAll | auto_tweet_thread_writer/writer.py:84-90 | the split loop ends with `max(len(parts), n)` parts |
| Chunker.SplitAllShape | auto_tweet_thread_writer/writer.py:84-90 | splitting keeps every part stripped and never makes a part longer than the longest it started with |
| Chunker.SplitAtKeepsText | auto_tweet_thread_writer/writer.py:87-90 | a split loses no text: the non-whitespace characters of all parts, in order, are unchanged |
| Chunker.SplitAllKeepsText | auto_tweet_thread_writer/writer.py:84-90 | the split loop loses no text |
| Chunker.SplitAllKeepsEmptyHead | auto_tweet_thread_writer/writer.py:84-90 | an empty first part, next to some non-empty part, is never the longest, so it survives every split |
| Chunker.MergeIndex | auto_tweet_thread_writer/writer.py:96 | the index is that of an adjacent pair of smallest combined length, and the first such index |
| Chunker.MergeAt | auto_tweet_thread_writer/writer.py:97-98 | a merge removes exactly one part |
| Chunker.MergeAtShape | auto_tweet_thread_writer/writer.py:97-98 | a merge leaves the other parts in order; the pair becomes `(a + ' ' + b).strip()`, which is at most `len(a) + len(b) + 1` long, and which for stripped parts is `a + ' ' + b` with an empty side dropped |
| Chunker.MergeOfTrimmed | auto_tweet_thread_writer/writer.py:97 | for stripped `a` and `b`, `(a + ' ' + b).strip()` is `a`, `b` or `a + ' ' + b` |
| Chunker.MergeAll | auto_tweet_thread_writer/writer.py:92-98 | the merge loop ends with `n` parts, or with one part when `n < 1`, or unchanged when there were no more than `n` |
| Chunker.MergeAllTrimmed | auto_tweet_thread_writer/writer.py:92-98 | merging keeps every part stripped |
| Chunker.MergeAtKeepsText | auto_tweet_thread_writer/writer.py:96-98 | a merge loses no text: the non-whitespace characters of all parts, in order, are unchanged |
| Chunker.MergeAllKeepsText | auto_tweet_thread_writer/writer.py:92-98 | the merge loop loses no text |
| Chunker.Chunk | auto_tweet_thread_writer/writer.py:51-99 | the result has exactly `n_parts` parts (none for `n_parts <= 0`); a blank summary gives `n_parts` empty strings; when packing makes exactly `n_parts` parts they are returned unchanged |
| Chunker.ChunkTrimmed | auto_tweet_thread_writer/writer.py:51-99 | every returned part is stripped |
| Chunker.ChunkSplitBounded | auto_tweet_thread_writer/writer.py:84-90 | when packing makes no more than `n_parts` parts, no returned part is longer than the longest packed part |
| Chunker.ChunkEmptyHead | auto_tweet_thread_writer/writer.py:75-76 | when the first fragment alone exceeds 245 characters and packing makes no more than `n_parts` parts, the first returned part is the empty string |
| Chunker.ChunkKeepsText | auto_tweet_thread_writer/writer.py:83-99 | for `n_parts >= 1` the returned parts hold exactly the non-whitespace characters of the packed parts, in order; for a blank summary they hold none |
| Chunker.PackSentences | auto_tweet_thread_writer/writer.py:64-81 | the packing loop computes greedy packing of the sentences |
| Chunker.SplitLongest | auto_tweet_thread_writer/writer.py:84-90 | the split loop computes `SplitAll` |
| Chunker.MergeClosest | auto_tweet_thread_writer/writer.py:92-98 | the merge loop computes `MergeAll` |
| Chunker.ChunkText | auto_tweet_thread_writer/writer.py:51-99 | the three loops and the final slice compute `Chunk(summary, n_parts)`, so the result has exactly `n_parts` parts |
| Summarizer.FallbackSpec | auto_tweet_thread_writer/writer.py:47-48 | the fallback's words are exactly the first `target_words` words of the text, single-spaced; there are `min(target_words, #words)` of them; it is empty exactly when that prefix is |
| Summarizer.SummarizeSpec | auto_tweet_thread_writer/writer.py:19-48 | a blank text gives `""`; with a key and a reply the result is the reply stripped; otherwise it is the fallback |
| ThreadWriter.FormatTweets | auto_tweet_thread_writer/writer.py:137-150 | the formatting loop yields one tweet per part, in order, tweet `k` built from part `k` with serial number `k + 1` |
| ThreadWriter.SerialOfTweet | auto_tweet_thread_writer/writer.py:140 | the serial number can be read back from every tweet: the digits after the marker and the space denote `i` |
| ThreadWriter.EmojiCycle | auto_tweet_thread_writer/writer.py:139 | markers repeat every ten tweets |
| ThreadWriter.EmojiDistinct | auto_tweet_thread_writer/writer.py:135-139 | no marker repeats within ten consecutive tweets |
| ThreadWriter.ChooseTitle | auto_tweet_thread_writer/writer.py:131 | the chosen title is the first non-empty one of `title`, `page_title`, `url`, and is empty only when all three are |
| ThreadWriter.BaseText | auto_tweet_thread_writer/writer.py:132 | the text summarised is the content when it is non-empty and the description otherwise, so the content always wins; it is empty only when both are |
| ThreadWriter.TweetsShape | auto_tweet_thread_writer/writer.py:138-149 | formatting stripped parts: tweet `k` carries serial number `k + 1`; after its header comes the part unchanged, preceded in the first tweet by the stripped title, the hook and a line break |
| ThreadWriter.ThreadShape | auto_tweet_thread_writer/writer.py:128-150 | a valid request gives exactly `max_tweets` tweets, numbered 1 to `max_tweets` in order; tweet `k` is its header followed by part `k` of the chunked summary, and the first tweet has the title and hook before its part |
| ThreadWriter.GenerateThread | auto_tweet_thread_writer/writer.py:128-150 | the request fails with `InvalidMaxTweets` exactly when `max_tweets` is outside 3..20, whatever the fetch would return; a failed fetch is passed on; otherwise the result is the thread of the fetched page |

## Left out

- The language-model call (`writer.py:29-46`) is not modelled as code. Its outcome is the
  parameter `reply`, and `None` stands for the call raising an exception. A missing or empty
  key is the parameter `apiKey` (`Summarizer.UsesModel`). Either case falls back to
  truncation. Nothing is claimed about what the model writes, beyond its
  outer whitespace being stripped.
- `fetch_content` (`scraper.py`) is not part of this model. Its outcome is the parameter
  `fetched`: a page, or the failure that the call raised. Every exception it can raise is
  collapsed into `FetchFailed`.
- `cli.py` and `__init__.py` are not part of this model. These are the command line and the
  package exports.
- The unused imports `math` and `random` are not modelled.
- The docstring of `_chunk_text` promises tweets within 280 characters and no cut in the
  middle of a word. The code keeps neither promise, so neither is stated as a property:
  - a single sentence longer than 245 characters is kept whole;
  - the split loop cuts at `len // 2` regardless of words.
- Summarizer.SummarizeSpec does not state length bounds on the language model's reply. The reply
  comes from outside the program.
- Strings are sequences of Unicode code points, as Python's `str` is. Surrogate code points,
  which Python strings may hold, are excluded by Dafny's `char`.
- The default argument values are not modelled: `max_tweets=10`, `openai_api_key=None` and
  `title=None` (`writer.py:104-106`), and `target_words=300` (`writer.py:19`). Every caller
  passes every argument.
- `writer.py:135` and `writer.py:143` hold the emoji and the hook's en dash and apostrophes
  twice encoded (UTF-8 read as another encoding and encoded again). The model uses the
  intended characters, one code point each, instead. `ThreadWriter.SerialOf` relies on this: it
  reads the serial number from position 2, just after the one-character marker and its space.
- Arguments of the wrong Python type, and `max_tweets` given as a non-integer, are not modelled.
  Every argument has its declared type.
