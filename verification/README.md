# RAG SQL assistant: retrieval, timestamps and audio file naming, in Dafny

The repository is a retrieval-augmented question-answering demo for a SQL video
course. Most of it is UI and HTTP glue. This project models the parts with
pure, sequential logic and proves their contracts:

- **Top-k selection** (`find_relevant_content`, module `Retrieval`). There is one
  similarity score per corpus row. The row indices are ranked by `argsort`, the
  ranking is reversed, and the first `top_k` are kept. Each kept row comes back as a
  copy with its score attached. Dafny sequences are values, so the corpus cannot
  change. The scores themselves (cosine similarity of
  embeddings) are an input. `argsort` is modelled as *any* ascending ranking,
  because numpy's default sort does not fix the order of equal scores. The
  `Argsort` method builds one such ranking by insertion, which shows that one exists.
- **Timestamps and deep links** (`format_timestamp`,
  `generate_youtube_timestamp_link`, the `YOUTUBE_VIDEOS` table; module
  `Timestamps`). A float number of seconds is modelled as a `real`. Python's `//`,
  `%` and `int()` are written out with `Floor`. Two parsers, `ParseTimestamp` and
  `ParseLink`, give round-trip lemmas for the formatted timestamp and for the link.
- **Output names of the video-to-audio script** (module `Conversion`, with
  `os.path.splitext` in `PosixPath`). For each directory entry, the model decides
  whether the file is converted and, if so, the `.mp3` name it gets, as the pure
  function `OutputName(file): Option<string>`.

Shared helpers: `Wrappers` (Option/Result), `Decimal` (`str(int)`, a reader
that accepts everything `str` writes and also leading zeros, and `IsCanonicalInt`
for exactly the text `str` writes), `Text` (ASCII `lower`, `isspace`, `find`, `rfind`).

Three facts about the retriever's code shape its model:

- **Ties.** `argsort()[::-1]` reverses numpy's default sort, which is not
  stable, so the order among equal scores is left open and no stability is
  proved.
- **`top_k`.** `[:top_k]` is a Python slice, so a `top_k` larger than the
  corpus keeps every row and a negative `top_k` drops rows from the end.
  `SliceStop` models the slice.
- **Empty corpus.** Stacking zero embeddings raises in numpy, so an empty
  corpus is a `Failure(EmptyCorpus)`.

Some behaviours of the code, as the model proves them:

- A file named `lesson 7.MP4` is converted, because the filter ignores case. Its
  number is still `"unknown"`, because the regular expression only accepts a
  lower-case `.mp4`.
- A file named `.mp4` has no extension for `splitext`, so its stem is `.mp4` itself.

## Model

| member | source | states |
|---|---|---|
| `Retrieval.FindRelevantContent` | app.py:61-67 | fails exactly on an empty corpus; otherwise the result meets every top-k promise (`IsTopK`): slice-clamped size, valid and distinct indices, copied rows with their own scores, non-increasing similarity, no unselected row scoring above a selected one |
| `Retrieval.SelectTop` | app.py:64-66 | for any ascending argsort, `order[::-1][:top_k]` with scores attached: the size is the Python slice length, each hit holds a valid row index, that row and that row's score, indices are distinct, similarities are non-increasing, and every row left out scores at most every row kept |
| `Retrieval.Argsort` | app.py:64 | returns a permutation of `0..n-1` along which the scores never decrease |
| `Retrieval.ReversedArgsortDescends` | app.py:64 | reversing an ascending ranking (`[::-1]`) gives a permutation along which the scores never increase |
| `Retrieval.UnselectedScoreBelow` | app.py:64-66 | taking the tail of an ascending ranking leaves no unselected row with a higher score than any selected one |
| `Retrieval.ResultSize` | app.py:64-65 | the result has `min(top_k, n)` rows for `top_k >= 0`, and `max(0, n + top_k)` for a negative `top_k` |
| `Retrieval.AllRowsWhenTopKCoversCorpus` | app.py:64-65 | when `top_k >= n` every corpus row is selected |
| `Retrieval.TwoChunkExample` | app.py:61-67 | with scores 1.0 and 0.0 and `top_k = 1`, whatever tie order argsort uses, the only hit is row 0 with similarity 1.0 |
| `Timestamps.TimestampFields` | app.py:33-34 | the seconds field is in `[0, 60)`, `minutes*60 + secs == floor(seconds)`, and both equal the floor division and remainder of `floor(seconds)` by 60 |
| `Timestamps.Pad2` | app.py:35 | `{n:02d}`: for `n >= 0`, at least two digits whose value is `n`, exactly two below 100, no padding from 10 up; a negative number keeps its sign and its digits, with no zero after the sign unless it is the only digit; never a colon |
| `Timestamps.FormatTimestamp` | app.py:32-35 | the text is the one for whole seconds `floor(seconds)`: padded minutes, a colon, padded seconds |
| `Timestamps.FormatTimestampShape` | app.py:35 | for non-negative seconds: digits, a colon, exactly two digits, and the digits denote minutes and seconds summing to `floor(seconds)` |
| `Timestamps.FormatTimestampRoundTrip` | app.py:32-35 | parsing the formatted text gives back `floor(seconds)` for every input, negative included |
| `Timestamps.Truncate` | app.py:29 | `int()` on a float truncates toward zero: same sign, and less than 1 away from the input |
| `Timestamps.LinkForKey` | app.py:25-29 | `None` exactly when the key is not in the video table; otherwise the link starts with the mapped URL and ends with `s` |
| `Timestamps.LinkRoundTrip` | app.py:28-29 | a link splits back into the mapped URL and the truncated start second |
| `Timestamps.ParseLink` | app.py:29 | whatever the reader accepts is exactly the link `base?t=str(seconds)s` built from the parts it returns, so a padded or `-0` seconds field is rejected |
| `Timestamps.TimestampLink` | app.py:25-27 | for an integer video number, a link exists exactly for 1 to 11; it ends in `s` |
| `Timestamps.KnownVideoNumbers` | app.py:10-22 | `str(n)` is a key of the video table exactly when `1 <= n <= 11` |
| `Decimal.IntToDecimal` | app.py:26-29 | `str(i)`: non-empty; digits denoting `i` for `i >= 0`, a minus sign and digits denoting `-i` otherwise; no superfluous leading zero |
| `Retrieval.Reverse` | app.py:64 | `[::-1]`: same length, and position `i` holds the element at position `n - 1 - i` |
| `Retrieval.SliceStop` | app.py:64 | the stop of `[:top_k]` on `n` rows: `top_k` itself when it is between 0 and `n`, `n + top_k` when that is between 0 and `n`, otherwise clamped to `n` or 0 |
| `Decimal.IntRoundTrip` | app.py:29 | `int(str(i)) == i` for every integer `i` |
| `Decimal.IntToDecimalInjective` | app.py:26 | distinct integers give distinct keys `str(n)` |
| `Decimal.CanonicalDigitsRoundTrip` | app.py:29 | a digit string with no superfluous leading zero is exactly `str` of its value |
| `Decimal.CanonicalIntRoundTrip` | app.py:29 | a canonical integer text, sign included, reads back to a number whose `str` is that same text |
| `Decimal.IntToDecimalCanonical` | app.py:29 | everything `str(int)` writes is canonical: no superfluous zero and no `-0` |
| `Conversion.IsVideoFile` | video_to_mp3.py:14-16 | the lower-cased name ends with `.mp4` exactly when the name ends with a dot, `m`/`M`, `p`/`P`, `4` |
| `Conversion.OutputName` | video_to_mp3.py:14-28 | an output name exists exactly for those names; it ends with `.mp3` and contains no `/` |
| `Conversion.TrailingDigits` | video_to_mp3.py:19 | the result is a digit-only suffix of its input that cannot be extended by another digit |
| `Conversion.TutorialNumber` | video_to_mp3.py:19-20 | the number is either `"unknown"` or a non-empty string of digits |
| `Conversion.TutorialNumberIsLeftmostMatch` | video_to_mp3.py:19-20 | `"unknown"` exactly when the regular expression matches nowhere; otherwise the number is the group of the leftmost match, the maximal digit run before a final lower-case `.mp4` |
| `PosixPath.SplitExt` | video_to_mp3.py:23 | root + extension is the whole name; the extension is empty or a dot followed by no dot or slash; a non-empty extension leaves a last component that is not all dots; an empty extension means every character of the last component before any of its dots is a dot, so `a.mp4` splits at its dot |
| `Conversion.Stem` | video_to_mp3.py:23 | the stem is a prefix of the name, cut either nowhere or just before a dot |
| `Conversion.VideoStem` | video_to_mp3.py:23 | for a video file name, the stem drops the last four characters unless everything before them is dots, in which case the stem is the whole name |
| `Conversion.RemoveForbidden` | video_to_mp3.py:24 | no forbidden character remains, and every other character keeps its count |
| `Conversion.Strip` | video_to_mp3.py:24 | `.strip()`: the result is the contiguous block of the input after its leading whitespace, with only whitespace before and after it, so interior whitespace survives; no whitespace at either end of the result, and every non-whitespace character keeps its count |
| `Conversion.StripBounds` | video_to_mp3.py:24 | `strip()` cuts only whitespace, at both ends, and the kept part starts and ends with a non-whitespace character |
| `Conversion.Sanitize` | video_to_mp3.py:24 | the sanitised name contains none of the nine forbidden characters (backslash, slash, `*`, `?`, `:`, double quote, `<`, `>`, vertical bar) and no whitespace at either end; it is the contiguous block of the stem with the forbidden characters deleted, cut only at leading and trailing whitespace, so interior whitespace survives; every other non-whitespace character of the stem keeps its count |
| `Conversion.SanitizeIsSubsequence` | video_to_mp3.py:24 | sanitising only deletes characters: the result is a subsequence of the stem |
| `Conversion.SanitizeIdempotent` | video_to_mp3.py:24 | sanitising twice gives the same as sanitising once |
| `Conversion.OutputNameRoundTrip` | video_to_mp3.py:28 | the output name is exactly number, `_`, sanitised stem, `.mp3`: splitting at the first `_` and dropping `.mp3` gives both parts back |

## Left out

- Streamlit UI (`main`, sidebar, rendering, `load_embeddings` and its cache, app.py:37-43 and 70-125): presentation and file loading only.
- HTTP calls `create_embedding` and `inference` (app.py:45-59): network I/O to an external service.
- Cosine similarity and `np.vstack` (app.py:62-63): floating-point library code. The scores are an input, one per row. Of the stacking step, only its failure on an empty corpus is modelled.
- `df.loc` label lookup (app.py:65): the corpus is assumed to have the default index `0..n-1`, so a label is a position.
- Floating-point rounding: seconds and scores are mathematical reals. NaN scores, and the rounding of `seconds / 60` in `format_timestamp`, are not modelled.
- The order of equal scores after `argsort()[::-1]` is left open. No stability is claimed.
- Prompt JSON serialisation (app.py:97): library serialiser.
- Directory listing, `os.makedirs`, `os.path.join`, ffmpeg and printing in the conversion script (video_to_mp3.py:11-13, 27, 29-41): filesystem and process I/O.
- Unicode: `str.lower`, `str.isspace` and the regular expression's `\d` are modelled on ASCII characters only. The ASCII whitespace set includes the separators 0x1c-0x1f, which Python counts as whitespace.
- The regular expression's `$` also matches before a final newline. This never matters here: a converted name ends in `4`.
- `os.path.splitext` is modelled with POSIX rules only (`/` separator). The Windows rules with drive letters and `\` are not modelled.
- `Timestamps.TimestampLink`: the video number is taken to be an integer. A string-valued number goes through `Timestamps.LinkForKey` directly.
