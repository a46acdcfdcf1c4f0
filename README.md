# Travel Agent Video Summary Assistant — a verified model of its pipeline

The assistant looks up YouTube travel videos for a destination and it finds
their transcripts. It then summarises each transcript, indexes the
transcripts for dense passage retrieval (DPR) and saves a travel itinerary
as a Word document. This project models the five stages that hold the logic
and proves what they promise:

- `youtube_search.dfy` (module `YouTubeSearch`) models the search step:
  - view counts like `"5,909 views"` are parsed into numbers;
  - durations like `"MM:SS"` and `"H:MM:SS"` become minutes;
  - the search query is built from the destination and the preferences;
  - the loop keeps the results that reach the view and duration
    thresholds, in result order.
- `transcript.dfy` (module `Transcript`) models the transcript step:
  - the video id is taken from a link, as the search for
    `(?:v=|/)([0-9A-Za-z_-]{11}).*` finds it;
  - the Transcript column is filled from the transcript service's answer,
    or from the fixed text that records why there is none.
- `summarizer.dfy` (module `Summarizer`) models the summary step:
  - `clean_text` is characterised as "the words of the text joined by
    single spaces";
  - the token chunking is modelled together with the three-way error
    handling of `summarize_text`;
  - `generate_summaries` fills the table, guarded by its case-insensitive
    markers.
- `dpr.dfy` (module `DPR`) models retrieval:
  - transcripts are encoded, with zero vectors for unusable transcripts;
  - the rows are L2-normalised in place;
  - an exact inner-product flat index stores the vectors. Its top-`k`
    search is proved ranked, distinct and best-first, and it pads with
    label -1 when `k` exceeds the number of vectors;
  - the hits are joined back to the table with `iloc`.
- `itinerary.dfy` (module `Itinerary`) models the saved document: a
  heading, then one stripped paragraph for each nonblank line.
- `text.dfy` (module `Text`) models the Python string operations the
  stages use:
  - `strip`, `lower`, `split`, `join`, `replace`, `startswith` and `in`;
  - `int()` on a string: surrounding whitespace, an optional sign, and
    digits with single underscores between them.
- `frame.dfy` (module `Frame`) holds the videos table (a `class` whose rows
  the stages overwrite in place). `wrappers.dfy` holds `Option` and
  `Result`.

Each loop of the source is a `method` with a `while` loop. Each such method
is proved equal to a specification function: `Filtered`, `WithTranscripts`,
`WithSummaries`, `EncodedCorpus`, `NormalizedRows`, `SearchResult` and
`DocumentBlocks`. The lemmas then state what those functions mean.

Three edge cases of the retrieval code are modelled as the code has them:
- a zero query vector stays zero after `normalize_L2` and is searched as it
  is, so every score is 0;
- `top_k` is passed to the search without being clamped to the number of
  rows;
- `top_k < 1` is not rejected by the search function itself; only the
  index rejects it.

## Model

| member | source | states |
|---|---|---|
| Text.IsSpace | Components/youtube_search.py:11 | the characters `strip()` removes: the ASCII whitespace, including the separators 0x1C-0x1F |
| Text.StartsWith | Components/DPR.py:30 | `s.startswith(prefix)`: the first characters of `s` are `prefix` |
| Text.Contains | Components/summarizer.py:71 | `pat in s`: `pat` starts at some position of `s` |
| Text.Lower | Components/youtube_search.py:11 | lower-casing keeps the length of the text |
| Text.TrimStart | Components/youtube_search.py:11 | the result is a suffix of the input that starts with no whitespace |
| Text.TrimEnd | Components/youtube_search.py:11 | the result is a prefix of the input that ends with no whitespace |
| Text.Strip | Components/youtube_search.py:11 | `strip()` is no longer than its input and neither starts nor ends with whitespace |
| Text.TrimStartCutsSpace | Components/youtube_search.py:11 | everything cut from the front is whitespace |
| Text.TrimEndCutsSpace | Components/youtube_search.py:11 | everything cut from the back is whitespace |
| Text.StripIsSlice | Components/youtube_search.py:11 | `strip()` is one contiguous slice of its input |
| Text.StripCutsEnd | Components/youtube_search.py:11 | everything after the stripped slice is whitespace |
| Text.StripEmptyIff | Components/itinerary.py:52 | a line strips to nothing exactly when it is all whitespace |
| Text.StripAllSpace | Components/itinerary.py:52 | an all-whitespace text strips to the empty text |
| Text.StripUnchanged | Components/itinerary.py:53 | a text with no whitespace at either end is its own `strip()` |
| Text.TrimEndSpace | Components/youtube_search.py:11 | a trailing whitespace character is always cut |
| Text.Join | Components/youtube_search.py:48 | `sep.join(parts)`: the parts in order with `sep` between neighbours |
| Text.JoinEmptyIff | Components/summarizer.py:40-45 | a join with a nonempty separator is empty exactly when there are no parts or a single empty part |
| Text.JoinTwo | Components/summarizer.py:40 | joining two parts puts the separator between them |
| Text.Split | Components/youtube_search.py:20 | `split` always gives at least one part |
| Text.SplitJoin | Components/youtube_search.py:20 | joining the parts with the separator gives back the text, and no part holds the separator |
| Text.SplitAfter | Components/youtube_search.py:20 | a separator-free head followed by the separator becomes the first part |
| Text.SplitOfJoin | Components/itinerary.py:51 | splitting separator-free parts that were joined by the separator gives back those parts |
| Text.SplitNone | Components/youtube_search.py:20 | a text without the separator splits into itself alone |
| Text.SplitCount | Components/youtube_search.py:20-29 | the number of parts is one more than the number of separators |
| Text.RemoveAll | Components/youtube_search.py:11 | `s.replace(pat, '')` is never longer than `s` |
| Text.RemoveCharAll | Components/youtube_search.py:11 | `replace(c, '')` leaves no `c`, and the text shrinks by the number of `c`s |
| Text.RemoveCharSingle | Components/youtube_search.py:11 | `replace(c, '')` drops a single character exactly when it is `c` |
| Text.RemoveCharConcat | Components/youtube_search.py:11 | `replace(c, '')` distributes over concatenation, so with Text.RemoveCharSingle every character other than `c` stays, in order |
| Text.RemoveAllKeepsPrefix | Components/youtube_search.py:11 | a prefix that cannot start the pattern is kept as it is |
| Text.RemoveAllShort | Components/youtube_search.py:11 | a text shorter than the pattern is unchanged |
| Text.IntOf | Components/youtube_search.py:12 | `int(s)`: surrounding whitespace ignored, then an optional sign and digit groups; anything else is `None` |
| Text.DropUnderscores | Components/youtube_search.py:12 | dropping the underscores of a numeral leaves only digits |
| Text.IntOfWord | Components/youtube_search.py:12 | `int()` rejects a word that does not start with a digit or sign |
| Text.SignedValueNoDigit | Components/youtube_search.py:12 | a numeral body that starts with no digit or sign is rejected |
| Text.IntOfDigits | Components/youtube_search.py:12 | `int()` of a nonempty digit string is its decimal value |
| Text.SignedValueDigits | Components/youtube_search.py:12 | an unsigned digit string reads as its decimal value |
| Text.UnsignedValueDigits | Components/youtube_search.py:12 | a digit string with no underscores reads as its decimal value |
| Text.DigitsNoDoubleUnderscore | Components/youtube_search.py:12 | a digit string has no double underscore |
| Text.DropUnderscoresNone | Components/youtube_search.py:12 | removing underscores from a digit string changes nothing |
| Text.ToDecimal | Components/youtube_search.py:12 | every natural number has a nonempty decimal numeral |
| Text.IntOfToDecimal | Components/youtube_search.py:12 | `int()` reads back every decimal numeral: a round trip |
| Text.DecimalValueToDecimal | Components/youtube_search.py:12 | the value of a numeral of `n` is `n` |
| YouTubeSearch.ViewsNumeral | Components/youtube_search.py:11 | the text handed to `int()` holds no comma and neither starts nor ends with whitespace |
| YouTubeSearch.ParseViews | Components/youtube_search.py:6-12 | a failure carries the text that could not be read |
| YouTubeSearch.ParseViewsDigits | Components/youtube_search.py:11-12 | digits, a space and "views" in any letter case parse to the digits' value |
| YouTubeSearch.ViewsNumeralDigits | Components/youtube_search.py:11 | normalising "<digits> views" leaves exactly the digits |
| YouTubeSearch.LowerDigitsViews | Components/youtube_search.py:11 | lower-casing changes only the word "views" |
| YouTubeSearch.StripDigitsSpace | Components/youtube_search.py:11 | the space left before the removed word is stripped |
| YouTubeSearch.NoViewsNoCommas | Components/youtube_search.py:11 | removing "views" and "," leaves a text without either unchanged |
| YouTubeSearch.ParseViewsExample | Components/youtube_search.py:9 | "5,909 views" parses to 5909 |
| YouTubeSearch.ViewsNumeralExample | Components/youtube_search.py:11 | "5,909 views" normalises to "5909" |
| YouTubeSearch.ParseViewsNoViews | Components/youtube_search.py:12 | "No views" is not an integer, so the search raises |
| YouTubeSearch.ViewsNumeralNoViews | Components/youtube_search.py:11 | "No views" normalises to "no" |
| YouTubeSearch.ParseDuration | Components/youtube_search.py:14-31 | a failure carries the duration text |
| YouTubeSearch.DurationOfParts | Components/youtube_search.py:20-31 | a two- or three-part duration raises exactly when some part is not an integer; any other number of parts gives 0 |
| YouTubeSearch.ParseDurationMinSec | Components/youtube_search.py:22-24 | "M:S" is `M + S/60` minutes |
| YouTubeSearch.ParseDurationHourMinSec | Components/youtube_search.py:25-27 | "H:M:S" is `60H + M + S/60` minutes |
| YouTubeSearch.ParseDurationBadMinSec | Components/youtube_search.py:22-24 | a two-part duration with a non-integer part raises |
| YouTubeSearch.SplitTwo | Components/youtube_search.py:20 | "x:y" splits into the two parts |
| YouTubeSearch.SplitThree | Components/youtube_search.py:20 | "x:y:z" splits into the three parts |
| YouTubeSearch.ParseDurationExamples | Components/youtube_search.py:17-18 | "5:30" is 5.5 minutes and "10:00" is 10 minutes |
| YouTubeSearch.DurationTen | Components/youtube_search.py:18 | "10:00" is 10 minutes |
| YouTubeSearch.ParseDurationUnexpectedShape | Components/youtube_search.py:28-29 | a duration with neither one nor two ':' counts as 0 minutes |
| YouTubeSearch.SearchQuery | Components/youtube_search.py:48-49 | the query starts with the destination followed by " travel guide " |
| YouTubeSearch.SearchQueryMentions | Components/youtube_search.py:48-49 | every preference occurs in the query |
| YouTubeSearch.JoinOffset | Components/youtube_search.py:48 | each part of a join occurs in it at a known offset |
| YouTubeSearch.ParseResult | Components/youtube_search.py:59-62 | the views are parsed first and their error wins; the result parses exactly when both its views and its duration do, into those two values |
| YouTubeSearch.Filtered | Components/youtube_search.py:57-79 | the kept records are never more than the results, and each reaches both thresholds |
| YouTubeSearch.PassingPositions | Components/youtube_search.py:65-66 | every position names a result that passes both thresholds, and there are no more positions than results |
| YouTubeSearch.FilteredIsOrderedSelection | Components/youtube_search.py:57-77 | the search succeeds exactly when every result parses; then the kept records are exactly the passing results, in result order |
| YouTubeSearch.FilteredOkIff | Components/youtube_search.py:58-62 | no error exactly when every result's views and duration parse |
| YouTubeSearch.PassingPositionsSpec | Components/youtube_search.py:65-66 | the kept positions increase and are exactly those meeting both thresholds |
| YouTubeSearch.FilteredKeepsPositions | Components/youtube_search.py:69-77 | record `j` is built from the result at the `j`-th kept position |
| YouTubeSearch.FilteredMeetsThresholds | Components/youtube_search.py:65-66 | every kept video has at least the minimum views and duration |
| YouTubeSearch.FilteredErrorSticks | Components/youtube_search.py:58-62 | the first result that fails to parse decides the outcome, whatever follows |
| YouTubeSearch.FilterResults | Components/youtube_search.py:57-79 | the loop computes `Filtered` of the results |
| YouTubeSearch.FetchYouTubeVideos | Components/youtube_search.py:33-79 | the answer is `Filtered` of the provider's results for the built query and limit |
| YouTubeSearch.FetchYouTubeVideosDefault | Components/youtube_search.py:33 | the application's four-argument call searches with the default minimum duration of 5 minutes |
| Transcript.IsIdChar | Components/transcript.py:11 | the character class `[0-9A-Za-z_-]` |
| Transcript.GroupStart | Components/transcript.py:11 | a match at `i` captures eleven id characters right after "v=" or "/" |
| Transcript.FirstMatch | Components/transcript.py:11 | the result is the leftmost position where the pattern matches, if there is one |
| Transcript.ExtractVideoId | Components/transcript.py:7-15 | an id, when found, is 11 id characters |
| Transcript.ExtractVideoIdNoneIff | Components/transcript.py:12-15 | there is no id exactly when the pattern matches at no position |
| Transcript.ExtractVideoIdLeftmost | Components/transcript.py:11-13 | the id is the group of the leftmost match |
| Transcript.GroupStartExtend | Components/transcript.py:11 | a match is unaffected by text that follows it |
| Transcript.WatchLinkId | Components/transcript.py:11-13 | a watch link yields the eleven characters after "v=", whatever follows |
| Transcript.WatchPrefixNoMatch | Components/transcript.py:11 | the pattern cannot match inside the watch-link prefix |
| Transcript.TestVideoId | app.py:72 | the test video's link yields "abcd1234EFG" |
| Transcript.TranscriptFor | Components/transcript.py:28-57 | an invalid link gives the invalid-URL text; segments are joined with spaces; disabled transcripts, a missing English transcript and any other service error each give their own text |
| Transcript.WithTranscripts | Components/transcript.py:22-57 | the table keeps its length |
| Transcript.WithTranscriptsFillsColumn | Components/transcript.py:22-57 | every row gets a transcript, and no other cell changes |
| Transcript.WithTranscriptsRowwise | Components/transcript.py:44-57 | with the service as one answer per id, two rows with the same link get the same cell |
| Transcript.WithTranscriptsIndependent | Components/transcript.py:44-57 | one failure does not stop the stage: a row's record depends on the service only through the answer for its own id, not on what it answers for other rows |
| Transcript.ExtractTranscripts | Components/transcript.py:17-59 | the table becomes `WithTranscripts` of its old rows |
| Summarizer.CollapseRuns | Components/summarizer.py:8-10 | `re.sub(X + '+', ' ', s)` is never longer than `s`, and a class character left in it is one of the inserted spaces |
| Summarizer.CleanText | Components/summarizer.py:7-11 | `clean_text` is never longer than its input and neither starts nor ends with whitespace |
| Summarizer.CollapseCompose | Components/summarizer.py:8-10 | collapsing runs of one class and then of a wider class is one collapse of their union |
| Summarizer.CleanTextIsOneCollapse | Components/summarizer.py:7-11 | the three substitutions are one collapse of separator runs, then a strip |
| Summarizer.CollapseRunsShape | Components/summarizer.py:8-10 | after the collapse, each run is one space and no two class characters are adjacent |
| Summarizer.CollapseRunsIdentity | Components/summarizer.py:10 | a text whose runs are already collapsed is unchanged |
| Summarizer.RunsCollapsedCons | Components/summarizer.py:10 | prepending a non-class character keeps runs collapsed |
| Summarizer.RunsCollapsedSpace | Components/summarizer.py:10 | a space before a non-class character keeps runs collapsed |
| Summarizer.SingleSeparatorsSlice | Components/summarizer.py:10 | a slice of a text with single separators has single separators |
| Summarizer.CleanOfSingleSeparators | Components/summarizer.py:7-11 | single separators with no whitespace at the ends make a clean text |
| Summarizer.CollapsedHasSingleSeparators | Components/summarizer.py:8-10 | after the collapse, every separator is a single space |
| Summarizer.CleanTextCanonical | Components/summarizer.py:7-11 | `clean_text` returns ASCII text without newlines, with single spaces between words and none at the ends |
| Summarizer.StrippedCollapseIsClean | Components/summarizer.py:10 | stripping the collapsed text leaves a clean text |
| Summarizer.StripOfSingleSeparators | Components/summarizer.py:10 | stripping a text with single separators leaves a clean text |
| Summarizer.CleanTextSeparators | Components/summarizer.py:7-11 | a clean text has single separators |
| Summarizer.CleanTextOfClean | Components/summarizer.py:7-11 | a clean text is its own `clean_text` |
| Summarizer.CollapseOfClean | Components/summarizer.py:8-10 | the collapse changes nothing in a clean text |
| Summarizer.CleanTextIdempotent | Components/summarizer.py:7-11 | cleaning twice is cleaning once |
| Summarizer.Words | Components/summarizer.py:7-11 | a text that starts with a word character has at least one word |
| Summarizer.WordsAreWords | Components/summarizer.py:7-11 | words are nonempty and hold no separator |
| Summarizer.WordsSeparator | Components/summarizer.py:10 | a leading separator does not change the words |
| Summarizer.WordsCollapse | Components/summarizer.py:8-10 | the collapse does not change the words |
| Summarizer.WordsTrimStart | Components/summarizer.py:10 | stripping the front does not change the words |
| Summarizer.WordsSeparatorAtEnd | Components/summarizer.py:10 | a trailing separator does not change the words |
| Summarizer.WordsTrimEnd | Components/summarizer.py:10 | stripping the back does not change the words |
| Summarizer.WordsStrip | Components/summarizer.py:10 | `strip()` does not change the words |
| Summarizer.CleanIsJoinedWords | Components/summarizer.py:7-11 | a clean text is its words joined by single spaces |
| Summarizer.CleanSuffix | Components/summarizer.py:7-11 | the tail of a clean text from a word character on is clean |
| Summarizer.CleanTextIsJoinedWords | Components/summarizer.py:7-11 | `clean_text` is exactly the words of its input joined by single spaces |
| Summarizer.Chunks | Components/summarizer.py:17 | there are no chunks exactly when there are no tokens |
| Summarizer.ChunksFlatten | Components/summarizer.py:17 | the chunks, concatenated, give back the tokens |
| Summarizer.ChunksSizes | Components/summarizer.py:17 | every chunk holds 1 to `max_tokens` tokens, and all but the last exactly `max_tokens` |
| Summarizer.ChunksStarts | Components/summarizer.py:17 | chunk `k` exists exactly when `k * max_tokens` is a start of `range` |
| Summarizer.ChunksCount | Components/summarizer.py:17 | there are ceil(tokens / max_tokens) chunks |
| Summarizer.ChunksAt | Components/summarizer.py:17 | chunk `k` is the slice `tokens[k*n : k*n + n]` |
| Summarizer.SplitIntoChunks | Components/summarizer.py:17 | a zero step raises, a negative step gives no chunks, a positive one gives the chunks |
| Summarizer.DecodedChunks | Components/summarizer.py:18 | the decoding succeeds exactly when every chunk decodes, and then gives one text per chunk, in order |
| Summarizer.DecodedChunksFirstError | Components/summarizer.py:18 | the error is that of the first chunk that fails to decode |
| Summarizer.SplitTextIntoChunks | Components/summarizer.py:14-18 | a tokenizer that fails to load or encode decides the error; then a zero step raises; otherwise it succeeds exactly when every chunk decodes, with one decoded text per token chunk, in order |
| Summarizer.SummaryParts | Components/summarizer.py:37 | when every chunk is summarised there is one summary per chunk |
| Summarizer.OkValues | Components/summarizer.py:37 | one value per element, in order: the summaries of the chunks, or the decoded token chunks |
| Summarizer.SummaryPartsAllOk | Components/summarizer.py:37 | when the model succeeds on every chunk, the parts are its summaries |
| Summarizer.SummaryPartsFirstError | Components/summarizer.py:37 | the error is the first chunk's failure |
| Summarizer.SummarizeText | Components/summarizer.py:31-48 | the answer is never empty |
| Summarizer.TranscriptChunksOk | Components/summarizer.py:33-34 | with `MAX_TOKENS` positive, chunking the cleaned transcript fails exactly when the tokenizer does, and otherwise gives the decoded token chunks |
| Summarizer.SummarizeTextJoins | Components/summarizer.py:37-45 | the summaries joined by single spaces, or the fallback text when that join is empty |
| Summarizer.SummarizeTextError | Components/summarizer.py:46-48 | a model failure gives the error prefix and the first failure's message |
| Summarizer.SummarizeTextEncodeError | Components/summarizer.py:46-48 | a tokenizer that fails to load or encode gives the error prefix and its message |
| Summarizer.SummarizeTextDecodeError | Components/summarizer.py:46-48 | a chunk that fails to decode gives the error prefix and the first such failure's message |
| Summarizer.SummaryJoinEmpty | Components/summarizer.py:40-45 | the fallback appears exactly when there are no summaries or only one empty one |
| Summarizer.IsSummarizable | Components/summarizer.py:71 | the guard: a transcript is present, nonempty, and mentions neither marker once lower-cased |
| Summarizer.SummaryFor | Components/summarizer.py:71-82 | the Summary cell is never empty, and a row the guard rejects gets the skipped text |
| Summarizer.WithSummaries | Components/summarizer.py:64-82 | the table keeps its length |
| Summarizer.SummarizedRow | Components/summarizer.py:71-82 | the row gets a nonempty Summary and no other cell changes |
| Summarizer.WithSummariesFillsColumn | Components/summarizer.py:64-82 | every row gets a nonempty summary, and no other cell changes |
| Summarizer.WithSummariesGuard | Components/summarizer.py:71-82 | a row the guard accepts gets its transcript's summary, any other row gets the skipped text |
| Summarizer.SummarizeRow | Components/summarizer.py:71-82 | the loop body computes the row's Summary cell |
| Summarizer.GenerateSummaries | Components/summarizer.py:64-84 | the table becomes `WithSummaries` of its old rows |
| Summarizer.SummarizeAt | Components/summarizer.py:73-82 | one step of the loop changes only row `index` |
| Summarizer.SummarizedRowIgnoresSummary | Components/summarizer.py:64 | resetting the column first does not change the outcome |
| Summarizer.ResetSummaries | Components/summarizer.py:64 | the Summary column becomes empty, and nothing else changes |
| Summarizer.DisabledTextSkipped | Components/summarizer.py:71 | the "Transcripts are disabled" text is not summarised |
| Summarizer.NotFoundTextSkipped | Components/summarizer.py:71 | the "No transcript found" text is not summarised |
| Summarizer.SkippedWhenCapitalisedMarker | Components/summarizer.py:71 | a transcript that starts with a marker in any letter case is skipped |
| Summarizer.InvalidUrlSummarised | Components/summarizer.py:71 | the invalid-URL text passes the guard |
| Summarizer.FetchErrorTextSummarised | Components/summarizer.py:71 | the fetch-error text passes the guard |
| Summarizer.FetchErrorNoDisabledMarker | Components/summarizer.py:71 | the fetch-error text does not mention "transcripts are disabled" |
| Summarizer.FetchErrorNoNotFoundMarker | Components/summarizer.py:71 | the fetch-error text does not mention "no transcript found" |
| Summarizer.UnavailableTranscriptSkipped | Components/summarizer.py:71 | after both stages, a video whose transcripts are disabled or missing gets the skipped text |
| Summarizer.InvalidLinkSummarised | Components/summarizer.py:71 | after both stages, a video with a bad link gets the model's summary of "Invalid YouTube URL." |
| Itinerary.Document.constructor | Components/itinerary.py:47 | a new document has no blocks |
| Itinerary.Document.AddHeading | Components/itinerary.py:48 | a heading is appended |
| Itinerary.Document.AddParagraph | Components/itinerary.py:53 | a paragraph is appended |
| Itinerary.StrippedLines | Components/itinerary.py:52-53 | one stripped line per line |
| Itinerary.NonEmptyTexts | Components/itinerary.py:52 | the kept texts are nonempty and never more than the given ones |
| Itinerary.Paragraphs | Components/itinerary.py:51-53 | one nonempty paragraph text at most per line |
| Itinerary.ParagraphBlocks | Components/itinerary.py:53 | one paragraph block per text |
| Itinerary.DocumentBlocks | Components/itinerary.py:47-53 | the document opens with the level-1 'Travel Itinerary' heading, followed only by nonempty paragraphs, at most one per line |
| Itinerary.SaveItineraryToDoc | Components/itinerary.py:43-54 | the new document holds `DocumentBlocks` of the itinerary |
| Itinerary.AddLines | Components/itinerary.py:51-53 | the loop appends a paragraph for each nonblank line, stripped, in line order |
| Itinerary.AddLine | Components/itinerary.py:52-53 | one step of the loop adds the line's paragraph exactly when it is nonblank |
| Itinerary.AddLineStep | Components/itinerary.py:52-53 | one more line adds at most its own paragraph |
| Itinerary.NonEmptyTextsStep | Components/itinerary.py:52 | one more text adds that text exactly when it is nonempty |
| Itinerary.ParagraphBlocksAppend | Components/itinerary.py:53 | appending a text appends its paragraph |
| Itinerary.HeadingFirst | Components/itinerary.py:48-53 | the document starts with the level-1 heading "Travel Itinerary", and every later block is a paragraph |
| Itinerary.NonEmptyPositionsSpec | Components/itinerary.py:52 | the kept positions increase and are exactly those of nonempty texts |
| Itinerary.NonEmptyAtPositions | Components/itinerary.py:52-53 | kept text `j` is the text at the `j`-th kept position |
| Itinerary.ParagraphsAreNonBlankLines | Components/itinerary.py:51-53 | the paragraphs are the nonblank lines, stripped, in order, one each |
| Itinerary.NonBlankPositionsSpec | Components/itinerary.py:52 | the kept line positions increase and are exactly the nonblank lines |
| Itinerary.ParagraphsAtPositions | Components/itinerary.py:53 | paragraph `j` is the stripped line at the `j`-th kept position |
| Itinerary.ParagraphsStripped | Components/itinerary.py:52-53 | no paragraph is empty or has whitespace at its ends |
| Itinerary.JoinedLinesRoundTrip | Components/itinerary.py:51-53 | stripped nonempty lines joined with '\n' come back as the paragraphs |
| Itinerary.NonEmptyTextsAllKept | Components/itinerary.py:52 | nonempty texts are all kept |
| DPR.Zeros | Components/DPR.py:32 | `np.zeros(n)` has `n` zero entries |
| DPR.Scale | Components/DPR.py:53 | scaling keeps the width |
| DPR.Normalized | Components/DPR.py:53 | normalising keeps the width |
| DPR.NormalizedRows | Components/DPR.py:53 | normalising keeps the number of rows |
| DPR.NormSqNonNegative | Components/DPR.py:53 | a squared norm is never negative |
| DPR.NormSqScale | Components/DPR.py:53 | scaling by `c` multiplies the squared norm by `c*c` |
| DPR.NormSqZero | Components/DPR.py:32 | the zero vector has norm 0 |
| DPR.InnerProductZero | Components/DPR.py:73 | every query scores 0 against the zero vector |
| DPR.NormalizedIsUnit | Components/DPR.py:53 | a nonzero row has unit length afterwards, given a correct reciprocal square root |
| DPR.NormalizedZero | Components/DPR.py:53 | a zero row is left as it is |
| DPR.NormalizedIsScaled | Components/DPR.py:53 | a row is either unchanged or scaled by the reciprocal of its norm |
| DPR.IsInvalidPassage | Components/DPR.py:30 | a passage is unusable when it starts with "No transcript", "Error" or "Invalid" |
| DPR.PassageEmbedding | Components/DPR.py:30-37 | an unusable passage gets the zero vector of the hidden size, any other the context encoder's output |
| DPR.EmbeddingList | Components/DPR.py:28-38 | one embedding per row when it succeeds; a failure names a row without a transcript |
| DPR.EncodedCorpus | Components/DPR.py:25-43 | the matrix has one row per table row, all of one width; an empty table is refused |
| DPR.EncodePassage | Components/DPR.py:21-43 | the loop and the stacking compute `EncodedCorpus` |
| DPR.EmbeddingListErrorSticks | Components/DPR.py:28-38 | the first row without a transcript decides the outcome |
| DPR.EmbeddingListSpec | Components/DPR.py:28-38 | the loop succeeds exactly when every row has a transcript; then there is one embedding per row, in order |
| DPR.EmbeddingListFirstMissing | Components/DPR.py:30 | the error names the first row without a transcript |
| DPR.EncodedCorpusSpec | Components/DPR.py:25-41 | succeeds exactly when every row has a transcript, there is a row and the widths agree; then one embedding per row, in order |
| DPR.InvalidPassageGetsZeros | Components/DPR.py:30-32 | an unusable transcript's embedding is the zero vector of the hidden size |
| DPR.EncoderOnlyForValid | Components/DPR.py:33-37 | the encoder is consulted only on usable transcripts |
| DPR.EmbeddingListSameEncoders | Components/DPR.py:33-37 | encoders that agree on the usable transcripts give the same list |
| DPR.SentinelClassification | Components/DPR.py:30 | the not-found, fetch-error and invalid-URL texts are unusable; the disabled text is not |
| DPR.BeforeTransitive | Components/DPR.py:73 | the ranking order (higher score, then lower position) is transitive |
| DPR.Insert | Components/DPR.py:73 | inserting one position adds one entry, all in range |
| DPR.Truncate | Components/DPR.py:73 | keeping the first `k` keeps the first `k` entries |
| DPR.TopPositions | Components/DPR.py:73 | all selected positions lie in range |
| DPR.TopK | Components/DPR.py:73 | all selected positions lie in range |
| DPR.InsertElements | Components/DPR.py:73 | insertion adds exactly the new position |
| DPR.InsertRanked | Components/DPR.py:73 | insertion keeps the selection ranked |
| DPR.InsertShape | Components/DPR.py:73 | insertion places the new position at one point of the old selection |
| DPR.TopPositionsInvariant | Components/DPR.py:73 | after `j` positions, the selection is the best `min(k, j)` of them, ranked |
| DPR.TopStep | Components/DPR.py:73 | one more position keeps the selection the best, ranked |
| DPR.CutOffRanksLast | Components/DPR.py:73 | a position cut off by the truncation ranks below every kept one |
| DPR.LeftOutRanksLast | Components/DPR.py:73 | a position left out earlier still ranks below every kept one |
| DPR.TopKSpec | Components/DPR.py:73 | `min(k, n)` distinct positions, scores never increasing, each at least every unselected position's score |
| DPR.AllTiedRankByPosition | Components/DPR.py:73 | when all scores tie, the first positions are chosen in order |
| DPR.AllTiedPrefix | Components/DPR.py:73 | under a tie, a ranked best selection is a prefix of the positions |
| DPR.Matrix.constructor | Components/DPR.py:41 | a matrix of rows that all have the given width |
| DPR.Matrix.NormalizeL2 | Components/DPR.py:53 | every row is normalised in place, and the width is kept |
| DPR.ScoresOf | Components/DPR.py:73 | one inner-product score per stored vector |
| DPR.SearchResult | Components/DPR.py:73 | a successful search answers exactly `k` distances and `k` labels |
| DPR.FlatIndex.constructor | Components/DPR.py:50 | a new index of dimension `d` holds no vectors |
| DPR.FlatIndex.Add | Components/DPR.py:56 | the vectors are appended in order |
| DPR.FlatIndex.Search | Components/DPR.py:73 | the search loop computes `SearchResult` |
| DPR.FaissVectorStore | Components/DPR.py:45-57 | the embeddings are normalised in place and become the new index's vectors, of the embeddings' width |
| DPR.Padded | Components/DPR.py:73 | exactly `k` scores and `k` labels, each label -1 or a position of a vector |
| DPR.PaddedSpec | Components/DPR.py:73 | the first `min(k, n)` slots hold the selected positions and their scores; the rest hold -1 and the padding score |
| DPR.PaddedRanked | Components/DPR.py:73 | the filled slots hold distinct positions with non-increasing distances |
| DPR.PaddedBest | Components/DPR.py:73 | each filled slot scores at least every position not returned |
| DPR.SearchResultSpec | Components/DPR.py:73 | errors exactly for a wrong query width or `k < 1`; otherwise ranked, distinct, best-first hits padded with -1 |
| DPR.SearchRelevantPassages | Components/DPR.py:59-81 | the answer is `Retrieval` on the table and the index |
| DPR.SelectRows | Components/DPR.py:77-79 | `iloc` succeeds exactly when every label is a position from `-n` to `n - 1`, and gives one row per label |
| DPR.Retrieval | Components/DPR.py:59-81 | a successful search answers exactly `top_k` rows, and `top_k` is positive |
| DPR.SelectRowsSpec | Components/DPR.py:76-79 | `iloc` succeeds exactly when every label is a valid position; then each row is the labelled row with its score and the query |
| DPR.RetrievalSpec | Components/DPR.py:63-79 | the failures are the query width, `k < 1`, and an empty table, each exactly when it happens |
| DPR.RetrievalRows | Components/DPR.py:73-79 | a success has `k` rows: the best `min(k, n)` with their scores, then the table's last row again with the padding score |
| DPR.RetrievalRanked | Components/DPR.py:73-78 | the rows come from distinct positions with non-increasing scores, each at least every row left out |
| DPR.InvalidPassageScoresZero | Components/DPR.py:30-32 | an unusable transcript stays the zero vector and scores 0 against every query |
| DPR.AllInvalidRankByPosition | Components/DPR.py:30-32 | when every transcript is unusable, all scores are 0 and the rows come back in table order |
| DPR.PaddingRepeatsLastRow | Components/DPR.py:73-77 | as written, a one-row table searched for three rows answers that row three times |
| DPR.TopPositionsClamp | Components/DPR.py:73 | asking for more than `n` of `n` positions selects the same as asking for `n` |
| DPR.ClampedRetrieval | Components/DPR.py:73-77 | the corrected search never answers more rows than there are vectors |
| DPR.ClampedRetrievalSpec | Components/DPR.py:73-77 | with the clamp, the only failures are the query width and `k < 1` |
| DPR.ClampedRetrievalRows | Components/DPR.py:73-77 | with the clamp, `min(k, n)` rows from distinct best positions, with no padding |

## Left out

- The encoders, the tokenizer and the summarisation model are function
  parameters. They are pretrained networks, and the model says nothing
  about what they compute.
- The tokenizer is the pair `encode` and `decode`, each of which may fail.
  A failure of `AutoTokenizer.from_pretrained` is folded into `encode`,
  which the model calls once per `split_text_into_chunks` call.
- Transcript.WithTranscripts: the transcript service is modelled as one
  fixed answer per video id. The code asks the live service again for
  every row (Components/transcript.py:33), so two rows with the same link
  could get different answers there; the model does not capture that.
- The YouTube search provider and the transcript service are parameters
  as well (`search`, `fetch`), and so is the square root: L2
  normalisation takes the reciprocal square root `rsqrt` as a parameter.
- Python floats are exact reals in the model. Vectors are not `float32`,
  so rounding and the cast at Components/DPR.py:41 are not modelled. The
  duration in minutes, `minutes + (seconds / 60)` at
  Components/youtube_search.py:31 and the DurationMinutes column at
  Components/youtube_search.py:72, is an exact real as well, so
  floating-point rounding of the fraction is not modelled.
- DPR.FlatIndex.Search: FAISS's own order among equal scores is
  unspecified. The model breaks ties by the lower position.
- DPR.FlatIndex.Add requires rows of the index's width, where FAISS would
  raise.
- `st.write`, `print` and `doc.save(filename)` are output only, so they are
  not modelled. Itinerary.SaveItineraryToDoc stops before the save.
- Text.Lower and Text.Strip handle ASCII only. Python's `lower()` and
  `strip()` also act on non-ASCII letters and whitespace. Text.IntOf does
  not accept non-ASCII digits.
- YouTubeSearch.FetchYouTubeVideos: its `minDuration` parameter is
  unconstrained. The callers never pass one, so the source's default of 5
  applies (YouTubeSearch.FetchYouTubeVideosDefault), and
  `MIN_DURATION = 10` in Components/constants.py is unused by this stage.
- Summarizer.GenerateSummaries: the `except` around `summarize_text` is
  unreachable because `summarize_text` catches every exception itself, so
  it is not modelled.
- `generate_itinerary`, the display functions of Components/itinerary.py,
  Components/agent.py, main.py and app.py are not part of this model. They
  are the user interface and the language-model chat.
- DPR.SearchRelevantPassages models the code as written, padding included.
  The corrected DPR.ClampedRetrieval is stated beside it. No modelled stage
  consumes the retrieval result.

## Findings

| source | as written | input that shows it | evidently intended | confidence | as-written member | corrected member |
|---|---|---|---|---|---|---|
| Components/DPR.py:73-77 | `top_k` is passed to the search unclamped; the index pads missing hits with label -1, and `iloc[-1]` selects the last row | a table of one video searched with the default `top_k=3` | at most as many rows as the table holds, each video once | not executed | DPR.PaddingRepeatsLastRow | DPR.ClampedRetrievalRows |
