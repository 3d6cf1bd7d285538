# TextScanner: a Dafny model of kb-scanner-text

`TextScanner` splits a text into overlapping chunks of at most
`tokensPerPage` model tokens. First it cleans the text: every run of
whitespace becomes one space, and whitespace at both ends is removed. Then
the model's tokenizer encodes the text. A loop walks the token ids with a
step of `stride = tokensPerPage - overlap` and yields one page of ids at a
time. The sequence stops early when the consumer's abort signal fires. The
tokenizer is freed when the run ends.

The model is in five modules:

- `Wrappers` (wrappers.dfy): `Option` and `Result`.
- `TextCleanup` (cleanup.dfy): the `cleanup` function. Trimming and run
  collapsing are written once over any whitespace class `ws` that contains
  the space. `Cleanup` uses them with the ECMAScript class (`\s`, which is
  also what `trim` removes). The reference definition is `Words`, the
  maximal runs of non-whitespace characters. The main result is that the
  cleaned text is those words joined by single spaces.
- `ScannerConfig` (config.dfy): the constructor as a function
  `Resolve(Config): Result<Scanner, ConfigError>`. It applies the defaults,
  derives the integer overlap (floor of an absolute count of at least one,
  or floor of a fraction of the page) and fails when the overlap is not
  below the page. The scanner's fields never change after construction, so
  `Scanner` is a datatype.
- `Windowing` (windows.dfy): `Schedule(n, tokensPerPage, stride)`, the
  windows the loop visits over `n` ids when nothing aborts. The lemmas give
  the closed form of window k, the number of windows, the increasing
  starts, the overlap between neighbours and the coverage of every id.
- `ChunkReader` (reader.dfy): the `read` generator as a class `Reader`.
  `Next` runs the generator to its next yield, `Abort` is the abort
  handler, and `Close` is the consumer's early `return()`. The class
  invariant says the windows yielded so far are a prefix of `Schedule`, and
  that a finished run freed the tokenizer exactly once if it obtained it,
  and never otherwise. `Drain` is a consumer that reads to the end.

The code checks only `overlap < tokensPerPage`, so a negative resolved
overlap is accepted: a configured overlap of -0.5 with pages of 4 resolves
to -2 (stride 6), and then the stride is larger than the page. The model
allows this (see `NegativeOverlapLeavesGap`), so the count formula
`ceil((N - tokensPerPage) / stride) + 1` and coverage are proved only when
the overlap is not negative (`LongInputWindowCount`, `Coverage`).
`WindowCount` gives the count for every stride. The code has no separate
check that `tokensPerPage > 0`, but every scanner that resolves has one
(`ResolvedScannerIsValid`): a page of 0 or less never passes the overlap
check.

## Model

| member | source | states |
|---|---|---|
| TextCleanup.TrimStart | lib/index.ts:7 | the result is a suffix of the input; everything removed is whitespace; it does not start with whitespace |
| TextCleanup.TrimEnd | lib/index.ts:7 | the result is a prefix of the input; everything removed is whitespace; it does not end with whitespace |
| TextCleanup.TrimStartKeepsVisible | lib/index.ts:7 | removing leading whitespace keeps every non-whitespace character, in order |
| TextCleanup.TrimEndKeepsVisible | lib/index.ts:7 | removing trailing whitespace keeps every non-whitespace character, in order |
| TextCleanup.CollapseRunsHead | lib/index.ts:7 | replacing whitespace runs by one space gives an empty text only for the empty input, and starts with whitespace exactly when the input does |
| TextCleanup.CollapseRunsKeepsVisible | lib/index.ts:7 | replacing whitespace runs keeps the non-whitespace characters, in order |
| TextCleanup.CollapseRunsSingleSpaced | lib/index.ts:7 | after the replacement every whitespace character is a space, and no two whitespace characters are adjacent |
| TextCleanup.CollapseRunsOfSingleSpaced | lib/index.ts:7 | the replacement leaves a single-spaced text unchanged |
| TextCleanup.CleanupWithIsClean | lib/index.ts:6-8 | for any whitespace class containing the space, the cleaned text is single-spaced and has no whitespace at either end |
| TextCleanup.CleanupWithKeepsVisible | lib/index.ts:6-8 | for any such class, cleaning keeps exactly the non-whitespace characters, in order |
| TextCleanup.CleanupWithEmptyIffBlank | lib/index.ts:6-8 | for any such class, the cleaned text is empty exactly when the input has no non-whitespace character |
| TextCleanup.CleanIsFixpoint | lib/index.ts:6-8 | a clean text (single-spaced, no whitespace at the ends) is left unchanged |
| TextCleanup.CleanupWithIdempotent | lib/index.ts:6-8 | for any such class, cleaning twice gives the same text as cleaning once |
| TextCleanup.CleanupWithIsJoinedWords | lib/index.ts:6-8 | for any such class, the cleaned text is the input's maximal non-whitespace runs joined by single spaces |
| TextCleanup.TwoWords | lib/index.ts:6-8 | two words separated by any non-empty run of whitespace are cleaned to the two words and one space |
| TextCleanup.Cleanup | lib/index.ts:6-8 | with ECMAScript whitespace, the result is clean, keeps the non-whitespace characters in order, and is empty exactly when the input is blank |
| TextCleanup.CleanupIdempotent | lib/index.ts:6-8 | with ECMAScript whitespace, cleaning is idempotent |
| TextCleanup.CleanupIsJoinedWords | lib/index.ts:6-8 | with ECMAScript whitespace, the cleaned text is the input's words joined by single spaces |
| TextCleanup.ExampleHelloWorld | lib/index.ts:6-8 | "Hello,   World!" is cleaned to "Hello, World!" |
| ScannerConfig.ResolveOverlap | lib/index.ts:36-40 | an overlap of at least 1 becomes its floor; a smaller one becomes the floor of its product with the page |
| ScannerConfig.Resolve | lib/index.ts:23-46 | apart from the encoding label (not checked here), construction succeeds exactly when the resolved overlap is below the resolved page; each unset field takes its default ("utf-8", 512, "text-embedding-3-small", 0.5) |
| ScannerConfig.PageNotPositiveIsRejected | lib/index.ts:36-45 | for a page of 0 or less, the resolved overlap is never below the page |
| ScannerConfig.ResolvedScannerIsValid | lib/index.ts:42-45 | every constructed scanner has a positive page and a positive stride, stride = page - overlap (line 52) |
| ScannerConfig.FractionalOverlapIsAccepted | lib/index.ts:36-45 | a fraction in [0, 1) of a positive page always passes the check, with an overlap in [0, page) |
| ScannerConfig.AbsoluteOverlapCheck | lib/index.ts:36-45 | an overlap of at least 1 passes exactly when its floor is below the page, and the scanner keeps that floor |
| ScannerConfig.DefaultsResolve | lib/index.ts:24-36 | no configuration and an all-unset configuration give the same scanner: 512 tokens per page, an overlap of 256 and a stride of 256 |
| ScannerConfig.NegativeFractionIsAccepted | lib/index.ts:36-45 | a configured overlap of -0.5 with pages of 4 resolves to -2 and passes the check, giving a stride of 6 |
| ScannerConfig.ValidScannerIsConstructible | lib/index.ts:23-46 | every scanner with a positive page and an overlap below it is the result of some configuration |
| Windowing.ScheduleFromAt | lib/index.ts:72-79 | once the loop index is i, window k exists exactly when i + k*stride < n and window k-1 did not reach the end; it is [i + k*stride, min(i + k*stride + page, n)) |
| Windowing.WindowAt | lib/index.ts:72-79 | window k of a scan is [k*stride, min(k*stride + page, n)) |
| Windowing.FirstWindow | lib/index.ts:72-75 | a scan has a first window exactly when there are tokens; it starts at 0 |
| Windowing.NextWindow | lib/index.ts:72-79 | a window is followed by another exactly when it did not reach the end and the next start is before the end; that one starts one stride later |
| Windowing.WindowBounds | lib/index.ts:75 | every window is a non-empty range inside [0, n) of at most page ids, and every window but the last has exactly page ids |
| Windowing.ConsecutiveWindowsOverlap | lib/index.ts:72-75 | consecutive windows start one stride apart and share page - stride ids, the resolved overlap |
| Windowing.StartsIncrease | lib/index.ts:72 | window starts strictly increase, so no window repeats |
| Windowing.EmptyInputHasNoWindows | lib/index.ts:72 | no tokens give no windows |
| Windowing.ShortInputHasOneWindow | lib/index.ts:72-79 | a text of 1 to page tokens gives exactly one window, over all of it |
| Windowing.WindowExists | lib/index.ts:72-79 | window k exists exactly when k < min(ceil(n / stride), ceil(max(n - page, 0) / stride) + 1) |
| Windowing.WindowCount | lib/index.ts:72-79 | the number of windows is min(ceil(n / stride), ceil(max(n - page, 0) / stride) + 1) for every positive stride |
| Windowing.LongInputWindowCount | lib/index.ts:72-79 | with a non-negative overlap and n > page, there are ceil((n - page) / stride) + 1 windows and the last one ends at n |
| Windowing.ScheduleFromCovers | lib/index.ts:72-79 | with a non-negative overlap, every id from the loop index on lies in a window |
| Windowing.Coverage | lib/index.ts:72-79 | with a non-negative overlap, every token id lies in some window |
| Windowing.ExamplePageFourOverlapOne | lib/index.ts:72-79 | 10 ids, pages of 4, overlap 1: windows [0,4), [3,7), [6,10) |
| Windowing.NegativeOverlapLeavesGap | lib/index.ts:42-45 | 10 ids, pages of 4, overlap -2 (stride 6): windows [0,4) and [6,10); id 4 is in no window |
| ChunkReader.Reader.constructor | lib/index.ts:48-70 | a new reader holds the page, the stride and encode(cleanup(text)); it has not started, yielded, obtained or freed anything |
| ChunkReader.Reader.Abort | lib/index.ts:60-62 | the abort handler sets the flag and changes nothing else |
| ChunkReader.Reader.Next | lib/index.ts:57-85 | one pull: a chunk is the next window of the schedule with its ids; an abort seen on entry yields nothing and never obtains the tokenizer; a pull after an abort ends the sequence normally (End) without a tokenizer call; a run that ends without abort or error has yielded the whole schedule; the first pull fails exactly when encode throws; a later pull ends exactly when no window is left; the tokenizer is freed once when a run ends, after it was obtained |
| ChunkReader.Reader.Close | lib/index.ts:81-84 | an early return while suspended at a yield frees the tokenizer once; a reader that has not started frees nothing; the abort flag and the yielded windows are unchanged |
| ChunkReader.Drain | lib/index.ts:72-84 | reading to the end with no abort or error yields exactly the schedule, in order, and frees the tokenizer once |
| ChunkReader.ExampleScan | lib/index.ts:72-84 | 10 ids, pages of 4, overlap 1: a full read gets windows [0,4), [3,7), [6,10) and frees the tokenizer once |
| ChunkReader.AbortBeforeStart | lib/index.ts:64 | a signal aborted before the first pull ends the sequence at once, even if a tokenizer call would throw; the tokenizer is never obtained or freed |
| ChunkReader.AbortAfterFirst | lib/index.ts:72-84 | an abort after the first window of a non-empty text ends the sequence normally at the next pull, even if a tokenizer call would throw, and the tokenizer is freed once |
| ChunkReader.TokenizerErrorFreesOnce | lib/index.ts:68-84 | when encode throws, the pull reports the error and the tokenizer is still freed once |

## Left out

- Decoding the input: a `Uint8Array` input and the configured `TextDecoder` (lib/index.ts:32, 49-50) are not modelled. The text is given as a string.
- The tokenizer (`tiktoken`) is foreign code. `encoding_for_model`, `encode`, `decode` and `free` are not modelled. `encode` is a parameter of the reader's constructor. A chunk is the slice of token ids, not the text that `decode` and the UTF-8 `TextDecoder` would give for it.
- ChunkReader.Reader.Next: `tokenizerFails` is a single flag for the first tokenizer call of the pull: `encode` on the first pull, and the next chunk's `decode` on later pulls. A `decode` error on the first window and an error inside `encoding_for_model` itself (line 68, before the `try`, so nothing is freed) are not modelled.
- The asynchronous plumbing is not modelled: `AsyncTransform`, `AsyncReadStream`, `transform()` and the promise scheduling of the generator. `Abort` may be called between any two pulls. Registering and removing the abort listener (lines 66 and 83) is left out.
- Numbers: `tokensPerPage` is an integer and `overlap` an exact real. IEEE rounding, NaN, infinities and non-integer page sizes are not modelled.
- Characters are Unicode code points. UTF-16 surrogate pairs are not modelled.
- ScannerConfig.Resolve: every encoding label is accepted; the source's TextDecoder constructor (line 32) throws for a label it does not know, before the overlap check, and the model does not capture that failure because the set of labels belongs to the platform's decoder.
- ScannerConfig.Resolve: the failed `assert` is the error value `OverlapNotLessThanTokensPerPage`; the message text is not modelled.
- The example program (example.ts) is not part of this model.
