# pdf_summarize: the token-budgeted chunking core

`pdf_summarize.py` summarises each PDF in a directory. It packs whole pages of
extracted text into one summary text while their token count, plus a reserved
headroom (`buffer_tokens`), fits a budget (`token_limit`). It cuts that text into
fixed-width character segments and sends each segment to a completion endpoint.
It joins the answers into a final summary and saves it as `<stem>_summary.docx`
in the output directory.

This Dafny project models the four parts of `main` that compute something:

- **Page accumulator** (`accumulator.dfy`, module `PageAccumulator`). This is
  the `while` loop, written as a method with loop invariants. The tokenizer is
  a parameter `count: string -> nat`, and the pages are a `seq<string>`. The
  loop's result is characterised without reference to the loop. `StopsAt`
  holds when the loop takes the first `n` pages, each one passing both the
  guard `tokens_read < token_limit` and the budget check, and does not take
  page `n`.
- **Segmenter** (`segmenter.dfy`, module `Segmenter`). This is the list
  comprehension, written as a function with Python's `range` and slice rules.
  A step of zero is an error value, matching the `ValueError` that `range`
  raises.
- **Final summary** (`final_summary.dfy`, module `FinalSummary`). This is the
  `for` loop over segments, written as a method. The completions are an input
  sequence with one response per segment.
- **Output file name** (`output_name.dfy`, module `OutputName`). This models
  `os.path.basename`, `os.path.splitext` and `os.path.join` under POSIX rules.

Two modules are shared or connect the parts. `text.dfy` (module `Text`) models
Python's `str.strip()` and the "strip, then end with a newline" fold `Lines`.
That fold builds both `summary` and `final_summary`. `pipeline.dfy` (module
`Pipeline`) shows that the segments carry the whole accumulated text.

Three edge cases of the code are worth stating plainly:

- `range(0, 0, s)` is empty for `s > 0`, so an empty summary gives zero
  segments, not one empty segment (`Segmenter.SegmentShape`).
- `token_limit == buffer_tokens` makes `segment_size` 0, and `range` then
  raises `ValueError` whatever the summary (`Segmenter.Segment`).
- A negative `segment_size` makes `range(0, len, step)` empty, so it gives no
  segment. This case needs `token_limit < buffer_tokens`, and then no page is
  ever taken (`Segmenter.Segment`, `Pipeline.SegmentsCarryWholeSummary`).

## Model

| member | source | states |
|---|---|---|
| `Text.StripLeftRemovesLeadingSpace` | pdf_summarize.py:83 | The left half of `strip()` removes a run of whitespace from the front and leaves a text that is empty or starts with non-whitespace. |
| `Text.StripRightRemovesTrailingSpace` | pdf_summarize.py:83 | The right half of `strip()` removes a run of whitespace from the back and leaves a text that is empty or ends with non-whitespace. |
| `Text.StripSplits` | pdf_summarize.py:83 | `page_text.strip()`, modelled by `Text.Strip`, is the page with its leading and trailing whitespace removed: the page is whitespace, then the stripped text, then whitespace. A non-empty result neither starts nor ends with whitespace. |
| `Text.StripEmptyIffAllSpace` | pdf_summarize.py:83 | A page strips to the empty text exactly when it is all whitespace (both directions). |
| `Text.Lines` | pdf_summarize.py:83 | The text built from `n` parts is at least `n` characters long, because every part adds its newline. |
| `Text.LinesAppend` | pdf_summarize.py:99-116 | The fold preserves order: the text of two runs of parts is the text of the first run followed by the text of the second. |
| `Text.LinesPart` | pdf_summarize.py:116 | Part `i`, stripped and followed by `"\n"`, sits in the text right after the text of parts `0..i-1`. |
| `Text.LinesNewlineCount` | pdf_summarize.py:116 | When no stripped part holds a newline of its own, the text holds exactly one newline per part. |
| `PageAccumulator.Accumulate` | pdf_summarize.py:65-92 | After the loop, `pages_processed <= len(pages)`. The loop stops where `StopsAt` says. That is the largest count the loop can take. `tokens_read` is the token sum of the pages taken, and it plus `buffer_tokens` fits `token_limit` once a page is taken. `summary` is the taken pages in order, each stripped and ended by a newline. |
| `PageAccumulator.LaterPagesIgnored` | pdf_summarize.py:71-80 | The loop never looks past the page it stops at: another page list that agrees up to and including that page stops at the same place. |
| `PageAccumulator.StopsAtUnique` | pdf_summarize.py:71-89 | The stopping point is unique, so the loop's result is determined by the pages, the tokenizer and the two settings. |
| `PageAccumulator.BudgetKept` | pdf_summarize.py:79-86 | For `0 <= buffer_tokens <= token_limit`, the tokens of the pages taken plus `buffer_tokens` never exceed `token_limit`. |
| `PageAccumulator.NoPageWhenHeadroomExceedsLimit` | pdf_summarize.py:79-83 | With `token_limit < buffer_tokens`, no page is taken and the summary is empty. |
| `PageAccumulator.ThreePageExample` | pdf_summarize.py:71-89 | Pages of 50, 60 and 40 tokens under a limit of 120 with 10 tokens of headroom: exactly two pages are taken. |
| `PageAccumulator.TwoSmallPagesExample` | pdf_summarize.py:71-89 | Two 5-token pages under a limit of 1000 with no headroom: both are taken. |
| `PageAccumulator.TokenGuardStopsLoop` | pdf_summarize.py:71 | The guard `tokens_read < token_limit` stops the loop on its own. A 10-token page fills a limit of 10 with no headroom. A following empty page would pass the budget check, yet it is not taken. |
| `Segmenter.Slice` | pdf_summarize.py:96 | `summary[i:i+segment_size]` is the exact substring when it lies inside the text. It is cut back at the end of the text, and it is empty past the end. |
| `Segmenter.Segment` | pdf_summarize.py:95-96 | The error result (the `ValueError` of `range` with step 0) happens exactly when `token_limit == buffer_tokens`. A negative `segment_size` gives no segment, as `range(0, n, step)` with a negative step is empty. |
| `Segmenter.CeilDivBounds` | pdf_summarize.py:96 | `len(range(0, n, s))` windows of `s` characters cover `n` characters, one window fewer does not, and there is no window exactly when `n == 0`. |
| `Segmenter.WindowAt` | pdf_summarize.py:96 | Window `i` is the text from `i * s` to `min(i * s + s, len)`, and it starts inside the text. |
| `Segmenter.WindowLengths` | pdf_summarize.py:96 | Every window but the last has exactly `s` characters. Every window has between 1 and `s`. |
| `Segmenter.WindowsRebuild` | pdf_summarize.py:96 | The windows of the list comprehension, modelled by `Segmenter.Windows`, glued together in order give back the text. |
| `Segmenter.SegmentRebuildsSummary` | pdf_summarize.py:95-96 | Lossless split: for `segment_size > 0`, the segments concatenated in order equal `summary`. |
| `Segmenter.SegmentShape` | pdf_summarize.py:95-96 | For `segment_size > 0`, there are `ceil(len(summary) / segment_size)` segments, and none exactly when the summary is empty. Every segment but the last has length `segment_size`, and the last has between 1 and `segment_size`. |
| `Segmenter.TwoHundredFiftyCharacterExample` | pdf_summarize.py:95-96 | A 250-character summary with `segment_size` 100 gives segments of 100, 100 and 50 characters. |
| `FinalSummary.Concatenate` | pdf_summarize.py:99-116 | `final_summary` is each response in segment order, stripped and ended by a newline. It is at least as long as the number of segments. It holds exactly one newline per segment when no stripped response contains one. |
| `OutputName.LastIndexOf` | pdf_summarize.py:125 | The index found is that of the last occurrence of the character, or -1 when there is none. |
| `OutputName.Basename` | pdf_summarize.py:125 | `os.path.basename` gives a suffix of the path that holds no `/` and follows the path's last `/`. |
| `OutputName.SplitExt` | pdf_summarize.py:125 | `os.path.splitext` splits the name without loss: root plus extension is the name. |
| `OutputName.SplitExtCutsExtension` | pdf_summarize.py:125 | `os.path.splitext` cuts off an extension exactly when the last path component holds a `.` with a character other than `.` somewhere before it (both directions), and the root is then everything before the last `.`. |
| `OutputName.SplitExtExtension` | pdf_summarize.py:125 | The extension is empty or one `.` followed by characters that are neither `.` nor `/`. |
| `OutputName.SummaryNameHasNoSlash` | pdf_summarize.py:125 | The derived name `<root>_summary.docx` holds no `/`. |
| `OutputName.JoinPlacesInDirectory` | pdf_summarize.py:126 | `os.path.join(output_path, name)`, modelled by `OutputName.Join`, with a `/`-free name is `output_path` followed by `name`, with at most one `/` between them, and `name` is its last component. The `/` is there exactly when `output_path` is non-empty and does not already end in one. |
| `OutputName.OutputInOutputDirectory` | pdf_summarize.py:125-126 | The output file name, modelled by `OutputName.OutputFilename`, lies directly in `output_path`: it is `output_path`, then a `/` exactly when `output_path` is non-empty and does not end in one, then the input's basename without its extension followed by `_summary.docx`, which is its last component. |
| `OutputName.PdfOutputFilename` | pdf_summarize.py:125-126 | For an input `<dir>/X.pdf` whose stem `X` holds no `/` and is not all dots (as any name matched by `*.pdf` is), the output is `os.path.join(output_path, "X_summary.docx")`. |
| `Pipeline.SegmentsCarryWholeSummary` | pdf_summarize.py:65-96 | Whenever segmenting does not raise, the segments of the accumulated summary concatenate back to exactly that summary, whatever the sign of `segment_size`. |

## Left out

- `count_tokens` (pdf_summarize.py:22-34) is not modelled. Its encoding comes from an external tokenizer library, so the model takes it as a parameter `count: string -> nat`, which is deterministic.
- `pdfplumber` opening and `extract_text` (pdf_summarize.py:63, 73) are file I/O and a foreign parser. The pages are a `seq<string>`. A page that yields no text (`None`) makes the program crash when the page is tokenized (line 76), before it reaches `.strip()` (line 83). That crash is not modelled.
- The completion request and its prompt (pdf_summarize.py:104-113) are network I/O. The responses are an input sequence with one entry per segment. `temperature`, `max_tokens` and `stop` pass through untouched.
- `Document`, `add_paragraph` and `save` (pdf_summarize.py:61, 119-127) are output I/O. Only the output file name is modelled.
- Configuration loading, `get_original_cwd`, the `glob` listing and its order, the progress bars and logging (pdf_summarize.py:37-59, 70, 92) are plumbing with nothing to state.
- The per-file driver loop (pdf_summarize.py:59) is not one Dafny member. The number of completions depends on the segments computed inside the loop, so each stage is modelled on its own. `Pipeline` connects the accumulator to the segmenter.
- Paths follow POSIX rules only. On Windows `os.path` also treats `\` as a separator.
- Python integers are unbounded, like Dafny's `int`, so there is no overflow to model.
