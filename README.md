# Bill-summary chunking pipeline

This project models the text pipeline inside the `/summary` handler of a
small Flask service that summarises legislative bills. The service scrapes
a bill's text from a web page, cuts the text into blank-line-delimited
sections, drops the page-break sections (those starting with `[[Page`),
keeps the sections at positions 400 up to but not including 500, wraps each
one in a fixed "consultant for a CFO" prompt, and sends every prompt to a
completion API through a thread pool. The resulting summaries come back in
prompt order.

The model is pure Dafny functions over strings (`seq<char>`) and lists
(`seq`), matching the source's use of `str.split`, list comprehensions, a
slice and `executor.map`:

- `Text`: Python's `str.find`, `str.split(sep)`, `sep.join`, `str.startswith`
  and `str.strip()`, with the lemmas about split (round trip, shape,
  uniqueness, piece count) and strip.
- `Seqs`: the comprehension map, Python slicing with clamped non-negative
  bounds, and subsequences.
- `Executor`: the ordering guarantee of `Executor.map`. Tasks may finish in
  any order, and results are gathered by submission index.
- `BillSummary`: the pipeline's constants (the separator, the page marker,
  the window 400 to 500, the prompt text), the filter, the prompts and the
  summaries, with the lemmas about how they compose.
- `Wrappers`: the `Option` type.

The completion API is a parameter `complete: string -> string` that stands
for `response.choices[0].text`. `Summarize` is that text passed through
`Strip`, as in app.py:63.

Following the code: a blank or missing `name` does not short-circuit the
handler. It scrapes, stores and summarises before it tests `name`
(app.py:111-131), so the summaries are the same function of the scraped
text in both branches. The re-chunking idempotence (joining the kept
sections with blank lines and chunking again gives the same sections) holds
only when at least one section survives the filter.
`BillSummary.RechunkIdempotent` states it with that condition, and
`BillSummary.RechunkAllPageBreaks` shows the exception: a text made only of
page-break sections re-chunks to one empty section.

## Model

| member | source | states |
|---|---|---|
| `Text.StartsWithConcat` | app.py:118 | `s.startswith(p)` (`Text.StartsWith`) holds exactly when `s` is `p` followed by the rest of `s` |
| `Text.FindFrom` | app.py:117 | the search that `split` uses: the result is an occurrence of the separator at or after the start, and no occurrence lies between the start and it; `None` only when there is no occurrence at all from the start on |
| `Text.Find` | app.py:117 | the leftmost occurrence of the separator, or `None` when the text holds none |
| `Text.FindContains` | app.py:117 | the search succeeds exactly when the text contains the separator |
| `Text.Split` | app.py:117 | `str.split(sep)` always returns at least one piece |
| `Text.JoinSplit` | app.py:117 | joining the pieces of `Split(s, sep)` with `sep` gives back `s` exactly |
| `Text.SplitShape` | app.py:117 | every piece of a split except the last ends where the leftmost separator starts, and the last piece holds no separator |
| `Text.SplitPiecesExcludeSeparator` | app.py:117 | no piece of a split contains the separator |
| `Text.SplitJoin` | app.py:117 | splitting the join of any list with the split shape gives back that list |
| `Text.SplitCharacterization` | app.py:117 | `Split(s, sep) == parts` if and only if `parts` joins to `s` and has the split shape, so split is the unique leftmost non-overlapping decomposition |
| `Text.SplitCount` | app.py:117 | every cut consumes a whole separator: `(pieces - 1) * |sep| <= |s|` |
| `Text.StripLeading` | app.py:63 | the result is a suffix of the input, everything dropped is whitespace, and the result does not start with whitespace |
| `Text.StripTrailing` | app.py:63 | the result is a prefix of the input, everything dropped is whitespace, and the result does not end with whitespace |
| `Text.Strip` | app.py:63 | `str.strip()` returns a contiguous slice with only whitespace outside it, and that slice neither starts nor ends with whitespace |
| `Text.StripIdempotent` | app.py:63 | stripping a stripped string changes nothing |
| `Seqs.Map` | app.py:124-128 | a comprehension or `map` yields one result per element, and result `i` is `f` of element `i` |
| `Seqs.Slice` | app.py:126 | `xs[lo:hi]` has length `max(0, min(len, hi) - lo)`, and element `k` is `xs[lo + k]` |
| `Seqs.SliceDecomposes` | app.py:126 | `xs[:lo] + xs[lo:hi] + xs[hi:] == xs` for `lo <= hi`: the slice is exactly the elements between the clamped bounds |
| `Seqs.SubsequenceMultiset` | app.py:118 | a subsequence holds each element at most as often as its source list |
| `Executor.Complete` | app.py:123-128 | once tasks finish in a given order, each finished task's slot holds `f` of its own task, and the other slots are untouched |
| `Executor.Gather` | app.py:128-129 | reading the slots back in submission order gives slot `i` at position `i` |
| `Executor.RunMapIsMap` | app.py:123-129 | for every completion order, one run of the pool (`RunMap`: complete in that order, then gather) equals the sequential map |
| `BillSummary.FilterPages` | app.py:118 | the filter never grows the list, and no kept section is a page break (`IsPageBreak`: `startswith('[[Page')`) |
| `BillSummary.SectionsCharacterization` | app.py:117-118 | `Sections`, the bill text split on blank lines with page breaks dropped, is exactly an order-preserving selection from the split holding every non-page-break piece as often as the split does; no section is a page break or contains a blank line |
| `BillSummary.FilterPagesKeepsExactly` | app.py:118 | every section that is not a page break is kept exactly as often as it occurs, and nothing else is kept |
| `BillSummary.FilterPagesIsSubsequence` | app.py:118 | the kept sections keep their original relative order |
| `BillSummary.FilterPagesUnique` | app.py:118 | an order-preserving selection with no page breaks and the same counts as the filter's output is that output |
| `BillSummary.FilterPagesCharacterization` | app.py:118 | a list is the filter's result if and only if it is an order-preserving selection that holds no page break and every other section as often as the input does |
| `BillSummary.FilterPagesAppend` | app.py:118 | filtering a concatenation is the concatenation of the filtered parts |
| `BillSummary.FilterPagesKeepsClean` | app.py:118 | a list with no page breaks passes through the filter unchanged |
| `BillSummary.FilterPagesIdempotent` | app.py:118 | filtering the filter's output returns that same output |
| `BillSummary.FilterPagesKeepsSplitShape` | app.py:117-118 | when at least one section survives, the filtered sections still have the split shape |
| `BillSummary.RechunkIdempotent` | app.py:117-118 | when at least one section survives, re-chunking the blank-line join of the sections gives the same sections |
| `BillSummary.RechunkAllPageBreaks` | app.py:117-118 | when no section survives, re-chunking gives one empty section rather than none |
| `BillSummary.SplitRoundTrip` | app.py:117 | splitting the bill text on blank lines gives at least one section, and re-joining them with blank lines reconstructs the text |
| `BillSummary.SplitSectionsHaveNoBlankLine` | app.py:117 | no section from the split contains a blank line |
| `BillSummary.SplitExamples` | app.py:117 | matching is leftmost and non-overlapping: `"a\n\n\nb"` splits to `["a", "\nb"]`; an empty text gives `[""]` |
| `BillSummary.Prompt` | app.py:125 | a prompt is the template prefix followed by the section: its length is the sum, it starts with the prefix, and what follows the prefix is the section |
| `BillSummary.BuildPrompts` | app.py:124-127 | one prompt per section, each starting with the fixed template prefix, from which the section is recovered exactly |
| `BillSummary.PromptCount` | app.py:124-126 | for `PromptsFor` (the prompts over the window of sections) there are `max(0, min(n, 500) - 400)` prompts for `n` filtered sections: at most 100, none when `n <= 400`, and exactly 100 when `n >= 500` |
| `BillSummary.PromptAt` | app.py:124-126 | in `PromptsFor`, prompt `i` is the template prefix followed by filtered section `400 + i` |
| `BillSummary.PromptRoundTrip` | app.py:125 | a prompt starts with the prefix, and removing the prefix gives back its section, so distinct sections give distinct prompts |
| `BillSummary.ShortTextHasNoPrompts` | app.py:117-126 | a bill text shorter than 800 characters has at most 400 sections, and so gets no prompts |
| `BillSummary.NotFoundHasNoSummaries` | app.py:96-97 | when the bill container is missing, the scraped text is the fallback message (`ExtractedText(None)`), and it gets no summaries |
| `BillSummary.Summarize` | app.py:52-63 | a summary is the completion's text with its surrounding whitespace removed: a contiguous slice of it with only whitespace outside, neither starting nor ending with whitespace |
| `BillSummary.SummariesInOrder` | app.py:122-129 | `Summaries` has one summary per prompt, and summary `i` is the stripped completion of prompt `i` |
| `BillSummary.SummariesAreStripped` | app.py:63 | every summary is its own strip |
| `BillSummary.SummariesIgnoreCompletionOrder` | app.py:123-129 | for every order in which the pool finishes the tasks, the gathered summaries are the in-order map over the prompts |
| `BillSummary.PipelineSummaries` | app.py:117-129 | the handler's summaries (`SummariesFor`): `max(0, min(n, 500) - 400)` of them (exactly 100 when `n >= 500`), and summary `i` is the stripped completion of the prefix followed by filtered section `400 + i` |

## Left out

- Browser scraping in `get_text_from_web` (app.py:67-92) drives Selenium and BeautifulSoup. Its result is an arbitrary input string. Only its fallback message is modelled, by `BillSummary.ExtractedText`, a plain definition without a contract of its own (its use is stated by `BillSummary.NotFoundHasNoSummaries`).
- The bounded 10-second wait for the container (app.py:85-86) raises on timeout. That path is part of the browser driver and is not modelled.
- The Cosmos DB client, the container setup and `store_scraped_text` (app.py:27-50) are network I/O, and the generated `uuid4` id (app.py:115) is random. None of them is modelled.
- The OpenAI request (app.py:53-62) is a remote, sampling call. It becomes the parameter `complete`, a function of the prompt, so repeated calls with one prompt are assumed to agree.
- The request's stop sequence `"\\n\\n"` (app.py:61) and the API's truncation at it are not modelled.
- An API error, or a response without `choices`, raises out of the pool (app.py:63, 128-129). Only successful calls are modelled.
- The thread pool's concurrency (app.py:123) is modelled only through completion orders in `Executor`. Timing, the worker count and failing tasks are not modelled.
- Flask routes, templates, the favicon route, the redirect branch and the `print` logging (app.py:50, 90, 99-107, 131-136) are web and console I/O.
- Configuration from `os.environ`, `load_dotenv` and `openai.api_key` (app.py:27-35, 65, 120) is process environment.
- Text.Split: requires a non-empty separator. Python raises `ValueError` for an empty one, but the handler only ever splits on the constant `"\n\n"`.
- Seqs.Slice: takes non-negative bounds only, because the handler slices with the constants 400 and 500. Python's negative indices are not modelled.
- BillSummary.Prompt: `template.format(section)` is modelled as the prefix followed by the section. This is exact because the template's only replacement field, `{}`, ends it, and it has no other braces.
- Dafny's `char` is a Unicode scalar value, so the model covers only strings without lone surrogates. A Python `str` can also hold lone surrogates such as `'\ud800'`. No encoding is involved.
