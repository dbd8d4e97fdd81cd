# CKAN chat pipeline: dataset and resource selection

This project models the deterministic core of `CKANChatQA.forward` in
`dspy/pipeline.py`, a question-answering pipeline over the City of Toronto
CKAN open-data catalog. A language model turns the question into keywords,
the catalog is searched, a language model picks one of the CSV-bearing
results, its details are fetched, its first CSV file is downloaded, and a
language model answers from a sample of it. The rules between those calls
are modelled as Dafny functions over sequences and strings, with lemmas:

1. the search query is the first comma-separated keyword that is not blank
   after `strip()`, or the raw keyword string when all are blank;
2. a resource qualifies when its format, lower-cased, is `"csv"` and its URL
   ends with `".csv"` (a missing key reads as `""`);
3. the candidates are the qualifying search results, in search order, at most 5;
4. each candidate gets a summary line `[i] Title: …\nDescription: …\nFormats: …`
   whose description is the notes cut to 200 characters, with no ellipsis;
5. an index from the selector outside `[0, len)` becomes 0;
6. the resource downloaded is the first qualifying resource of the freshly
   fetched package, and without one the reply is a fixed message naming the
   package by title, or by id when it has no title;
7. the row count of the download is its number of lines, as iterating over
   `io.StringIO` yields them, minus the header line.

The files:

- `py_str.dfy` (module `PyStr`): the Python string built-ins these rules use
  (`isspace`, `strip`, `split`, `join`, `lower` on ASCII letters, `endswith`,
  `s[:n]`, `str()` of a non-negative int, line iteration of `io.StringIO`).
  `strip`, `split`/`join`, `str()` and the `io.StringIO` lines come with
  lemmas that pin down what they compute; `isspace` and `endswith` are plain
  definitions. `Count`, the number of occurrences of a character, is not a
  call of the program: it is the reference count that `RowCount` and
  `LinesCount` state the number of lines by.
- `catalog.dfy` (module `Catalog`): the parts of a package and resource
  record that the pipeline reads, and the CSV test.
- `pipeline.dfy` (module `Pipeline`): rules 1 to 7 and `Forward`, which
  composes them in the order of `forward()`.

The language model's outputs and the HTTP calls are parameters of `Forward`:
`search` stands for `package_search` followed by `.get("results", [])`,
`select` for the dataset selector given the summary lines, `fetch` for
`package_show`, and `download` for the text of the CSV file.

## Model

| member | source | states |
|---|---|---|
| `Pipeline.KeywordList` | dspy/pipeline.py:115 | The kept keywords are all non-empty; the list is empty exactly when every comma-separated piece strips to nothing; otherwise its head is the stripped form of the first piece that is not blank |
| `Pipeline.SearchQuery` | dspy/pipeline.py:115-119 | When every piece is blank the query is the raw keyword string unchanged; otherwise it is the non-empty stripped form of the first non-blank piece |
| `Pipeline.SearchQueryIsCleanToken` | dspy/pipeline.py:115-119 | Whenever some comma-separated piece is not blank (so the query comes from the keyword list), the query is non-empty, contains no comma and neither starts nor ends with whitespace |
| `Catalog.CsvResourceFields` | dspy/pipeline.py:125-129 | A resource qualifies iff both the format and the URL keys are present, the format is "csv" in any letter case, and the URL ends with ".csv" exactly (the suffix check is case-sensitive) |
| `Catalog.AnyCsvIff` | dspy/pipeline.py:126-128 | `any()` over the resources holds iff some resource qualifies |
| `Pipeline.CsvPackages` | dspy/pipeline.py:130 | The filtered list is no longer than the results, holds only packages with a qualifying resource, and is empty iff no result has one |
| `Pipeline.Candidates` | dspy/pipeline.py:130-133 | At most 5 candidates, each with a qualifying resource; the list is empty exactly when no search result qualifies, which is when the pipeline replies "No datasets with CSV resources found." |
| `Pipeline.CsvPackagesPositions` | dspy/pipeline.py:130 | The filter keeps exactly the qualifying results: the i-th kept package is the result at the i-th qualifying position, positions strictly increase, and a position is kept iff its package qualifies |
| `Pipeline.CandidatesAreFirstQualifying` | dspy/pipeline.py:130 | The candidates are the results at the first min(5, n) qualifying positions, in search order |
| `Pipeline.CandidatesIgnoreLaterResults` | dspy/pipeline.py:130 | Once 5 qualifying results have been seen, appending further results leaves the candidates unchanged |
| `Pipeline.Summaries` | dspy/pipeline.py:136-139 | One summary per candidate, in candidate order: line i is the rendered summary of candidate i (its index, title, description and formats, whose content `RenderIndex`, `SummaryDescription` and `SummaryFormats` pin down), and the number in "[i]" at its head reads back as i |
| `Pipeline.RenderIndex` | dspy/pipeline.py:137 | The index written at the head of a summary line is recovered by reading the digits between "[" and the first "]" |
| `Pipeline.SummaryDescription` | dspy/pipeline.py:137 | The description is a prefix of the notes (nothing appended): all of them when they have at most 200 characters, otherwise exactly 200 |
| `Pipeline.SummaryFormats` | dspy/pipeline.py:137 | For a package with at least one resource and no comma in any format, the formats part lists every resource's format, qualifying or not, in resource order: split on commas it gives the first format and then each further one after the space of ", " |
| `Pipeline.ClampIndex` | dspy/pipeline.py:144-150 | The index used is always in bounds; an in-range selector index is kept and any other becomes 0 |
| `Pipeline.FirstCsvIndex` | dspy/pipeline.py:158-161 | None iff no resource qualifies; otherwise the position of a qualifying resource with no qualifying resource before it |
| `Pipeline.ChooseResource` | dspy/pipeline.py:157-161 | None iff the fetched package has no qualifying resource; otherwise its first qualifying resource |
| `Pipeline.RowCount` | dspy/pipeline.py:105 | The row count is the number of '\n' characters, plus one for a last line without '\n', minus one; an empty text gives -1 |
| `Pipeline.Forward` | dspy/pipeline.py:157-163 | Whenever an answer is to be synthesised, the resource it is drawn from has a URL, and that URL ends with ".csv" |
| `Pipeline.ForwardNoDatasets` | dspy/pipeline.py:125-133 | The reply is "No datasets with CSV resources found." exactly when no search result has a qualifying resource |
| `Pipeline.ForwardUsesSelection` | dspy/pipeline.py:142-150 | With candidates, the package used is the candidate at the selector's index when it is in range and the first candidate otherwise; the outcome is an answer from that package exactly when its fetched details have a qualifying resource, and otherwise the "No suitable CSV data file" reply naming it |
| `Pipeline.ForwardAnswer` | dspy/pipeline.py:150-170 | An answer comes from a candidate, uses the first qualifying resource of that candidate's freshly fetched details, and carries the resource's name, its URL and the row count of the downloaded text |
| `Pipeline.ForwardNoCsvFile` | dspy/pipeline.py:174-176 | Any reply other than the no-datasets one is "No suitable CSV data file found in package '<title or id>'." naming the selected candidate (the selector's index after clamping), whose fetched details have no qualifying resource |
| `Pipeline.ForwardStopsWithoutCandidates` | dspy/pipeline.py:131-133 | Without qualifying results the reply is the no-datasets message whatever the selector, package_show and the download would return |
| `Pipeline.MessagesDiffer` | dspy/pipeline.py:133-176 | The "No suitable CSV data file" reply can never be mistaken for the "No datasets" reply |
| `PyStr.TrimStartSpec` | dspy/pipeline.py:115 | `lstrip()` removes a whitespace-only prefix and leaves a string that is empty or starts with a non-space |
| `PyStr.TrimEndSpec` | dspy/pipeline.py:115 | `rstrip()` removes a whitespace-only suffix and leaves a string that is empty or ends with a non-space |
| `PyStr.StripIsUnique` | dspy/pipeline.py:115 | Any cut of a string into whitespace, a middle that neither starts nor ends with whitespace, and whitespace, has `strip()` as its middle |
| `PyStr.StripEmptyIff` | dspy/pipeline.py:115 | `strip()` gives "" iff the string is all whitespace, and otherwise a string whose ends are not whitespace |
| `PyStr.JoinSplit` | dspy/pipeline.py:115 | Joining the pieces of `split(sep)` with sep gives the input back |
| `PyStr.SplitJoin` | dspy/pipeline.py:115 | Splitting pieces joined by a separator none of them contains gives the pieces back |
| `PyStr.Split` | dspy/pipeline.py:115 | `split(sep)` gives at least one piece and no piece contains the separator |
| `PyStr.Lower` | dspy/pipeline.py:127 | ASCII lower-casing keeps the length and maps each character independently (A-Z to a-z, every other character unchanged) |
| `PyStr.Take` | dspy/pipeline.py:137 | `s[:n]` is a prefix of s of length min(n, len(s)) |
| `PyStr.DecimalRoundTrip` | dspy/pipeline.py:137 | Reading back the decimal notation of a non-negative index gives the index |
| `PyStr.LinesConcat` | dspy/pipeline.py:105 | The lines `io.StringIO` yields concatenate back to the text |
| `PyStr.LinesAreLines` | dspy/pipeline.py:105 | No line is empty and none holds '\n' before its last character |
| `PyStr.LinesTerminated` | dspy/pipeline.py:105 | Every line but the last ends with '\n' |
| `PyStr.LinesCount` | dspy/pipeline.py:105 | The number of lines is the number of '\n' plus one for an unterminated last line |

## Left out

- The language-model modules (keyword extraction, dataset selection, answer
  synthesis): their outputs are arbitrary inputs (`keywords`, `select`), and
  the final answer is represented by the `Synthesize` outcome carrying the
  context handed to the synthesiser.
- The HTTP calls (`search_datasets`, `get_package`, the CSV download,
  `raise_for_status`): they are the parameters `search`, `fetch` and
  `download`; the query string is concatenated into the URL without escaping,
  which is not modelled.
- `pd.read_csv` and `sample.to_dict`: the column names and sample rows of the
  context are not modelled, only the resource name, URL and row count.
- Logging with `print`/`pprint`, and the catch-all `except Exception` that
  turns any error into "An error occurred while processing your question: …".
  JSON `null` and non-string values are outside the model: every field is
  either absent or a string, and `id` is always present. In the program a
  `null` or non-string `format` or `notes`, or a package without `"id"`,
  raises and reaches the catch-all; a `null` title raises nothing and is
  shown, and named in the "No suitable CSV data file" reply, as `None`.
- Pipeline.Forward: the download is assumed to succeed and to parse as CSV.
  In the program `raise_for_status()` and `pd.read_csv` run before the row
  count, so an HTTP error, an empty body or an unparsable one ends in the
  catch-all reply; the model instead returns `Synthesize` with the row count
  of whatever text `download` gives (-1 for an empty text), which the
  program never hands to the synthesiser.
- PyStr.Lower: lower-cases ASCII letters only. Python's `str.lower()` also
  maps other letters, may change the length (`'İ'`) and depends on context
  (final sigma); for the comparison with `"csv"` the verdict is the same.
- The selector's `best_index` is taken to be an `int`; how the selector
  coerces other model outputs is not modelled.
- `dspy/server.py` (the HTTP endpoint and model configuration) has no logic of
  its own and is not part of this model.
