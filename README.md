# ThreatScrape, modelled in Dafny

ThreatScrape looks for open-source threat-intelligence reports about a named
threat actor. One run of `threatscrape.py`:

1. strips the search keyword given on the command line and exits with status 1
   when nothing is left;
2. loads `config.json` (or the file named by `--config`), exiting with status 1
   when it is missing or malformed;
3. asks the Gemini generative-language API for aliases of the keyword and
   parses its comma-separated reply, falling back to the keyword alone;
4. builds a Google dorking query: the quoted aliases joined by `OR` in
   parentheses, then one `-site:` term per excluded site, then one `intext:`
   term per required word;
5. pages through the Google Custom Search API at start offsets
   `1, 11, 21, …` up to `TOTAL_RESULTS` (default 50), appending each page's
   items, skipping pages without items and stopping at the first failed request;
6. when anything was found, writes all results to
   `<keyword>_search_results.json` and a `Title,Link` table to
   `<keyword>_search_results.csv`, spaces in the keyword becoming underscores.

The model keeps this deterministic layer and replaces the two web services by
functions from the request sent to an abstract reply:

- `GeminiService` maps a `GeminiRequest` to `RequestError`, `NoCandidates`,
  `NoParts` or `Text(s)`.
- `SearchServer` maps a `SearchRequest` (key, engine id, query, page size and
  start offset) to `Failed` or `Page(items)`, where `items` is `None` when the
  reply has no `"items"` key.

Because the search returns the list of requests it sent, "no request is issued"
and "no page after the first failure is requested" are statements about that
list.

Modules, one per component:

| file | module | models |
|---|---|---|
| wrappers.dfy | `Wrappers` | `Option` and `Result` |
| pystr.dfy | `PyStr` | Python's `str.strip()`, `str.split(c)`, `sep.join(xs)`, `str.replace(a, b)` |
| settings.dfy | `Settings` | the configuration object and its `config.get` defaults |
| keywords.dfy | `Keywords` | `get_related_keywords` |
| query.dfy | `Query` | `build_google_dorking_query` |
| search.dfy | `Search` | `google_search`: the offset range, the page loop, the accumulated results |
| output.dfy | `Output` | `save_results_to_csv` (rows written through a `CsvWriter` object), the keyword check and the file names |
| pipeline.dfy | `Pipeline` | `main` |

Three behaviours of the code are easy to misread, and the model keeps them as
written:

- Alias parsing tests each comma-separated fragment for emptiness before
  stripping it. A fragment of spaces only is therefore kept, as an empty
  alias. Only a fragment that is empty to begin with is dropped. It is not
  "strip, then drop empties".
- The number of results is not capped at `TOTAL_RESULTS`. The cap only decides
  how many pages are requested, and each page may hold up to ten items
  (`Search.ResultsNotCapped`: 30 results for a cap of 25).
- A page without items does not end the search. Only a failed request does.

## Model

| member | source | states |
|---|---|---|
| PyStr.Strip | threatscrape.py:40 | `str.strip()` yields a trimmed text, no longer than its input, that is empty exactly when the input is all whitespace |
| PyStr.StripIsSlice | threatscrape.py:132 | the stripped text is a slice of the input with only whitespace before and after it |
| PyStr.StripIdempotent | threatscrape.py:132 | stripping twice is stripping once |
| PyStr.StripPadded | threatscrape.py:40 | whitespace around a trimmed text is removed and nothing else is |
| PyStr.SplitFragments | threatscrape.py:40 | `split(",")` gives one more fragment than there are commas, and no fragment holds a comma |
| PyStr.JoinSplit | threatscrape.py:40 | joining the fragments of `split(c)` with `c` gives back the original text |
| PyStr.SplitJoin | threatscrape.py:40 | splitting the `c`-join of one or more `c`-free words gives back the words |
| PyStr.JoinAppend | threatscrape.py:51-59 | for non-empty `xs` and `ys`, `sep.join(xs + ys)` is the join of `xs`, then `sep`, then the join of `ys` |
| PyStr.ReplaceChar | threatscrape.py:148-149 | `replace(' ', '_')` keeps the length, changes every space into an underscore, leaves every other character alone, and leaves no space |
| Keywords.Expand | threatscrape.py:23-46 | the failure reason is `MissingKey` exactly for a missing or empty key, `RequestFailed` exactly for a failed request, `UnexpectedShape` exactly for a reply lacking `candidates` or `parts`; only a reply text succeeds |
| Keywords.RelatedKeywords | threatscrape.py:21-46 | without a truthy Gemini key, after a failed request, or for a reply without `candidates` or `parts`, the keywords are exactly `[term]`; for a reply text they are the parsed aliases of that text |
| Keywords.KeepStrippedAppend | threatscrape.py:40 | filtering and stripping works fragment by fragment: the result for two runs of fragments is the result for the first followed by that for the second |
| Keywords.FragmentLands | threatscrape.py:40 | an empty fragment adds nothing; a non-empty fragment adds exactly one alias, itself stripped, right after the aliases of the fragments before it, so order is kept |
| Keywords.ParsedAliasesClean | threatscrape.py:40 | every parsed alias is trimmed and holds no comma |
| Keywords.ParseJoinedAliases | threatscrape.py:40 | a reply of trimmed, comma-free aliases joined with `", "`, the first one not empty, parses back to exactly those aliases |
| Keywords.ParseExample | threatscrape.py:40 | the reply `"A, B ,C"` parses to `["A", "B", "C"]` |
| Keywords.ParseBlankFragment | threatscrape.py:40 | the reply `"A, ,B"` parses to `["A", "", "B"]`: a whitespace-only fragment is kept as `""` |
| Keywords.ParseEmptyFragment | threatscrape.py:40 | the reply `"A,,B"` parses to `["A", "B"]`: a truly empty fragment is dropped |
| Keywords.EmptyReplyGivesNoKeywords | threatscrape.py:38-42 | a reply whose text is empty gives no keyword at all, not the fallback `[term]` |
| Query.BuildQuery | threatscrape.py:59 | the query is never shorter than `"()  "` and always starts with `(` |
| Query.QueryIsTokenList | threatscrape.py:51-59 | with sites and in-text words present, the query is the space-join of the OR-group, each `-site:` term and each `intext:` term, in that order |
| Query.EmptyGroupsLeaveSpaces | threatscrape.py:53-59 | an empty exclusion list leaves two spaces after the OR-group; an empty in-text list leaves a trailing space; empty groups are not omitted |
| Query.SingleKeywordGroup | threatscrape.py:51 | the fallback keyword list `[term]` gives the group `("term")` |
| Query.QueryOfTwoKeywords | threatscrape.py:51-59 | keywords X and Y, site a.com and word malware give `("X" OR "Y") -site:a.com intext:malware` |
| Search.RangeShape | threatscrape.py:77 | for a positive step, `range(start, stop, step)` yields `start + k*step` for each k while below `stop`, and stops at the first value that is not |
| Search.OffsetsShape | threatscrape.py:68-77 | the offsets are `1 + k*pageSize`, strictly increasing, each in `1..total`; there are ceil(total/pageSize) of them, and none when total < 1 |
| Search.OffsetsExample | threatscrape.py:68-77 | a cap of 25 gives offsets 1, 11, 21; the default cap of 50 gives 1, 11, 21, 31, 41 |
| Search.SentShape | threatscrape.py:77-101 | the requests sent are those of the offsets in order, every one but the last succeeded, and a search stopping early stopped on a failure |
| Search.CollectedIsGathered | threatscrape.py:88-97 | the result is the in-order concatenation of the items of the pages actually requested |
| Search.StopsAtFirstFailure | threatscrape.py:99-101 | after a first failure at offset i, exactly i + 1 requests were sent and the result is what the first i pages gave |
| Search.CollectedGrows | threatscrape.py:93-94 | the accumulator only grows: the result after j pages is a prefix of the result after k pages, for j <= k |
| Search.FullPages | threatscrape.py:77-97 | when every page holds n items and none fails, the result holds n items per offset |
| Search.ResultsNotCapped | threatscrape.py:68-103 | with a cap of 25 and full pages of ten, the result holds 30 items: the cap bounds requests, not results |
| Search.Paginate | threatscrape.py:77-101 | the page loop returns exactly the specified results and sent requests |
| Search.GoogleSearch | threatscrape.py:64-103 | without a truthy Google key or CX it returns `[]` and sends nothing; otherwise it returns the items gathered over `range(1, total+1, pageSize)` up to the first failure, and the requests sent |
| Output.CsvWriter.WriteRow | threatscrape.py:115 | a written row is appended after the rows already written |
| Output.SaveResultsToCsv | threatscrape.py:111-120 | the header `["Title", "Link"]`, then exactly one two-cell row per result in order, holding its title and link or `"N/A"` for a missing one |
| Output.CheckKeyword | threatscrape.py:132-137 | a keyword that is all whitespace is rejected; otherwise the keyword kept is non-empty, trimmed, and a slice of the argument with only whitespace around it |
| Output.FileNamesShape | threatscrape.py:148-149 | each file name is the keyword with every space made an underscore, followed by `_search_results.json` or `_search_results.csv`; it holds no space |
| Output.FileNamesDiffer | threatscrape.py:148-149 | the two output files never share a name |
| Output.FileNamesCollide | threatscrape.py:148-149 | keywords `"APT 28"` and `"APT_28"` get the same output files |
| Pipeline.Run | threatscrape.py:129-157 | an empty keyword or a missing configuration exits with status 1, the keyword check coming first; otherwise the query is built from the expanded keywords, no request is sent exactly when credentials are missing or the cap is below 1, with credentials the requests sent are those of the offsets up to the first failure, and files are written, named from the keyword, only when the search found something, the CSV holding the header and one `[title or "N/A", link or "N/A"]` row per result |

## Left out

- HTTP requests, `raise_for_status`, timeouts and JSON decoding: the two services are functions from the request to an abstract reply.
- Exceptions other than `RequestException`: an empty `candidates` list, or an empty `parts` list, raises an uncaught `IndexError`. A `candidates[0]` without `content`, or a `parts[0]` without `text`, raises `KeyError`. The model does not represent these crashes.
- `load_config`: the file read and the JSON parse are I/O. `Pipeline.Run` receives the parsed configuration, or `None` when the file is missing or malformed. Typing of configuration values (a non-integer `TOTAL_RESULTS`, a non-list `EXCLUDED_SITES`) is not modelled.
- `save_results_to_json` and the CSV file itself: serialisation, `csv.writer` quoting and the file writes are library I/O. The model returns the results the JSON file would hold, each reduced to its title and link, and the rows written to the CSV file.
- Result fields: `Search.Item` keeps only the `title` and `link` of a result, the two fields the CSV reads. The other fields a result carries, which `save_results_to_json` writes, are not modelled.
- `time.sleep(1)` between pages, `logging` and the final `print` of each result: side effects with no logical content.
- `parse_arguments`: argparse handling. `Pipeline.Run` takes the raw keyword argument. The `--config` path is represented only by the configuration it yields.
- Search.GoogleSearch: requires a positive page size. `main` always passes 10. Python's `range` raises `ValueError` for a step of 0, and a negative step is never used.
