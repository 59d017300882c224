# wiki-scraper, modelled in Dafny

A model of the logic in the wiki-scraper pipeline. The pipeline fetches the
intro of a Wikipedia page, appends it as a record to a JSON list file (the
raw-data store), cleans and truncates the summaries, and exports them as a
one-column CSV. The model covers four pieces:

- the **record store update** in both `wikipedia_scraper` variants.
  `src/api_utils.py` dedups by the record itself. `src/scraper.py` recovers
  from an undecodable file, but its membership test checks the one-element
  list `[record]`.
- **text cleaning** (`clean_summary`): whitespace runs collapse to one space,
  the ends are stripped, and characters outside `[a-zA-Z0-9.,!?'" ]` are
  deleted.
- **truncation** (`truncate_summary`): a line longer than `max_length` keeps
  its first `max_length` characters, right-stripped, followed by `...`.
- **CSV preparation** (`save_to_csv`): lines are stripped and blank ones
  dropped. Empty input and a path not ending in `.csv` are reported as errors.

All four are pure functions over immutable values:

- A file the store reads is a `StoreFile`: `Absent`, `Empty` (size zero),
  `Undecodable` (readable text that is not JSON), or `Decoded(json)`.
- A text file is a `TextFile`: `Missing`, or the lines it holds.
- A raised exception is `Err(error)`. For the store operations, `Err` also
  means that no file was written.

Modules:

- `Base`: errors, the `Result` type, Python's whitespace test, and
  `strip`/`lstrip`/`rstrip`. It also holds the sequence helpers: filter,
  subsequence, and a fail-fast list comprehension (`MapAll`).
- `JsonStore`: decoded JSON values and the store file state.
- `ApiUtils`: `src/api_utils.py`.
- `Scraper`: `src/scraper.py`.
- `DataProcessing`: `src/data_processing.py`.
- `Storage`: `src/storage.py`.

Behaviour of the code worth noting:

- `src/api_utils.py` does not recover from a JSON decode error. It catches
  only `IOError`, so `JSONDecodeError` escapes. Only `src/scraper.py`
  rewrites a corrupted file.
- `src/scraper.py` does not dedup records (see Findings).
- Records are deduplicated by full dict equality. The api_utils record
  includes `Page_ID`.

## Model

| member | source | states |
|---|---|---|
| ApiUtils.TitleValidIff | src/api_utils.py:65-66 | a title passes the check exactly when it has at least one non-whitespace character, so an empty or all-whitespace title is rejected |
| ApiUtils.StoreUpdate | src/api_utils.py:87-106 | a missing or empty file becomes `[rec]`; an undecodable file raises a decode error and a decoded non-list raises "not a valid list", both without a write; on success the file is a list that contains `rec`, the old list is a prefix of the new one, the list grows by at most one element, and the file is unchanged exactly when `rec` was already present |
| ApiUtils.StoreUpdateAppends | src/api_utils.py:98-102 | a record not yet in the list is appended at the end and every earlier element keeps its value and position |
| ApiUtils.StoreUpdateIdempotent | src/api_utils.py:97-102 | running the update a second time with the same record leaves the store as the first run left it |
| ApiUtils.StoreUpdateKeepsNoDuplicates | src/api_utils.py:97-102 | a list without duplicate elements still has none after the update |
| ApiUtils.DistinctRecordsKeepOrder | src/api_utils.py:87-106 | distinct records stored one call at a time into a missing or empty file end up as exactly that list, in call order |
| ApiUtils.StoreAllContains | src/api_utils.py:97-106 | after a run of successful calls, every record passed in is in the stored list |
| ApiUtils.RepeatIsNoOp | src/api_utils.py:98 | a call with a record that an earlier call already stored does not change the store |
| ApiUtils.Scrape | src/api_utils.py:65-111 | an invalid title raises before anything else; a string from the fetcher raises that message before the store is touched; the call succeeds exactly when the title is valid, the fetch gave a page, and the store is missing, empty or a decoded list; it then returns the record `{Title, Page_ID, Summary}` built from the inputs, and the store left behind is exactly what the store step makes of the old file and that record, so the record is in the list |
| Scraper.StoreUpdate | src/scraper.py:41-66 | missing, empty and JSON-undecodable files all become `[rec]` with no error; only a decoded non-list raises; the old list is a prefix of the new one and grows by at most one; the file is unchanged exactly when it already holds the one-element list `[rec]` as an element; otherwise `rec` is added at the end |
| Scraper.AppendsToRecordList | src/scraper.py:52-57 | against a list whose elements are all objects, the membership test never matches, and `rec` is appended even if an equal record is already there |
| Scraper.DuplicateAppended | src/scraper.py:53-54 | storing the same record twice from a missing file gives `[rec, rec]` |
| Scraper.StoreUpdateCorrected | src/scraper.py:43-66 | the store step with the intended membership test on the record itself: missing, empty and undecodable files become `[rec]`, a decoded non-list raises, and on success `rec` is in the list |
| Scraper.CorrectedIdempotent | src/scraper.py:52-57 | the corrected step is idempotent and keeps a duplicate-free list duplicate-free |
| Scraper.AsWrittenVersusCorrected | src/scraper.py:53 | the as-written and corrected steps differ exactly on a list that holds one of `rec` and `[rec]` but not both |
| Scraper.Scrape | src/scraper.py:17-71 | an invalid title raises first; a falsy fetch answer raises; the call succeeds exactly when the title is valid, the fetch answer is truthy, and the file is not a decoded non-list; it returns the one-element list `[{Title, Summary}]`; the store left behind is exactly what the as-written store step makes of the old file and the record, so an undecodable file is replaced by that single record |
| DataProcessing.CollapseWhitespace | src/data_processing.py:42 | the result is no longer than the input; it starts with a space exactly when the input starts with whitespace, and otherwise with the input's first character |
| DataProcessing.CollapseIsCollapsed | src/data_processing.py:42 | the result's only whitespace character is the space and no two spaces are adjacent |
| DataProcessing.CollapseKeepsNonSpace | src/data_processing.py:42 | every non-whitespace character of the input survives collapsing, in order, and no other non-whitespace character appears |
| DataProcessing.CollapseWordPrefix | src/data_processing.py:42 | text with no whitespace passes through collapsing unchanged |
| DataProcessing.CollapseSpaceRun | src/data_processing.py:42 | a whole run of whitespace becomes one space |
| DataProcessing.CollapseWordRun | src/data_processing.py:42 | a word followed by a whitespace run keeps the word and turns the run into one space |
| DataProcessing.CollapseTwoWords | src/data_processing.py:42 | two words separated by any whitespace run collapse to the words joined by exactly one space |
| DataProcessing.CollapseFixpoint | src/data_processing.py:42 | collapsing leaves a string unchanged exactly when the string uses only spaces as whitespace and has no two adjacent spaces |
| DataProcessing.CollapseIdempotent | src/data_processing.py:42 | collapsing twice gives the same result as collapsing once |
| DataProcessing.AllowedHasNoOtherSpace | src/data_processing.py:45 | the allow-list keeps no whitespace character except the space |
| DataProcessing.CleanSummary | src/data_processing.py:38-47 | an empty summary raises and nothing else does; every output character is in the allow-list; the output has no newline, tab or other non-space whitespace; it is a subsequence of the whitespace-collapsed input and never longer than the input |
| DataProcessing.CleanKeepsVisible | src/data_processing.py:42-45 | every allowed character other than the space (letters, digits, `.,!?'"`) appears in the output exactly as in the input, in order |
| DataProcessing.CleanKeepsCleanText | src/data_processing.py:42-47 | a non-empty, already collapsed, all-allowed string with no whitespace at either end is returned unchanged, so the single spaces between words survive cleaning |
| DataProcessing.CleanTwoWords | src/data_processing.py:42-47 | two words of allowed non-space characters separated by any whitespace run clean to the two words joined by exactly one space |
| DataProcessing.CleanExample | src/data_processing.py:42-47 | `"Hello\n\nWorld!!  #1"` cleans to `"Hello World!! 1"`: both whitespace runs become one space and `#` is deleted |
| DataProcessing.CleanMayBeEmpty | src/data_processing.py:42-47 | a non-empty input with no allowed character and no whitespace cleans to the empty string, which is not an error |
| DataProcessing.Truncate | src/data_processing.py:95 | a line no longer than `max_length` comes back unchanged. A longer line comes back as a prefix of `s[:max_length]` followed by `...`: the prefix does not end in whitespace, and everything of the window after it is whitespace. For a non-negative limit the result is at most `max_length + 3` long |
| DataProcessing.TruncateExamples | src/data_processing.py:95 | `abcdefghij` at 5 gives `abcde...`; `abc` at 5 stays `abc`; `abc  def` at 5 gives `abc...` |
| DataProcessing.TruncateAll | src/data_processing.py:94-97 | one output line per input line, in order, each the truncation of the corresponding input |
| DataProcessing.TruncateSummary | src/data_processing.py:88-97 | a missing input file raises; otherwise every line is truncated one-to-one |
| DataProcessing.DefaultKeepsShortLines | src/data_processing.py:76-97 | under the default limit of 500, a file whose lines are all at most 500 characters long comes back unchanged |
| DataProcessing.ReadRawData | src/data_processing.py:16-25 | a missing file raises "not found", a zero-size or undecodable file raises a decode error, and decoded data that is not a non-empty list raises "invalid or empty"; otherwise the list is returned as read |
| DataProcessing.CleanItem | src/data_processing.py:65 | an element that is not a dict fails; a missing, non-string or empty `Summary` is rejected by the cleaner; otherwise the result is the cleaned summary |
| DataProcessing.ProcessData | src/data_processing.py:61-66 | processing succeeds exactly when the store reads as a non-empty list and every element cleans; it then yields one cleaned summary per element, in order; otherwise the error is the read error or the first failing element's error |
| DataProcessing.StoredFileIsReadable | src/data_processing.py:19-23 | whatever the api_utils store step writes is accepted by `read_raw_data` and contains the record just stored |
| Base.TrimStart | src/storage.py:21 | `str.lstrip` (the first half of `strip`): a suffix of the input that is empty or does not start with whitespace |
| Base.Strip | src/storage.py:21 | `str.strip`: the result is never longer than the input and, when non-empty, neither starts nor ends with whitespace |
| Base.StripEmpty | src/storage.py:21 | stripping leaves nothing exactly when the input is all whitespace |
| Base.StripSplit | src/storage.py:21 | the stripped result is a contiguous window of the input, and every character before and after that window is whitespace |
| Base.TrimStartRemovesSpace | src/storage.py:21 | the leading part that `lstrip` (the first half of `strip`) removes is all whitespace |
| Base.FilterStrip | src/data_processing.py:42-45 | deleting every character outside a set that contains no whitespace gives the same result whether or not the input was stripped first |
| Base.TrimEnd | src/data_processing.py:95 | `str.rstrip`: a prefix of the input that is empty or does not end in whitespace |
| Base.TrimEndRemovesSpace | src/data_processing.py:95 | what `rstrip` removes after the prefix is all whitespace |
| Base.Filter | src/data_processing.py:45 | deleting the characters outside a set: the result is no longer than the input, every character in it is in the set, and each comes from the input |
| Base.MapAll | src/data_processing.py:64-66 | a list comprehension whose element step may raise: on success, one result per element |
| Base.MapAllPointwise | src/data_processing.py:64-66 | a list comprehension whose element step may raise succeeds exactly when every element succeeds, and then holds each element's result at its position |
| Base.MapAllFirstError | src/data_processing.py:64-66 | a failing comprehension raises the error of the first failing element |
| Storage.NonEmptyImages | src/storage.py:21 | the comprehension `[f(line) for line in lines if f(line)]`: never more results than lines, none of them empty |
| Storage.NonBlankStripped | src/storage.py:21 | never more summaries than lines; every summary is non-empty with no whitespace at either end |
| Storage.NonBlankStrippedEmpty | src/storage.py:21-24 | no summary is left exactly when every line is empty or whitespace |
| Storage.NonBlankStrippedMembers | src/storage.py:21 | a string is a summary exactly when it is the non-empty strip of some input line |
| Storage.NonBlankStrippedConcat | src/storage.py:21 | the filter works line by line: the summaries of two blocks of lines are the summaries of the first followed by those of the second, so the original order is kept |
| Storage.NonBlankStrippedIdempotent | src/storage.py:21 | filtering the summaries again changes nothing |
| Storage.Rows | src/storage.py:27 | one row per summary, each with the single key `Summary` holding that summary |
| Storage.SaveToCsv | src/storage.py:14-43 | a missing input file is reported first, then an input with only blank lines ("no data", whatever the path); it succeeds exactly when some line is non-blank and the path ends in `.csv`, and then yields one `{Summary}` row per non-blank stripped line, in order; every error is returned as a value, never raised |

## Findings

| source | as written | input that shows it | evidently intended | confidence | as-written member | corrected member |
|---|---|---|---|---|---|---|
| src/scraper.py:53 | `if raw_data not in existing_data` tests the one-element list `[record]` against the stored elements, which are records | a store holding `[R]` and a second call with the same record `R` gives `[R, R]` | test the record itself (`raw_data[0]`), as the "Avoid duplicates" comment and src/api_utils.py:98 do | high (not executed) | Scraper.DuplicateAppended | Scraper.StoreUpdateCorrected |

`Scraper.StoreUpdate` models the test as written. `Scraper.AppendsToRecordList`
shows that the test never matches against a list of records, and
`Scraper.DuplicateAppended` gives the concrete input.

`Scraper.StoreUpdateCorrected` tests the record itself. It keeps the
decode-error recovery. `Scraper.CorrectedIdempotent` proves that it is
idempotent and keeps a list duplicate-free, and
`Scraper.AsWrittenVersusCorrected` pins down exactly where the two differ.

`Scraper.Scrape` still uses the as-written step, because it describes what
`src/scraper.py` does.

## Left out

- HTTP fetching (`fetch_wikipedia_page`, src/api_utils.py:7-54) is network
  I/O. Its answer is an input: a page with id and summary, or an error
  string.
- HTML-to-text extraction with BeautifulSoup (src/scraper.py:28-29) is a
  foreign library. The extracted summary is an opaque input string. The
  source passes the fetcher's dict to the parser, and the model does not
  reproduce that.
- Directory creation, file open/seek/truncate, JSON serialisation
  formatting (`indent=4`), the pandas CSV write, and the text written by
  `process_data`/`truncate_summary` are I/O. A store file is an abstract
  state, and a text file is its list of lines.
- Splitting a text file into lines (`readlines`, `"\n".join`) is left out.
  Truncation and the CSV filter work on given lines, and a kept `\n` is
  just another character of a line.
- `IOError` during a store write is caught and printed in both
  `wikipedia_scraper` variants. File-access failures are not modelled, so
  every modelled store write succeeds.
- Store files whose bytes are not valid text in the locale encoding are
  not modelled. For them `json.load` raises `UnicodeDecodeError`, which
  neither `except json.JSONDecodeError` (src/scraper.py:58) nor
  `except IOError` (src/scraper.py:68) catches, so src/scraper.py raises
  instead of rewriting the file. `Undecodable` stands only for readable
  text that is not JSON.
- Storage.SaveToCsv: an output path with no directory part (such as
  `out.csv`) is treated as valid. In the code, `os.makedirs('')` then
  raises `FileNotFoundError` (src/storage.py:34); it is caught and printed
  and no CSV is written, while the model returns the rows. The same call
  on the output paths of `process_data` (src/data_processing.py:69) and
  `truncate_summary` (src/data_processing.py:100) raises out of those
  functions; writing those files is not modelled at all.
- The placeholder path `'<raw_data_path>'` in src/scraper.py:35 makes
  `os.makedirs('')` fail before the store is reached. The model treats the
  path as a valid location.
- `src/run.py` is a driver with placeholder arguments, and `src/__init__.py`
  only re-exports names. Neither is modelled.
- IsSpace covers the ASCII whitespace Python recognises (space, `\t`, `\n`,
  `\r`, `\v`, `\f`, `\x1c`-`\x1f`). Non-ASCII Unicode whitespace is not
  modelled.
- Titles and summaries are strings. A `None` title or summary, and Python's
  equality between `True` and `1` in dict comparison, are not modelled.
  JSON numbers are integers only, with no floats.
