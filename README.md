# bs4_parser_pep: a Dafny model of the parser's extraction logic

The parser (`src/main.py`) crawls the Python documentation and PEP index
in one of four modes and prints or saves a table:

- `whats-new`: one row (link, title, editor block) per release-notes page;
- `latest-versions`: one row (link, version, status) per anchor of the
  sidebar's version list;
- `download`: saves the PDF (A4) archive under the last segment of its URL;
- `pep`: tallies the status declared on each PEP's page, logs every PEP
  whose status is not one of those its index code allows, and reports the
  tally with a total.

Almost all of the program is network and HTML plumbing. This model keeps
the sequential logic underneath it and takes each page as plain data that
has already been extracted. A fetch that failed is `None` (`Option`).

| module | file | models |
|---|---|---|
| `Wrappers` | wrappers.dfy | `Option` (Python's `None`) and `Result` |
| `Results` | results.dfy | cells, rows, tables, the raised errors, and `Run` (returned `None` / raised / produced rows) |
| `VersionPattern` | version_pattern.dfy | `re.search` with `Python (?P<version>\d\.\d+) \((?P<status>.*)\)` |
| `LatestVersions` | latest_versions.dfy | the sidebar scan and the version rows of `latest_versions` |
| `WhatsNew` | whats_new.dfy | the row loop of `whats_new` |
| `Download` | download.dfy | `archive_url.split('/')[-1]` and what `download` returns |
| `OrderedDict` | ordered_dict.dfy | the insertion-ordered `dict` used for `status_counts` |
| `Pep` | pep.dfy | the tally and reconciliation loop of `pep` |
| `Dispatcher` | dispatcher.dfy | the `None` check in `main` before output |

The model has three parts:

- **Loops as methods.** The routines' loops are methods proved against
  functions that define their results: `WhatsNewRoutine`,
  `LatestVersionsRoutine`, `SelectVersionList` and `PepRoutine`. The
  `None` check of `main` is the method `Dispatch`.
- **Pure parts as functions.** The regex parse, the file-name split and
  the final tally table are functions.
- **Lemmas.** Lemmas state what the results mean.
  - The regex search returns the leftmost, greedy match of the pattern. A
    separate declarative definition says what a match is.
  - The tally has one row per distinct status, in first-seen order.
  - The total is both the sum of the counts and the number of fetched
    pages.
  - A mismatch is logged exactly for the rows whose status is not
    accepted.
  - A `KeyError` is raised exactly when a fetched row's code is missing
    from the expectation table.

**The sidebar scan as written.** The version list is described as "the
sidebar list whose text contains `All versions`". The code does not do
that. In lines 49-54 the `else: raise` belongs to the `if` inside the
loop. So only the first `ul` is examined: it is taken if it contains the
marker, and `Exception('Not found')` is raised otherwise. With no `ul` at
all, `a_tags` is never bound and line 57 raises. The model follows the
code (`LatestVersions.VersionList`, `OnlyFirstListExamined`).

**Order of effects in `pep`.** The short code is read before the page is
fetched. The expectation lookup (line 112) happens only after a
successful fetch and after the status is counted. So:

- a row whose fetch failed never raises, even if its code is unknown;
- the first fetched row with an unknown code ends the routine with a
  `KeyError`;
- the log then holds the mismatches of the rows before that one.

## Model

| member | source | states |
|---|---|---|
| VersionPattern.MatchAtSound | src/main.py:56 | what the matcher finds at a position is a match of the pattern there, with those two groups |
| VersionPattern.MatchAtComplete | src/main.py:56 | any match of the pattern at a position is found there, with the same version and a status no longer than the greedy one |
| VersionPattern.MatchAt | src/main.py:56 | the pattern tried at one start position: the version is the whole digit run and `.*` runs to the last ')' before the line ends; MatchAtSound and MatchAtComplete prove it finds exactly the greedy match there |
| VersionPattern.SearchFrom | src/main.py:59 | the scan of start positions from left to right; SearchFromSpec: its result is the first position at which `MatchAt` succeeds, and None means no position succeeds |
| VersionPattern.Search | src/main.py:59 | `re.search(pattern, text)`; SearchFindsLeftmostGreedy and SearchNoneMeansNoMatch: the leftmost, greedy match of the pattern, or None when it matches nowhere |
| VersionPattern.SearchFindsLeftmostGreedy | src/main.py:59 | a found match is a match of the pattern, no earlier position matches, and at its position no other match has another version or a longer status |
| VersionPattern.SearchNoneMeansNoMatch | src/main.py:59-60 | when the search finds nothing, the pattern matches at no position |
| VersionPattern.ParseAnchorText | src/main.py:59-63 | with no match the parse is the raw text |
| VersionPattern.ParseAnchorTextSpec | src/main.py:56-63 | the parse gives the two groups of some match, the version is digit '.' digits, and the raw text comes back exactly when nothing matches |
| VersionPattern.FormatParseRoundTrip | src/main.py:56-63 | a text "Python <version> (<status>)", with a digit '.' digits version and a status without newline, parses back to exactly that version and status |
| VersionPattern.ParseMatchedExample | src/main.py:56-63 | "Python 3.9 (security-fixes)" gives ("3.9", "security-fixes") |
| VersionPattern.ParseUnmatchedExamples | src/main.py:56-63 | "Python 2.7" and "All versions" come back as raw text |
| LatestVersions.Contains | src/main.py:50 | `sub in s` holds exactly when `sub` occurs at some position of `s` |
| LatestVersions.SelectVersionList | src/main.py:48-54 | succeeds exactly when there is a first list and its text contains "All versions"; otherwise raises "Not found", or leaves `a_tags` unbound when there are no lists |
| LatestVersions.VersionList | src/main.py:49-54 | the outcome of the scan as written: the first list's anchors if its text contains "All versions", 'Not found' otherwise, `a_tags` unbound with no lists; OnlyFirstListExamined: later lists never matter |
| LatestVersions.OnlyFirstListExamined | src/main.py:49-54 | the lists after the first never change the outcome of the scan |
| LatestVersions.VersionRow | src/main.py:58-64 | each anchor yields one row of arity three whose first cell is its link |
| LatestVersions.VersionRowContents | src/main.py:57-64 | a row holds the pattern's version and status groups when the text matches, and the raw text with '' when it matches nowhere |
| LatestVersions.LatestVersionsRoutine | src/main.py:42-65 | returns None when the page fetch failed; otherwise raises what the scan raises or returns the header and one row per anchor |
| LatestVersions.LatestVersionsShape | src/main.py:55-65 | a produced table is rectangular, starts with the three-column header and has exactly one row per anchor, in anchor order |
| WhatsNew.WhatsNewRoutine | src/main.py:15-39 | returns None when the listing fetch failed; otherwise the header and one row per item whose page was fetched |
| WhatsNew.ReleaseRow | src/main.py:38 | the (link, h1 text, dl text) tuple appended for a fetched page; ReleaseRowsPositions: each fetched item's row is this row |
| WhatsNew.ReleaseRows | src/main.py:28-38 | the rows of the loop, failed fetches skipped; ReleaseRowsPositions: one row per fetched item, in item order, each of arity three |
| WhatsNew.ReleaseRowsPositions | src/main.py:27-38 | there are as many rows as fetched items; a fetched item's row sits at the position that counts the fetched items before it; every row has arity three |
| WhatsNew.WhatsNewShape | src/main.py:27-39 | a produced table is rectangular with the header first and one row per fetched item |
| Download.Split | src/main.py:78 | a split has at least one piece and no piece contains the separator |
| Download.JoinSplit | src/main.py:78 | joining the pieces of a split with the separator gives back the string |
| Download.FileNameSpec | src/main.py:78 | the file name has no '/', is a suffix of the URL, follows a '/' when the URL has one, and is the whole URL when it has none |
| Download.FileName | src/main.py:78 | `split('/')[-1]`; FileNameSpec: the '/'-free suffix after the last '/', or the whole URL when it has none |
| Download.DownloadRoutine | src/main.py:68-85 | the routine always returns None; the archive is saved under `FileName` of its URL exactly when the download page was fetched |
| OrderedDict.Dict.Put | src/main.py:109-111 | assignment keeps the dictionary well formed, updates the value, appends a new key at the end, and keeps an existing key in its place |
| OrderedDict.Dict.Get | src/main.py:108 | `status_counts.get(status, 0)`; TallyStep: it is 0 exactly for a status not yet counted |
| OrderedDict.Dict.Items | src/main.py:119 | `status_counts.items()`: the key/value pairs in insertion order; TableOfTallies: with the header and total they form the tally table |
| OrderedDict.Dict.Values | src/main.py:121 | `status_counts.values()` in insertion order; TableOfTallies with CountsSumToTotal: their sum is the number of fetched pages |
| Pep.ShortCode | src/main.py:98 | the code is the first-cell text without its first character, and '' for an empty cell |
| Pep.FirstUnknown | src/main.py:112 | the rows before the index have known codes, and the row at the index (if any) was fetched with a code missing from the expectation table |
| Pep.PepRoutine | src/main.py:88-123 | returns None when the index fetch failed; raises KeyError at the first fetched row with an unknown code, logging the mismatches before it; otherwise returns the tally table of the fetched statuses and logs all mismatches |
| Pep.PepResult | src/main.py:88-123 | what `pep` returns or raises; PepRaisesIff: KeyError exactly when a fetched row's code is unknown; TallyIgnoresExpectations: otherwise the tally of the fetched statuses, whatever the table accepts |
| Pep.PepLog | src/main.py:112-118 | the records logged before `pep` returns or raises; MismatchesSpec and MismatchesCount: one record per disagreeing fetched row before the first unknown code |
| Pep.TallyTable | src/main.py:119-122 | the result table defined from the fetched statuses; TallyTableSpec: header, one (status, count) row per distinct status in first-seen order, and ('Total', number of fetched pages) |
| Pep.TableOf | src/main.py:119-122 | the table built from the dictionary as the source builds it; TableOfTallies: it equals `TallyTable` of the fetched statuses |
| Pep.TallyStep | src/main.py:108-111 | the `get(...,0) == 0` branch and the `+= 1` branch together count one more occurrence, keeping first-seen order |
| Pep.TableOfTallies | src/main.py:119-122 | the header, the dictionary's items and the sum of its values form the tally table |
| Pep.OccursInFirstSeen | src/main.py:108-111 | a status was observed exactly when it has a tally entry, and then its count is positive |
| Pep.FirstSeenSpec | src/main.py:119 | the tally lists each observed status exactly once, in the order of first occurrence |
| Pep.CountsSumToTotal | src/main.py:121-122 | the counts of the distinct statuses add up to the number of fetched pages |
| Pep.TallyTableSpec | src/main.py:119-122 | the table is rectangular: the header first, one row per distinct status with its count, then ("Total", n), where n is both the sum of the counts and the number of fetched pages; its length is the number of distinct statuses plus two |
| Pep.OccurrencesCountRows | src/main.py:100-111 | each status's count is the number of index rows whose page was fetched and declares that status |
| Pep.ObservedCountsFetchedRows | src/main.py:100-102 | the number of tallied statuses is the number of rows whose fetch succeeded; failed rows add nothing |
| Pep.MismatchesSpec | src/main.py:112-118 | a record (link, observed, accepted set) is logged for exactly the fetched rows whose status is not accepted for their code |
| Pep.MismatchesCount | src/main.py:112-118 | one record is logged per disagreeing fetched row: the log's length is the number of such rows |
| Pep.PepRaisesIff | src/main.py:112 | the routine raises KeyError exactly when some fetched row has a code missing from the expectation table |
| Pep.TallyIgnoresExpectations | src/main.py:108-118 | when all codes are known, the expectation table affects only the log, never the tally |
| Dispatcher.Dispatch | src/main.py:143-146 | the output step receives the rows exactly when the routine produced rows; an exception ends the run instead; a None result means no output |
| Dispatcher.NoOutputWithoutSeed | src/main.py:144-146 | when a routine's seed fetch failed (lines 17-19, 43-45, 70-72, 89-91) it returns None and nothing is output; `download` never leads to output |
| Dispatcher.OutputIsRectangular | src/main.py:144-146 | every table handed to the output step has rows of the header's arity |

## Left out

- HTTP fetching, `requests_cache.CachedSession` and clearing the cache (lines 140-142) are network I/O through a foreign library. Each fetch is an `Option` input, and `get_response` is not part of this model.
- BeautifulSoup parsing and `utils.find_tag` are not modelled: the routines take already-extracted strings. So the structural-mismatch errors `find_tag` raises when a tag is missing do not appear. Neither does the search for the archive link by `.+pdf-a4\.zip$` (line 75).
- `urljoin` (lines 16, 31, 69, 77, 99) is library behaviour. Resolved links are given strings.
- The `download` side effects (lines 79-85) are file and network I/O: the directory creation, the second request and the binary write. `DownloadRoutine` returns only the file name the archive is saved under.
- `tqdm` progress bars, the text of the log lines, `configure_argument_parser`, `configure_logging` and `control_output` are presentation or modules that are not part of this model. The mismatch log is a returned list of records.
- `EXPECTED_STATUS`, `MAIN_DOC_URL` and `PEP_DOC_URL` come from `constants`, which is not part of this model. The expectation table is a parameter.
- VersionPattern: `\d` is restricted to the ASCII digits 0-9. Python's `\d` also matches other Unicode decimal digits.
- OrderedDict.Dict: only string keys and the operations the tally uses are modelled.
- Dispatcher.Dispatch: it reports only what reaches the output step and what is raised. The `pep` log and the saved file name are stated by `Pep.PepRoutine` and `Download.DownloadRoutine` instead.
