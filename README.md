# arxiv-sanity fetch and download core, in Dafny

This project models the two sequential decision procedures at the heart of
the arxiv-sanity scripts.

- **`fetch_papers.py`.** Catalog synchronisation. The script pages through
  the arXiv query API from a start offset. Each feed entry becomes a plain
  record, keyed by its raw arXiv id, with the version parsed from the entry's
  id url. A record goes into the in-memory database when its id is new or
  its version is strictly higher. The run stops on an empty page, on a page
  that added nothing (early stop, on by default), or at the end of the
  offset range. The database is saved only when something was added.
  Modelled: `encode_feedparser_dict`, `parse_arxiv_url`, the retry rule of
  `send_request`, and the main loop.
- **`download_pdfs.py`.** PDF download. `save_pdf` does four things: it picks
  the record's one `application/pdf` link; it derives the target file name;
  it skips files listed in the pdf directory at start-up; otherwise it tries
  a bounded number of downloads. It bumps the global `NUM_OK` for every
  record whose `try` block completes. The thread pool over `DB.items()` is
  modelled as a sequential fold.

The modules are:

- `Wrappers`: `Option` and `Result`.
- `Text`: `rsplit('/', 1)[-1]` and `os.path.basename` as `LastSegment`;
  `str.split` on one character; `int()` and `str()` on decimal digits; POSIX
  `os.path.join`.
- `Values`: the Python objects involved. Feed-library dictionaries are
  distinct from plain dicts.
- `FetchPapers` and `DownloadPdfs`: the two scripts.

Oracles stand in for the network:

- `fetch(index, attempt)` gives the entries of the page at `index` on the
  `attempt`-th request.
- `ok(url, attempt)` says whether the `attempt`-th download of `url`
  succeeds.

Stateful code is imperative Dafny, each method proved against a
specification function:

- `EncodeFeedparserDict` fills a fresh map and a fresh sequence in loops.
- `SendRequest` and `Download` are retry loops.
- `MergeEntries` and `Paging` carry the counters and the database through
  `for`/`while` loops with `break`.
- `Downloader` is a class. It holds the start-up listing and the `NUM_OK`
  counter, which `SavePdf` updates.

Two behaviours of the code are worth knowing, and the model follows them:

- A record with zero or several pdf links raises out of `save_pdf`. The
  assertion at download_pdfs.py:21 comes before the `try` at :38, so the
  pool re-raises and the final `ok/total` line is never printed. The
  model's `Raised` outcome and `Run`'s `None` report capture this.
- `download` ignores its `retries` and `timeout` arguments and uses the
  module's `RETRIES` and `TIMEOUT` (download_pdfs.py:26-34).

The paging loop `Paging` is proved for a page-merge function `merge` that is
given as a ghost parameter and agrees with `MergePage`. `Run` passes
`MergePage` itself. The parameter exists only so that the proof of the loop
does not unfold the merge at every step. The paging lemmas hold for any
merge, and the `Sync...` lemmas instantiate them with `MergePage`.

## Model

| member | source | states |
|---|---|---|
| FetchPapers.EncodeFeedparserDict | fetch_papers.py:22-38 | the loops build exactly `Encoded(d)`: a fresh plain dict per dict, a fresh list per list, other objects unchanged |
| FetchPapers.EncodedIsPlainCopy | fetch_papers.py:22-38 | the copy holds no feed-library dict and has the same keys, list lengths and order, and leaves as the input |
| FetchPapers.PlainCopyIsEncoded | fetch_papers.py:22-38 | any plain value of the input's shape is the copy, so the copy is characterised by those two properties |
| FetchPapers.EncodedIdempotent | fetch_papers.py:22-38 | copying a copy gives the same value |
| Text.LastSegmentIsSuffix | fetch_papers.py:46 | `rsplit('/', 1)[-1]` is the longest suffix without '/': it holds no '/', ends the url, and is preceded by '/' unless it is the whole url |
| Text.SplitPieces | fetch_papers.py:47 | `split('v')` gives one more piece than there are 'v's, and no piece holds a 'v' |
| Text.SplitInTwo | fetch_papers.py:47-48 | two pieces means the string is first piece, 'v', second piece |
| Text.SplitTwoPieces | fetch_papers.py:47-49 | with two pieces, the first is the separator-free text before the one 'v' and the second is all the text after it |
| Text.SplitJoin | fetch_papers.py:47 | splitting the join of separator-free pieces gives the pieces back |
| Text.JoinSplit | fetch_papers.py:47 | joining the pieces of a split with the separator gives the string back |
| Text.ParseDecimal | fetch_papers.py:49 | `int(str(n)) == n` for every natural number n |
| FetchPapers.ParseArxivUrlRejects | fetch_papers.py:46-48 | the assertion fails exactly when the last segment does not hold exactly one 'v'; a last segment with no 'v' at all fails |
| FetchPapers.ParseArxivUrlSound | fetch_papers.py:46-49 | on success the id has no 'v' or '/', the last segment is id + 'v' + rest, and the version is the digit string `rest` |
| FetchPapers.ParseArxivUrlRoundTrip | fetch_papers.py:41-49 | every `prefix/<id>v<n>` with no 'v' or '/' in the id parses to `(id, n)` |
| FetchPapers.ParseArxivUrlDigits | fetch_papers.py:45-49 | every `prefix/<id>v<digits>` with no 'v' or '/' in the id and any non-empty ASCII digit string, leading zeros included, parses to the id and the digits' value |
| FetchPapers.ParseArxivUrlExample | fetch_papers.py:43-49 | `http://arxiv.org/abs/1512.08756v2` parses to `("1512.08756", 2)` |
| FetchPapers.UsedAttempt | fetch_papers.py:57-65 | the attempt whose answer is returned: the first non-empty one, else the last allowed one; all earlier ones were empty |
| FetchPapers.SendRequest | fetch_papers.py:52-65 | at most `retries` requests. It returns the first non-empty answer, and an empty list only when every attempt was empty. It sleeps after each empty attempt but the last. With `retries < 1` it returns nothing |
| FetchPapers.RecordsAllParse | fetch_papers.py:110-116 | a page whose entries all parse yields their records in order |
| FetchPapers.RecordsFirstError | fetch_papers.py:110-116 | the first entry that does not parse aborts the page with its error, whatever follows |
| FetchPapers.RecordsPrefixError | fetch_papers.py:110-116 | an entry that does not parse, after entries that all parse, aborts the page with its error |
| FetchPapers.MergePage | fetch_papers.py:107-124 | on every page `num_added + num_skipped` is the number of entries |
| FetchPapers.MergeAllGrows | fetch_papers.py:118-124 | merging never removes an id and never lowers a stored version |
| FetchPapers.MergeAllFrame | fetch_papers.py:118-124 | an id that no record of the page carries keeps its stored record, or stays absent |
| FetchPapers.MergeAllKeepsKeys | fetch_papers.py:115-120 | every stored record was stored before or comes from the page, and, when the starting database is keyed by raw id, sits under its own raw id |
| FetchPapers.MergeAllCovers | fetch_papers.py:119-120 | after a page every record of the page is stored with at least its version |
| FetchPapers.MergeAllNothingNew | fetch_papers.py:119-124 | a page whose every record is stored at an equal or higher version adds 0, skips all and leaves the database unchanged |
| FetchPapers.MergeAllIdempotent | fetch_papers.py:119-126 | re-processing the same page right after adds 0 and leaves the database unchanged |
| FetchPapers.VersionMonotonicity | fetch_papers.py:119-120 | two versions of one paper, met in either order, leave the higher one stored, when the database held no version of that id at least as high |
| FetchPapers.FirstSeenWinsTies | fetch_papers.py:119-124 | of two records with the same id and version, newer than any version stored under that id, the first stays; one added, one skipped |
| FetchPapers.ParseEntry | fetch_papers.py:111-116 | the copy, parse and annotation of one entry give `ToRecord(e)` |
| FetchPapers.MergeEntries | fetch_papers.py:107-124 | the entry loop gives exactly `MergePage`: the merged database and the counts, or the first parse error |
| FetchPapers.FetchPage | fetch_papers.py:106-124 | one page is `send_request` with 5 attempts followed by the merge of the returned entries |
| FetchPapers.PagesAdvance | fetch_papers.py:104-138 | one turn of the loop: after the page at `index` the run has stopped or continues at `index + step` with the merged database |
| FetchPapers.Paging | fetch_papers.py:102-141 | the `for index in range(...)` loop with its counters and breaks computes `Pages` |
| FetchPapers.Run | fetch_papers.py:101-146 | the main block computes `Sync`. A zero step raises; otherwise it gives the final database, the total added, the page logs, and whether the database is saved (iff something was added) |
| FetchPapers.PagesNone | fetch_papers.py:104 | no page is visited exactly when the offset range is empty |
| FetchPapers.PagesOffsets | fetch_papers.py:104 | the first page is at the start offset, each next one `step` further, all inside the range |
| FetchPapers.OffsetsArithmetic | fetch_papers.py:104 | offsets that start at `index` and advance by `step` are `index + k * step` |
| FetchPapers.SyncOffsets | fetch_papers.py:104 | the visited offsets are `start + k * step`, all inside the range; none is visited iff the range is empty |
| FetchPapers.PagesTotal | fetch_papers.py:126 | the total added is the sum of the per-page added counts, the breaking page included; each log's size is the response's size |
| FetchPapers.PagesGoOn | fetch_papers.py:131-138 | every page but the last was non-empty and, with early stop on, added something |
| FetchPapers.PagesStop | fetch_papers.py:104-138 | a last page that was non-empty and (with early stop on) added something was the last offset of the range |
| FetchPapers.SyncStops | fetch_papers.py:131-138 | for the whole run: the loop halts at the first empty page, at the first page adding nothing when early stop is on, or at the end of the range |
| FetchPapers.SyncGoesOn | fetch_papers.py:131-138 | every page of a run but the last came back non-empty and, with early stop on, added something |
| FetchPapers.SyncEndsAtRange | fetch_papers.py:104-138 | a last page that was non-empty and not an early stop was at the last offset of the range |
| FetchPapers.PagesCounted | fetch_papers.py:107-129 | every page log's added and skipped counts sum to its received count |
| FetchPapers.PagesGrow | fetch_papers.py:118-126 | over a whole run no id is dropped and no stored version goes down |
| FetchPapers.MergePageGrows | fetch_papers.py:118-124 | the page merge never drops an id nor lowers a version |
| FetchPapers.SyncSaved | fetch_papers.py:126-146 | the reported total is the sum of the pages' added counts. The database is saved iff some page added a record. Every page accounts for all its entries, and no id or version is lost |
| FetchPapers.SyncStopsWhenNothingNew | fetch_papers.py:136-138 | with early stop on, a first page of already-known records ends the run there: 0 added, all skipped, not saved |
| FetchPapers.PagesFirst | fetch_papers.py:104-138 | the first page of a successful run merged without error, and the final database keeps what it stored |
| FetchPapers.SyncRerun | fetch_papers.py:119-146 | with early stop on and a non-empty offset range, a second run over the same answers, right after a run, stops after its first page and adds and saves nothing |
| FetchPapers.PagesAccepted | fetch_papers.py:104-124 | every page of a run that goes through was accepted by the page merge; a refused page ends the whole run with its error |
| FetchPapers.SyncAllParsed | fetch_papers.py:110-116 | a run that goes through parsed every entry of every page it visited; one entry without an id or with a bad id url anywhere aborts the run, nothing being caught |
| Text.LastSegmentAppend | download_pdfs.py:22-23 | appending '/'-free text to a path extends its base name by that text, so the base name of `href + '.pdf'` ends in `.pdf` |
| Text.JoinPathBasename | download_pdfs.py:24 | the base name of `os.path.join(dir, name)` is `name` when `name` has no '/' |
| DownloadPdfs.PdfHrefsFails | download_pdfs.py:20 | the link filter raises exactly when some link has no `type`, or is a pdf link without `href` |
| DownloadPdfs.PdfHrefsCount | download_pdfs.py:20-21 | the filter keeps no href iff there is no pdf link, and exactly one, that link's, iff there is exactly one |
| DownloadPdfs.PdfUrlOfLinks | download_pdfs.py:20-22 | when `links` is a list in which every link has a `type` and every pdf link an `href`, a record with one pdf link whose href is text gets that href plus `.pdf`, and any other number of pdf links fails the assertion before the `try` |
| DownloadPdfs.FirstSuccess | download_pdfs.py:28-32 | the first successful attempt below `RETRIES`, or `RETRIES`; every earlier attempt failed |
| DownloadPdfs.Download | download_pdfs.py:26-35 | success iff one of the first `RETRIES` attempts succeeds. It stops at the first success and uses the global `RETRIES`. It sleeps once per failed attempt, the last one included |
| DownloadPdfs.HandleFileName | download_pdfs.py:22-24 | the target file is `pdf_dir` joined with the base name of `href + '.pdf'`, whose own base name is the href's last segment plus `.pdf` |
| DownloadPdfs.HandleSkipsExisting | download_pdfs.py:39-46 | a file listed at start-up is skipped and no download is attempted: the outcome is the same whatever the network does |
| DownloadPdfs.HandleDownloads | download_pdfs.py:39-44 | a file not listed is fetched iff some attempt succeeds, after as many attempts as the first success needs, and is given up otherwise |
| DownloadPdfs.Completed | download_pdfs.py:53-56 | the number of records counted is at most the number of records, and equals it iff no record raised |
| DownloadPdfs.Outcomes | download_pdfs.py:53-54 | handling the records one after the other gives one outcome per record, each that record's `Handle` |
| DownloadPdfs.Downloader.constructor | download_pdfs.py:12-15 | the listing is taken once at start-up and `NUM_OK` starts at 0 |
| DownloadPdfs.Downloader.SavePdf | download_pdfs.py:19-50 | the outcome is `Handle`. `NUM_OK` goes up by one unless the link selection raised, including when every download failed |
| DownloadPdfs.Downloader.SaveAll | download_pdfs.py:53-54 | `save_pdf` runs once per item in order. `NUM_OK` grows by the number of records that did not raise |
| DownloadPdfs.Run | download_pdfs.py:53-56 | every record is handled once and `NUM_OK <= len(DB)`. The final report `(NUM_OK, len(DB))` appears only when no record raised, and then `NUM_OK == len(DB)` |

## Left out

- HTTP (`urllib.request.urlopen`, `urlretrieve`) and the Atom parsing of `feedparser.parse` are oracles. Pages arrive as already-parsed entry values, and downloads as success flags. The query url built from `BASE_URL` is not modelled.
- FetchPapers.Pages: the page oracle always answers, so a transport error is not modelled. `urlopen` at fetch_papers.py:58 is outside any `try`: an HTTP error such as a 503 escapes `send_request` and the paging loop and ends the script before line 144, so that run is not saved even when earlier pages added records. The model's runs end only with a parse error, a zero step, or an outcome.
- `pickle.load`, `safe_pickle_dump` and `Config` come from a module that is not part of this model. The initial database is an input, and "saved" is a boolean result.
- `time.sleep` has no effect on the outcome, except that the sleep between pages at fetch_papers.py:141 raises `ValueError` when `--wait-time` plus the jitter is negative or NaN. That happens after the first page that does not break the loop, nothing catches it, and the script ends before line 144 without saving. The model has no such failure. The retry sleeps of `send_request` and `download` are counted by `SendRequest` and `Download`; `FetchPage` drops `SendRequest`'s count. The sleep between pages at fetch_papers.py:140-141, with `--wait-time` and the `random.uniform(0, 3)` jitter, is not modelled at all.
- `argparse` is not modelled: the options are parameters. `--no-break-on-no-added` is `store_false`, so the `early` parameter is true unless the flag is given. `--search-query` only reaches the url and is dropped.
- `os.makedirs` and `os.listdir` are not modelled. The start-up listing is an input set of file names.
- The thread pool of `download_pdfs.py` is a sequential fold over `DB.items()`, given as a sequence of pairs. The unsynchronised `NUM_OK += 1` is not modelled. `starmap` splits the items into chunks of ⌈len(DB)/160⌉ records (40 threads × 4), and each chunk runs its records one after the other. The result is ready only once every chunk is done, so no chunk is cut off. When a record raises, the records after it in the same chunk never run, and `starmap` then re-raises, so the final line is not printed. With 160 records or fewer each chunk is one record and every record runs. The model runs every record, and `Run` reports only that the final line is not printed.
- All `print` output is left out. That includes the `j['updated']` and `j['title']` lookups of the log line at fetch_papers.py:121, which would raise for an added entry missing those keys.
- The `except` branch at download_pdfs.py:48-50 is unreachable in the model. Once `download` catches the `urlretrieve` failures, only a failing `print` at :42, :44 or :46 can reach it, for example a `UnicodeEncodeError` or a `BrokenPipeError` on stdout. `NUM_OK` then stays unchanged. Output is left out, so the model always counts such a record.
- FetchPapers.ParseArxivUrl: `int()` also accepts surrounding whitespace, a sign, underscores and non-ASCII decimal digits such as `'٢'` or a fullwidth `'２'`. The model accepts only a non-empty string of ASCII digits; anything else is `BadVersion`.
- A database loaded from disk is taken to hold records with a `_version`. A stored entry without one would raise a `KeyError` at fetch_papers.py:119.
- DownloadPdfs.LinkHrefs: iterating a `links` value that is neither a list, a dict nor a string is treated as a `TypeError`. Python would iterate a tuple or another iterable, and only lists are modelled.
