# EDGAR full-index crawler: a Dafny model of the downloader core

The crawler fetches the quarterly `master.zip` archives of the SEC EDGAR
full index for a range of years, extracts the `master.idx` entry of each into
a fragment file named `<year>-QTRn.tsv`, and merges the fragments into one
append-only `master.tsv`, dropping the 11-line header of every fragment.
This project models the four pieces of logic in
`pkg/downloader/downloader.go` and proves what they promise:

- **Endpoint generation** (`endpoints.dfy`, module `Endpoints`):
  `createRange` and `generateURLs` as methods with loops, specified by the
  function `EndpointsOf`. The current year and current quarter are
  parameters. Proved about the function: the exact URL count, which
  (year, quarter) pairs are requested, and that the order is ascending
  year, then ascending quarter, with no repeats.
- **Fragment naming** (`worker.dfy`, module `Worker`): `FragmentName`
  splits the URL at `/` and uses the third-last and second-last pieces.
  `strings.Split` and `strconv.Itoa` are modelled in `text.dfy` (module
  `Text`) together with their inverses (`Join`, `Atoi`). For a generated
  URL the name is `<year>-QTRn.tsv`, and two distinct endpoints never
  share a name.
- **The worker** (`downloadFile`): the directory (`Directory`, a map from
  file name to bytes) and the buffered outcome channel (`Channel`) are
  objects the worker updates in place. The network, body read, zip
  decoding and file-system failures are abstract inputs (`Environment`).
  The zip archive is a sequence of already-decoded entries. The function
  `WorkerRun` states what one run leaves behind; the `Extract`/`MasterIdxBytes`
  lemmas say the fragment is exactly the concatenation of the `master.idx`
  entries when nothing fails.
- **The merge** (`merge.dfy`, module `Merge`): `mergeFiles` keeps its line
  counter; `MergeIndexFiles` appends to an `OutputFile` object. A listed
  file is either unopenable or a sequence of scanned lines. The merge is
  specified by `MergeRun`. Proved: a file contributes exactly its lines
  after the 11th, each with `"\n"` (a round trip through splitting at
  `'\n'`). Files contribute in listing order. The output only grows.
  The merge is not idempotent: merging a fragment again appends its records
  again. A re-run also lists `master.tsv` itself, so the output's records
  after its first 11 lines are appended once more: the merge skips those
  11 lines as if they were a header (see "## Left out").

The driver `downloadFiles` is modelled sequentially: one worker per URL,
then exactly as many messages drained as there are URLs. `DownloadIndexFiles`
joins generation and download. It proves that every generated endpoint
whose file could be created ends up holding its own fragment, because
fragment names never collide.

The model follows the code where its behaviour is surprising:

- A start year above the end year is not an empty range in the code.
  `make([]int, max-min+1)` panics for a negative length. Only
  `start == end + 1` gives zero endpoints (`Endpoints.EmptyRange`), so
  the methods require `end - start + 1 >= 0`.
- A non-200 status is sent with a nil error: the `err` in scope is the nil
  result of `http.Get`. Only the status text tells that it failed.
- The message after a completed entry loop carries the outer `err`, which
  is nil there. The `err` of the loop body shadows it only inside the
  `if` block.
- A transport error that comes without a response panics instead of
  sending a message (see Findings). The worker model (`WorkerRun`,
  `DownloadFile` and the drivers above it) uses the corrected path: it
  sends `(url, "", err)` there. A redirect-policy failure comes with a
  response, and its status is sent with the error, as the code does.

## Model

| member | source | states |
|---|---|---|
| Text.Itoa | pkg/downloader/downloader.go:185 | the rendering is non-empty, every character after the first is a digit, the first is '-' exactly for negative years, and the digits have no leading zero (only 0 renders as "0") |
| Text.ItoaRoundTrip | pkg/downloader/downloader.go:185 | reading the rendered year back gives the year |
| Text.ItoaInjective | pkg/downloader/downloader.go:185 | two years render to the same text exactly when they are equal |
| Text.Split | pkg/downloader/downloader.go:109 | strings.Split yields at least one piece and no piece contains the separator |
| Text.JoinSplit | pkg/downloader/downloader.go:109 | joining the pieces with the separator gives back the split string |
| Text.SplitNoSep | pkg/downloader/downloader.go:109 | a string without the separator is one piece |
| Text.SplitAppend | pkg/downloader/downloader.go:109 | splitting a + sep + b gives the pieces of a followed by the pieces of b |
| Endpoints.CreateRange | pkg/downloader/downloader.go:193-199 | the range has max-min+1 elements and element i is min+i |
| Endpoints.GenerateURLs | pkg/downloader/downloader.go:173-191 | the URLs are exactly those of EndpointsOf over the year range, one URL per endpoint, in that order |
| Endpoints.YearEndpointsCount | pkg/downloader/downloader.go:180-184 | a year other than the current one (future years included) gets 4 quarters; the current year gets clamp(currentQuarter, 0, 4); this is the count `GenerateURLs`' inner loop is proved to emit (its invariant `j <= count` and exit `j == count`) |
| Endpoints.EndpointCount | pkg/downloader/downloader.go:176-189 | the URL count is 4 per year, less 4 - clamp(currentQuarter, 0, 4) when the current year is in range |
| Endpoints.EndpointMembership | pkg/downloader/downloader.go:180-187 | an endpoint is requested if and only if its year is in range and its quarter index is below that year's quarter count, so for the current year no quarter after the break is requested |
| Endpoints.EndpointsOrdered | pkg/downloader/downloader.go:180-189 | for increasing years the endpoints are strictly ordered by year, then quarter |
| Endpoints.OrderedDistinct | pkg/downloader/downloader.go:180-189 | ordered endpoints are pairwise distinct |
| Endpoints.ExampleCurrentYearOnly | pkg/downloader/downloader.go:173-191 | 2021..2021 in quarter 2 of 2021 gives exactly QTR1 and QTR2 of 2021 |
| Endpoints.ExamplePreviousYearComplete | pkg/downloader/downloader.go:173-191 | 2020..2021 in quarter 1 of 2021 gives the four quarters of 2020 then QTR1 of 2021 |
| Endpoints.EmptyRange | pkg/downloader/downloader.go:193-198 | a start one past the end gives no endpoints |
| Worker.FragmentNameOfUrl | pkg/downloader/downloader.go:109-110 | a generated URL has at least three pieces and is named `<Itoa(year)>-<quarter label>.tsv` |
| Worker.FragmentNameInjective | pkg/downloader/downloader.go:109-110 | two generated URLs share a fragment name if and only if they come from the same endpoint |
| Worker.OrderedUrlsDistinctNames | pkg/downloader/downloader.go:109-111 | the URLs of ordered endpoints have pairwise distinct fragment names |
| Worker.ExtractClean | pkg/downloader/downloader.go:145-161 | when no master.idx entry fails to decompress or to be written, the file receives the concatenation of all master.idx entries in archive order and the error is nil; otherwise an error is reported |
| Worker.ExtractWritesPrefix | pkg/downloader/downloader.go:145-159 | whatever fails, the bytes written are a prefix of the concatenated master.idx entries |
| Worker.NoTargetEntry | pkg/downloader/downloader.go:145-161 | an archive without a master.idx entry writes nothing and reports a nil error |
| Worker.ExtractStops | pkg/downloader/downloader.go:147-157 | after the first error the remaining entries change nothing |
| Worker.ExampleSingleTarget | pkg/downloader/downloader.go:145-158 | a single master.idx among other entries is passed through byte for byte |
| Worker.WorkerRun | pkg/downloader/downloader.go:107-162 | every run reports on its own URL; the fragment file exists exactly when its creation succeeded; a nil error implies the file exists (with the corrected transport path of Findings) |
| Worker.TransportErrorSendsNothing | pkg/downloader/downloader.go:119-123 | as written, a transport error without a response sends no message; the corrected run sends (url, "", err) |
| Worker.RedirectFailureReportsStatus | pkg/downloader/downloader.go:119-123 | as written, a transport error that comes with a response (a failed redirect policy) sends (url, resp.Status, err) |
| Worker.AsWrittenAgreesElsewhere | pkg/downloader/downloader.go:111-161 | apart from transport errors without a response, the code as written and the corrected run send the same message |
| Worker.EarlyFailuresLeaveFileEmpty | pkg/downloader/downloader.go:119-142 | the transport, non-200, body-read and zip-open failure paths leave the created file empty |
| Worker.CreateFailureReported | pkg/downloader/downloader.go:111-115 | a failed file creation sends (url, "", err) and creates no file |
| Worker.SuccessfulRunExtractsTarget | pkg/downloader/downloader.go:126-161 | a 200 response with a readable archive and no entry failures leaves exactly the master.idx bytes in the file and sends the status with a nil error |
| Worker.Channel.Send | pkg/downloader/downloader.go:113 | sending appends one message to the channel buffer |
| Worker.Channel.Receive | pkg/downloader/downloader.go:103 | receiving takes the oldest buffered message |
| Worker.WriteTargetEntries | pkg/downloader/downloader.go:145-159 | the loop appends to the fragment exactly what Extract writes and returns the error that ended it |
| Worker.DownloadFile | pkg/downloader/downloader.go:107-162 | exactly one message is sent on every path (the transport path corrected as in Findings), and the directory changes only at this URL's fragment name, which ends up holding the run's fragment |
| Worker.DepositAllKeepsEach | pkg/downloader/downloader.go:93-105 | with distinct fragment names, every worker's file holds what that worker wrote |
| Worker.DownloadFiles | pkg/downloader/downloader.go:93-105 | exactly one message per URL is drained, and the directory is the result of running each worker (each with the corrected transport path of Findings) |
| Worker.GeneratedFragmentKept | pkg/downloader/downloader.go:44-45 | after downloading the generated endpoints, each endpoint's fragment file holds that endpoint's own fragment (with the corrected transport path of Findings) |
| Worker.DownloadIndexFiles | pkg/downloader/downloader.go:36-46 | one message per generated endpoint, in endpoint order; every created fragment file holds its own endpoint's data; the directory is exactly the old one with each worker's deposit, so other files are untouched (workers with the corrected transport path of Findings) |
| Merge.OutputFile.Append | pkg/downloader/downloader.go:80-81 | a write appends to the output and leaves earlier content in place |
| Merge.ContributionSnoc | pkg/downloader/downloader.go:77-84 | scanning one more line appends it with "\n" exactly when its count is above 10 |
| Merge.MergeFile | pkg/downloader/downloader.go:67-91 | the output gains exactly the file's contribution (nothing when it is nil); open and scan errors are fatal |
| Merge.MergeRunStops | pkg/downloader/downloader.go:68-71 | after a fatal error no later file is merged |
| Merge.MergeIndexFiles | pkg/downloader/downloader.go:48-65 | the old output is kept as a prefix and the listed files' contributions follow in listing order; a failed ReadDir merges nothing; a failed open of master.tsv loses every write |
| Merge.SplitTerminated | pkg/downloader/downloader.go:80-81 | newline-terminated lines split at '\n' give back the lines |
| Merge.ContributionReadsBack | pkg/downloader/downloader.go:76-84 | a file contributes exactly its lines after the 11th, once each and in file order |
| Merge.ShortFileContributesNothing | pkg/downloader/downloader.go:78-79 | a file of at most 11 lines contributes nothing |
| Merge.TerminatedAppend | pkg/downloader/downloader.go:80-81 | terminating two runs of lines is terminating their concatenation |
| Merge.ExampleTwoDataLines | pkg/downloader/downloader.go:76-84 | 11 header lines then "X" and "Y" contribute exactly "X\nY\n" |
| Merge.CombineAppend | pkg/downloader/downloader.go:61-64 | folding per-file results over a + b is folding a, then b, when a was not fatal |
| Merge.MergeRunAppend | pkg/downloader/downloader.go:61-64 | merging a listing a + b appends a's output followed by b's |
| Merge.MergeRunGrows | pkg/downloader/downloader.go:55 | what the first k files appended is a prefix of the whole output (append-only) |
| Merge.RerunDuplicatesRecords | pkg/downloader/downloader.go:55 | merging the same fragment a second time appends its records again, so each is present twice |
| Merge.RerunRereadsOutput | pkg/downloader/downloader.go:49-64 | when a re-run's listing ends with master.tsv (read as a snapshot of lines), its own records past the 11th line are appended again after the fragments' |

## Findings

| source | as written | input that shows it | evidently intended | confidence | as-written member | corrected member |
|---|---|---|---|---|---|---|
| pkg/downloader/downloader.go:119-122 | on an `http.Get` error without a response the branch builds its message from `resp.Status`, but `resp` is nil, so the goroutine panics: no message is sent and, the panic being unrecovered, the whole process ends, so the merge called next at main.go:38 never runs | a transport error without a response (refused connection, DNS failure, timeout), e.g. `Environment(None, TransportFailed(e, None), None)` | send `HTTPResponse{url, "", err}` like the other failure paths, so exactly one message per URL is drained | high, not executed | Worker.TransportErrorSendsNothing | Worker.DownloadFile |

## Left out

- The clock and the quarter formula `math.RoundToEven(float64(month)/4 + 1)` (lines 174-175): floating point and wall-clock time. The current year and current quarter are parameters. The formula is not a calendar-quarter mapping; the model makes no claim about it.
- `http.Get`, `ioutil.ReadAll`, `zip.NewReader` and `readZipFile` (lines 119, 132, 138, 164-171): foreign library calls. Their results are abstract inputs of `Environment`. The archive is a sequence of decoded entries.
- The goroutines and the channel's concurrency (lines 93-105).
- Worker.DownloadFiles: runs the workers one after another, so messages are drained in submission order. The Go code drains them in arrival order. The model proves only the count and the per-URL content.
- `os.Stat`/`os.Mkdir` (lines 40-42), file paths, and the directory listing itself. The merge takes the listing as an input sequence. `ioutil.ReadDir` sorts by name, but the model treats the order as given.
- Merge.RerunDuplicatesRecords: states only that a fragment merged twice contributes its records twice. On a re-run, `ioutil.ReadDir` (line 49) runs before `master.tsv` is opened (line 55), so the listing also holds `master.tsv`, sorted after the fragments. `Merge.RerunRereadsOutput` covers that file only as a snapshot of lines. In the code it is read while being appended through a buffered writer, so the scan may see its own new output and may not reach the end of the file. The model does not capture that.
- `bufio.Scanner` details: the token-size limit (a long line surfaces as the abstract scan error), `\r` stripping, and how bytes become lines. The worker writes bytes; the merge reads lines. The conversion between the two is not modelled.
- `bufio.Writer` buffering and write errors on `master.tsv`: the source ignores them, and the model treats every write as complete.
- Worker.WriteTargetEntries: a failing `out.Write` is an abstract input (`WriteFailure` at an entry position) and writes nothing. Partial writes are not modelled.
- Worker.DownloadFile: requires a URL of at least three `/`-pieces. A shorter URL makes the index expression at line 110 panic; the generated URLs always qualify (`Worker.FragmentNameOfUrl`).
- Endpoints.CreateRange: Go's `int` is 64 bits, so `max-min+1` (line 194) and `min+i` (line 196) wrap for extreme years. The model's integers are unbounded.
- Endpoints.GenerateURLs: requires `end - start + 1 >= 0`. Below that, `make` panics at line 194.
- `log.Println`/`log.Fatalf` output (lines 51, 57, 70, 89, 103). A fatal error is the `fatal` result, which ends the merge loop.
- The unused constants `SEP`, `MAXRETRY` and `MAXRETRIEVALSIZE` (lines 19-21).
- `main.go` is not part of this model: flag parsing and wiring only.
