# downloader — a verified model of its download engine

The downloader is a bulk file fetcher. Its configuration maps destination folders to lists
of URLs. For each URL it starts one transfer, bounded by a semaphore of `Parallel` slots. Each
transfer resumes a partial file with an HTTP Range request and reports its progress in a
shared table of status lines. A ledger file lists the URLs already downloaded, one per line,
and those are skipped.

This project models that engine in Dafny:

- `file_name.dfy` (module `FileName`): the destination file name `extractFileName` derives
  from a URL. It is the last '/'-segment, decoded as a query component (Go's
  `url.QueryUnescape`), or the raw segment when an escape is malformed.
- `resume.dfy` (module `Resume`): the size of the partial file, the `Range: bytes=N-`
  header, and the total size read back from `Content-Range` or `Content-Length`.
- `numbers.dfy` (module `Numbers`): `strconv.FormatInt` and `strconv.ParseInt` for those
  headers.
- `progress.dfy` (module `Progress`): `updateDownloadStatus` as a class over the status
  table, `ProgressReader.Read`, and the `io.Copy` loop that drives it.
- `transfer.dfy` (module `Transfer`): `downloadFile`, one transfer from request to copied
  body.
- `ledger.dfy` (module `Ledger`): both versions of the completion ledger.
  - `cmd/config.go`: `Init`, `DownloadFinished` and `DownloadAppend`, with an in-memory set
    beside the file.
  - `downloader/cmd/root.go`: `DownloadFinished` rescans the file; `AppendURLToFile`.
- `dispatch.dfy` (module `Dispatch`): the sequential part of the root command's `Run` loop.
  It covers directory failures, ledger skips, launch indices, the status table's initial
  size and the semaphore's capacity.
- `cmd_root.dfy` (module `CmdRoot`): the `cmd/root.go` variant. Its `Load` has a value
  receiver, and its `Run` panics right after calling it.
- `option.dfy` and `text.dfy`: an `Option` type, and the search for a separator that both
  `strings.Split` and the line scanner use.

A Go string is a sequence of bytes; here each `char` of a `string` stands for one byte.
The surroundings become parameters, because the model cannot observe them:

- Whether `os.Stat`, `os.OpenFile`, `http.NewRequest` or `os.MkdirAll` succeeds, and whether a
  write to the ledger file succeeds. Writes to the downloaded file always succeed (see Left out).
- The response to a request, given as a function of the request.
- The response body, given as the sequence of results its reads return.
- The iteration order of the folder map.
- The formatted percentage.

The three source copies are near-identical: `downloader/cmd/root.go`, `mains.go` and
`cmd/root.go`. The table below cites `downloader/cmd/root.go`. The same code sits in the
other two copies:

- `extractFileName`: `mains.go:79-90` and `cmd/root.go:145-156`.
- `downloadFile`: `mains.go:92-161` and `cmd/root.go:158-227`.
- `ProgressReader.Read`: `mains.go:163-172` and `cmd/progress_reader.go:16-25`.
- `updateDownloadStatus`: `mains.go:174-191` and `cmd/root.go:229-246`.
- The `Run` loop: `mains.go:34-75`.

Where the copies differ:

- `downloader/cmd/root.go:61` gives every download `config.DownloadsTmpDir`, and
  `mains.go:60` gives `tempDownloadDir`. Neither passes the folder's own `fullPath`, which is
  handed to the goroutine but never used. `Dispatch.Run` takes that directory as `dest` and
  proves that every launch uses it.
- `cmd/root.go:98` panics after `Load` and before anything is dispatched (`CmdRoot.Run`).
- `cmd/root.go:43` `Load` has a value receiver, so the map it builds is lost
  (`CmdRoot.Load`).

## Model

| member | source | states |
|---|---|---|
| Numbers.Decimal | downloader/cmd/root.go:146 | FormatInt(n, 10) of a non-negative n is a non-empty run of decimal digits with no leading zero |
| Numbers.ParseInt64 | downloader/cmd/root.go:158-168 | ParseInt(s, 10, 64) succeeds only with a value inside the 64-bit signed range; otherwise it fails |
| Numbers.DecimalValue | downloader/cmd/root.go:146 | the digits FormatInt prints have exactly the value n |
| Numbers.DecimalRoundTrip | downloader/cmd/root.go:145-147 | parsing what FormatInt printed gives back n, for every n up to 2^63-1 |
| Numbers.ParseInt64Examples | downloader/cmd/root.go:158-168 | a '+' sign and leading zeros are accepted; "*", trailing garbage and "" are rejected |
| FileName.LastSegment | downloader/cmd/root.go:107-108 | the last element of Split(url, "/") is a suffix of the URL with no '/', and it is either the whole URL or preceded by '/' |
| FileName.LastSegmentAfterSlash | downloader/cmd/root.go:107-108 | whatever precedes the last '/' does not affect the segment |
| FileName.LastSegmentNoSlash | downloader/cmd/root.go:107-108 | a URL without '/' is its own segment |
| FileName.QueryUnescape | downloader/cmd/root.go:110 | url.QueryUnescape never lengthens the text; QueryUnescapeSucceedsIff says when it fails |
| FileName.QueryUnescapeSucceedsIff | downloader/cmd/root.go:110-114 | decoding succeeds if and only if every '%' is followed by two hexadecimal digits |
| FileName.PlainTextUnchanged | downloader/cmd/root.go:110 | text with no '%' and no '+' decodes to itself |
| FileName.QueryEscapeRoundTrip | downloader/cmd/root.go:110 | decoding what url.QueryEscape produced gives back the original bytes |
| FileName.UnescapePlainPrefix | downloader/cmd/root.go:110 | plain text in front of decodable text decodes to itself |
| FileName.QueryUnescapeEscapedSpace | downloader/cmd/root.go:110 | "%20" between plain texts decodes to a space |
| FileName.QueryUnescapePlus | downloader/cmd/root.go:110 | '+' between plain texts decodes to a space |
| FileName.ExtractFileNameCases | downloader/cmd/root.go:105-116 | the file name is the decoded segment when the segment is well escaped, and the raw segment otherwise |
| FileName.ExtractFileName | downloader/cmd/root.go:105-116 | the file name is never longer than the URL's last segment, and so never longer than the URL |
| FileName.ExtractFileNameEscapedSpace | downloader/cmd/root.go:105-116 | ".../a%20b.zip" is saved as "a b.zip", for any site and any plain text around the escape |
| FileName.ExtractFileNamePlus | downloader/cmd/root.go:105-116 | ".../a+b.zip" is saved as "a b.zip" |
| FileName.ExtractFileNameMalformed | downloader/cmd/root.go:111-114 | a '%' without two hex digits keeps the raw segment ("100%.zip") |
| Resume.ExistingSize | downloader/cmd/root.go:126-130 | the resume offset is the file's size when Stat succeeds, else 0 |
| Resume.RangeHeader | downloader/cmd/root.go:145-147 | a Range header is sent exactly when the offset is positive |
| Resume.RangeHeaderResumesAtExisting | downloader/cmd/root.go:145-147 | the header is "bytes=N-" with N read back as exactly the offset |
| Resume.SecondField | downloader/cmd/root.go:157-158 | parts[1] exists exactly when the text holds a '/', and it contains no '/' |
| Resume.SecondFieldOf | downloader/cmd/root.go:157-158 | parts[1] of "a/b" and of "a/b/c" is b |
| Resume.TotalSize | downloader/cmd/root.go:155-169 | it panics exactly on a non-empty Content-Range without '/'; a Content-Range with '/' gives the integer after the first '/', or the offset when that does not parse (so "bytes 0-9/12a" gives the offset, "bytes 0-9/-1" gives -1); without Content-Range, the total is the offset unless nothing is on disk and Content-Length is present, in which case it is Content-Length's value, or 0 when that does not parse |
| Resume.ResumedTotalFromContentRange | downloader/cmd/root.go:156-162 | the Content-Range "bytes F-L/T" (`Resume.ContentRange`) yields total T, whatever is on disk |
| Resume.UnknownTotalKeepsExisting | downloader/cmd/root.go:158-162 | an unknown length ".../*" falls back to the offset |
| Resume.FreshTotalFromContentLength | downloader/cmd/root.go:163-168 | a first download takes Content-Length as the total |
| Progress.WithStatus | downloader/cmd/root.go:204-210 | the table grows to index+1 with "", slot index holds the status, and every other slot is unchanged |
| Progress.WithStatusLastWins | downloader/cmd/root.go:209-210 | of two updates of one slot only the last is visible |
| Progress.WithStatusCommutes | downloader/cmd/root.go:200-210 | updates of two different slots commute, so the table does not depend on which transfer reports first |
| Progress.StatusTable.constructor | downloader/cmd/root.go:39 | the table starts as the given number of empty lines |
| Progress.StatusTable.Update | downloader/cmd/root.go:200-210 | the padding loop and the assignment leave exactly WithStatus of the old table |
| Progress.BodyReader.Read | downloader/cmd/root.go:190 | the body's results come back in order, then (0, io.EOF) forever |
| Progress.StatusText | downloader/cmd/root.go:195 | the status line starts with "Downloading (" followed by the file name |
| Progress.ProgressReader.Read | downloader/cmd/root.go:189-198 | the read result passes through unchanged, the counter grows by n, and exactly one status line is published at the reader's slot |
| Progress.Drained | downloader/cmd/root.go:180 | io.Copy performs at least one read |
| Progress.DrainedStopsAtFirstError | downloader/cmd/root.go:180 | io.Copy stops at the first read that carries an error (io.EOF included) and at no earlier one; it reads the body in order, then (0, io.EOF) |
| Progress.DrainedSkip | downloader/cmd/root.go:180 | after k error-free reads, the rest of the copy is the copy of the rest of the body |
| Progress.DrainedComplete | downloader/cmd/root.go:180-183 | a body without errors is copied in full and io.Copy returns nil |
| Progress.Copy | downloader/cmd/root.go:179-183 | the file and the counter grow by exactly the bytes of Drained (also those of the last read), the error is Drained's, the slot shows the status for the final count, and the reads after the one that ended the copy stay unread |
| Transfer.ResumeOffset | downloader/cmd/root.go:125-130 | currentSize is ExistingSize of the Stat answer |
| Transfer.Received | downloader/cmd/root.go:155-183 | handling a response never shrinks the file and never removes a line of the status table |
| Transfer.Receive | downloader/cmd/root.go:155-183 | a Content-Range without '/' panics before anything is written; otherwise the body is appended and the outcome is the copy's |
| Transfer.DownloadFile | downloader/cmd/root.go:118-187 | a request goes out exactly when the file opens and the request is valid, carrying the Range header for the offset; open, request and network failures touch neither the file nor the table; otherwise the response is handled as Receive states |
| Transfer.ReceivedWhole | downloader/cmd/root.go:155-183 | a response with a known total whose body arrives without error ends Done, the file grows by the whole body, and the slot shows the status at the offset plus the body's length |
| Transfer.ResumedFileReachesTotal | downloader/cmd/root.go:145-183 | when a file holding k bytes is resumed and the server answers "bytes k-l/t", l + 1 = t, with the remaining t - k bytes and no error, the transfer succeeds, the file is exactly t bytes long, and the slot shows the status at t of t |
| Transfer.InterruptedCopyKeepsPrefix | downloader/cmd/root.go:179-183 | an interrupted copy fails but keeps every byte delivered up to and including the failing read, so a later run can resume |
| Ledger.Lines | cmd/config.go:75-79 | the scanner reads no lines exactly from an empty file |
| Ledger.LinesWithPiece | cmd/config.go:75-79 | after a newline-terminated file, a last piece without newline is read as one more line (without a trailing carriage return) |
| Ledger.LinesAppend | cmd/config.go:101-104 | appending url + "\n" to a newline-terminated file adds exactly one line, the URL, and keeps the file terminated |
| Ledger.UnterminatedAppendMerges | downloader/cmd/root.go:278 | for every file whose last line lacks its newline, appending a non-empty URL merges the URL into that last line instead of adding a line |
| Ledger.AppendStep | cmd/config.go:89-109 | DownloadAppend does nothing for a URL already in the set; a failed open or write changes nothing; success appends the line and adds the URL to the set |
| Ledger.AppendStepConsistent | cmd/config.go:89-109 | DownloadAppend keeps the set equal to the lines of the file |
| Ledger.AppendAllConsistent | cmd/config.go:89-109 | over any sequence of appends the set stays equal to the file's lines and never loses a URL |
| Ledger.AppendAllWritesOnce | cmd/config.go:90-92 | however often DownloadAppend is called, a URL appears at most once in the file |
| Ledger.Config.Init | cmd/config.go:64-82 | the set is exactly the lines the scanner reads before it stops; the error is the open or scan error, and a missing file is a fresh start (the corrected IntendedInitError, see Findings); a terminated file read to its end starts consistent, the state the appends keep |
| Ledger.InitError | cmd/config.go:64-82 | as written, Init returns nil exactly when the file exists, opens and is scanned without error; a missing file gives the NotExist error |
| Ledger.IntendedInitError | cmd/config.go:67-69 | a missing file is never an error; Init succeeds exactly when the file is missing or is opened and scanned without error |
| Ledger.MissingLedgerIsAnError | cmd/config.go:64-72 | as written, a missing ledger file makes Init return an error |
| Ledger.Config.DownloadAppend | cmd/config.go:89-109 | the method's effect on the file's content and the set is AppendStep's; the file exists afterwards exactly when it existed before or a new URL's open succeeded (O_CREATE, even when the write then fails); a URL just appended counts as finished |
| Ledger.Config.DownloadFinished | cmd/config.go:84-86 | with set and file in agreement, the answer is whether the URL is a line of the file |
| Ledger.FinishedIffLine | cmd/config.go:84-86 | with set and file in agreement, DownloadFinished is true exactly for the file's lines |
| Ledger.ScanFinished | downloader/cmd/root.go:254-269 | true exactly when the file opens and the URL is one of the lines read before the scanner stops |
| Ledger.AppendURLToFile | downloader/cmd/root.go:271-280 | the file exists afterwards exactly when it existed before or the open succeeded (O_CREATE); on success it gains exactly url + "\n", on failure its content is unchanged |
| Ledger.AppendedUrlIsFound | downloader/cmd/root.go:254-280 | a URL appended to a terminated file is found by the next scan |
| Ledger.AppendTwiceDuplicates | downloader/cmd/root.go:271-280 | without a duplicate check, appending a URL twice adds two lines for it |
| Dispatch.Run | downloader/cmd/root.go:35-72 | a negative Parallel panics in make(chan); otherwise the table has len(Download)*Parallel empty slots and the loop launches Launches; with Parallel 0 and anything to launch, the first send deadlocks the process |
| Dispatch.DispatchFolder | downloader/cmd/root.go:49-71 | one folder's inner loop adds exactly its unfinished URLs, with the next indices, or stops at the first such URL when the semaphore has capacity 0, whose send can never complete |
| Dispatch.Launches | downloader/cmd/root.go:42-72 | the loop makes at most one launch per configured URL; LaunchesShape and LaunchedIffEligible state which ones |
| Dispatch.LaunchesGrow | downloader/cmd/root.go:55-56 | a folder that launches anything makes the whole loop launch something |
| Dispatch.FolderLaunchesShape | downloader/cmd/root.go:49-67 | a folder's launches name that folder and dest, are for its unfinished URLs, and are numbered consecutively |
| Dispatch.LaunchesShape | downloader/cmd/root.go:42-72 | launch indices are 0, 1, 2, … in launch order; no launch comes from a folder whose directory failed or is for a URL the ledger lists; every launch is given dest |
| Dispatch.FolderLaunchedIff | downloader/cmd/root.go:49-53 | a folder launches a URL exactly when the URL is listed there and not in the ledger |
| Dispatch.EligibleIsLaunched | downloader/cmd/root.go:42-72 | every URL of a creatable folder that the ledger does not list is launched |
| Dispatch.LaunchedIsEligible | downloader/cmd/root.go:42-72 | every launched URL is in a creatable folder and not in the ledger |
| Dispatch.LaunchedIffEligible | downloader/cmd/root.go:42-72 | the loop launches exactly the eligible URLs |
| Dispatch.CompleteLedgerLaunchesNothing | downloader/cmd/root.go:49-53 | when the ledger lists every configured URL, nothing is launched |
| CmdRoot.Load | cmd/root.go:43-58 | the receiver's map holds exactly the downloaded URLs, each mapped to true; the caller's configuration is a value and is not changed |
| CmdRoot.Run | cmd/root.go:96-100 | Run always panics with "ONO" after Load, and nothing is dispatched |

## Left out

- HTTP itself, the file system and the terminal are parameters, as described above. Logging
  (`log`, `fmt.Printf`) is left out.
- Concurrency is left out: the goroutines, `sync.WaitGroup`, the semaphore's release, and
  `statusLock`. `Dispatch.Run` records each launch as the arguments handed to the goroutine.
  `WithStatusCommutes` shows that the final table does not depend on the order in which
  different slots report. How transfers of one slot interleave is not modelled.
- The re-render after every update is left out: the screen clear and the printing of every
  slot. Empty slots are printed too, as blank lines.
- The floating-point percentage and its "%.2f" formatting are a function parameter
  (`Percent`), so the model does not compute them. With a total of 0 the Go division gives
  +Inf or NaN rather than a panic. The parameter covers that too.
- Reading the configuration is left out: `readConfig`, `initConfig` and viper. The model
  starts from the parsed folders, the `Parallel` value and the ledger file.
- `main`, `Execute` and `init` (cobra wiring) are left out.
- Progress.Counter: `*pr.Current` is an `int64`. The model's counter is unbounded and does not wrap
  past 2^63-1.
- Ledger.Config.DownloadAppend and Ledger.AppendURLToFile: a failed write is taken to write nothing. A
  partial `WriteString` is not modelled.
- Progress.DestFile: only the file's length is modelled, not its bytes. `O_APPEND` makes the
  new content the old content followed by the body; the model states this as lengths only.
- Progress.Copy: a write to the downloaded file never fails in the model. In Go, `io.Copy`
  stops with the Write error on a full disk or a short write, and `downloadFile` returns
  it. By then `*pr.Current` has already counted the bytes of that read, so the counter and
  the status line run ahead of the file. The model does not capture that case: it promises
  that the counter grows by exactly what the file grows.
- Ledger.Config.Init and Ledger.ScanFinished: the scanner's failure on an over-long line is a
  parameter (`scanStop`, the number of lines read before it fails). The 64 KiB token limit
  itself is not computed.
- The unpacking step is left out; the source has it only as a TODO.
- `MkdirAll`'s directory is not modelled beyond whether it succeeds for a folder.
- The HTTP status code is never checked. A server that ignores the Range header and answers
  200 with the whole body gets that body appended after the partial content. The model
  follows the code here. It only promises that every byte read is appended.
- A Stat failure on a file that nonetheless opens gives offset 0. The model follows the code:
  no Range header is sent, and the body is appended to what is already there.
- The map iteration order is a parameter: `Dispatch.Run` takes the folders as a sequence.
  Dispatch.Run: the sequence may repeat a folder name, which the Go map's keys cannot. For
  distinct names `|folders| * parallel` is `len(config.Download)*config.Parallel`; with a
  repeated name the model's table would be larger.
  Because `Run` never writes the ledger (the call is commented out), a second run with the
  same ledger launches the same downloads again. `Dispatch.CompleteLedgerLaunchesNothing`
  states the design's idempotence for a ledger that something else has filled.
- Dispatch.Run: a request or a body read can block forever, because the `http.Client` at
  `downloader/cmd/root.go:139` has no timeout. A stalled transfer never releases its
  semaphore slot (`:60`). `Parallel` stalled transfers block the send at `:56`, and
  `wg.Wait` at `:74` then waits forever. The model assumes every request and every read
  returns.

Where the design and the code disagree, the model follows the code in the cases below. The one
exception is `Ledger.Config.Init`'s error (see "## Findings"):

- A `Content-Range` without '/' panics (`Resume.TotalSize`). It is not recovered as an
  unknown size. The panic happens inside the goroutine started at
  `downloader/cmd/root.go:58` and nothing recovers it, so it ends the whole process: the
  other transfers and the rest of the loop. `Transfer.DownloadFile` reports it as
  `Panicked` for that transfer alone. `Dispatch.Run`'s `Completed` describes the loop
  when no transfer panics and, while `Parallel` transfers are in flight, one of them
  eventually finishes (see the blocking line under "## Left out").
- No URL is ever recorded as finished after a transfer. The append is commented out at
  `downloader/cmd/root.go:69-70`.
- `Parallel` is not checked. A negative value panics. With 0, the first send on the
  semaphore (`downloader/cmd/root.go:56`) happens before any goroutine exists, so the Go
  runtime aborts the process with "all goroutines are asleep - deadlock!" (`Dispatch.Run`,
  outcome `Deadlocked`).
- Every download goes to one temporary directory, not to its folder.

## Findings

| source | as written | input that shows it | evidently intended | confidence | as-written member | corrected member |
|---|---|---|---|---|---|---|
| cmd/config.go:64-72 | `file, err := os.Open(...)` assigns the named result `err`. The bare `return` in the "does not exist" branch therefore returns the open error, and `initConfig` (cmd/config.go:58-60) passes it to `log.Fatal` | the first run, with no ledger file on disk | a missing file is a fresh start: Init returns nil with an empty set, as its comment says | high (not executed) | Ledger.MissingLedgerIsAnError | Ledger.IntendedInitError |
