// The completion ledger: the file of URLs already downloaded, one per line.
//
// Two versions exist. cmd/config.go keeps an in-memory set next to the file (Init,
// DownloadFinished, DownloadAppend); downloader/cmd/root.go rescans the file on every
// question (DownloadFinished) and appends without looking (AppendURLToFile).
// Whether the file can be opened, and whether a write succeeds, are answers supplied by
// the caller; a failed write is taken to write nothing.

module Ledger {

  import opened Options
  import opened Text

  // ---- The file and its lines ----

  /** bufio.ScanLines drops one carriage return at the end of a line. */
  function DropCR(line: string): string
  {
    if line != [] && line[|line| - 1] == '\r' then line[..|line| - 1] else line
  }

  /** The lines a bufio.Scanner reads from the whole file: split at each newline, the empty
      piece after a final newline is not a line, and a final piece without newline is. */
  function Lines(content: string): (lines: seq<string>)
    ensures content == [] <==> lines == []
    decreases |content|
  {
    if content == [] then []
    else
      var k := FirstIndex(content, '\n');
      if k == |content| then [DropCR(content)]
      else [DropCR(content[..k])] + Lines(content[k + 1..])
  }

  function LineSet(content: string): set<string>
  {
    set line | line in Lines(content)
  }

  /** A URL that the file gives back as written: no newline in it, no carriage return at
      its end. */
  predicate IsLine(url: string)
  {
    '\n' !in url && (url == [] || url[|url| - 1] != '\r')
  }

  /** The file is empty or ends with a newline, as every file this program writes does. */
  predicate Terminated(content: string)
  {
    content == [] || content[|content| - 1] == '\n'
  }

  /** The text written for one URL: url + "\n". */
  function Entry(url: string): string
  {
    url + "\n"
  }

  /** A line followed by its newline reads back as that line. */
  lemma LinesOfOne(url: string)
    requires IsLine(url)
    ensures Lines(Entry(url)) == [url]
  {
    var e := Entry(url);
    assert e == url + ['\n'] + [];
    FirstIndexAfter(url, '\n', []);
    assert e[..|url|] == url && e[|url| + 1..] == [];
  }

  /** Text appended after a complete first line leaves that line alone. */
  lemma LinesAfterFirstLine(content: string, tail: string)
    requires FirstIndex(content, '\n') < |content|
    ensures var k := FirstIndex(content, '\n');
      && Lines(content) == [DropCR(content[..k])] + Lines(content[k + 1..])
      && Lines(content + tail) == [DropCR(content[..k])] + Lines(content[k + 1..] + tail)
  {
    var k := FirstIndex(content, '\n');
    FirstIndexExtend(content, '\n', tail);
    assert (content + tail)[..k] == content[..k];
    assert (content + tail)[k + 1..] == content[k + 1..] + tail;
  }

  /** A non-empty terminated file has a first newline, and what follows it is terminated. */
  lemma TerminatedHasFirstLine(content: string)
    requires Terminated(content) && content != []
    ensures FirstIndex(content, '\n') < |content|
    ensures Terminated(content[FirstIndex(content, '\n') + 1..])
  {
    var k := FirstIndex(content, '\n');
    assert content[|content| - 1] == '\n';
    var rest := content[k + 1..];
    if rest != [] {
      assert rest[|rest| - 1] == content[|content| - 1];
    }
  }

  /** Appending a URL's entry to a terminated file adds exactly one line, the URL. */
  lemma {:induction false} LinesAppend(content: string, url: string)
    requires Terminated(content) && IsLine(url)
    ensures Lines(content + Entry(url)) == Lines(content) + [url]
    ensures Terminated(content + Entry(url))
    decreases |content|
  {
    var whole := content + Entry(url);
    assert whole[|whole| - 1] == '\n';
    if content == [] {
      assert whole == Entry(url);
      LinesOfOne(url);
    } else {
      TerminatedHasFirstLine(content);
      var k := FirstIndex(content, '\n');
      var first, rest := DropCR(content[..k]), content[k + 1..];
      LinesAfterFirstLine(content, Entry(url));
      LinesAppend(rest, url);
      var before := Lines(rest);
      assert [first] + (before + [url]) == ([first] + before) + [url];
    }
  }

  /** A last piece without newline is one line. */
  lemma LinesOfPiece(tail: string)
    requires tail != [] && '\n' !in tail
    ensures Lines(tail) == [DropCR(tail)]
  {
    FirstIndexNone(tail, '\n');
  }

  /** A terminated file followed by a last piece without newline: that piece is the last line. */
  lemma {:induction false} LinesWithPiece(content: string, tail: string)
    requires Terminated(content) && tail != [] && '\n' !in tail
    ensures Lines(content + tail) == Lines(content) + [DropCR(tail)]
    decreases |content|
  {
    if content == [] {
      assert content + tail == tail;
      LinesOfPiece(tail);
    } else {
      TerminatedHasFirstLine(content);
      var k := FirstIndex(content, '\n');
      var first, rest := DropCR(content[..k]), content[k + 1..];
      LinesAfterFirstLine(content, tail);
      LinesWithPiece(rest, tail);
      var before := Lines(rest);
      assert [first] + (before + [DropCR(tail)]) == ([first] + before) + [DropCR(tail)];
    }
  }

  /** A line with a URL after it is still a line. */
  lemma MergedIsLine(tail: string, url: string)
    requires '\n' !in tail && IsLine(url) && url != []
    ensures IsLine(tail + url)
  {
    var merged := tail + url;
    assert merged[|merged| - 1] == url[|url| - 1];
    assert forall i :: 0 <= i < |merged| ==> merged[i] == if i < |tail| then tail[i] else url[i - |tail|];
  }

  /** The URL's entry after such a piece completes the merged line. */
  lemma LinesWithMergedEntry(content: string, tail: string, url: string)
    requires Terminated(content) && '\n' !in tail && IsLine(url) && url != []
    ensures Lines(content + tail + Entry(url)) == Lines(content) + [tail + url]
  {
    var merged := tail + url;
    MergedIsLine(tail, url);
    LinesAppend(content, merged);
    assert content + tail + Entry(url) == content + Entry(merged);
  }

  /** Appending to a file whose last line `tail` lacks its newline merges the URL into that
      line: the file gains no line of its own for the URL, and its last line changes. */
  lemma UnterminatedAppendMerges(content: string, tail: string, url: string)
    requires Terminated(content) && tail != [] && '\n' !in tail
    requires IsLine(url) && url != []
    ensures Lines(content + tail) == Lines(content) + [DropCR(tail)]
    ensures Lines(content + tail + Entry(url)) == Lines(content) + [tail + url]
  {
    LinesWithPiece(content, tail);
    LinesWithMergedEntry(content, tail, url);
  }

  /** Number of lines equal to url. */
  function Occurrences(lines: seq<string>, url: string): (n: nat)
    ensures n == 0 <==> url !in lines
  {
    if lines == [] then 0
    else (if lines[0] == url then 1 else 0) + Occurrences(lines[1..], url)
  }

  lemma {:induction false} OccurrencesSnoc(lines: seq<string>, line: string, url: string)
    ensures Occurrences(lines + [line], url) == Occurrences(lines, url) + (if line == url then 1 else 0)
    decreases |lines|
  {
    if lines != [] {
      assert (lines + [line])[1..] == lines[1..] + [line];
      OccurrencesSnoc(lines[1..], line, url);
    } else {
      assert lines + [line] == [line];
    }
  }

  // ---- cmd/config.go: the set kept beside the file ----

  /** The file and the set of URLs read from it (downloadedMap, whose values are all true). */
  datatype LedgerState = LedgerState(content: string, downloaded: set<string>)

  /** The set holds exactly the lines of a terminated file. */
  predicate Consistent(s: LedgerState)
  {
    s.downloaded == LineSet(s.content) && Terminated(s.content)
  }

  /** What DownloadAppend returns. */
  datatype AppendErr = AppendOk | AppendOpenFailed | AppendWriteFailed

  /** One call DownloadAppend(url), with whether opening and writing the file succeed. */
  datatype AppendCall = AppendCall(url: string, openOk: bool, writeOk: bool)

  /** DownloadAppend on the ledger's value: nothing happens for a URL already in the set;
      otherwise the line is appended to the file and then, only if that worked, the URL
      joins the set. */
  function AppendStep(s: LedgerState, call: AppendCall): (r: (LedgerState, AppendErr))
    ensures call.url in s.downloaded ==> r == (s, AppendOk)
    ensures r.1 != AppendOk ==> r.0 == s
    ensures call.url !in s.downloaded && r.1 == AppendOk ==>
              r.0 == LedgerState(s.content + Entry(call.url), s.downloaded + {call.url})
    ensures call.url in r.0.downloaded <==> call.url in s.downloaded || r.1 == AppendOk
  {
    if call.url in s.downloaded then (s, AppendOk)
    else if !call.openOk then (s, AppendOpenFailed)
    else if !call.writeOk then (s, AppendWriteFailed)
    else (LedgerState(s.content + Entry(call.url), s.downloaded + {call.url}), AppendOk)
  }

  /** A sequence of DownloadAppend calls. */
  function AppendAll(s: LedgerState, calls: seq<AppendCall>): LedgerState
    decreases |calls|
  {
    if calls == [] then s else AppendAll(AppendStep(s, calls[0]).0, calls[1..])
  }

  predicate AllLines(calls: seq<AppendCall>)
  {
    forall i :: 0 <= i < |calls| ==> IsLine(calls[i].url)
  }

  /** DownloadAppend keeps the set equal to the lines of the file. */
  lemma AppendStepConsistent(s: LedgerState, call: AppendCall)
    requires Consistent(s) && IsLine(call.url)
    ensures Consistent(AppendStep(s, call).0)
  {
    if call.url !in s.downloaded && call.openOk && call.writeOk {
      LinesAppend(s.content, call.url);
    }
  }

  /** Set and file stay in agreement over any sequence of appends, and a URL whose line is
      in the file at the start or is appended along the way is finished at the end. */
  lemma {:induction false} AppendAllConsistent(s: LedgerState, calls: seq<AppendCall>)
    requires Consistent(s) && AllLines(calls)
    ensures Consistent(AppendAll(s, calls))
    ensures s.downloaded <= AppendAll(s, calls).downloaded
    decreases |calls|
  {
    if calls != [] {
      AppendStepConsistent(s, calls[0]);
      AppendAllConsistent(AppendStep(s, calls[0]).0, calls[1..]);
    }
  }

  /** At-most-once: starting from a consistent ledger, a URL that is not yet finished is
      written to the file at most once, however often DownloadAppend is called for it. */
  lemma {:induction false} AppendAllWritesOnce(s: LedgerState, calls: seq<AppendCall>, url: string)
    requires Consistent(s) && AllLines(calls)
    requires Occurrences(Lines(s.content), url) <= 1
    ensures Occurrences(Lines(AppendAll(s, calls).content), url) <= 1
    decreases |calls|
  {
    if calls != [] {
      var call := calls[0];
      var next := AppendStep(s, call).0;
      if next != s {
        LinesAppend(s.content, call.url);
        OccurrencesSnoc(Lines(s.content), call.url, url);
        assert call.url !in Lines(s.content);
      }
      AppendStepConsistent(s, call);
      AppendAllWritesOnce(next, calls[1..], url);
    }
  }

  /** What Init returns: the error of os.Open (the file is missing, or cannot be opened),
      the scanner's error, or nil. */
  datatype InitErr = InitOk | NotExist | OpenDenied | ScanFailed

  /** Init's return value as written: the bare `return` after a failed os.Open hands back
      the open error, also for a missing file, because `file, err := os.Open(...)` assigns
      the named result err. */
  function InitError(present: bool, openOk: bool, scanFailed: bool): (e: InitErr)
    ensures e == InitOk <==> present && openOk && !scanFailed
    ensures !present ==> e == NotExist
  {
    if !present then NotExist
    else if !openOk then OpenDenied
    else if scanFailed then ScanFailed
    else InitOk
  }

  /** Init's return value as its comment intends: a missing file is a fresh start. */
  function IntendedInitError(present: bool, openOk: bool, scanFailed: bool): (e: InitErr)
    ensures e != NotExist
    ensures e == InitOk <==> !present || (openOk && !scanFailed)
    ensures present ==> e == InitError(present, openOk, scanFailed)
  {
    if !present then InitOk else InitError(present, openOk, scanFailed)
  }

  /** As written, the first run, with no ledger file yet, fails: initConfig passes the
      error to log.Fatal. */
  lemma MissingLedgerIsAnError(openOk: bool, scanFailed: bool)
    ensures InitError(false, openOk, scanFailed) == NotExist
    ensures IntendedInitError(false, openOk, scanFailed) == InitOk
  {
  }

  /** How many lines the scanner reads: all of them, unless it fails after `scanStop`. */
  function ReadCount(lines: seq<string>, scanStop: Option<nat>): nat
  {
    if scanStop.Some? && scanStop.value < |lines| then scanStop.value else |lines|
  }

  /** The URLs a scan of the file can find: the lines the scanner reads before it stops
      (at the end, or at its first failure after `scanStop` lines); none when the file is
      missing or cannot be opened. */
  function ScannedSet(present: bool, content: string, openOk: bool, scanStop: Option<nat>): set<string>
  {
    var lines := Lines(content);
    if present && openOk then set j | 0 <= j < ReadCount(lines, scanStop) :: lines[j] else {}
  }

  /** The ledger file on disk. A missing file reads as empty. */
  class LedgerFile {
    var present: bool
    var content: string

    predicate Valid()
      reads this
    {
      !present ==> content == []
    }

    constructor (present0: bool, content0: string)
      requires present0 || content0 == []
      ensures Valid() && present == present0 && content == content0
    {
      present, content := present0, content0;
    }
  }

  /** cmd/config.go's Config, reduced to the ledger it keeps. */
  class Config {
    var downloadedMap: set<string>
    const file: LedgerFile

    constructor (file: LedgerFile)
      ensures this.file == file && downloadedMap == {}
    {
      this.file := file;
      downloadedMap := {};
    }

    function State(): LedgerState
      reads this, file
    {
      LedgerState(file.content, downloadedMap)
    }

    /** Init: a fresh set filled from the lines of the file. `openOk` says whether os.Open
        succeeds on an existing file; `scanStop` is the number of lines after which the
        scanner fails (a line longer than its buffer), if it does. The error is the
        corrected one: a missing file is a fresh start (see InitError for the code as
        written). A ledger read to its end without error, from a terminated file (or no
        file), starts consistent: the state the appends below keep. */
    method Init(openOk: bool, scanStop: Option<nat>) returns (err: InitErr)
      modifies this
      ensures downloadedMap == ScannedSet(file.present, file.content, openOk, scanStop)
      ensures var lines := Lines(file.content);
        err == IntendedInitError(file.present, openOk, ReadCount(lines, scanStop) < |lines|)
      ensures file.Valid() && Terminated(file.content) && err == InitOk ==> Consistent(State())
    {
      downloadedMap := {};
      if !file.present {
        return InitOk;
      }
      if !openOk {
        return OpenDenied;
      }
      var lines := Lines(file.content);
      var limit := ReadCount(lines, scanStop);
      var i := 0;
      while i < limit
        invariant i <= limit
        invariant downloadedMap == set j | 0 <= j < i :: lines[j]
      {
        downloadedMap := downloadedMap + {lines[i]};
        i := i + 1;
      }
      err := if limit < |lines| then ScanFailed else InitOk;
    }

    /** DownloadFinished: membership in the set, without looking at the file. */
    function DownloadFinished(url: string): (b: bool)
      reads this, file
      ensures Consistent(State()) ==> (b <==> url in Lines(file.content))
    {
      url in downloadedMap
    }

    /** DownloadAppend(url): see AppendStep. */
    method DownloadAppend(url: string, openOk: bool, writeOk: bool) returns (err: AppendErr)
      requires file.Valid()
      modifies this, file
      ensures file.Valid()
      ensures (State(), err) == AppendStep(old(State()), AppendCall(url, openOk, writeOk))
      ensures file.present == (old(file.present) || (url !in old(downloadedMap) && openOk))
      ensures err == AppendOk ==> DownloadFinished(url)
    {
      if url in downloadedMap {
        return AppendOk;
      }
      if !openOk {
        return AppendOpenFailed;
      }
      file.present := true;
      if !writeOk {
        return AppendWriteFailed;
      }
      file.content := file.content + Entry(url);
      downloadedMap := downloadedMap + {url};
      err := AppendOk;
    }
  }

  /** With the set and the file in agreement, DownloadFinished answers exactly whether the
      URL is a line of the file. */
  lemma FinishedIffLine(s: LedgerState, url: string)
    requires Consistent(s)
    ensures url in s.downloaded <==> url in Lines(s.content)
  {
  }

  // ---- downloader/cmd/root.go: the file alone ----

  /** DownloadFinished: scans the file line by line for a line equal to the URL; false when
      the file cannot be opened (it may not exist yet) or when the scanner fails before
      reaching the line. */
  method ScanFinished(file: LedgerFile, openOk: bool, scanStop: Option<nat>, url: string) returns (found: bool)
    ensures var lines := Lines(file.content);
      found <==> file.present && openOk && url in lines[..ReadCount(lines, scanStop)]
    ensures found <==> url in ScannedSet(file.present, file.content, openOk, scanStop)
  {
    if !file.present || !openOk {
      return false;
    }
    var lines := Lines(file.content);
    var limit := ReadCount(lines, scanStop);
    var i := 0;
    while i < limit
      invariant i <= limit
      invariant url !in lines[..i]
    {
      if lines[i] == url {
        assert lines[..limit][i] == url;
        return true;
      }
      assert lines[..i + 1] == lines[..i] + [lines[i]];
      i := i + 1;
    }
    found := false;
  }

  /** What AppendURLToFile returns. */
  datatype WriteErr = WriteOk | WriteOpenFailed | WriteFailed

  /** AppendURLToFile: appends url + "\n" with no check for a line already present. The
      open creates a missing file, so the file exists whenever the open succeeds, even
      when the write then fails. */
  method AppendURLToFile(file: LedgerFile, url: string, openOk: bool, writeOk: bool) returns (err: WriteErr)
    requires file.Valid()
    modifies file
    ensures file.Valid()
    ensures err == (if !openOk then WriteOpenFailed else if !writeOk then WriteFailed else WriteOk)
    ensures file.present == (old(file.present) || openOk)
    ensures err == WriteOk ==> file.content == old(file.content) + Entry(url)
    ensures err != WriteOk ==> file.content == old(file.content)
  {
    if !openOk {
      return WriteOpenFailed;
    }
    file.present := true;
    if !writeOk {
      return WriteFailed;
    }
    file.content := file.content + Entry(url);
    err := WriteOk;
  }

  /** A URL appended to a terminated file is found by the next scan. */
  lemma AppendedUrlIsFound(content: string, url: string)
    requires Terminated(content) && IsLine(url)
    ensures url in Lines(content + Entry(url))
  {
    LinesAppend(content, url);
  }

  /** Without a duplicate check, appending one URL twice leaves it on two lines. */
  lemma AppendTwiceDuplicates(content: string, url: string)
    requires Terminated(content) && IsLine(url)
    ensures Occurrences(Lines(content + Entry(url) + Entry(url)), url) == Occurrences(Lines(content), url) + 2
  {
    LinesAppend(content, url);
    LinesAppend(content + Entry(url), url);
    OccurrencesSnoc(Lines(content), url, url);
    OccurrencesSnoc(Lines(content) + [url], url, url);
  }
}
