// downloadFile: one resumable transfer of one URL into one file. Everything outside the
// process (os.Stat, os.OpenFile, http.NewRequest, client.Do) is an answer supplied by the
// caller; the destination file is modelled by its length, and the response body by the
// results of its reads.

module Transfer {

  import opened Options
  import opened Numbers
  import opened FileName
  import opened Resume
  import opened Progress

  /** The request downloadFile sends: the URL and its Range header, if any. */
  datatype Request = Request(url: string, range: Option<string>)

  /** The parts of a response the transfer looks at: its two size headers ("" when absent)
      and its body. The status code is not looked at. */
  datatype Response = Response(contentRange: string, contentLength: string, body: seq<ReadResult>)

  /** How the world answers: whether os.Stat succeeds on the destination, whether
      os.OpenFile succeeds, whether http.NewRequest accepts the URL, and the response to a
      request (None when client.Do fails). */
  datatype World = World(statOk: bool, openOk: bool, requestOk: bool, respond: Request -> Option<Response>)

  datatype Failure = OpenFailed | RequestRejected | NetworkFailed | CopyInterrupted
  datatype Outcome = Done | Error(failure: Failure) | Panicked

  /** currentSize: the length of the partial file when Stat succeeds, else 0. */
  function ResumeOffset(world: World, size: nat): (offset: nat)
    ensures offset == ExistingSize(if world.statOk then Some(size) else None)
  {
    if world.statOk then size else 0
  }

  /** What handling response `resp` does, for a transfer of `fileName` into slot `index`
      that starts with `offset` bytes on disk: the outcome, and the file length and status
      table it leaves (`size0`/`table0` before, `size1`/`table1` after). A Content-Range
      without '/' panics before anything is written; otherwise every byte io.Copy reads is
      appended and the slot shows the status line for the final count. Either way the file
      never shrinks and the table never loses a line. */
  predicate Received(resp: Response, fileName: string, index: nat, offset: nat, percent: (int, int) -> string,
                     outcome: Outcome, size0: nat, size1: nat, table0: seq<string>, table1: seq<string>): (b: bool)
    ensures b ==> size0 <= size1 && |table0| <= |table1|
  {
    var total := TotalSize(offset, resp.contentRange, resp.contentLength);
    var written := Bytes(Drained(resp.body));
    && (outcome == Panicked <==> total.IndexPanic?)
    && (total.IndexPanic? ==> size1 == size0 && table1 == table0)
    && (total.Total? ==>
          && outcome == (if CopyResult(resp.body) == CopyFailed then Error(CopyInterrupted) else Done)
          && size1 == size0 + written
          && table1 == WithStatus(table0, index, StatusText(fileName, percent(offset + written, total.size))))
  }

  /** The part of downloadFile after the response arrives: work out the total size, then
      copy the body into the file through a ProgressReader that starts counting at `offset`. */
  method Receive(fileName: string, index: nat, offset: nat, resp: Response, dst: DestFile,
                 statuses: StatusTable, percent: (int, int) -> string)
    returns (outcome: Outcome)
    modifies dst, statuses
    ensures Received(resp, fileName, index, offset, percent, outcome,
                     old(dst.size), dst.size, old(statuses.entries), statuses.entries)
  {
    var total := TotalSize(offset, resp.contentRange, resp.contentLength);
    if total.IndexPanic? {
      return Panicked;
    }
    var counter := new Counter(offset);
    var reader := new BodyReader(resp.body);
    var pr := new ProgressReader(index, fileName, total.size, counter, reader, statuses, percent);
    var written, err := Copy(dst, pr);
    outcome := if err == CopyFailed then Error(CopyInterrupted) else Done;
  }

  /** downloadFile(url, folder, index). `sent` is the request that went out, if any.
      Before the copy starts, a failure leaves the file and the status table as they were;
      a Content-Range without a '/' panics; otherwise the body's bytes are appended to the
      file (also when the copy is interrupted, leaving the partial file for a later
      resume) and slot `index` shows the last status line. */
  method DownloadFile(url: string, index: nat, world: World, dst: DestFile, statuses: StatusTable,
                      percent: (int, int) -> string)
    returns (outcome: Outcome, sent: Option<Request>)
    modifies dst, statuses
    ensures var offset := ResumeOffset(world, old(dst.size));
      && (sent.Some? <==> world.openOk && world.requestOk)
      && (sent.Some? ==> sent.value == Request(url, RangeHeader(offset)))
    ensures !world.openOk ==> outcome == Error(OpenFailed)
    ensures world.openOk && !world.requestOk ==> outcome == Error(RequestRejected)
    ensures sent.Some? && world.respond(sent.value).None? ==> outcome == Error(NetworkFailed)
    ensures sent.None? || world.respond(sent.value).None? ==>
              dst.size == old(dst.size) && statuses.entries == old(statuses.entries)
    ensures sent.Some? && world.respond(sent.value).Some? ==>
              Received(world.respond(sent.value).value, ExtractFileName(url), index,
                       ResumeOffset(world, old(dst.size)), percent, outcome,
                       old(dst.size), dst.size, old(statuses.entries), statuses.entries)
  {
    var fileName := ExtractFileName(url);
    var currentSize := ResumeOffset(world, dst.size);
    sent := None;
    if !world.openOk {
      return Error(OpenFailed), sent;
    }
    if !world.requestOk {
      return Error(RequestRejected), sent;
    }
    var request := Request(url, RangeHeader(currentSize));
    sent := Some(request);
    var response := world.respond(request);
    if response.None? {
      return Error(NetworkFailed), sent;
    }
    outcome := Receive(fileName, index, currentSize, response.value, dst, statuses, percent);
  }

  /** A response whose total is known and whose body arrives whole, without error: the
      transfer ends Done, the file grows by the whole body, and the slot shows the status at
      `reached`, offset plus the body's length. */
  lemma ReceivedWhole(resp: Response, fileName: string, index: nat, offset: nat, percent: (int, int) -> string,
                      outcome: Outcome, size0: nat, size1: nat, table0: seq<string>, table1: seq<string>,
                      total: int, reached: int)
    requires TotalSize(offset, resp.contentRange, resp.contentLength) == Total(total)
    requires forall j :: 0 <= j < |resp.body| ==> resp.body[j].err == NoErr
    requires Received(resp, fileName, index, offset, percent, outcome, size0, size1, table0, table1)
    requires reached == offset + Bytes(resp.body)
    ensures outcome == Done && size1 == size0 + Bytes(resp.body)
    ensures table1 == WithStatus(table0, index, StatusText(fileName, percent(reached, total)))
  {
    DrainedComplete(resp.body);
  }

  /** Resume correctness: when the partial file holds `existing` bytes, the server honours
      the Range request with "bytes existing-last/total", last being total - 1, and sends
      the remaining total - existing bytes without error, the transfer succeeds, the file
      ends up exactly `total` bytes long, and its slot shows the status at total of total. */
  lemma ResumedFileReachesTotal(existing: nat, last: nat, total: nat, contentLength: string, body: seq<ReadResult>,
                                fileName: string, index: nat, percent: (int, int) -> string,
                                outcome: Outcome, size1: nat, table0: seq<string>, table1: seq<string>)
    requires 0 < existing <= total <= MaxInt64 && last + 1 == total
    requires forall j :: 0 <= j < |body| ==> body[j].err == NoErr
    requires Bytes(body) == total - existing
    requires Received(Response(ContentRange(existing, last, total), contentLength, body),
                      fileName, index, existing, percent, outcome, existing, size1, table0, table1)
    ensures outcome == Done && size1 == total
    ensures table1 == WithStatus(table0, index, StatusText(fileName, percent(total, total)))
  {
    ResumedTotalFromContentRange(existing, existing, last, total, contentLength);
    ReceivedWhole(Response(ContentRange(existing, last, total), contentLength, body), fileName, index, existing,
                  percent, outcome, existing, size1, table0, table1, total, total);
  }

  /** An interrupted body still leaves on disk every byte it delivered before the failure. */
  lemma {:induction false} InterruptedCopyKeepsPrefix(body: seq<ReadResult>, k: nat)
    requires k < |body| && body[k].err == Failed
    requires forall j :: 0 <= j < k ==> body[j].err == NoErr
    ensures CopyResult(body) == CopyFailed
    ensures Bytes(Drained(body)) == Bytes(body[..k + 1])
  {
    CopyEnds(body, k, body[k]);
    BytesPrefixStep(body, k);
  }
}
