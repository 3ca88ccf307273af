// Progress reporting of a transfer: the shared table of status lines
// (updateDownloadStatus), the byte counter that ProgressReader.Read advances, and the copy
// loop (io.Copy) that drives Read until the response body ends or fails.
//
// The response body is a sequence of read results (a byte count and an error); the bytes
// themselves are not modelled, only how many of them reach the file.

module Progress {

  /** updateDownloadStatus on the table's value: grow the table with "" until it has a
      slot `index`, then overwrite that slot. */
  function WithStatus(table: seq<string>, index: nat, status: string): (r: seq<string>)
    ensures |r| == if index < |table| then |table| else index + 1
    ensures r[index] == status
    ensures forall j :: 0 <= j < |table| && j != index ==> r[j] == table[j]
    ensures forall j :: |table| <= j < |r| && j != index ==> r[j] == ""
  {
    var padded := if index < |table| then table else table + seq(index + 1 - |table|, _ => "");
    padded[index := status]
  }

  /** Only the last of two updates of one slot is visible. */
  lemma WithStatusLastWins(table: seq<string>, index: nat, first: string, second: string)
    ensures WithStatus(WithStatus(table, index, first), index, second) == WithStatus(table, index, second)
  {
    var a := WithStatus(WithStatus(table, index, first), index, second);
    var b := WithStatus(table, index, second);
    assert |a| == |b|;
    forall j | 0 <= j < |a| ensures a[j] == b[j] { }
  }

  /** Updates of two different slots commute: the table does not depend on which of two
      transfers reports first. */
  lemma WithStatusCommutes(table: seq<string>, i: nat, s: string, j: nat, t: string)
    requires i != j
    ensures WithStatus(WithStatus(table, i, s), j, t) == WithStatus(WithStatus(table, j, t), i, s)
  {
    var a := WithStatus(WithStatus(table, i, s), j, t);
    var b := WithStatus(WithStatus(table, j, t), i, s);
    assert |a| == |b|;
    forall k | 0 <= k < |a| ensures a[k] == b[k] { }
  }

  /** The progress display: downloadStatuses, one line per slot. */
  class StatusTable {
    var entries: seq<string>

    constructor (size: nat)
      ensures entries == seq(size, _ => "")
    {
      entries := seq(size, _ => "");
    }

    /** updateDownloadStatus(index, status). */
    method Update(index: nat, status: string)
      modifies this
      ensures entries == WithStatus(old(entries), index, status)
    {
      ghost var before := entries;
      while |entries| <= index
        invariant |before| <= |entries| <= (if index < |before| then |before| else index + 1)
        invariant entries == before + seq(|entries| - |before|, _ => "")
        decreases index + 1 - |entries|
      {
        entries := entries + [""];
      }
      entries := entries[index := status];
      assert |entries| == |WithStatus(before, index, status)|;
    }
  }

  /** The shared byte counter: *pr.Current, the currentSize variable of downloadFile. */
  class Counter {
    var value: int

    constructor (start: int)
      ensures value == start
    {
      value := start;
    }
  }

  /** What one Read of the response body returns besides the bytes: their count and the
      error, nil, io.EOF, or a network failure. */
  datatype ReadErr = NoErr | EOF | Failed
  datatype ReadResult = ReadResult(n: nat, err: ReadErr)

  /** The response body; once its results are used up every Read returns (0, io.EOF). */
  class BodyReader {
    var pending: seq<ReadResult>

    constructor (body: seq<ReadResult>)
      ensures pending == body
    {
      pending := body;
    }

    method Read() returns (r: ReadResult)
      modifies this
      ensures old(pending) == [] ==> r == ReadResult(0, EOF) && pending == []
      ensures old(pending) != [] ==> r == old(pending)[0] && pending == old(pending)[1..]
    {
      if pending == [] {
        r := ReadResult(0, EOF);
      } else {
        r := pending[0];
        pending := pending[1..];
      }
    }
  }

  /** The status line a read publishes; `percent` is the "%.2f" text of the floating-point
      percentage, which the model does not compute. */
  function StatusText(fileName: string, percent: string): (s: string)
    ensures |s| > 13 + |fileName| && s[..13] == "Downloading ("
    ensures s[13..13 + |fileName|] == fileName
  {
    "Downloading (" + fileName + ")... " + percent + "% complete"
  }

  /** ProgressReader: wraps the response body and reports every read at its slot. */
  class ProgressReader {
    const Index: nat
    const FileName: string
    const Total: int
    const Current: Counter
    const Reader: BodyReader
    const Statuses: StatusTable
    /** fmt's "%.2f" of float64(current) / float64(total) * 100, left to the caller. */
    const Percent: (int, int) -> string

    constructor (index: nat, fileName: string, total: int, current: Counter, reader: BodyReader,
                 statuses: StatusTable, percent: (int, int) -> string)
      ensures Index == index && FileName == fileName && Total == total
      ensures Current == current && Reader == reader && Statuses == statuses && Percent == percent
    {
      Index, FileName, Total := index, fileName, total;
      Current, Reader, Statuses, Percent := current, reader, statuses, percent;
    }

    /** The status line published when the counter stands at `current`. */
    function StatusAt(current: int): string
    {
      StatusText(FileName, Percent(current, Total))
    }

    /** Read: passes the underlying (n, err) through unchanged, adds n to the shared counter
        and publishes exactly one status line at slot Index, whatever n and err are. */
    method Read() returns (r: ReadResult)
      modifies Current, Reader, Statuses
      ensures old(Reader.pending) == [] ==> r == ReadResult(0, EOF) && Reader.pending == []
      ensures old(Reader.pending) != [] ==> r == old(Reader.pending)[0] && Reader.pending == old(Reader.pending)[1..]
      ensures Current.value == old(Current.value) + r.n
      ensures Statuses.entries == WithStatus(old(Statuses.entries), Index, StatusAt(Current.value))
    {
      r := Reader.Read();
      Current.value := Current.value + r.n;
      Statuses.Update(Index, StatusAt(Current.value));
    }
  }

  /** Total byte count of a run of reads. */
  function Bytes(rs: seq<ReadResult>): nat
  {
    if rs == [] then 0 else rs[0].n + Bytes(rs[1..])
  }

  /** The reads io.Copy performs on a body: every result up to and including the first one
      that carries an error, or the whole body followed by the final (0, io.EOF). */
  function Drained(body: seq<ReadResult>): (rs: seq<ReadResult>)
    ensures |rs| >= 1
  {
    if body == [] then [ReadResult(0, EOF)]
    else if body[0].err != NoErr then [body[0]]
    else [body[0]] + Drained(body[1..])
  }

  /** The copy stops at its first read with an error (io.EOF included) and at no earlier
      one; up to there it reads the body's results in order, and past the end of the body
      the reader answers (0, io.EOF). */
  lemma {:induction false} DrainedStopsAtFirstError(body: seq<ReadResult>)
    ensures var rs := Drained(body);
      && rs[|rs| - 1].err != NoErr
      && (forall j :: 0 <= j < |rs| - 1 ==> rs[j].err == NoErr)
      && (|rs| <= |body| ==> rs == body[..|rs|])
      && (|rs| > |body| ==> rs == body + [ReadResult(0, EOF)])
    decreases |body|
  {
    if body != [] && body[0].err == NoErr {
      var rest := Drained(body[1..]);
      DrainedStopsAtFirstError(body[1..]);
      var rs := Drained(body);
      assert rs == [body[0]] + rest;
      assert [body[0]] + body[1..] == body;
      forall j | 0 <= j < |rs| - 1 ensures rs[j].err == NoErr {
        if j > 0 { assert rs[j] == rest[j - 1]; }
      }
      if |rs| <= |body| {
        assert [body[0]] + body[1..][..|rest|] == body[..|rs|];
      }
    }
  }

  /** What io.Copy returns besides the byte count: nil when the body ended with io.EOF. */
  datatype CopyErr = CopyOk | CopyFailed

  function CopyResult(body: seq<ReadResult>): CopyErr
  {
    var rs := Drained(body);
    if rs[|rs| - 1].err == Failed then CopyFailed else CopyOk
  }

  lemma {:induction false} BytesAppend(a: seq<ReadResult>, b: seq<ReadResult>)
    ensures Bytes(a + b) == Bytes(a) + Bytes(b)
    decreases |a|
  {
    if a == [] {
      assert a + b == b;
    } else {
      assert (a + b)[0] == a[0] && (a + b)[1..] == a[1..] + b;
      BytesAppend(a[1..], b);
    }
  }

  /** An error-free first read is followed by the copy of the rest of the body. */
  lemma DrainedCons(body: seq<ReadResult>)
    requires body != [] && body[0].err == NoErr
    ensures Drained(body) == [body[0]] + Drained(body[1..])
  {
  }

  /** After k error-free reads, the rest of the copy is the copy of the rest of the body. */
  lemma {:induction false} DrainedSkip(body: seq<ReadResult>, k: nat)
    requires k <= |body|
    requires forall j :: 0 <= j < k ==> body[j].err == NoErr
    ensures Drained(body) == body[..k] + Drained(body[k..])
    decreases k
  {
    if k == 0 {
      assert body[..0] == [] && body[0..] == body;
    } else {
      var tail := body[1..];
      forall j | 0 <= j < k - 1 ensures tail[j].err == NoErr {
        assert tail[j] == body[j + 1];
      }
      calc {
        Drained(body);
        == { DrainedCons(body); }
        [body[0]] + Drained(tail);
        == { DrainedSkip(tail, k - 1); }
        [body[0]] + (tail[..k - 1] + Drained(tail[k - 1..]));
        == { assert tail[k - 1..] == body[k..]; }
        ([body[0]] + tail[..k - 1]) + Drained(body[k..]);
        == { assert body[..k] == [body[0]] + tail[..k - 1]; }
        body[..k] + Drained(body[k..]);
      }
    }
  }

  /** A body delivered without error is copied in full. */
  lemma {:induction false} DrainedComplete(body: seq<ReadResult>)
    requires forall j :: 0 <= j < |body| ==> body[j].err == NoErr
    ensures Drained(body) == body + [ReadResult(0, EOF)]
    ensures Bytes(Drained(body)) == Bytes(body)
    ensures CopyResult(body) == CopyOk
  {
    DrainedSkip(body, |body|);
    assert body[..|body|] == body && body[|body|..] == [];
    BytesAppend(body, [ReadResult(0, EOF)]);
  }

  /** One more read adds its count to the bytes of the reads before it. */
  lemma BytesPrefixStep(body: seq<ReadResult>, k: nat)
    requires k < |body|
    ensures Bytes(body[..k + 1]) == Bytes(body[..k]) + body[k].n
  {
    assert body[..k + 1] == body[..k] + [body[k]];
    BytesAppend(body[..k], [body[k]]);
  }

  /** A copy turn whose read carries no error: one more error-free read is done. */
  lemma CopyContinues(body: seq<ReadResult>, k: nat)
    requires k < |body| && body[k].err == NoErr
    requires forall j :: 0 <= j < k ==> body[j].err == NoErr
    ensures forall j :: 0 <= j < k + 1 ==> body[j].err == NoErr
    ensures Bytes(body[..k + 1]) == Bytes(body[..k]) + body[k].n
  {
    BytesPrefixStep(body, k);
  }

  /** The copy turn whose read carries an error (io.EOF included) ends the copy with the
      byte count and error of Drained. */
  lemma CopyEnds(body: seq<ReadResult>, k: nat, r: ReadResult)
    requires k <= |body|
    requires forall j :: 0 <= j < k ==> body[j].err == NoErr
    requires r == if k == |body| then ReadResult(0, EOF) else body[k]
    requires r.err != NoErr
    ensures Bytes(Drained(body)) == Bytes(body[..k]) + r.n
    ensures CopyResult(body) == (if r.err == Failed then CopyFailed else CopyOk)
    ensures |Drained(body)| == k + 1
  {
    DrainedSkip(body, k);
    if k == |body| {
      assert body[k..] == [];
    } else {
      assert body[k..][0] == r;
    }
    assert Drained(body) == body[..k] + [r];
    BytesAppend(body[..k], [r]);
  }

  /** What io.Copy leaves unread in the body: the reads after the one that ended it. */
  function Unread(body: seq<ReadResult>): seq<ReadResult>
  {
    var used := |Drained(body)|;
    if used <= |body| then body[used..] else []
  }

  /** The destination file, opened with O_APPEND: only its length is modelled. */
  class DestFile {
    var size: nat

    constructor (size0: nat)
      ensures size == size0
    {
      size := size0;
    }
  }

  /** io.Copy(file, progressReader): reads until a read carries an error, appending every
      read's bytes to the file (also those of the last read). The counter advances by
      exactly the bytes copied, the slot ends up showing the status at the final count, and
      the reads after the last one are left unread. */
  method Copy(dst: DestFile, src: ProgressReader) returns (written: nat, err: CopyErr)
    modifies dst, src.Current, src.Reader, src.Statuses
    ensures written == Bytes(Drained(old(src.Reader.pending)))
    ensures err == CopyResult(old(src.Reader.pending))
    ensures src.Reader.pending == Unread(old(src.Reader.pending))
    ensures src.Current.value == old(src.Current.value) + written
    ensures dst.size == old(dst.size) + written
    ensures src.Statuses.entries
              == WithStatus(old(src.Statuses.entries), src.Index, src.StatusAt(src.Current.value))
  {
    ghost var body := src.Reader.pending;
    ghost var k := 0;
    written, err := 0, CopyOk;
    var done := false;
    while !done
      invariant k <= |body| && src.Reader.pending == body[k..]
      invariant !done ==> (forall j :: 0 <= j < k ==> body[j].err == NoErr) && written == Bytes(body[..k])
      invariant done ==> written == Bytes(Drained(body)) && err == CopyResult(body)
      invariant done ==> src.Reader.pending == Unread(body)
      invariant src.Current.value == old(src.Current.value) + written
      invariant dst.size == old(dst.size) + written
      invariant !done && k == 0 ==> src.Statuses.entries == old(src.Statuses.entries)
      invariant done || k > 0 ==>
        src.Statuses.entries == WithStatus(old(src.Statuses.entries), src.Index, src.StatusAt(src.Current.value))
      decreases |src.Reader.pending| + (if done then 0 else 1)
    {
      ghost var before := src.Current.value;
      ghost var wasEmpty := src.Reader.pending == [];
      var r := src.Read();
      if k > 0 {
        WithStatusLastWins(old(src.Statuses.entries), src.Index, src.StatusAt(before), src.StatusAt(src.Current.value));
      }
      dst.size := dst.size + r.n;
      assert wasEmpty <==> k == |body|;
      if r.err == NoErr {
        CopyContinues(body, k);
      } else {
        CopyEnds(body, k, r);
      }
      written := written + r.n;
      if r.err != NoErr {
        err := if r.err == Failed then CopyFailed else CopyOk;
        done := true;
      }
      if !wasEmpty {
        k := k + 1;
      }
    }
  }
}
