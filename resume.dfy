// The header logic of downloadFile: the Range header sent to resume a partial file
// (section 14.2 of RFC 9110) and the total size read back from Content-Range
// (section 14.4 of RFC 9110) or Content-Length (section 8.6 of RFC 9110).
//
// A header the response does not carry reads as "" (Header.Get), so "absent" and
// "present but empty" are one case, as in the source.

module Resume {

  import opened Options
  import opened Numbers
  import opened Text

  /** currentSize: the size os.Stat reports for the destination file, or 0 when Stat fails
      (the file does not exist yet, or cannot be examined). */
  function ExistingSize(stat: Option<nat>): (size: nat)
    ensures stat.Some? ==> size == stat.value
    ensures stat.None? ==> size == 0
  {
    match stat
    case Some(s) => s
    case None => 0
  }

  /** The Range header of the request: "bytes=N-" asks for everything from offset N on. */
  function RangeHeader(existing: nat): (h: Option<string>)
    ensures h.Some? <==> existing > 0
  {
    if existing > 0 then Some("bytes=" + Decimal(existing) + "-") else None
  }

  /** The offset a server reads back from a "bytes=N-" header. */
  function RangeStart(h: string): (start: Option<int>)
  {
    if |h| >= 7 && h[..6] == "bytes=" && h[|h| - 1] == '-' then ParseInt64(h[6..|h| - 1]) else None
  }

  /** A resumed request asks for exactly the bytes after the ones already on disk. */
  lemma RangeHeaderResumesAtExisting(existing: nat)
    requires 0 < existing <= MaxInt64
    ensures RangeHeader(existing).Some?
    ensures RangeStart(RangeHeader(existing).value) == Some(existing)
  {
    var h := RangeHeader(existing).value;
    var d := Decimal(existing);
    assert h[..6] == "bytes=" && h[6..|h| - 1] == d;
    DecimalRoundTrip(existing);
  }

  /** parts[1] of strings.Split(s, "/"): the text between the first and the second '/' (or
      the end). None when s holds no '/', where the source indexes past the end of parts. */
  function SecondField(s: string): (f: Option<string>)
    ensures f.None? <==> '/' !in s
    ensures f.Some? ==> '/' !in f.value
  {
    var k := FirstIndex(s, '/');
    if k == |s| then
      assert s[..k] == s;
      None
    else
      var rest := s[k + 1..];
      Some(rest[..FirstIndex(rest, '/')])
  }

  /** The total size, or the index-out-of-range panic of parts[1]. */
  datatype SizeOutcome = Total(size: int) | IndexPanic

  /** totalSize: from Content-Range when it is present (its field after the first '/',
      falling back to the existing size when that does not parse); else from Content-Length,
      but only when nothing was on disk (falling back to 0); else the existing size. */
  function TotalSize(existing: nat, contentRange: string, contentLength: string): (r: SizeOutcome)
    ensures r.IndexPanic? <==> contentRange != "" && '/' !in contentRange
    ensures contentRange != "" && '/' in contentRange ==>
              r == Total(match ParseInt64(SecondField(contentRange).value) case Some(v) => v case None => existing)
    ensures contentRange == "" && (contentLength == "" || existing > 0) ==> r == Total(existing)
    ensures contentRange == "" && contentLength != "" && existing == 0 ==>
              r == Total(match ParseInt64(contentLength) case Some(v) => v case None => 0)
  {
    if contentRange != "" then
      match SecondField(contentRange)
      case None => IndexPanic
      case Some(field) =>
        match ParseInt64(field)
        case Some(v) => Total(v)
        case None => Total(existing)
    else if contentLength != "" && existing == 0 then
      match ParseInt64(contentLength)
      case Some(v) => Total(v)
      case None => Total(0)
    else Total(existing)
  }

  /** Split reads the field between the first two separators. */
  lemma SecondFieldOf(a: string, b: string, c: string)
    requires '/' !in a && '/' !in b
    ensures SecondField(a + "/" + b) == Some(b)
    ensures SecondField(a + "/" + b + "/" + c) == Some(b)
  {
    FirstIndexAfter(a, '/', b);
    FirstIndexAfter(a, '/', b + "/" + c);
    assert a + "/" + b + "/" + c == a + "/" + (b + "/" + c);
    assert (a + "/" + b)[|a| + 1..] == b;
    assert (a + "/" + (b + "/" + c))[|a| + 1..] == b + "/" + c;
    FirstIndexAfter(b, '/', c);
    assert (b + "/" + c)[..|b|] == b;
    FirstIndexNone(b, '/');
    assert b[..|b|] == b;
  }

  lemma DecimalHasNoSlash(n: nat)
    ensures '/' !in Decimal(n)
  {
  }

  /** The Content-Range of a partial response: "bytes first-last/total". */
  function ContentRange(first: nat, last: nat, total: nat): string
  {
    "bytes " + Decimal(first) + "-" + Decimal(last) + "/" + Decimal(total)
  }

  /** A server honouring the Range request answers "bytes N-M/T": the total is T, whatever
      was on disk. */
  lemma ResumedTotalFromContentRange(existing: nat, first: nat, last: nat, total: nat, contentLength: string)
    requires total <= MaxInt64
    ensures TotalSize(existing, ContentRange(first, last, total), contentLength) == Total(total)
  {
    var f, l, t := Decimal(first), Decimal(last), Decimal(total);
    var p1 := "bytes " + f;
    var p2 := p1 + "-";
    var a := p2 + l;
    DecimalHasNoSlash(first);
    DecimalHasNoSlash(last);
    DecimalHasNoSlash(total);
    NotInAppend("bytes ", f, '/');
    NotInAppend(p1, "-", '/');
    NotInAppend(p2, l, '/');
    SecondFieldOf(a, t, "");
    DecimalRoundTrip(total);
    var cr := a + "/" + t;
    assert cr[|a|] == '/';
  }

  /** An unknown complete length (an asterisk after the slash) keeps the size already on disk. */
  lemma UnknownTotalKeepsExisting(existing: nat, prefix: string, contentLength: string)
    requires '/' !in prefix
    ensures TotalSize(existing, prefix + "/*", contentLength) == Total(existing)
  {
    SecondFieldOf(prefix, "*", "");
    assert prefix + "/*" == prefix + "/" + "*";
    ParseInt64Examples();
  }

  /** A first download takes its total from Content-Length. */
  lemma FreshTotalFromContentLength(length: nat)
    requires length <= MaxInt64
    ensures TotalSize(0, "", Decimal(length)) == Total(length)
  {
    DecimalRoundTrip(length);
  }
}
