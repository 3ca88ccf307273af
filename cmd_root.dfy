// The cmd/root.go variant of the root command: Load builds the lookup map of downloaded
// URLs, but on a copy of the configuration, and Run panics right after calling it, before
// any of the dispatch loop's work.

module CmdRoot {

  import opened Dispatch

  /** The part of the configuration Load reads and writes: the URLs already downloaded and
      the lookup map built from them. */
  datatype RootConfig = RootConfig(downloaded: seq<string>, downloadedMap: map<string, bool>)

  /** Load has a value receiver: it works on a copy of the caller's configuration and the
      copy is dropped on return. `receiver` is that copy as Load leaves it; the caller's `c`,
      a value, is not changed. The copy's map holds exactly the downloaded URLs, each
      mapped to true, whatever map the configuration held before. */
  method Load(c: RootConfig) returns (receiver: RootConfig)
    ensures receiver.downloaded == c.downloaded
    ensures forall url :: url in receiver.downloadedMap <==> url in c.downloaded
    ensures forall url :: url in receiver.downloadedMap ==> receiver.downloadedMap[url]
  {
    receiver := c.(downloadedMap := map[]);
    var i := 0;
    while i < |c.downloaded|
      invariant i <= |c.downloaded|
      invariant receiver.downloaded == c.downloaded
      invariant forall url :: url in receiver.downloadedMap <==> url in c.downloaded[..i]
      invariant forall url :: url in receiver.downloadedMap ==> receiver.downloadedMap[url]
    {
      receiver := receiver.(downloadedMap := receiver.downloadedMap[c.downloaded[i] := true]);
      assert c.downloaded[..i + 1] == c.downloaded[..i] + [c.downloaded[i]];
      i := i + 1;
    }
    assert c.downloaded[..i] == c.downloaded;
  }

  /** How cmd/root.go's Run ends. */
  datatype CmdOutcome = Panic(message: string)

  /** Run (after reading the configuration): Load, then panic("ONO"). Nothing is
      dispatched: no semaphore, no status table, no download index, no transfer. */
  method Run(c: RootConfig) returns (outcome: CmdOutcome, dispatched: seq<Launch>)
    ensures outcome == Panic("ONO")
    ensures dispatched == []
  {
    var receiver := Load(c);
    outcome := Panic("ONO");
    dispatched := [];
  }
}
