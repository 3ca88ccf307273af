// The dispatch loop of the root command's Run: for each folder of the configuration (in
// the map's iteration order, which Go leaves unspecified and the caller therefore
// supplies), create its directory, skip the URLs the ledger already lists, and launch one
// download per remaining URL with the next slot index of the status table. The goroutines
// themselves run concurrently and are left out; a launch is recorded as the arguments it
// hands to downloadFile. The ledger is read, never written: the call that would record a
// finished URL is commented out in the source.

module Dispatch {

  import opened Options
  import opened Ledger

  /** One entry of the configuration's download map: a folder name and its URLs. */
  datatype Folder = Folder(name: string, urls: seq<string>)

  /** One goroutine started by the loop: the URL, the folder it was listed under, the
      directory downloadFile is given, and the status slot it writes. */
  datatype Launch = Launch(url: string, folder: string, dest: string, index: nat)

  /** How Run ends. make(chan, n) panics for a negative capacity. With capacity 0 the first
      send on the semaphore blocks before any goroutine has been started, so nothing can
      ever receive: the Go runtime detects that every goroutine is asleep and aborts the
      process with a fatal deadlock error. */
  datatype RunOutcome =
    | Completed(launches: seq<Launch>, table: seq<string>)
    | Deadlocked(table: seq<string>)
    | CapacityPanic

  /** The launches for one folder's URLs, numbered from `next`: every URL the ledger does
      not list, in order. */
  function FolderLaunches(folder: string, urls: seq<string>, finished: set<string>, dest: string, next: nat)
    : (launches: seq<Launch>)
    ensures |launches| <= |urls|
  {
    if urls == [] then []
    else
      var before := FolderLaunches(folder, urls[..|urls| - 1], finished, dest, next);
      var url := urls[|urls| - 1];
      before + (if url in finished then [] else [Launch(url, folder, dest, next + |before|)])
  }

  /** The number of URLs the configuration lists, over all folders. */
  function UrlCount(folders: seq<Folder>): nat
  {
    if folders == [] then 0 else UrlCount(folders[..|folders| - 1]) + |folders[|folders| - 1].urls|
  }

  /** The launches of the whole loop: folders whose directory cannot be created are skipped,
      the others contribute their unfinished URLs with consecutive indices. There is at most
      one launch per configured URL. */
  function Launches(folders: seq<Folder>, mkdirFails: set<string>, finished: set<string>, dest: string)
    : (launches: seq<Launch>)
    ensures |launches| <= UrlCount(folders)
  {
    if folders == [] then []
    else
      var before := Launches(folders[..|folders| - 1], mkdirFails, finished, dest);
      var f := folders[|folders| - 1];
      before + (if f.name in mkdirFails then [] else FolderLaunches(f.name, f.urls, finished, dest, |before|))
  }

  /** A URL is eligible when it is listed under a folder whose directory could be created
      and the ledger does not list it. */
  predicate Eligible(folders: seq<Folder>, mkdirFails: set<string>, finished: set<string>, url: string)
  {
    url !in finished && exists i :: 0 <= i < |folders| && folders[i].name !in mkdirFails && url in folders[i].urls
  }

  /** Run's loop on the downloader/cmd/root.go and mains.go copies. `ledger`, `ledgerOpenOk`
      and `scanStop` describe the ledger file each DownloadFinished call scans; `dest` is the
      directory every download is given (config.DownloadsTmpDir in one copy,
      tempDownloadDir in the other; never the folder's own directory). */
  method Run(folders: seq<Folder>, parallel: int, mkdirFails: set<string>,
             ledger: LedgerFile, ledgerOpenOk: bool, scanStop: Option<nat>, dest: string)
    returns (outcome: RunOutcome)
    ensures parallel < 0 <==> outcome == CapacityPanic
    ensures parallel >= 0 ==>
      var launches := Launches(folders, mkdirFails, ScannedSet(ledger.present, ledger.content, ledgerOpenOk, scanStop), dest);
      var table := seq(|folders| * parallel, _ => "");
      outcome == if parallel == 0 && launches != [] then Deadlocked(table) else Completed(launches, table)
  {
    if parallel < 0 {
      return CapacityPanic;
    }
    var table := seq(|folders| * parallel, _ => "");
    ghost var finished := ScannedSet(ledger.present, ledger.content, ledgerOpenOk, scanStop);
    var launches: seq<Launch> := [];
    var i := 0;
    while i < |folders|
      invariant i <= |folders|
      invariant launches == Launches(folders[..i], mkdirFails, finished, dest)
      invariant parallel == 0 ==> launches == []
    {
      assert folders[..i + 1][..i] == folders[..i];
      var folder := folders[i];
      if folder.name in mkdirFails {
        i := i + 1;
        continue;
      }
      var blocked;
      ghost var before := launches;
      launches, blocked := DispatchFolder(folder, parallel, ledger, ledgerOpenOk, scanStop, dest, launches);
      if blocked {
        LaunchesGrow(folders, i, mkdirFails, finished, dest, |before|);
        return Deadlocked(table);
      }
      i := i + 1;
    }
    assert folders[..i] == folders;
    return Completed(launches, table);
  }

  /** The inner loop, over one folder's URLs, appending to the launches so far: each URL
      the ledger lists is skipped; each other one takes the next index. With a semaphore of
      capacity 0 the first such URL stops the loop: its send can never complete. */
  method DispatchFolder(folder: Folder, parallel: int, ledger: LedgerFile, ledgerOpenOk: bool,
                        scanStop: Option<nat>, dest: string, launched: seq<Launch>)
    returns (launches: seq<Launch>, blocked: bool)
    requires parallel >= 0
    ensures var finished := ScannedSet(ledger.present, ledger.content, ledgerOpenOk, scanStop);
      var mine := FolderLaunches(folder.name, folder.urls, finished, dest, |launched|);
      && (blocked <==> parallel == 0 && mine != [])
      && (!blocked ==> launches == launched + mine)
  {
    ghost var finished := ScannedSet(ledger.present, ledger.content, ledgerOpenOk, scanStop);
    launches := launched;
    var downloadIndex := |launched|;
    var j := 0;
    while j < |folder.urls|
      invariant j <= |folder.urls|
      invariant launches == launched + FolderLaunches(folder.name, folder.urls[..j], finished, dest, |launched|)
      invariant downloadIndex == |launches|
      invariant parallel == 0 ==> launches == launched
    {
      FolderLaunchesStep(folder.name, folder.urls, j, finished, dest, |launched|);
      var url := folder.urls[j];
      var done := ScanFinished(ledger, ledgerOpenOk, scanStop, url);
      if done {
        j := j + 1;
        continue;
      }
      if parallel == 0 {
        assert url in folder.urls;
        FolderLaunchedIff(folder.name, folder.urls, finished, dest, |launched|, url);
        assert url in LaunchedUrls(FolderLaunches(folder.name, folder.urls, finished, dest, |launched|));
        return launches, true;
      }
      launches := launches + [Launch(url, folder.name, dest, downloadIndex)];
      downloadIndex := downloadIndex + 1;
      j := j + 1;
    }
    assert folder.urls[..j] == folder.urls;
    blocked := false;
  }

  /** FolderLaunches over one more URL: that URL's launch, if any, comes last. */
  lemma FolderLaunchesStep(folder: string, urls: seq<string>, j: nat, finished: set<string>, dest: string, next: nat)
    requires j < |urls|
    ensures var before := FolderLaunches(folder, urls[..j], finished, dest, next);
      FolderLaunches(folder, urls[..j + 1], finished, dest, next)
        == before + (if urls[j] in finished then [] else [Launch(urls[j], folder, dest, next + |before|)])
  {
    assert urls[..j + 1][..j] == urls[..j];
  }

  /** A folder that launches something makes the whole loop launch something. */
  lemma LaunchesGrow(folders: seq<Folder>, i: nat, mkdirFails: set<string>, finished: set<string>, dest: string, next: nat)
    requires i < |folders| && folders[i].name !in mkdirFails
    requires FolderLaunches(folders[i].name, folders[i].urls, finished, dest, next) != []
    ensures Launches(folders, mkdirFails, finished, dest) != []
  {
    var url := FolderLaunches(folders[i].name, folders[i].urls, finished, dest, next)[0].url;
    FolderLaunchedIff(folders[i].name, folders[i].urls, finished, dest, next, url);
    assert Eligible(folders, mkdirFails, finished, url);
    EligibleIsLaunched(folders, mkdirFails, finished, dest, url);
  }

  /** The URLs of a sequence of launches. */
  function LaunchedUrls(launches: seq<Launch>): set<string>
  {
    set k | 0 <= k < |launches| :: launches[k].url
  }

  /** Every launch of one folder names that folder and `dest`, is for one of its unfinished
      URLs, and carries the index of its position counted from `next`. */
  predicate FolderShaped(ls: seq<Launch>, folder: string, urls: seq<string>, finished: set<string>, dest: string, next: nat)
  {
    forall k :: 0 <= k < |ls| ==>
      ls[k].folder == folder && ls[k].dest == dest && ls[k].url !in finished && ls[k].url in urls
      && ls[k].index == next + k
  }

  lemma {:induction false} FolderLaunchesShape(folder: string, urls: seq<string>, finished: set<string>, dest: string, next: nat)
    ensures FolderShaped(FolderLaunches(folder, urls, finished, dest, next), folder, urls, finished, dest, next)
    decreases |urls|
  {
    if urls != [] {
      var init := urls[..|urls| - 1];
      var url := urls[|urls| - 1];
      FolderLaunchesShape(folder, init, finished, dest, next);
      var before := FolderLaunches(folder, init, finished, dest, next);
      var ls := FolderLaunches(folder, urls, finished, dest, next);
      assert urls == init + [url];
      forall k | 0 <= k < |ls|
        ensures ls[k].folder == folder && ls[k].dest == dest && ls[k].url !in finished && ls[k].url in urls
        ensures ls[k].index == next + k
      {
        if k < |before| {
          assert ls[k] == before[k];
          assert before[k].url in init;
        } else {
          assert ls[k] == Launch(url, folder, dest, next + |before|);
        }
      }
    }
  }

  /** The launch indices are 0, 1, 2, … in launch order; no launch belongs to a folder whose
      directory could not be created, none is for a URL the ledger lists, and every one is
      given `dest`. */
  predicate Shaped(ls: seq<Launch>, mkdirFails: set<string>, finished: set<string>, dest: string)
  {
    forall k :: 0 <= k < |ls| ==>
      ls[k].index == k && ls[k].folder !in mkdirFails && ls[k].url !in finished && ls[k].dest == dest
  }

  lemma {:induction false} LaunchesShape(folders: seq<Folder>, mkdirFails: set<string>, finished: set<string>, dest: string)
    ensures Shaped(Launches(folders, mkdirFails, finished, dest), mkdirFails, finished, dest)
    decreases |folders|
  {
    if folders != [] {
      var init := folders[..|folders| - 1];
      LaunchesShape(init, mkdirFails, finished, dest);
      var before := Launches(init, mkdirFails, finished, dest);
      var f := folders[|folders| - 1];
      FolderLaunchesShape(f.name, f.urls, finished, dest, |before|);
      var ls := Launches(folders, mkdirFails, finished, dest);
      forall k | 0 <= k < |ls|
        ensures ls[k].index == k && ls[k].folder !in mkdirFails && ls[k].url !in finished && ls[k].dest == dest
      {
        if k < |before| {
          assert ls[k] == before[k];
        } else {
          var here := FolderLaunches(f.name, f.urls, finished, dest, |before|);
          assert ls[k] == here[k - |before|];
        }
      }
    }
  }

  /** Every URL of a folder's launches is one of its unfinished URLs, and every unfinished
      URL is launched. */
  lemma {:induction false} FolderLaunchedIff(folder: string, urls: seq<string>, finished: set<string>, dest: string, next: nat, url: string)
    ensures url in LaunchedUrls(FolderLaunches(folder, urls, finished, dest, next)) <==> url in urls && url !in finished
    decreases |urls|
  {
    var ls := FolderLaunches(folder, urls, finished, dest, next);
    if urls != [] {
      var init := urls[..|urls| - 1];
      var last := urls[|urls| - 1];
      FolderLaunchedIff(folder, init, finished, dest, next, url);
      var before := FolderLaunches(folder, init, finished, dest, next);
      assert urls == init + [last];
      if url in LaunchedUrls(before) {
        var k :| 0 <= k < |before| && before[k].url == url;
        assert ls[k] == before[k];
      }
      if url == last && url !in finished {
        assert ls[|before|].url == url;
      }
      if url in LaunchedUrls(ls) {
        var k :| 0 <= k < |ls| && ls[k].url == url;
        if k < |before| {
          assert before[k].url == url;
        }
      }
    }
  }

  /** An eligible URL is always launched. */
  lemma {:induction false} EligibleIsLaunched(folders: seq<Folder>, mkdirFails: set<string>, finished: set<string>, dest: string, url: string)
    requires Eligible(folders, mkdirFails, finished, url)
    ensures url in LaunchedUrls(Launches(folders, mkdirFails, finished, dest))
    decreases |folders|
  {
    var i :| 0 <= i < |folders| && folders[i].name !in mkdirFails && url in folders[i].urls;
    var init := folders[..|folders| - 1];
    var f := folders[|folders| - 1];
    var before := Launches(init, mkdirFails, finished, dest);
    var ls := Launches(folders, mkdirFails, finished, dest);
    if i < |folders| - 1 {
      assert init[i] == folders[i];
      EligibleIsLaunched(init, mkdirFails, finished, dest, url);
      var k :| 0 <= k < |before| && before[k].url == url;
      assert ls[k] == before[k];
    } else {
      FolderLaunchedIff(f.name, f.urls, finished, dest, |before|, url);
      var here := FolderLaunches(f.name, f.urls, finished, dest, |before|);
      var k :| 0 <= k < |here| && here[k].url == url;
      assert ls[|before| + k] == here[k];
    }
  }

  /** A launched URL is always eligible. */
  lemma {:induction false} LaunchedIsEligible(folders: seq<Folder>, mkdirFails: set<string>, finished: set<string>, dest: string, url: string)
    requires url in LaunchedUrls(Launches(folders, mkdirFails, finished, dest))
    ensures Eligible(folders, mkdirFails, finished, url)
    decreases |folders|
  {
    var init := folders[..|folders| - 1];
    var f := folders[|folders| - 1];
    var before := Launches(init, mkdirFails, finished, dest);
    var ls := Launches(folders, mkdirFails, finished, dest);
    var k :| 0 <= k < |ls| && ls[k].url == url;
    if k < |before| {
      assert before[k].url == url;
      LaunchedIsEligible(init, mkdirFails, finished, dest, url);
      var i :| 0 <= i < |init| && init[i].name !in mkdirFails && url in init[i].urls;
      assert folders[i] == init[i];
    } else {
      var here := FolderLaunches(f.name, f.urls, finished, dest, |before|);
      assert f.name !in mkdirFails;
      assert here[k - |before|].url == url;
      FolderLaunchedIff(f.name, f.urls, finished, dest, |before|, url);
      assert folders[|folders| - 1].name !in mkdirFails && url in folders[|folders| - 1].urls;
    }
  }

  /** The loop launches exactly the eligible URLs. */
  lemma LaunchedIffEligible(folders: seq<Folder>, mkdirFails: set<string>, finished: set<string>, dest: string, url: string)
    ensures url in LaunchedUrls(Launches(folders, mkdirFails, finished, dest)) <==> Eligible(folders, mkdirFails, finished, url)
  {
    if url in LaunchedUrls(Launches(folders, mkdirFails, finished, dest)) {
      LaunchedIsEligible(folders, mkdirFails, finished, dest, url);
    }
    if Eligible(folders, mkdirFails, finished, url) {
      EligibleIsLaunched(folders, mkdirFails, finished, dest, url);
    }
  }

  /** Idempotence as the design intends it holds only when something has already recorded
      every configured URL in the ledger: then nothing is launched. (Run itself never
      records one, so a second run with the same ledger launches the same downloads again.) */
  lemma CompleteLedgerLaunchesNothing(folders: seq<Folder>, mkdirFails: set<string>, finished: set<string>, dest: string)
    requires forall i, u :: 0 <= i < |folders| && u in folders[i].urls ==> u in finished
    ensures Launches(folders, mkdirFails, finished, dest) == []
  {
    var ls := Launches(folders, mkdirFails, finished, dest);
    if ls != [] {
      LaunchedIsEligible(folders, mkdirFails, finished, dest, ls[0].url);
      assert false;
    }
  }
}
