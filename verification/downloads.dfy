/**
 * The download sequencer. The selected nodes become download items that are
 * processed one at a time, in list order; all files of the active item are
 * requested at once, and each transfer later reports one event: success or
 * failure. A failure is retried while that URL's retry counter is below 3;
 * after that the error is recorded and every item stops downloading.
 *
 * Transfers themselves (the network, progress observers, the hop to the main
 * queue) are not modelled: the ghost log `launched` records each transfer the
 * manager asks for, and `HandleDownloadSuccess` / `HandleDownloadError` /
 * `ReportProgress` are the events, delivered one at a time and only for a
 * transfer in that log.
 */
module Downloads {
  import opened Wrappers
  import opened Catalog

  type Url = string

  datatype DownloadItem = DownloadItem(item: NodeData, isDownloading: bool, isCompleted: bool, completedFiles: int)

  /** The recorded error: the transfer of `url` failed with no retries left. */
  datatype TransferFailure = TransferFailure(url: Url)

  /** One transfer the manager asked for: file `file` of item `item`, first try or retry. */
  datatype Request = Request(item: nat, file: nat, url: Url, isRetry: bool)

  /** Neither completed nor downloading: `!$0.isCompleted && !$0.isDownloading`. */
  predicate Pending(it: DownloadItem) {
    !it.isCompleted && !it.isDownloading
  }

  /** A pending item that has files to fetch. */
  predicate Startable(it: DownloadItem) {
    Pending(it) && |it.item.files| > 0
  }

  /** `items.first(where: pending)`, as an index, searching from `from`. */
  function FirstPendingFrom(items: seq<DownloadItem>, from: nat): (r: Option<nat>)
    requires from <= |items|
    ensures r.Some? ==> from <= r.value < |items| && Pending(items[r.value]) &&
                        forall j :: from <= j < r.value ==> !Pending(items[j])
    ensures r.None? ==> forall j :: from <= j < |items| ==> !Pending(items[j])
    decreases |items| - from
  {
    if from == |items| then None
    else if Pending(items[from]) then Some(from)
    else FirstPendingFrom(items, from + 1)
  }

  function FirstPending(items: seq<DownloadItem>): (r: Option<nat>)
    ensures r.Some? ==> r.value < |items| && Pending(items[r.value]) &&
                        forall j :: 0 <= j < r.value ==> !Pending(items[j])
    ensures r.None? ==> forall j :: 0 <= j < |items| ==> !Pending(items[j])
  {
    FirstPendingFrom(items, 0)
  }

  /** The first pending item that has files: the one the manager will activate. */
  function FirstStartableFrom(items: seq<DownloadItem>, from: nat): (r: Option<nat>)
    requires from <= |items|
    ensures r.Some? ==> from <= r.value < |items| && Startable(items[r.value]) &&
                        forall j :: from <= j < r.value ==> !Startable(items[j])
    ensures r.None? ==> forall j :: from <= j < |items| ==> !Startable(items[j])
    decreases |items| - from
  {
    if from == |items| then None
    else if Startable(items[from]) then Some(from)
    else FirstStartableFrom(items, from + 1)
  }

  function FirstStartable(items: seq<DownloadItem>): (r: Option<nat>)
    ensures r.Some? ==> r.value < |items| && Startable(items[r.value]) &&
                        forall j :: 0 <= j < r.value ==> !Startable(items[j])
    ensures r.None? ==> forall j :: 0 <= j < |items| ==> !Startable(items[j])
  {
    FirstStartableFrom(items, 0)
  }

  /** How many items are marked completed. */
  function CountCompleted(items: seq<DownloadItem>): (n: nat)
    ensures n <= |items|
  {
    if items == [] then 0
    else CountCompleted(items[..|items| - 1]) + (if items[|items| - 1].isCompleted then 1 else 0)
  }

  /**
   * The items after one round of `processNextDownload` with no error recorded:
   * every pending item without files before the first startable item is
   * completed, and that item, if any, is downloading.
   */
  ghost function Advanced(items: seq<DownloadItem>): seq<DownloadItem> {
    var k := FirstStartable(items);
    var b := if k.Some? then k.value else |items|;
    var skipped := seq(|items|, j requires 0 <= j < |items| =>
      if j < b && Pending(items[j]) then items[j].(isCompleted := true) else items[j]);
    if k.Some? then skipped[b := skipped[b].(isDownloading := true)] else skipped
  }

  /** The first-try requests for every file of item `k`, in file order. */
  ghost function Requests(k: nat, files: seq<FileInfo>): (rs: seq<Request>)
    ensures |rs| == |files|
  {
    seq(|files|, f requires 0 <= f < |files| => Request(k, f, files[f].url, false))
  }

  /** How many retries of `u` the log holds. */
  ghost function CountRetries(log: seq<Request>, u: Url): nat {
    if log == [] then 0
    else CountRetries(log[..|log| - 1], u) + (if log[|log| - 1].isRetry && log[|log| - 1].url == u then 1 else 0)
  }

  /** Every item with its `isDownloading` flag cleared. */
  function Cancelled(items: seq<DownloadItem>): (r: seq<DownloadItem>)
    ensures |r| == |items|
    ensures forall j :: 0 <= j < |items| ==> r[j] == items[j].(isDownloading := false)
  {
    seq(|items|, j requires 0 <= j < |items| => items[j].(isDownloading := false))
  }

  // ---------------------------------------------------------------------------
  // Lemmas about the counters and the advance
  // ---------------------------------------------------------------------------

  lemma {:induction false} CountCompletedAgree(a: seq<DownloadItem>, b: seq<DownloadItem>)
    requires |a| == |b| && forall j :: 0 <= j < |a| ==> a[j].isCompleted == b[j].isCompleted
    ensures CountCompleted(a) == CountCompleted(b)
    decreases |a|
  {
    if a != [] {
      CountCompletedAgree(a[..|a| - 1], b[..|b| - 1]);
    }
  }

  /** Completing one item that was not completed adds exactly one to the count. */
  lemma {:induction false} CountCompletedMark(a: seq<DownloadItem>, j: nat, x: DownloadItem)
    requires j < |a| && !a[j].isCompleted && x.isCompleted
    ensures CountCompleted(a[j := x]) == CountCompleted(a) + 1
    decreases |a|
  {
    var n := |a| - 1;
    if j == n {
      assert a[j := x][..n] == a[..n];
    } else {
      assert a[j := x][..n] == a[..n][j := x];
      CountCompletedMark(a[..n], j, x);
    }
  }

  /** The count reaches the number of items exactly when every item is completed. */
  lemma {:induction false} CountCompletedAll(a: seq<DownloadItem>)
    ensures CountCompleted(a) == |a| <==> forall j :: 0 <= j < |a| ==> a[j].isCompleted
    decreases |a|
  {
    if a != [] {
      var n := |a| - 1;
      CountCompletedAll(a[..n]);
      if CountCompleted(a) == |a| {
        assert CountCompleted(a[..n]) == n;
        forall j | 0 <= j < |a| ensures a[j].isCompleted {
          if j < n {
            assert a[..n][j] == a[j];
          }
        }
      }
      if forall j :: 0 <= j < |a| ==> a[j].isCompleted {
        assert forall j :: 0 <= j < n ==> a[..n][j].isCompleted;
      }
    }
  }

  lemma {:induction false} CountCompletedNone(a: seq<DownloadItem>)
    requires forall j :: 0 <= j < |a| ==> !a[j].isCompleted
    ensures CountCompleted(a) == 0
    decreases |a|
  {
    if a != [] {
      CountCompletedNone(a[..|a| - 1]);
    }
  }

  lemma {:induction false} CountRetriesAppend(a: seq<Request>, b: seq<Request>, u: Url)
    ensures CountRetries(a + b, u) == CountRetries(a, u) + CountRetries(b, u)
    decreases |b|
  {
    if b == [] {
      assert a + b == a;
    } else {
      assert (a + b)[..|a + b| - 1] == a + b[..|b| - 1];
      CountRetriesAppend(a, b[..|b| - 1], u);
    }
  }

  lemma {:induction false} RequestsHoldNoRetry(k: nat, files: seq<FileInfo>, u: Url)
    ensures CountRetries(Requests(k, files), u) == 0
    decreases |files|
  {
    if files != [] {
      var n := |files| - 1;
      assert Requests(k, files)[..n] == Requests(k, files[..n]);
      RequestsHoldNoRetry(k, files[..n], u);
    }
  }

  /**
   * Completing the first pending item when it has no files does not change
   * where the advance stops nor what it leaves.
   */
  lemma AdvanceSkipsEmpty(items: seq<DownloadItem>, p: nat)
    requires FirstPending(items) == Some(p) && |items[p].item.files| == 0
    ensures FirstStartable(items[p := items[p].(isCompleted := true)]) == FirstStartable(items)
    ensures Advanced(items[p := items[p].(isCompleted := true)]) == Advanced(items)
  {
    var items' := items[p := items[p].(isCompleted := true)];
    assert forall j :: 0 <= j < |items| && j != p ==> items'[j] == items[j];
    assert !Startable(items[p]) && !Startable(items'[p]);
  }

  /** When the first pending item has files, the advance activates it and changes nothing else. */
  lemma AdvanceActivates(items: seq<DownloadItem>, p: nat)
    requires FirstPending(items) == Some(p) && |items[p].item.files| > 0
    ensures FirstStartable(items) == Some(p)
    ensures Advanced(items) == items[p := items[p].(isDownloading := true)]
  {
    assert Startable(items[p]);
  }

  /** With no pending item, the advance changes nothing. */
  lemma AdvanceIdle(items: seq<DownloadItem>)
    requires FirstPending(items).None?
    ensures FirstStartable(items).None?
    ensures Advanced(items) == items
  {
  }

  /**
   * What one advance promises: only pending items without files before the
   * activated one are completed, the activated one is the first startable and
   * the only one whose `isDownloading` is set, no pending item remains before
   * it (or at all, when none is activated), and file lists and success
   * counters are untouched.
   */
  lemma AdvanceShape(items: seq<DownloadItem>)
    ensures |Advanced(items)| == |items|
    ensures forall j :: 0 <= j < |items| ==>
              && Advanced(items)[j].item == items[j].item
              && Advanced(items)[j].completedFiles == items[j].completedFiles
              && (Advanced(items)[j].isCompleted != items[j].isCompleted ==>
                    Pending(items[j]) && |items[j].item.files| == 0)
    ensures var k := FirstStartable(items);
            && (k.Some? ==> Advanced(items)[k.value].isDownloading && !Advanced(items)[k.value].isCompleted)
            && (forall j :: 0 <= j < |items| && (k.None? || j < k.value) ==> !Pending(Advanced(items)[j]))
            && (forall j :: 0 <= j < |items| && (k.None? || j != k.value) ==>
                  Advanced(items)[j].isDownloading == items[j].isDownloading)
  {
  }

  // ---------------------------------------------------------------------------
  // File names and post-processing
  // ---------------------------------------------------------------------------

  predicate HasSuffix(s: string, suffix: string) {
    |suffix| <= |s| && s[|s| - |suffix|..] == suffix
  }

  /** `url` starts with a scheme (no `/` in it) followed by `://` at position `i`. */
  predicate SchemeEndsAt(url: Url, i: nat) {
    0 < i && i + 3 <= |url| && '/' !in url[..i] && url[i..i + 3] == "://"
  }

  /** The URL without its query or fragment: everything before the first `?` or `#`. */
  function PathPart(url: Url): (p: Url)
    ensures |p| <= |url| && p == url[..|p|]
    ensures '?' !in p && '#' !in p
    ensures |p| < |url| ==> url[|p|] == '?' || url[|p|] == '#'
  {
    if url == [] || url[0] == '?' || url[0] == '#' then []
    else [url[0]] + PathPart(url[1..])
  }

  /**
   * An absolute URL the manager can take apart: `scheme://authority/path`,
   * possibly followed by a query or fragment, with a `/` opening the path
   * after the authority and no separator at the end of the path, so its last
   * path component is the text after the path's last `/`.
   */
  predicate ValidUrl(url: Url) {
    var p := PathPart(url);
    && (exists i :: 0 < i < |p| && SchemeEndsAt(p, i) && '/' in p[i + 3..])
    && p[|p| - 1] != '/'
  }

  /** The text after the last `/` of a path (all of it when it has none). */
  function LastComponent(path: string): (name: string)
    ensures '/' !in name && |name| <= |path| && path[|path| - |name|..] == name
    ensures '/' in path ==> |name| < |path| && path[|path| - |name| - 1] == '/'
  {
    if path == [] || path[|path| - 1] == '/' then []
    else LastComponent(path[..|path| - 1]) + [path[|path| - 1]]
  }

  /**
   * `URL(string: url)!.lastPathComponent`: the text after the last `/` of the
   * URL's path, leaving out any query or fragment.
   */
  function FileName(url: Url): (name: string)
    ensures '/' !in name && '?' !in name && '#' !in name
    ensures var p := PathPart(url);
            && |name| <= |p| && p[|p| - |name|..] == name
            && ('/' in p ==> |name| < |p| && p[|p| - |name| - 1] == '/')
  {
    LastComponent(PathPart(url))
  }

  /** A query or fragment does not change the file name. */
  lemma {:induction false} FileNameIgnoresQuery(path: Url, sep: char, rest: string)
    requires '?' !in path && '#' !in path && (sep == '?' || sep == '#')
    ensures FileName(path + [sep] + rest) == FileName(path)
  {
    PathPartStops(path, sep, rest);
    assert PathPart(path) == path by {
      assert forall k :: 0 <= k < |path| ==> path[k] != '?' && path[k] != '#';
    }
  }

  lemma {:induction false} PathPartStops(path: Url, sep: char, rest: string)
    requires '?' !in path && '#' !in path && (sep == '?' || sep == '#')
    ensures PathPart(path + [sep] + rest) == path
    decreases |path|
  {
    if path == [] {
      assert (path + [sep] + rest)[0] == sep;
    } else {
      assert (path + [sep] + rest)[1..] == path[1..] + [sep] + rest;
      PathPartStops(path[1..], sep, rest);
    }
  }

  /**
   * For a URL with a path, the file name is not empty and lies in the path:
   * the `/` before it comes after `scheme://authority`, so a host is never
   * taken for a file name.
   */
  lemma FileNameInPath(url: Url, i: nat)
    requires var p := PathPart(url); SchemeEndsAt(p, i) && '/' in p[i + 3..] && p[|p| - 1] != '/'
    ensures var p := PathPart(url); 0 < |FileName(url)| && i + 3 <= |p| - |FileName(url)| - 1
  {
    var p := PathPart(url);
    var q :| i + 3 <= q < |p| && p[q] == '/' by {
      var t :| 0 <= t < |p[i + 3..]| && p[i + 3..][t] == '/';
      assert p[i + 3 + t] == '/';
    }
  }

  /** A step of moving a finished transfer into place and unpacking it. */
  datatype Action =
    | CreateDirectory(path: string)
    | Move(destination: string)
    | Run(executable: string, arguments: seq<string>)
    | Remove(path: string)

  const InstallRoot: string := "Library/Application Support/audacity/openvino-models"

  /** `appendingPathComponent` */
  function Join(base: string, component: string): string {
    base + "/" + component
  }

  /**
   * `extractFileIfNeeded`: a `.zip` is unpacked with unzip, otherwise a
   * `.tar.gz` with tar, each followed by removing the archive; any other name
   * is left alone. The extractor's exit status is not looked at.
   */
  function ExtractionSteps(filename: string, path: string, directory: string): (steps: seq<Action>)
    ensures HasSuffix(filename, ".zip") ==>
              steps == [Run("/usr/bin/unzip", ["-o", path, "-d", directory]), Remove(path)]
    ensures !HasSuffix(filename, ".zip") && HasSuffix(filename, ".tar.gz") ==>
              steps == [Run("/usr/bin/tar", ["-xzf", path, "-C", directory]), Remove(path)]
    ensures steps == [] <==> !HasSuffix(filename, ".zip") && !HasSuffix(filename, ".tar.gz")
  {
    if HasSuffix(filename, ".zip") then
      [Run("/usr/bin/unzip", ["-o", path, "-d", directory]), Remove(path)]
    else if HasSuffix(filename, ".tar.gz") then
      [Run("/usr/bin/tar", ["-xzf", path, "-C", directory]), Remove(path)]
    else []
  }

  /**
   * `processFile`: create `~/InstallRoot/dir`, move the transfer there under
   * the URL's last path component, then extract if needed. An archive is
   * unpacked into the item's directory and the moved file is removed
   * afterwards; any other file stays where it was moved.
   */
  function ProcessFileSteps(home: string, dir: string, url: Url): (steps: seq<Action>)
    requires ValidUrl(url)
    ensures var destinationDir := Join(Join(home, InstallRoot), dir);
            var destinationPath := Join(destinationDir, FileName(url));
            && |steps| >= 2
            && steps[0] == CreateDirectory(destinationDir)
            && steps[1] == Move(destinationPath)
            && (|steps| == 2 <==> !HasSuffix(FileName(url), ".zip") && !HasSuffix(FileName(url), ".tar.gz"))
            && (|steps| != 2 ==>
                  && |steps| == 4 && steps[3] == Remove(destinationPath)
                  && steps[2].Run? && |steps[2].arguments| == 4 && steps[2].arguments[3] == destinationDir
                  && destinationPath in steps[2].arguments)
  {
    var destinationDir := Join(Join(home, InstallRoot), dir);
    var filename := FileName(url);
    var destinationPath := Join(destinationDir, filename);
    [CreateDirectory(destinationDir), Move(destinationPath)] + ExtractionSteps(filename, destinationPath, destinationDir)
  }

  // ---------------------------------------------------------------------------
  // The manager's invariant, on values
  // ---------------------------------------------------------------------------

  /**
   * A non-negative success counter; an item with files is completed exactly
   * when the counter has reached its file count; a downloading item is not
   * completed.
   */
  predicate ItemConsistent(it: DownloadItem) {
    && it.completedFiles >= 0
    && (|it.item.files| > 0 ==> (it.isCompleted <==> it.completedFiles >= |it.item.files|))
    && (it.isDownloading ==> !it.isCompleted)
  }

  predicate ItemsConsistent(items: seq<DownloadItem>) {
    forall j :: 0 <= j < |items| ==> ItemConsistent(items[j])
  }

  predicate NoneDownloading(items: seq<DownloadItem>) {
    forall j :: 0 <= j < |items| ==> !items[j].isDownloading
  }

  predicate AllCompleted(items: seq<DownloadItem>) {
    forall j :: 0 <= j < |items| ==> items[j].isCompleted
  }

  /** `retryCounts[url, default: 0]` */
  function RetriesOf(counts: map<Url, nat>, u: Url): nat {
    if u in counts then counts[u] else 0
  }

  /** Each URL has been retried exactly as often as its counter says, and at most `limit` times. */
  ghost predicate RetriesAgree(log: seq<Request>, counts: map<Url, nat>, limit: nat) {
    && (forall u :: u in counts ==> counts[u] <= limit)
    && (forall u :: CountRetries(log, u) == RetriesOf(counts, u))
  }

  /** Cancelling keeps every item consistent, the completed count, and leaves nothing downloading. */
  lemma CancelledConsistent(items: seq<DownloadItem>)
    requires ItemsConsistent(items)
    ensures ItemsConsistent(Cancelled(items)) && NoneDownloading(Cancelled(items))
    ensures CountCompleted(Cancelled(items)) == CountCompleted(items)
    ensures AllCompleted(items) ==> AllCompleted(Cancelled(items))
  {
    CountCompletedAgree(Cancelled(items), items);
  }

  /**
   * Counting one success keeps every item consistent, and when the count
   * reaches the file count the item was not yet completed and may now be.
   */
  lemma SuccessConsistent(items: seq<DownloadItem>, i: nat)
    requires ItemsConsistent(items) && i < |items| && |items[i].item.files| > 0
    ensures var it := items[i].(completedFiles := items[i].completedFiles + 1);
            var done := it.(isCompleted := true, isDownloading := false);
            && (it.completedFiles != |it.item.files| ==> ItemsConsistent(items[i := it]))
            && (NoneDownloading(items) ==> NoneDownloading(items[i := it]))
            && (AllCompleted(items) ==> AllCompleted(items[i := it]))
            && CountCompleted(items[i := it]) == CountCompleted(items)
            && (it.completedFiles == |it.item.files| ==>
                  && !items[i].isCompleted
                  && ItemsConsistent(items[i := done])
                  && (NoneDownloading(items) ==> NoneDownloading(items[i := done]))
                  && CountCompleted(items[i := done]) == CountCompleted(items) + 1)
  {
    var it := items[i].(completedFiles := items[i].completedFiles + 1);
    CountCompletedAgree(items[i := it], items);
    if it.completedFiles == |it.item.files| {
      CountCompletedMark(items, i, it.(isCompleted := true, isDownloading := false));
    }
  }

  /** Activating a pending item keeps every item consistent and the completed count. */
  lemma ActivateConsistent(items: seq<DownloadItem>, p: nat)
    requires ItemsConsistent(items) && p < |items| && Pending(items[p])
    ensures ItemsConsistent(items[p := items[p].(isDownloading := true)])
    ensures CountCompleted(items[p := items[p].(isDownloading := true)]) == CountCompleted(items)
  {
    CountCompletedAgree(items[p := items[p].(isDownloading := true)], items);
  }

  /** Some request in the log is for item `i`. */
  ghost predicate ItemRequested(log: seq<Request>, i: nat) {
    exists r :: r in log && r.item == i
  }

  /** Some request in the log is for file `f` of item `i`: a transfer that can report back. */
  ghost predicate FileRequested(log: seq<Request>, i: nat, f: nat) {
    exists r :: r in log && r.item == i && r.file == f
  }

  /**
   * Items are taken strictly in list order: an item that is downloading, or
   * that has been requested and is not completed, has every earlier item
   * completed.
   */
  ghost predicate InOrder(items: seq<DownloadItem>, log: seq<Request>) {
    forall j :: 0 <= j < |items| ==> TakenInOrder(items, log, j)
  }

  /** If item `j` is downloading, or requested and not completed, every item before it is completed. */
  ghost predicate TakenInOrder(items: seq<DownloadItem>, log: seq<Request>, j: nat)
    requires j < |items|
  {
    (items[j].isDownloading || (!items[j].isCompleted && ItemRequested(log, j))) ==> CompletedBefore(items, j)
  }

  predicate CompletedBefore(items: seq<DownloadItem>, j: nat)
    requires j <= |items|
  {
    forall q :: 0 <= q < j ==> items[q].isCompleted
  }

  /** Taken in order, at most one item is downloading at a time. */
  lemma OneDownloading(items: seq<DownloadItem>, log: seq<Request>)
    requires ItemsConsistent(items) && InOrder(items, log)
    ensures forall a, b :: 0 <= a < |items| && 0 <= b < |items| && items[a].isDownloading && items[b].isDownloading ==> a == b
  {
    forall a, b | 0 <= a < b < |items| && items[b].isDownloading
      ensures !items[a].isDownloading
    {
      assert TakenInOrder(items, log, b);
      assert items[a].isCompleted;
    }
  }

  /**
   * A requested item that is not completed is the only item that can be
   * downloading, so completing it leaves nothing downloading.
   */
  lemma RequestedIsTheDownload(items: seq<DownloadItem>, log: seq<Request>, i: nat)
    requires ItemsConsistent(items) && InOrder(items, log)
    requires i < |items| && ItemRequested(log, i) && !items[i].isCompleted
    ensures forall d :: 0 <= d < |items| && d != i ==> !items[d].isDownloading
    ensures forall q :: 0 <= q < i ==> items[q].isCompleted
  {
    assert TakenInOrder(items, log, i);
    forall d | 0 <= d < |items| && d != i
      ensures !items[d].isDownloading
    {
      assert TakenInOrder(items, log, d);
      if d < i {
        assert items[d].isCompleted;
      }
    }
  }

  /** Requests for item `p` add no other item to those requested. */
  lemma RequestedAppend(log: seq<Request>, rs: seq<Request>, p: nat, j: nat)
    requires forall k :: 0 <= k < |rs| ==> rs[k].item == p
    requires j != p && ItemRequested(log + rs, j)
    ensures ItemRequested(log, j)
  {
    var r :| r in log + rs && r.item == j;
    assert r in log;
  }

  /**
   * Activating the first pending item when nothing is downloading, and
   * requesting its files, keeps the items in order.
   */
  lemma ActivateInOrder(items: seq<DownloadItem>, log: seq<Request>, p: nat)
    requires NoneDownloading(items) && InOrder(items, log) && FirstPending(items) == Some(p)
    ensures InOrder(items[p := items[p].(isDownloading := true)], log + Requests(p, items[p].item.files))
  {
    var items', log' := items[p := items[p].(isDownloading := true)], log + Requests(p, items[p].item.files);
    // Before p every item is completed (none pending, none downloading); after
    // p none can be requested and not completed, or p would be completed.
    forall j | 0 <= j < |items| && j != p
      ensures items[j].isCompleted || !ItemRequested(log, j)
    {
      if p < j {
        assert TakenInOrder(items, log, j);
      } else {
        assert !Pending(items[j]);
      }
    }
    forall j | 0 <= j < |items'|
      ensures TakenInOrder(items', log', j)
    {
      if j == p {
        forall q | 0 <= q < p ensures items'[q].isCompleted {
          assert !Pending(items[q]);
        }
      } else if ItemRequested(log', j) {
        RequestedAppend(log, Requests(p, items[p].item.files), p, j);
      }
    }
  }

  /** A further request for an item already requested keeps the items in order. */
  lemma RetryInOrder(items: seq<DownloadItem>, log: seq<Request>, r: Request)
    requires InOrder(items, log) && ItemRequested(log, r.item)
    ensures InOrder(items, log + [r])
  {
    forall j | 0 <= j < |items|
      ensures TakenInOrder(items, log + [r], j)
    {
      assert TakenInOrder(items, log, j);
      if j != r.item && ItemRequested(log + [r], j) {
        RequestedAppend(log, [r], r.item, j);
      }
    }
  }

  /** Completing an item that is not downloading keeps the items in order. */
  lemma CompleteInOrder(items: seq<DownloadItem>, log: seq<Request>, i: nat, x: DownloadItem)
    requires InOrder(items, log) && i < |items| && x.isCompleted && !x.isDownloading
    ensures InOrder(items[i := x], log)
  {
    var items' := items[i := x];
    forall j | 0 <= j < |items'|
      ensures TakenInOrder(items', log, j)
    {
      assert TakenInOrder(items, log, j);
      if j != i && CompletedBefore(items, j) {
        assert forall q :: 0 <= q < j ==> items[q].isCompleted;
      }
    }
  }

  /** Cancelling keeps the items in order. */
  lemma CancelledInOrder(items: seq<DownloadItem>, log: seq<Request>)
    requires InOrder(items, log)
    ensures InOrder(Cancelled(items), log)
  {
    forall j | 0 <= j < |items|
      ensures TakenInOrder(Cancelled(items), log, j)
    {
      assert TakenInOrder(items, log, j);
      if CompletedBefore(items, j) {
        assert forall q :: 0 <= q < j ==> items[q].isCompleted;
      }
    }
  }

  /**
   * Counting a success for a requested item keeps the items in order, and
   * when the count reaches the file count, completing the item leaves nothing
   * downloading.
   */
  lemma SuccessInOrder(items: seq<DownloadItem>, log: seq<Request>, i: nat)
    requires ItemsConsistent(items) && InOrder(items, log)
    requires i < |items| && ItemRequested(log, i) && |items[i].item.files| > 0
    ensures var it := items[i].(completedFiles := items[i].completedFiles + 1);
            var done := it.(isCompleted := true, isDownloading := false);
            && InOrder(items[i := it], log)
            && (it.completedFiles == |it.item.files| ==>
                  NoneDownloading(items[i := done]) && InOrder(items[i := done], log))
  {
    var it := items[i].(completedFiles := items[i].completedFiles + 1);
    FlagsInOrder(items, items[i := it], log);
    if it.completedFiles == |it.item.files| {
      RequestedIsTheDownload(items, log, i);
      CompleteInOrder(items, log, i, it.(isCompleted := true, isDownloading := false));
    }
  }

  /** Items whose flags agree are in order together. */
  lemma FlagsInOrder(a: seq<DownloadItem>, b: seq<DownloadItem>, log: seq<Request>)
    requires |a| == |b| && InOrder(a, log)
    requires forall j :: 0 <= j < |a| ==> b[j].isDownloading == a[j].isDownloading && b[j].isCompleted == a[j].isCompleted
    ensures InOrder(b, log)
  {
    forall j | 0 <= j < |b|
      ensures TakenInOrder(b, log, j)
    {
      assert TakenInOrder(a, log, j);
      if CompletedBefore(a, j) {
        assert forall q :: 0 <= q < j ==> a[q].isCompleted;
      }
    }
  }

  /** Agreement bounds every URL's retries, over the whole log, by the limit. */
  lemma RetriesBounded(log: seq<Request>, counts: map<Url, nat>, limit: nat, u: Url)
    requires RetriesAgree(log, counts, limit)
    ensures CountRetries(log, u) <= limit
  {
    assert CountRetries(log, u) == RetriesOf(counts, u);
  }

  /** A counted retry keeps the log and the counters in agreement. */
  lemma RetryAgrees(log: seq<Request>, counts: map<Url, nat>, limit: nat, i: nat, f: nat, u: Url)
    requires RetriesAgree(log, counts, limit) && RetriesOf(counts, u) < limit
    ensures RetriesAgree(log + [Request(i, f, u, true)], counts[u := RetriesOf(counts, u) + 1], limit)
  {
    forall v ensures CountRetries(log + [Request(i, f, u, true)], v) == RetriesOf(counts[u := RetriesOf(counts, u) + 1], v) {
      assert (log + [Request(i, f, u, true)])[..|log|] == log;
    }
  }

  /** First tries of an item's files leave the retry counts as they are. */
  lemma LaunchAgrees(log: seq<Request>, counts: map<Url, nat>, limit: nat, p: nat, files: seq<FileInfo>)
    requires RetriesAgree(log, counts, limit)
    ensures RetriesAgree(log + Requests(p, files), counts, limit)
  {
    forall u ensures CountRetries(log + Requests(p, files), u) == RetriesOf(counts, u) {
      CountRetriesAppend(log, Requests(p, files), u);
      RequestsHoldNoRetry(p, files, u);
    }
  }

  // ---------------------------------------------------------------------------
  // The manager
  // ---------------------------------------------------------------------------

  class DownloadManager {
    var items: seq<DownloadItem>
    var currentDownloadItem: Option<nat>  // index of the item shown as current
    var completedItems: int
    var isFinished: bool
    var error: Option<TransferFailure>
    var retryCounts: map<Url, nat>
    const maxRetries: nat := 3
    ghost var launched: seq<Request>

    /**
     * The counter agrees with the flags; an item with files is completed
     * exactly when its success counter has reached its file count; the current
     * item is one of the items (a progress report may make any item current,
     * downloading or not); an error leaves nothing downloading; a finished
     * manager has every item completed; items are taken in list order, one at
     * a time (`InOrder` over the request log); and each URL has been retried
     * as often as its counter says, at most `maxRetries` times over the
     * manager's life.
     */
    ghost predicate Valid()
      reads this
    {
      && completedItems == CountCompleted(items)
      && ItemsConsistent(items)
      && (currentDownloadItem.Some? ==> currentDownloadItem.value < |items|)
      && (error.Some? ==> NoneDownloading(items))
      && (isFinished ==> AllCompleted(items))
      && InOrder(items, launched)
      && RetriesAgree(launched, retryCounts, maxRetries)
    }

    /**
     * The state one `processNextDownload` round leaves when no error is
     * recorded, starting from the given items, current item, finished flag
     * and request log.
     */
    ghost predicate AdvancedFrom(items0: seq<DownloadItem>, current0: Option<nat>, finished0: bool, launched0: seq<Request>)
      reads this
    {
      var k := FirstStartable(items0);
      && items == Advanced(items0)
      && currentDownloadItem == (if k.Some? then k else current0)
      && isFinished == (if k.Some? then finished0 else completedItems == |items|)
      && launched == launched0 + (if k.Some? then Requests(k.value, items0[k.value].item.files) else [])
    }

    constructor (nodes: seq<NodeData>)
      ensures Valid()
      ensures |items| == |nodes|
      ensures forall j :: 0 <= j < |nodes| ==> items[j] == DownloadItem(nodes[j], false, false, 0)
      ensures currentDownloadItem.None? && completedItems == 0 && !isFinished && error.None?
      ensures retryCounts == map[] && launched == []
    {
      var initial := seq(|nodes|, j requires 0 <= j < |nodes| => DownloadItem(nodes[j], false, false, 0));
      CountCompletedNone(initial);
      items := initial;
      currentDownloadItem := None;
      completedItems := 0;
      isFinished := false;
      error := None;
      retryCounts := map[];
      launched := [];
    }

    /**
     * With no items nothing happens; otherwise the error is cleared and the
     * manager advances. Both callers start from a state with nothing
     * downloading: a fresh manager, or one stopped by an error.
     */
    method StartDownloads()
      requires Valid() && NoneDownloading(items)
      modifies this
      ensures Valid()
      ensures retryCounts == old(retryCounts) && completedItems == CountCompleted(items)
      ensures |old(items)| == 0 ==>
                items == old(items) && error == old(error) && currentDownloadItem == old(currentDownloadItem) &&
                isFinished == old(isFinished) && launched == old(launched)
      ensures |old(items)| > 0 ==>
                error.None? && AdvancedFrom(old(items), old(currentDownloadItem), old(isFinished), old(launched))
    {
      if |items| == 0 {
        return;
      }
      error := None;
      ProcessNextDownload();
    }

    /** Does nothing while an error is recorded; otherwise advances to the next item, or finishes. */
    method ProcessNextDownload()
      requires Valid() && NoneDownloading(items)
      modifies this
      ensures Valid()
      ensures error == old(error) && retryCounts == old(retryCounts)
      ensures old(error).Some? ==>
                items == old(items) && currentDownloadItem == old(currentDownloadItem) &&
                isFinished == old(isFinished) && launched == old(launched) && completedItems == old(completedItems)
      ensures old(error).None? ==>
                AdvancedFrom(old(items), old(currentDownloadItem), old(isFinished), old(launched))
      decreases |items| - CountCompleted(items), 1
    {
      if error.Some? {
        return;
      }
      var next := FirstPending(items);
      if next.None? {
        AdvanceIdle(items);
        isFinished := completedItems == |items|;
        CountCompletedAll(items);
        return;
      }
      var p := next.value;
      assert !isFinished by {
        assert !items[p].isCompleted;
      }
      if |items[p].item.files| == 0 {
        AdvanceSkipsEmpty(items, p);
        CompleteItem(p);
        return;
      }
      AdvanceActivates(items, p);
      ActivateConsistent(items, p);
      ActivateInOrder(items, launched, p);
      LaunchAgrees(launched, retryCounts, maxRetries, p, items[p].item.files);
      ActivateItem(p);
      StartItemDownloads(p);
    }

    /** Asks for a transfer of every file of item `p`, in file order. */
    method StartItemDownloads(p: nat)
      requires p < |items|
      modifies this
      ensures launched == old(launched) + Requests(p, old(items[p].item.files))
      ensures items == old(items) && currentDownloadItem == old(currentDownloadItem) && error == old(error)
      ensures retryCounts == old(retryCounts) && completedItems == old(completedItems) && isFinished == old(isFinished)
    {
      var files := items[p].item.files;
      for f := 0 to |files|
        invariant items == old(items) && currentDownloadItem == old(currentDownloadItem) && error == old(error)
        invariant retryCounts == old(retryCounts) && completedItems == old(completedItems) && isFinished == old(isFinished)
        invariant launched == old(launched) + Requests(p, files[..f])
      {
        assert Requests(p, files[..f + 1]) == Requests(p, files[..f]) + [Request(p, f, files[f].url, false)];
        StartDownload(p, f, false);
      }
      assert files[..|files|] == files;
    }

    method ActivateItem(i: nat)
      requires i < |items|
      modifies this
      ensures items == old(items)[i := old(items)[i].(isDownloading := true)]
      ensures currentDownloadItem == Some(i)
      ensures completedItems == old(completedItems) && isFinished == old(isFinished) && error == old(error)
      ensures retryCounts == old(retryCounts) && launched == old(launched)
    {
      items := items[i := items[i].(isDownloading := true)];
      currentDownloadItem := Some(i);
    }

    /** Marks a pending item completed, counts it and advances. */
    method CompleteItem(i: nat)
      requires Valid() && NoneDownloading(items) && error.None? && i < |items| && Pending(items[i]) && |items[i].item.files| == 0
      modifies this
      ensures Valid()
      ensures error == old(error) && retryCounts == old(retryCounts)
      ensures AdvancedFrom(old(items)[i := old(items)[i].(isCompleted := true)], old(currentDownloadItem), old(isFinished), old(launched))
      decreases |items| - CountCompleted(items), 0
    {
      CountCompletedMark(items, i, items[i].(isCompleted := true));
      CompleteInOrder(items, launched, i, items[i].(isCompleted := true));
      items := items[i := items[i].(isCompleted := true)];
      completedItems := completedItems + 1;
      ProcessNextDownload();
    }

    /** `startDownload`: asks for a transfer of file `f` of item `i` (the transfer itself is not modelled). */
    method StartDownload(i: nat, f: nat, ghost isRetry: bool)
      requires i < |items| && f < |items[i].item.files|
      modifies this
      ensures launched == old(launched) + [Request(i, f, old(items[i].item.files[f].url), isRetry)]
      ensures items == old(items) && currentDownloadItem == old(currentDownloadItem)
      ensures completedItems == old(completedItems) && isFinished == old(isFinished)
      ensures error == old(error) && retryCounts == old(retryCounts)
    {
      launched := launched + [Request(i, f, items[i].item.files[f].url, isRetry)];
    }

    /**
     * One file of item `i` arrived and was put in place: count it; when the
     * count reaches the item's file count, complete the item and advance.
     */
    method HandleDownloadSuccess(i: nat, f: nat)
      requires Valid() && i < |items| && f < |items[i].item.files| && FileRequested(launched, i, f)
      modifies this
      ensures Valid()
      ensures error == old(error) && retryCounts == old(retryCounts)
      ensures var it := old(items[i]).(completedFiles := old(items[i].completedFiles) + 1);
              var done := it.(isCompleted := true, isDownloading := false);
              var reached := it.completedFiles == |it.item.files|;
              && (!reached ==>
                    items == old(items)[i := it] && currentDownloadItem == old(currentDownloadItem) &&
                    completedItems == old(completedItems) && isFinished == old(isFinished) && launched == old(launched))
              && (reached ==> !old(items[i].isCompleted))
              && (reached && old(error).Some? ==>
                    items == old(items)[i := done] && currentDownloadItem.None? &&
                    isFinished == old(isFinished) && launched == old(launched))
              && (reached && old(error).None? ==>
                    AdvancedFrom(old(items)[i := done], None, old(isFinished), old(launched)))
    {
      var it := items[i].(completedFiles := items[i].completedFiles + 1);
      SuccessConsistent(items, i);
      assert ItemRequested(launched, i);
      SuccessInOrder(items, launched, i);
      if it.completedFiles == |it.item.files| {
        assert !isFinished by {
          assert !items[i].isCompleted;
        }
        items := items[i := it.(isCompleted := true, isDownloading := false)];
        completedItems := completedItems + 1;
        currentDownloadItem := None;
        ProcessNextDownload();
      } else {
        items := items[i := it];
      }
    }

    /**
     * The transfer of file `f` of item `i` failed: retry it while its URL's
     * counter is below `maxRetries`, counting the retry; otherwise record the
     * error and cancel everything.
     */
    method HandleDownloadError(i: nat, f: nat)
      requires Valid() && i < |items| && f < |items[i].item.files| && FileRequested(launched, i, f)
      modifies this
      ensures Valid()
      ensures completedItems == old(completedItems) && isFinished == old(isFinished)
      ensures var u := old(items[i].item.files[f].url);
              var retries := RetriesOf(old(retryCounts), u);
              && (retries < maxRetries ==>
                    retryCounts == old(retryCounts)[u := retries + 1] &&
                    launched == old(launched) + [Request(i, f, u, true)] &&
                    items == old(items) && error == old(error) && currentDownloadItem == old(currentDownloadItem))
              && (retries >= maxRetries ==>
                    error == Some(TransferFailure(u)) && retryCounts == old(retryCounts) && launched == old(launched) &&
                    items == Cancelled(old(items)) && currentDownloadItem.None?)
    {
      var u := items[i].item.files[f].url;
      var retries := RetriesOf(retryCounts, u);
      if retries < maxRetries {
        RetryAgrees(launched, retryCounts, maxRetries, i, f, u);
        RetryInOrder(items, launched, Request(i, f, u, true));
        retryCounts := retryCounts[u := retries + 1];
        StartDownload(i, f, true);
      } else {
        CancelledConsistent(items);
        CancelledInOrder(items, launched);
        error := Some(TransferFailure(u));
        CancelAllDownloads();
      }
    }

    /**
     * A progress report for file `f` of item `i`, delivered on a later
     * main-queue turn: that item becomes the current one, whatever its state,
     * and nothing else that the model keeps changes. A transfer started after a
     * cancel reports too, so this can happen while an error is recorded.
     */
    method ReportProgress(i: nat, f: nat)
      requires Valid() && i < |items| && f < |items[i].item.files| && FileRequested(launched, i, f)
      modifies this
      ensures Valid()
      ensures currentDownloadItem == Some(i)
      ensures items == old(items) && completedItems == old(completedItems) && isFinished == old(isFinished)
      ensures error == old(error) && retryCounts == old(retryCounts) && launched == old(launched)
    {
      currentDownloadItem := Some(i);
    }

    /** Clears every `isDownloading` flag and the current item; nothing else changes. */
    method CancelAllDownloads()
      modifies this
      ensures items == Cancelled(old(items)) && currentDownloadItem.None?
      ensures completedItems == old(completedItems) && isFinished == old(isFinished) && error == old(error)
      ensures retryCounts == old(retryCounts) && launched == old(launched)
    {
      for j := 0 to |items|
        invariant |items| == |old(items)|
        invariant forall q :: 0 <= q < |items| ==>
          items[q] == if q < j then old(items)[q].(isDownloading := false) else old(items)[q]
        invariant completedItems == old(completedItems) && isFinished == old(isFinished) && error == old(error)
        invariant retryCounts == old(retryCounts) && launched == old(launched) && currentDownloadItem == old(currentDownloadItem)
      {
        items := items[j := items[j].(isDownloading := false)];
      }
      currentDownloadItem := None;
    }
  }
}
