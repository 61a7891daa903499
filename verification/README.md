# Resource downloader: selection tree and download sequencer

This project models the core of the macOS model-installer wizard that comes with
the OpenVINO plugins for Audacity. It covers two pieces.

**The catalog and its tri-state selection tree.** The bundled manifest is a list
of nodes, and each node may nest children. A node has a name, a description, an
install directory, a list of files with their download and extracted sizes, and
a check mark that is checked, unchecked or mixed.

- *Toggling* a node flips its mark (a mixed node becomes checked) and gives that
  mark to all of its descendants.
- It then recomputes every ancestor, up to the root, from the marks of that
  ancestor's children.
- Finally it recomputes two totals over the top-level nodes.
- The nodes that are not unchecked are collected in pre-order. They become the
  download list.

**The download sequencer.** Items are processed strictly in list order, one
at a time.

- Every file of the active item is requested at once.
- An item without files completes at once.
- An item completes when its count of successful files reaches its file count.
- A failed file is retried while its URL's retry counter is below 3.
- After that the error is recorded and every item is marked as not downloading.
- Each progress report makes its item the current item.
- A finished transfer is moved into the item's install directory under the
  URL's last path component. A `.zip` is then unpacked with `unzip` and a
  `.tar.gz` with `tar`, and the archive is removed afterwards.

The project is split into these files:

- `wrappers.dfy` holds `Option` and `Result`.
- `catalog.dfy` (`Catalog`) holds the node data, the arena forest and its
  well-formedness, subtrees, sizes and the selected-items walk.
- `selection.dfy` (`Selection`) holds the toggle as the `TreeViewModel` class.
  The class owns the node marks as an array and updates it in place. The class
  is proved against the `ToggleSpec` function, and the properties of a toggle
  are lemmas about `ToggleSpec`.
- `manifest.dfy` (`Manifest`) decodes manifest objects into the arena. It fills
  in the defaults and wires the parent back-references.
- `downloads.dfy` (`Downloads`) holds the `DownloadManager` class and the
  file-placement plan.

How the model represents the source:

- **Nodes and references.** Nodes live in an arena, `Forest.nodes`. A child or
  parent reference is an index into it. Decoding lays the nodes out in
  pre-order, so a child always comes after its parent.
- **Transfers.** They are abstract events. `HandleDownloadSuccess(i, f)` and
  `HandleDownloadError(i, f)` report the outcome for file `f` of item `i`, one
  event at a time, and only for a transfer the manager has asked for.
- **Request log.** A ghost log, `launched`, records every transfer the manager
  asks for. This is what lets the retry bound be stated over the manager's whole
  life.

Quirks of the source that the model keeps:

- A node's recursive size adds only the *own* files of its children whose mark
  is exactly checked. Mixed children and all grandchildren add nothing.
- Selecting every child of a node makes that node checked by the parent-state
  law, so the node itself is then selected too.
- Retry counters are never reset. After a restart, a URL that has used up its
  retries fails for good on its next failure.
- `completedFiles` survives a cancel, and it is not reset when the item is
  activated again. Successes counted before an error still count after a
  restart.
- The extractor's exit status is never looked at. The archive is removed either
  way.
- A cancel does not stop every transfer for good. A transfer that was in flight
  can still fail afterwards. If its URL is below the retry cap, it is retried
  even though an error is recorded. The new transfer's progress reports then
  make its item current, although no item is downloading.
- URLs are assumed to parse, so the source's invalid-URL branches (an error
  for the transfer, then `fatalError` in the error handler) do not arise; see
  "Left out".

## Model

| member | source | states |
|---|---|---|
| Catalog.OwnSize | tools/ResourceDownloader/ResourceDownloader/ResourceDownloaderApp.swift:121-127 | `downloadSize` / `extractedSize`: with non-negative declared sizes, the sum of a file list is non-negative and at least the size of each of its files |
| Catalog.SizeRecursive | tools/ResourceDownloader/ResourceDownloader/ResourceDownloaderApp.swift:103-119 | `downloadSizeRecursive` / `extractedSizeRecursive`: with non-negative sizes, the result lies between the node's own size and its own size plus every child's own size |
| Catalog.OwnSizeAppend | tools/ResourceDownloader/ResourceDownloader/ResourceDownloaderApp.swift:121-127 | the own size (`downloadSize` / `extractedSize`) is additive over concatenated file lists, and it reads no mark |
| Catalog.CheckedKidsSizeExtremes | tools/ResourceDownloader/ResourceDownloader/ResourceDownloaderApp.swift:105-108 | the children's contribution is the sum of all listed children's own sizes when all are checked, and 0 when none is exactly checked |
| Catalog.SizeRecursiveExtremes | tools/ResourceDownloader/ResourceDownloader/ResourceDownloaderApp.swift:103-119 | the recursive size is the own size plus every child's own size when all children are checked, and the own size alone when no child is exactly checked (mixed children add 0) |
| Catalog.SizeRecursiveDependsOnKidsOnly | tools/ResourceDownloader/ResourceDownloader/ResourceDownloaderApp.swift:103-119 | the recursive size depends on no mark except the children's: not on the node's own mark, and not on any grandchild's |
| Catalog.SelectedItems | tools/ResourceDownloader/ResourceDownloader/ResourceDownloaderApp.swift:129-141 | `Node.selectedItems`: a node that is not unchecked heads its own list (which nodes the list holds is `SelectedItemsMembers`) |
| Catalog.StoreSelectedItems | tools/ResourceDownloader/ResourceDownloader/ResourceDownloaderApp.swift:87-89 | `ModelStore.selectedItems`: every listed node is a node of the catalog that is not unchecked |
| Catalog.SelectedItemsMembers | tools/ResourceDownloader/ResourceDownloader/ResourceDownloaderApp.swift:129-141 | x is in a node's `selectedItems` iff x is in that node's subtree and x is not unchecked (so mixed nodes are included) |
| Catalog.SelectedListMembers | tools/ResourceDownloader/ResourceDownloader/ResourceDownloaderApp.swift:136-138 | x is in the concatenated lists of some siblings iff x is not unchecked and lies in one of their subtrees |
| Catalog.SelectedItemsNoDup | tools/ResourceDownloader/ResourceDownloader/ResourceDownloaderApp.swift:129-141 | a node's `selectedItems` lists no node twice |
| Catalog.SelectedListNoDup | tools/ResourceDownloader/ResourceDownloader/ResourceDownloaderApp.swift:136-138 | the concatenated lists of distinct siblings list no node twice |
| Catalog.StoreSelectedItemsExact | tools/ResourceDownloader/ResourceDownloader/ResourceDownloaderApp.swift:87-89 | the store's selection (the roots' lists in root order) holds exactly the nodes that are not unchecked, each once |
| Catalog.CollectSelectedItems | tools/ResourceDownloader/ResourceDownloader/ResourceDownloaderApp.swift:129-141 | the accumulating loop returns the pre-order list: the node first unless unchecked, then each child's list in child order |
| Catalog.ReachesRoot | tools/ResourceDownloader/ResourceDownloader/ResourceDownloaderApp.swift:84-89 | in a well-formed catalog every node lies in the subtree of some root, so the store's selection can reach it |
| Catalog.SiblingsDisjoint | tools/ResourceDownloader/ResourceDownloader/ResourceDownloaderApp.swift:136-138 | the subtrees of two different siblings share no node |
| Selection.ParentStateOf | tools/ResourceDownloader/ResourceDownloader/ContentView.swift:142-147 | the parent mark is checked iff all children are checked, unchecked iff there are children and all are unchecked, and mixed iff some child is not checked and some child is not unchecked |
| Selection.ToggleSetsSubtree | tools/ResourceDownloader/ResourceDownloader/ContentView.swift:119-137 | a toggle sets the node to unchecked if it was checked and to checked otherwise, and gives every descendant that same mark |
| Selection.ToggleRecomputesAncestors | tools/ResourceDownloader/ResourceDownloader/ContentView.swift:139-150 | after a toggle, every strict ancestor carries the mark its children determine |
| Selection.ToggleLocal | tools/ResourceDownloader/ResourceDownloader/ContentView.swift:119-150 | a toggle changes no node outside the toggled subtree and its chain of ancestors |
| Selection.InitialLaw | tools/ResourceDownloader/ResourceDownloader/ResourceDownloaderApp.swift:99 | a catalog with every node unchecked satisfies the parent-state law |
| Selection.TogglePreservesLaw | tools/ResourceDownloader/ResourceDownloader/ContentView.swift:119-150 | if every node with children carries the mark its children determine, this still holds after a toggle |
| Selection.ToggleTwiceRestores | tools/ResourceDownloader/ResourceDownloader/ContentView.swift:119-137 | under the law, toggling a node that is not mixed twice restores every mark and both totals |
| Selection.RootsTotal | tools/ResourceDownloader/ResourceDownloader/ContentView.swift:152-160 | `calculateTotal`'s sum over the roots that are not unchecked: with non-negative sizes it is non-negative |
| Selection.RootsTotalBounds | tools/ResourceDownloader/ResourceDownloader/ContentView.swift:152-160 | with non-negative sizes, the total is at least the recursive size of every root that is not unchecked |
| Selection.RootsTotalUnchecked | tools/ResourceDownloader/ResourceDownloader/ContentView.swift:152-160 | with every root unchecked the total is 0, which agrees with the zero totals a new view model starts with |
| Selection.UniformSubtree | tools/ResourceDownloader/ResourceDownloader/ContentView.swift:132-150 | under the law, every node below a checked (or unchecked) node carries the same mark |
| Selection.RecomputeLaw | tools/ResourceDownloader/ResourceDownloader/ContentView.swift:139-150 | after the upward walk from p, every node on the chain from p to the root carries the mark its children determine |
| Selection.RecomputeFrame | tools/ResourceDownloader/ResourceDownloader/ContentView.swift:139-150 | the upward walk from p changes only nodes on the chain from p to the root |
| Selection.ChainDetermined | tools/ResourceDownloader/ResourceDownloader/ContentView.swift:139-150 | the ancestors' marks are determined by all other marks: two mark vectors that agree off the chain and obey the law on it are equal |
| Selection.TreeViewModel.constructor | tools/ResourceDownloader/ResourceDownloader/ContentView.swift:113-117 | a new view model shares the catalog's marks and starts with both totals at 0 |
| Selection.TreeViewModel.Toggle | tools/ResourceDownloader/ResourceDownloader/ContentView.swift:119-125 | the marks become `ToggleSpec` of the old marks, and both totals equal the sum over non-unchecked roots of their recursive sizes |
| Selection.TreeViewModel.CalculateTotals | tools/ResourceDownloader/ResourceDownloader/ContentView.swift:127-130 | the download and extracted totals are recomputed from the current marks |
| Selection.TreeViewModel.UpdateChildren | tools/ResourceDownloader/ResourceDownloader/ContentView.swift:132-137 | the recursive overwrite marks every proper descendant with the given mark and nothing else |
| Selection.TreeViewModel.UpdateParentState | tools/ResourceDownloader/ResourceDownloader/ContentView.swift:139-150 | the walk up the parent chain rewrites each ancestor, bottom-up, from its children's marks |
| Selection.TreeViewModel.CalculateTotal | tools/ResourceDownloader/ResourceDownloader/ContentView.swift:152-160 | the loop sums the recursive size of each root that is not unchecked |
| Manifest.DecodeFile | tools/ResourceDownloader/ResourceDownloader/ResourceDownloaderApp.swift:71-76 | a file entry decodes iff it carries `url`, `sha256`, `dsize` and `esize`, into a file holding exactly those values; a failure names one of those four keys |
| Manifest.DecodeFilesExact | tools/ResourceDownloader/ResourceDownloader/ResourceDownloaderApp.swift:152 | a `files` array decodes iff every entry is complete, into one file per entry, in order, each holding its entry's values |
| Manifest.NodeFilesExact | tools/ResourceDownloader/ResourceDownloader/ResourceDownloaderApp.swift:152 | an object's files decode iff its `files` entries are complete; without the key the node has no files |
| Manifest.DecodeNode | tools/ResourceDownloader/ResourceDownloader/ResourceDownloaderApp.swift:147-156 | a decoded object keeps its three required keys; it gets one file per entry of `files`, or none without the key; children are present exactly when `children` is, one per nested object; the parent is the enclosing node; a failure names one of the required object or file-entry keys |
| Manifest.DecodeNodeComplete | tools/ResourceDownloader/ResourceDownloader/ResourceDownloaderApp.swift:149-153 | an object decodes iff it and every object nested under it carry `name`, `description` and `dir`, and every one of their file entries carries its four keys |
| Manifest.DecodeList | tools/ResourceDownloader/ResourceDownloader/ResourceDownloaderApp.swift:153 | decoding a list of objects yields one top-level position per object, and a failure names a required key |
| Manifest.DecodeListComplete | tools/ResourceDownloader/ResourceDownloader/ResourceDownloaderApp.swift:153 | a list of objects decodes iff every object in it does |
| Manifest.DecodeNodeSegment | tools/ResourceDownloader/ResourceDownloader/ResourceDownloaderApp.swift:153-155 | a decoded object lays out as a segment: its node first, each child's parent set to it, and child lists agreeing with parent references |
| Manifest.DecodeListSegment | tools/ResourceDownloader/ResourceDownloader/ResourceDownloaderApp.swift:153-155 | the decoded objects of a list lay out as one segment whose top nodes are exactly the listed objects |
| Manifest.SegmentWellFormed | tools/ResourceDownloader/ResourceDownloader/ResourceDownloaderApp.swift:155 | a segment that spans the whole arena, with no outside parent, is a well-formed forest |
| Manifest.DecodeListCarries | tools/ResourceDownloader/ResourceDownloader/ResourceDownloaderApp.swift:147-153 | each object of a decoded list becomes the node at its reported position |
| Manifest.DecodeNodeMirrors | tools/ResourceDownloader/ResourceDownloader/ResourceDownloaderApp.swift:147-156 | wherever an object's decoded nodes are placed in the arena, its first node holds the object's data and has one child per nested object, in order, each mirroring its object all the way down |
| Manifest.DecodeListMirrors | tools/ResourceDownloader/ResourceDownloader/ResourceDownloaderApp.swift:153-155 | wherever a list's decoded nodes are placed in the arena, each object is mirrored, with everything nested under it, from its reported position |
| Manifest.Decode | tools/ResourceDownloader/ResourceDownloader/ResourceDownloaderApp.swift:167 | the manifest decodes iff every object and file entry is complete, and a failure names a required key. On success the result is a well-formed forest with one root per top-level object, in order. Each root mirrors its object: its data, then one child per nested object at every level, each holding its own object's data |
| Manifest.InitialStates | tools/ResourceDownloader/ResourceDownloader/ResourceDownloaderApp.swift:99 | every freshly decoded node starts unchecked |
| Downloads.FirstPending | tools/ResourceDownloader/ResourceDownloader/DownloadManager.swift:44 | the chosen item is the first in list order that is neither completed nor downloading, or no item is |
| Downloads.CountCompletedAll | tools/ResourceDownloader/ResourceDownloader/DownloadManager.swift:45 | the completed count equals the number of items iff every item is completed |
| Downloads.CountCompletedMark | tools/ResourceDownloader/ResourceDownloader/DownloadManager.swift:110-115 | completing one item that was not completed adds exactly one to the count |
| Downloads.AdvanceSkipsEmpty | tools/ResourceDownloader/ResourceDownloader/DownloadManager.swift:49-52 | completing the first pending item when it has no files does not change where the advance stops, nor what it leaves |
| Downloads.AdvanceActivates | tools/ResourceDownloader/ResourceDownloader/DownloadManager.swift:54-55 | when the first pending item has files, the advance activates that item and changes nothing else |
| Downloads.AdvanceIdle | tools/ResourceDownloader/ResourceDownloader/DownloadManager.swift:44-47 | with no pending item the advance changes no item |
| Downloads.AdvanceShape | tools/ResourceDownloader/ResourceDownloader/DownloadManager.swift:41-56 | an advance only completes pending items without files. It activates the first startable item, leaves no pending item before it, and changes no other downloading flag. Files and success counts are untouched |
| Downloads.Cancelled | tools/ResourceDownloader/ResourceDownloader/DownloadManager.swift:205 | cancelling clears every `isDownloading` flag and changes nothing else of any item |
| Downloads.CancelledConsistent | tools/ResourceDownloader/ResourceDownloader/DownloadManager.swift:199-207 | a cancel keeps every item consistent, keeps the completed count and the all-completed state, and leaves nothing downloading |
| Downloads.SuccessConsistent | tools/ResourceDownloader/ResourceDownloader/DownloadManager.swift:165-179 | counting a success keeps the items consistent. When the count reaches the file count, the item was not completed before, and completing it adds exactly one to the count |
| Downloads.ActivateConsistent | tools/ResourceDownloader/ResourceDownloader/DownloadManager.swift:104-108 | activating a pending item keeps every item consistent and leaves the completed count unchanged |
| Downloads.OneDownloading | tools/ResourceDownloader/ResourceDownloader/DownloadManager.swift:41-56 | with items taken in order, at most one item is downloading at any time |
| Downloads.RequestedIsTheDownload | tools/ResourceDownloader/ResourceDownloader/DownloadManager.swift:165-179 | a requested item that is not completed has every earlier item completed, and no other item is downloading, so completing it leaves nothing downloading |
| Downloads.ActivateInOrder | tools/ResourceDownloader/ResourceDownloader/DownloadManager.swift:44-55 | activating the first pending item while nothing is downloading, and requesting its files, keeps the items in order |
| Downloads.RetryInOrder | tools/ResourceDownloader/ResourceDownloader/DownloadManager.swift:186-190 | a retry of a requested item's file keeps the items in order |
| Downloads.SuccessInOrder | tools/ResourceDownloader/ResourceDownloader/DownloadManager.swift:165-179 | counting a success of a requested item keeps the items in order; reaching the file count leaves nothing downloading once the item is completed |
| Downloads.CancelledInOrder | tools/ResourceDownloader/ResourceDownloader/DownloadManager.swift:205 | a cancel keeps the items in order |
| Downloads.RetryAgrees | tools/ResourceDownloader/ResourceDownloader/DownloadManager.swift:186-190 | a retry counted below the cap keeps the request log and the per-URL counters in agreement, within the cap |
| Downloads.LaunchAgrees | tools/ResourceDownloader/ResourceDownloader/DownloadManager.swift:55 | first-try requests leave every URL's retry count unchanged |
| Downloads.RetriesBounded | tools/ResourceDownloader/ResourceDownloader/DownloadManager.swift:28-29 | over the manager's whole life, each URL is retried at most `maxRetries` (3) times |
| Downloads.PathPart | tools/ResourceDownloader/ResourceDownloader/DownloadManager.swift:141 | the URL's path part is its longest prefix without `?` or `#`: the query and fragment that `URL` keeps out of the path are cut off |
| Downloads.FileName | tools/ResourceDownloader/ResourceDownloader/DownloadManager.swift:141 | the file name is the part of the URL's path after its last `/`: a suffix of the path containing no `/`, `?` or `#`, preceded by `/` |
| Downloads.FileNameIgnoresQuery | tools/ResourceDownloader/ResourceDownloader/DownloadManager.swift:141 | appending a query or fragment to a URL does not change its file name |
| Downloads.FileNameInPath | tools/ResourceDownloader/ResourceDownloader/DownloadManager.swift:141 | for a URL whose path part is `scheme://authority/path` the file name is non-empty and the `/` before it lies in the path, so the authority is never taken for the file name |
| Downloads.ExtractionSteps | tools/ResourceDownloader/ResourceDownloader/DownloadManager.swift:147-155 | `.zip` gives unzip then removal; otherwise `.tar.gz` gives tar then removal; there are no steps iff the name has neither suffix |
| Downloads.ProcessFileSteps | tools/ResourceDownloader/ResourceDownloader/DownloadManager.swift:131-155 | the item directory under the install root is created and the file is moved into it under its file name (the last path component, with any query or fragment left out). When it is an archive, it is unpacked into that directory and the moved file is removed; otherwise nothing more happens |
| Downloads.DownloadManager.constructor | tools/ResourceDownloader/ResourceDownloader/DownloadManager.swift:31-33 | one fresh item per selected node, in order, with nothing downloading, completed, finished or failed |
| Downloads.DownloadManager.StartDownloads | tools/ResourceDownloader/ResourceDownloader/DownloadManager.swift:35-39 | started with nothing downloading: with no items nothing changes; otherwise the error is cleared and the manager advances, keeping the items in order |
| Downloads.DownloadManager.ProcessNextDownload | tools/ResourceDownloader/ResourceDownloader/DownloadManager.swift:41-56 | nothing changes while an error is recorded. Otherwise the items become `Advanced` of the old items: the first startable item is activated and all its files are requested, or, with none left, `isFinished` becomes `completedItems == items.count` |
| Downloads.DownloadManager.StartItemDownloads | tools/ResourceDownloader/ResourceDownloader/DownloadManager.swift:55 | one first-try request is made per file of the item, in file order |
| Downloads.DownloadManager.ActivateItem | tools/ResourceDownloader/ResourceDownloader/DownloadManager.swift:104-108 | the item becomes downloading and current; nothing else changes |
| Downloads.DownloadManager.CompleteItem | tools/ResourceDownloader/ResourceDownloader/DownloadManager.swift:110-115 | the item is marked completed, counted, and the manager advances |
| Downloads.DownloadManager.StartDownload | tools/ResourceDownloader/ResourceDownloader/DownloadManager.swift:58-86 | exactly one request for the file's URL is added; nothing else changes |
| Downloads.DownloadManager.HandleDownloadSuccess | tools/ResourceDownloader/ResourceDownloader/DownloadManager.swift:165-179 | for a requested file, the item's success count goes up by one. Exactly when it reaches the file count, the item was not completed before and now is, it stops downloading, the current item is cleared and the manager advances (no advance while an error is recorded) |
| Downloads.DownloadManager.HandleDownloadError | tools/ResourceDownloader/ResourceDownloader/DownloadManager.swift:181-197 | for a requested file, below the cap, the URL's counter goes up by one and exactly one retry is requested. At the cap, the error is recorded, every item stops downloading and the current item is cleared, while completion flags and counts are kept |
| Downloads.DownloadManager.CancelAllDownloads | tools/ResourceDownloader/ResourceDownloader/DownloadManager.swift:199-207 | every `isDownloading` flag and the current item are cleared; nothing else changes |
| Downloads.DownloadManager.ReportProgress | tools/ResourceDownloader/ResourceDownloader/DownloadManager.swift:117-129 | a progress report for a requested file makes its item the current item, whether or not that item is downloading and even while an error is recorded; nothing else the model keeps changes, and the invariant still holds |

The manager's invariant, `Valid`, is established by the constructor. It is
required and kept by `StartDownloads`, `ProcessNextDownload`, `CompleteItem`,
`HandleDownloadSuccess`, `HandleDownloadError` and `ReportProgress`. The
helpers `ActivateItem`, `StartItemDownloads`, `StartDownload` and
`CancelAllDownloads` neither require nor keep it: their callers rely on their
ensures, which give the whole new state. `Valid` states these facts:

- `completedItems` equals the number of completed items.
- An item with files is completed exactly when its success count has reached
  its file count.
- A downloading item is not completed.
- The current item, when set, is one of the items. It need not be downloading,
  because a progress report can make any item current.
- A recorded error leaves nothing downloading.
- A finished manager has every item completed.
- Items are taken in list order (`InOrder`). An item that is downloading, or
  that has been requested and is not completed, has every earlier item
  completed. So at most one item is downloading (`OneDownloading`).
- The request log and the retry counters agree, with every counter at most 3.

## Left out

- Transfers, progress and cancellation handles are not modelled: URLSession
  tasks, the KVO progress observers, the `DispatchQueue.main` hops,
  `activeTasks` and `cancellables` are network I/O and concurrency. Each
  transfer is an abstract success or failure event, and each progress callback
  is a `ReportProgress` event, delivered one at a time in any order. Every
  event names a transfer the manager has asked for (`FileRequested` over the
  request log). The model lets one transfer report more than once, which
  covers the source's single report per transfer.
- `DownloadItem.progress` and `fileProgress` are left out: they are
  floating-point averages, and they divide by zero for an item without files.
- FileManager and `Process` calls are foreign calls. This covers creating the
  directory, the move, `homeDirectoryForCurrentUser`, and running `unzip` or
  `tar`. The model produces the plan of steps (`ProcessFileSteps`), and the home
  directory is a parameter.
- A move or extraction that throws, and so reaches the error handler from
  `processFile`, is not modelled separately. It is the same failure event as a
  failed transfer.
- `Downloads.FileName`: URL parsing is not modelled. `ProcessFileSteps`
  requires an absolute URL of the form `scheme://authority/path`, optionally
  followed by a query or fragment, with no trailing `/` on the path. The name
  is then the text after the path's last `/`, with no percent-decoding.
  Relative URLs and host-only URLs are outside the model. An unparsable URL
  reaches `fatalError` in the source.
- `Downloads.ProcessFileSteps`: its `ValidUrl` requirement excludes relative
  URLs, host-only URLs and paths ending in `/`, for the reason on the line
  above. URLs with a query or fragment are accepted.
- `Downloads.DownloadManager.StartDownloads`: it requires that nothing is
  downloading. Both callers in DownloadView.swift provide that: the Retry
  button appears only under an error, and `onAppear` starts a fresh manager.
  A second `onAppear` while a download runs is not modelled.
- `Downloads.DownloadManager.HandleDownloadError`: at the cap, the source
  records the error and cancels on a later main-queue turn. The model does both
  at once.
- `Downloads.DownloadManager.StartDownload`: the `isRetry` flag of a logged
  request is ghost bookkeeping. The source does not distinguish a retry from a
  first try.
- `Downloads.RetriesBounded`: "at most 4 attempts per URL" holds for retries
  only. A restart after an error, or two items sharing a URL, requests the URL
  again as a first try.
- `loadNodesFromJSON` is left out: the bundle lookup, JSON parsing and
  `fatalError` on a bad file. A `Manifest.Record` stands for one already-parsed
  JSON object.
- `Manifest.Decode`: a key whose value has the wrong type (a string for
  `dsize`, say) makes the source throw. A `Record` cannot hold such a value, so
  `Decode` does not capture that failure. A missing key and a `null` value are
  both modelled, as `None`. `null` makes a required key fail and reads as
  absent for `files` and `children`.
- `Manifest.DecodeNodeComplete`: its "decodes iff complete" covers missing and
  `null` keys only. A wrongly typed value is the gap named on the line above.
- Swift `Int` overflow is not modelled. It would trap in the file-size sums of
  `downloadSize`, `extractedSize` and the recursive sizes, in the totals
  `totalDownloadSize` and `totalExtractedSize`, and in the counters
  `completedItems`, `completedFiles` and the retry counts. The model's integers
  are unbounded, which matches the source for every manifest whose sums fit in
  64 bits.
- The SwiftUI and AppKit views and the app lifecycle are left out. They are UI.
- `tools/update_model_sizes.py` is not part of this model. It only measures
  archives over the network and the file system.
- Node identity (`UUID`) is replaced by arena positions, and an item's position
  in the list stands for its `id` lookup.
