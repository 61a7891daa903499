/**
 * Decoding the bundled manifest into the arena. Each JSON object must carry
 * `name`, `description` and `dir`; `files` defaults to the empty list, and each
 * of its entries must carry `url`, `sha256`, `dsize` and `esize`; a `children`
 * key, when present, holds nested objects, and every decoded child gets its
 * parent's back-reference. Nodes are laid out in pre-order, so a child always
 * comes after its parent.
 *
 * The JSON text itself is not parsed here: a `Record` is one object as the
 * JSON layer delivers it, with each key present or absent. An optional key
 * whose value is `null` is read as absent, as a key that must be present and
 * is `null` fails; both are `None` here.
 */
module Manifest {
  import opened Wrappers
  import opened Catalog

  /** One entry of a `files` array; a key the entry lacks (or holds `null`) is `None`. */
  datatype FileRecord = FileRecord(
    url: Option<string>,
    sha256: Option<string>,
    dsize: Option<int>,
    esize: Option<int>)

  /** One manifest object; a key the object lacks (or holds `null`) is `None`. */
  datatype Record = Record(
    name: Option<string>,
    description: Option<string>,
    dir: Option<string>,
    files: Option<seq<FileRecord>>,
    hasChildren: bool,         // whether `children` is present and not `null`
    children: seq<Record>)     // its value; not looked at otherwise

  /** Decoding stops at the first key that must be present and is not. */
  datatype DecodeError = MissingKey(key: string)

  /** The keys whose absence makes decoding fail: three per object, four per file entry. */
  const RequiredKeys: seq<string> := ["name", "description", "dir", "url", "sha256", "dsize", "esize"]

  predicate FileComplete(e: FileRecord) {
    e.url.Some? && e.sha256.Some? && e.dsize.Some? && e.esize.Some?
  }

  predicate FilesComplete(es: seq<FileRecord>) {
    forall k :: 0 <= k < |es| ==> FileComplete(es[k])
  }

  /** The object, its file entries, and every object nested under its `children` carry the required keys. */
  predicate Complete(r: Record)
    decreases r
  {
    && r.name.Some? && r.description.Some? && r.dir.Some?
    && (r.files.Some? ==> FilesComplete(r.files.value))
    && (r.hasChildren ==> forall k :: 0 <= k < |r.children| ==> Complete(r.children[k]))
  }

  /** The file holds exactly the entry's four values. */
  predicate FileCarries(e: FileRecord, fi: FileInfo) {
    e.url == Some(fi.url) && e.sha256 == Some(fi.sha256) && e.dsize == Some(fi.dsize) && e.esize == Some(fi.esize)
  }

  predicate FilesCarried(es: seq<FileRecord>, fs: seq<FileInfo>) {
    |fs| == |es| && forall k :: 0 <= k < |es| ==> FileCarries(es[k], fs[k])
  }

  /** The synthesized `FileInfo` decoding: the four keys, read in declaration order. */
  function DecodeFile(e: FileRecord): (res: Result<FileInfo, DecodeError>)
    ensures res.Success? <==> FileComplete(e)
    ensures res.Success? ==> FileCarries(e, res.value)
    ensures res.Failure? ==> res.error.key in RequiredKeys[3..]
  {
    if e.url.None? then Failure(MissingKey("url"))
    else if e.sha256.None? then Failure(MissingKey("sha256"))
    else if e.dsize.None? then Failure(MissingKey("dsize"))
    else if e.esize.None? then Failure(MissingKey("esize"))
    else Success(FileInfo(e.url.value, e.sha256.value, e.dsize.value, e.esize.value))
  }

  /** A `files` array, decoded entry by entry in order; the first incomplete entry fails it. */
  function DecodeFiles(es: seq<FileRecord>): (res: Result<seq<FileInfo>, DecodeError>)
    ensures res.Failure? ==> res.error.key in RequiredKeys[3..]
  {
    if es == [] then Success([])
    else
      var first := DecodeFile(es[0]);
      if first.Failure? then Failure(first.error)
      else
        var rest := DecodeFiles(es[1..]);
        if rest.Failure? then Failure(rest.error)
        else Success([first.value] + rest.value)
  }

  /** A `files` array decodes exactly when every entry is complete, into one file per entry. */
  lemma {:induction false} DecodeFilesExact(es: seq<FileRecord>)
    ensures DecodeFiles(es).Success? <==> FilesComplete(es)
    ensures DecodeFiles(es).Success? ==> FilesCarried(es, DecodeFiles(es).value)
  {
    if es != [] {
      assert forall k :: 0 < k < |es| ==> es[k] == es[1..][k - 1];
      DecodeFilesExact(es[1..]);
    }
  }

  /** `decodeIfPresent(.files) ?? []`. */
  function NodeFiles(r: Record): Result<seq<FileInfo>, DecodeError> {
    if r.files.Some? then DecodeFiles(r.files.value) else Success([])
  }

  /** The files of an object decode exactly when its entries are complete, and then as `Carries` demands. */
  lemma NodeFilesExact(r: Record)
    ensures NodeFiles(r).Success? <==> (r.files.Some? ==> FilesComplete(r.files.value))
    ensures NodeFiles(r).Success? && r.files.None? ==> NodeFiles(r).value == []
    ensures NodeFiles(r).Success? && r.files.Some? ==> FilesCarried(r.files.value, NodeFiles(r).value)
  {
    if r.files.Some? {
      DecodeFilesExact(r.files.value);
    }
  }

  predicate AllComplete(rs: seq<Record>) {
    forall k :: 0 <= k < |rs| ==> Complete(rs[k])
  }

  lemma AllCompleteSplit(rs: seq<Record>)
    requires rs != []
    ensures AllComplete(rs) <==> Complete(rs[0]) && AllComplete(rs[1..])
  {
    assert forall k :: 0 < k < |rs| ==> rs[k] == rs[1..][k - 1];
  }

  predicate Increasing(s: seq<nat>) {
    forall a, b :: 0 <= a < b < |s| ==> s[a] < s[b]
  }

  /** The arena positions, from `base` on, of the nodes of `ns` whose parent reference is `q`, in order. */
  function PointingTo(ns: seq<NodeData>, base: nat, q: Option<nat>): seq<nat>
    decreases |ns|
  {
    if ns == [] then []
    else (if ns[0].parent == q then [base] else []) + PointingTo(ns[1..], base + 1, q)
  }

  lemma PointingToCons(node: NodeData, ns: seq<NodeData>, base: nat, q: Option<nat>)
    ensures PointingTo([node] + ns, base, q) == (if node.parent == q then [base] else []) + PointingTo(ns, base + 1, q)
  {
    assert ([node] + ns)[1..] == ns;
  }

  lemma {:induction false} PointingToAppend(a: seq<NodeData>, b: seq<NodeData>, base: nat, q: Option<nat>)
    ensures PointingTo(a + b, base, q) == PointingTo(a, base, q) + PointingTo(b, base + |a|, q)
    decreases |a|
  {
    if a == [] {
      assert a + b == b;
    } else {
      assert (a + b)[1..] == a[1..] + b;
      PointingToAppend(a[1..], b, base + 1, q);
    }
  }

  lemma {:induction false} PointingToNone(ns: seq<NodeData>, base: nat, q: Option<nat>)
    requires forall j :: 0 <= j < |ns| ==> ns[j].parent != q
    ensures PointingTo(ns, base, q) == []
    decreases |ns|
  {
    if ns != [] {
      PointingToNone(ns[1..], base + 1, q);
    }
  }

  /** A position is listed exactly when its node points to `q`; the list is increasing. */
  lemma {:induction false} PointingToExact(ns: seq<NodeData>, base: nat, q: Option<nat>)
    ensures forall x :: x in PointingTo(ns, base, q) <==> base <= x < base + |ns| && ns[x - base].parent == q
    ensures Increasing(PointingTo(ns, base, q))
    decreases |ns|
  {
    if ns != [] {
      var rest := PointingTo(ns[1..], base + 1, q);
      PointingToExact(ns[1..], base + 1, q);
      assert forall j :: 1 <= j < |ns| ==> ns[1..][j - 1] == ns[j];
      var all := (if ns[0].parent == q then [base] else []) + rest;
      forall a, b | 0 <= a < b < |all|
        ensures all[a] < all[b]
      {
        assert all[b] in rest;
      }
    }
  }

  /** Node `j` has parent `ext` or a parent earlier in the segment. */
  ghost predicate ParentBefore(ns: seq<NodeData>, base: nat, ext: Option<nat>, j: nat)
    requires j < |ns|
  {
    ns[j].parent != ext ==> ns[j].parent.Some? && base <= ns[j].parent.value < base + j
  }

  ghost predicate ParentsBefore(ns: seq<NodeData>, base: nat, ext: Option<nat>) {
    forall j :: 0 <= j < |ns| ==> ParentBefore(ns, base, ext, j)
  }

  /** Node `j`'s child list is exactly the list of segment positions whose parent is node `j`. */
  ghost predicate KidsAt(ns: seq<NodeData>, base: nat, j: nat)
    requires j < |ns|
  {
    KidsOf(ns[j]) == PointingTo(ns, base, Some(base + j))
  }

  ghost predicate KidsExact(ns: seq<NodeData>, base: nat) {
    forall j :: 0 <= j < |ns| ==> KidsAt(ns, base, j)
  }

  /**
   * `ns` occupies arena positions `base ..`; `tops` are the positions of its
   * nodes whose parent is `ext` (a node before the segment, or none); every
   * other parent lies earlier in the segment, and child lists agree with parent
   * references.
   */
  ghost predicate Segment(ns: seq<NodeData>, base: nat, ext: Option<nat>, tops: seq<nat>) {
    && (ext.Some? ==> ext.value < base)
    && tops == PointingTo(ns, base, ext)
    && ParentsBefore(ns, base, ext)
    && KidsExact(ns, base)
  }

  /** A node followed by the segment of its children is a segment with that node on top. */
  lemma SegmentNode(node: NodeData, kns: seq<NodeData>, kidx: seq<nat>, base: nat, ext: Option<nat>)
    requires ext.Some? ==> ext.value < base
    requires Segment(kns, base + 1, Some(base), kidx)
    requires node.parent == ext && KidsOf(node) == kidx
    ensures Segment([node] + kns, base, ext, [base])
  {
    var ns := [node] + kns;
    PointingToCons(node, kns, base, ext);
    forall j | 0 <= j < |kns| ensures kns[j].parent != ext {
      assert ParentBefore(kns, base + 1, Some(base), j);
    }
    PointingToNone(kns, base + 1, ext);
    forall j | 0 <= j < |ns| ensures ParentBefore(ns, base, ext, j) {
      if j > 0 {
        assert ns[j] == kns[j - 1] && ParentBefore(kns, base + 1, Some(base), j - 1);
      }
    }
    forall j | 0 <= j < |ns| ensures KidsAt(ns, base, j) {
      PointingToCons(node, kns, base, Some(base + j));
      if j > 0 {
        assert ns[j] == kns[j - 1] && KidsAt(kns, base + 1, j - 1);
      }
    }
  }

  /** Two adjacent segments with the same outside parent form one segment. */
  lemma SegmentConcat(ns0: seq<NodeData>, tops0: seq<nat>, ns1: seq<NodeData>, tops1: seq<nat>, base: nat, ext: Option<nat>)
    requires Segment(ns0, base, ext, tops0) && Segment(ns1, base + |ns0|, ext, tops1)
    ensures Segment(ns0 + ns1, base, ext, tops0 + tops1)
  {
    var ns, mid := ns0 + ns1, base + |ns0|;
    PointingToAppend(ns0, ns1, base, ext);
    forall j | 0 <= j < |ns| ensures ParentBefore(ns, base, ext, j) {
      if j < |ns0| {
        assert ns[j] == ns0[j] && ParentBefore(ns0, base, ext, j);
      } else {
        assert ns[j] == ns1[j - |ns0|] && ParentBefore(ns1, mid, ext, j - |ns0|);
      }
    }
    forall j | 0 <= j < |ns| ensures KidsAt(ns, base, j) {
      PointingToAppend(ns0, ns1, base, Some(base + j));
      if j < |ns0| {
        assert ns[j] == ns0[j] && KidsAt(ns0, base, j);
        forall k | 0 <= k < |ns1| ensures ns1[k].parent != Some(base + j) {
          assert ParentBefore(ns1, mid, ext, k);
        }
        PointingToNone(ns1, mid, Some(base + j));
      } else {
        assert ns[j] == ns1[j - |ns0|] && KidsAt(ns1, mid, j - |ns0|);
        forall k | 0 <= k < |ns0| ensures ns0[k].parent != Some(base + j) {
          assert ParentBefore(ns0, base, ext, k);
        }
        PointingToNone(ns0, base, Some(base + j));
      }
    }
  }

  /** The top nodes of a whole-arena segment are exactly its parentless nodes, each listed once. */
  lemma SegmentRoots(f: Forest)
    requires Segment(f.nodes, 0, None, f.roots)
    ensures forall k :: 0 <= k < |f.roots| ==> f.roots[k] < |f.nodes| && f.nodes[f.roots[k]].parent.None?
    ensures forall i :: 0 <= i < |f.nodes| && f.nodes[i].parent.None? ==> i in f.roots
    ensures NoDup(f.roots)
  {
    PointingToExact(f.nodes, 0, None);
    IncreasingNoDup(f.roots);
    forall k | 0 <= k < |f.roots|
      ensures f.roots[k] < |f.nodes| && f.nodes[f.roots[k]].parent.None?
    {
      assert f.roots[k] in f.roots;
    }
  }

  /** In a whole-arena segment every child comes after its parent, points back to it, and is listed once. */
  lemma SegmentKids(f: Forest)
    requires Segment(f.nodes, 0, None, f.roots)
    ensures forall i, k :: 0 <= i < |f.nodes| && 0 <= k < |Kids(f, i)| ==>
              i < Kids(f, i)[k] < |f.nodes| && f.nodes[Kids(f, i)[k]].parent == Some(i)
    ensures forall i :: 0 <= i < |f.nodes| ==> NoDup(Kids(f, i))
  {
    forall i, k | 0 <= i < |f.nodes| && 0 <= k < |Kids(f, i)|
      ensures i < Kids(f, i)[k] < |f.nodes| && f.nodes[Kids(f, i)[k]].parent == Some(i)
    {
      assert KidsAt(f.nodes, 0, i);
      PointingToExact(f.nodes, 0, Some(i));
      assert Kids(f, i)[k] in PointingTo(f.nodes, 0, Some(i));
      assert ParentBefore(f.nodes, 0, None, Kids(f, i)[k]);
    }
    forall i | 0 <= i < |f.nodes|
      ensures NoDup(Kids(f, i))
    {
      assert KidsAt(f.nodes, 0, i);
      PointingToExact(f.nodes, 0, Some(i));
      IncreasingNoDup(Kids(f, i));
    }
  }

  /** In a whole-arena segment every parent comes earlier and lists the node among its children. */
  lemma SegmentParents(f: Forest)
    requires Segment(f.nodes, 0, None, f.roots)
    ensures forall i :: 0 <= i < |f.nodes| && f.nodes[i].parent.Some? ==>
              f.nodes[i].parent.value < i && i in Kids(f, f.nodes[i].parent.value)
  {
    forall i | 0 <= i < |f.nodes| && f.nodes[i].parent.Some?
      ensures f.nodes[i].parent.value < i && i in Kids(f, f.nodes[i].parent.value)
    {
      var p := f.nodes[i].parent.value;
      assert ParentBefore(f.nodes, 0, None, i);
      assert KidsAt(f.nodes, 0, p);
      PointingToExact(f.nodes, 0, Some(p));
    }
  }

  /** A segment that starts the arena and has no outside parent is a well-formed forest. */
  lemma SegmentWellFormed(ns: seq<NodeData>, tops: seq<nat>)
    requires Segment(ns, 0, None, tops)
    ensures WellFormed(Forest(ns, tops))
  {
    SegmentRoots(Forest(ns, tops));
    SegmentKids(Forest(ns, tops));
    SegmentParents(Forest(ns, tops));
  }

  lemma IncreasingNoDup(s: seq<nat>)
    requires Increasing(s)
    ensures NoDup(s)
  {
  }

  /**
   * The node holds the object's required keys, one file per entry of its
   * `files` (none without the key), and a children list exactly when the
   * object has `children`.
   */
  predicate Carries(r: Record, n: NodeData) {
    && r.name == Some(n.name)
    && r.description == Some(n.description)
    && r.dir == Some(n.dir)
    && (r.files.None? ==> n.files == [])
    && (r.files.Some? ==> FilesCarried(r.files.value, n.files))
    && (n.children.Some? <==> r.hasChildren)
  }

  /** `init(from:)` for one object, laid out from arena position `base`, with parent `ext`. */
  function DecodeNode(r: Record, ext: Option<nat>, base: nat): (res: Result<seq<NodeData>, DecodeError>)
    ensures res.Failure? ==> res.error.key in RequiredKeys
    ensures res.Success? ==>
              && |res.value| >= 1
              && Carries(r, res.value[0])
              && res.value[0].parent == ext
              && (r.hasChildren ==> |res.value[0].children.value| == |r.children|)
    decreases r, 1
  {
    if r.name.None? then Failure(MissingKey("name"))
    else if r.description.None? then Failure(MissingKey("description"))
    else if r.dir.None? then Failure(MissingKey("dir"))
    else if NodeFiles(r).Failure? then Failure(NodeFiles(r).error)
    else
      NodeFilesExact(r);
      if !r.hasChildren then
        Success([NodeData(r.name.value, r.description.value, r.dir.value, NodeFiles(r).value, None, ext)])
      else
        var kids := DecodeList(r.children, Some(base), base + 1);
        if kids.Failure? then Failure(kids.error)
        else
          Success([NodeData(r.name.value, r.description.value, r.dir.value, NodeFiles(r).value, Some(kids.value.1), ext)] + kids.value.0)
  }

  /**
   * Decoding a JSON array of objects laid out one after another from `base`:
   * the nodes, and the positions of the objects themselves.
   */
  function DecodeList(rs: seq<Record>, ext: Option<nat>, base: nat): (res: Result<(seq<NodeData>, seq<nat>), DecodeError>)
    ensures res.Failure? ==> res.error.key in RequiredKeys
    ensures res.Success? ==> |res.value.1| == |rs|
    decreases rs, 0
  {
    if rs == [] then Success(([], []))
    else
      var first := DecodeNode(rs[0], ext, base);
      if first.Failure? then Failure(first.error)
      else
        var rest := DecodeList(rs[1..], ext, base + |first.value|);
        if rest.Failure? then Failure(rest.error)
        else Success((first.value + rest.value.0, [base] + rest.value.1))
  }

  /** An object decodes exactly when it and every object nested under it carry the required keys. */
  lemma {:induction false} DecodeNodeComplete(r: Record, ext: Option<nat>, base: nat)
    ensures DecodeNode(r, ext, base).Success? <==> Complete(r)
    decreases r, 1
  {
    NodeFilesExact(r);
    if r.name.Some? && r.description.Some? && r.dir.Some? && NodeFiles(r).Success? && r.hasChildren {
      DecodeListComplete(r.children, Some(base), base + 1);
    }
  }

  /** A list of objects decodes exactly when every one of them does. */
  lemma {:induction false} DecodeListComplete(rs: seq<Record>, ext: Option<nat>, base: nat)
    ensures DecodeList(rs, ext, base).Success? <==> AllComplete(rs)
    decreases rs, 0
  {
    if rs != [] {
      var first := DecodeNode(rs[0], ext, base);
      DecodeNodeComplete(rs[0], ext, base);
      AllCompleteSplit(rs);
      if first.Success? {
        DecodeListComplete(rs[1..], ext, base + |first.value|);
      }
    }
  }

  /** A successful list decoding is its first object's nodes followed by the rest's. */
  lemma DecodeListCons(rs: seq<Record>, ext: Option<nat>, base: nat)
    requires rs != [] && DecodeList(rs, ext, base).Success?
    ensures var first := DecodeNode(rs[0], ext, base);
            && first.Success?
            && var rest := DecodeList(rs[1..], ext, base + |first.value|);
            && rest.Success?
            && DecodeList(rs, ext, base).value == (first.value + rest.value.0, [base] + rest.value.1)
  {
  }

  lemma {:induction false} DecodeNodeSegment(r: Record, ext: Option<nat>, base: nat)
    requires ext.Some? ==> ext.value < base
    requires DecodeNode(r, ext, base).Success?
    ensures Segment(DecodeNode(r, ext, base).value, base, ext, [base])
    decreases r, 1
  {
    var node := NodeData(r.name.value, r.description.value, r.dir.value, NodeFiles(r).value, None, ext);
    if !r.hasChildren {
      SegmentNode(node, [], [], base, ext);
      assert DecodeNode(r, ext, base).value == [node] + [];
    } else {
      var kids := DecodeList(r.children, Some(base), base + 1);
      DecodeListSegment(r.children, Some(base), base + 1);
      SegmentNode(node.(children := Some(kids.value.1)), kids.value.0, kids.value.1, base, ext);
    }
  }

  lemma {:induction false} DecodeListSegment(rs: seq<Record>, ext: Option<nat>, base: nat)
    requires ext.Some? ==> ext.value < base
    requires DecodeList(rs, ext, base).Success?
    ensures Segment(DecodeList(rs, ext, base).value.0, base, ext, DecodeList(rs, ext, base).value.1)
    decreases rs, 0
  {
    if rs != [] {
      var first := DecodeNode(rs[0], ext, base);
      var rest := DecodeList(rs[1..], ext, base + |first.value|);
      DecodeListCons(rs, ext, base);
      DecodeNodeSegment(rs[0], ext, base);
      DecodeListSegment(rs[1..], ext, base + |first.value|);
      SegmentConcat(first.value, [base], rest.value.0, rest.value.1, base, ext);
    }
  }

  /** Object `k` of `rs` was decoded into the node at arena position `tops[k]`; `ns` starts at `base`. */
  predicate CarriedAt(rs: seq<Record>, ns: seq<NodeData>, tops: seq<nat>, base: nat, k: nat)
    requires k < |rs| && |tops| == |rs|
  {
    base <= tops[k] < base + |ns| && Carries(rs[k], ns[tops[k] - base])
  }

  /** Every object of `rs` was decoded into the node at its position in `tops`. */
  predicate ListCarried(rs: seq<Record>, ns: seq<NodeData>, tops: seq<nat>, base: nat) {
    |tops| == |rs| && forall k :: 0 <= k < |rs| ==> CarriedAt(rs, ns, tops, base, k)
  }

  lemma ListCarriedCons(rs: seq<Record>, first: seq<NodeData>, ns: seq<NodeData>, tops: seq<nat>, base: nat)
    requires rs != [] && first != [] && Carries(rs[0], first[0])
    requires ListCarried(rs[1..], ns, tops, base + |first|)
    ensures ListCarried(rs, first + ns, [base] + tops, base)
  {
    var all, ts := first + ns, [base] + tops;
    forall k | 0 <= k < |rs| ensures CarriedAt(rs, all, ts, base, k) {
      if k > 0 {
        assert CarriedAt(rs[1..], ns, tops, base + |first|, k - 1);
        assert rs[k] == rs[1..][k - 1] && ts[k] == tops[k - 1];
        assert all[ts[k] - base] == ns[tops[k - 1] - (base + |first|)];
      }
    }
  }

  /** Each listed object is decoded into the node at its reported position. */
  lemma {:induction false} DecodeListCarries(rs: seq<Record>, ext: Option<nat>, base: nat)
    requires DecodeList(rs, ext, base).Success?
    ensures ListCarried(rs, DecodeList(rs, ext, base).value.0, DecodeList(rs, ext, base).value.1, base)
    decreases rs
  {
    if rs != [] {
      var first := DecodeNode(rs[0], ext, base);
      var rest := DecodeList(rs[1..], ext, base + |first.value|);
      DecodeListCons(rs, ext, base);
      DecodeListCarries(rs[1..], ext, base + |first.value|);
      ListCarriedCons(rs, first.value, rest.value.0, rest.value.1, base);
    }
  }

  /**
   * Object `r` and everything nested under it are in `f` from node `p` down:
   * node `p` holds the object's data and, when the object has `children`, one
   * child per nested object, in order, each mirroring its object in turn.
   */
  ghost predicate Mirrors(r: Record, f: Forest, p: nat)
    decreases r
  {
    && p < |f.nodes|
    && Carries(r, f.nodes[p])
    && (r.hasChildren ==>
          && |Kids(f, p)| == |r.children|
          && forall k :: 0 <= k < |r.children| ==> Mirrors(r.children[k], f, Kids(f, p)[k]))
  }

  /** Object `k` of `rs` is mirrored from arena position `tops[k]`. */
  ghost predicate MirroredAt(rs: seq<Record>, f: Forest, tops: seq<nat>, k: nat)
    requires k < |rs| && |tops| == |rs|
  {
    Mirrors(rs[k], f, tops[k])
  }

  /** Every object of `rs` is mirrored from its position in `tops`. */
  ghost predicate ListMirrored(rs: seq<Record>, f: Forest, tops: seq<nat>) {
    |tops| == |rs| && forall k :: 0 <= k < |rs| ==> MirroredAt(rs, f, tops, k)
  }

  lemma ListMirroredCons(rs: seq<Record>, f: Forest, base: nat, tops: seq<nat>)
    requires rs != [] && Mirrors(rs[0], f, base) && ListMirrored(rs[1..], f, tops)
    ensures ListMirrored(rs, f, [base] + tops)
  {
    var ts := [base] + tops;
    forall k | 0 <= k < |rs| ensures MirroredAt(rs, f, ts, k) {
      if k > 0 {
        assert MirroredAt(rs[1..], f, tops, k - 1);
        assert rs[k] == rs[1..][k - 1] && ts[k] == tops[k - 1];
      }
    }
  }

  /** `ns` sits in the arena of `f` from position `base` on. */
  ghost predicate Placed(ns: seq<NodeData>, f: Forest, base: nat) {
    base + |ns| <= |f.nodes| && forall j :: 0 <= j < |ns| ==> f.nodes[base + j] == ns[j]
  }

  lemma PlacedSplit(a: seq<NodeData>, b: seq<NodeData>, f: Forest, base: nat)
    requires Placed(a + b, f, base)
    ensures Placed(a, f, base) && Placed(b, f, base + |a|)
  {
    forall j | 0 <= j < |a| ensures f.nodes[base + j] == a[j] {
      assert (a + b)[j] == a[j];
    }
    forall j | 0 <= j < |b| ensures f.nodes[base + |a| + j] == b[j] {
      assert (a + b)[|a| + j] == b[j];
    }
  }

  /** Wherever a decoded object's nodes are placed, the whole object is mirrored from its first node. */
  lemma {:induction false} DecodeNodeMirrors(r: Record, ext: Option<nat>, base: nat, f: Forest)
    requires DecodeNode(r, ext, base).Success? && Placed(DecodeNode(r, ext, base).value, f, base)
    ensures Mirrors(r, f, base)
    decreases r, 1
  {
    var ns := DecodeNode(r, ext, base).value;
    assert f.nodes[base + 0] == ns[0];
    if r.hasChildren {
      var kids := DecodeList(r.children, Some(base), base + 1);
      assert ns == [ns[0]] + kids.value.0;
      PlacedSplit([ns[0]], kids.value.0, f, base);
      DecodeListMirrors(r.children, Some(base), base + 1, f);
      assert Kids(f, base) == kids.value.1;
      forall k | 0 <= k < |r.children| ensures Mirrors(r.children[k], f, Kids(f, base)[k]) {
        assert MirroredAt(r.children, f, kids.value.1, k);
      }
    }
  }

  /** Wherever a decoded list's nodes are placed, each object is mirrored from its reported position. */
  lemma {:induction false} DecodeListMirrors(rs: seq<Record>, ext: Option<nat>, base: nat, f: Forest)
    requires DecodeList(rs, ext, base).Success? && Placed(DecodeList(rs, ext, base).value.0, f, base)
    ensures ListMirrored(rs, f, DecodeList(rs, ext, base).value.1)
    decreases rs, 0
  {
    if rs != [] {
      var first := DecodeNode(rs[0], ext, base);
      var rest := DecodeList(rs[1..], ext, base + |first.value|);
      DecodeListCons(rs, ext, base);
      PlacedSplit(first.value, rest.value.0, f, base);
      DecodeNodeMirrors(rs[0], ext, base, f);
      DecodeListMirrors(rs[1..], ext, base + |first.value|, f);
      ListMirroredCons(rs, f, base, rest.value.1);
    }
  }

  /**
   * `decoder.decode([Node].self, from:)`: the manifest decodes exactly when every
   * object and file entry carries the required keys, and then yields a
   * well-formed forest with one root per top-level object, each root mirroring
   * its object with everything nested under it.
   */
  function Decode(rs: seq<Record>): (res: Result<Forest, DecodeError>)
    ensures res.Success? <==> AllComplete(rs)
    ensures res.Failure? ==> res.error.key in RequiredKeys
    ensures res.Success? ==> WellFormed(res.value) && |res.value.roots| == |rs|
    ensures res.Success? ==> ListCarried(rs, res.value.nodes, res.value.roots, 0)
    ensures res.Success? ==> ListMirrored(rs, res.value, res.value.roots)
  {
    var d := DecodeList(rs, None, 0);
    DecodeListComplete(rs, None, 0);
    if d.Failure? then Failure(d.error)
    else
      var f := Forest(d.value.0, d.value.1);
      DecodeListSegment(rs, None, 0);
      DecodeListCarries(rs, None, 0);
      SegmentWellFormed(d.value.0, d.value.1);
      DecodeListMirrors(rs, None, 0, f);
      Success(f)
  }

  /** The check marks of a freshly decoded catalog: every node starts out unchecked. */
  method InitialStates(f: Forest) returns (state: array<CheckState>)
    ensures fresh(state) && state.Length == |f.nodes|
    ensures forall j :: 0 <= j < state.Length ==> state[j] == Unchecked
  {
    state := new CheckState[|f.nodes|](_ => Unchecked);
  }
}
