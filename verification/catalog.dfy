/**
 * The model catalog: a forest of resource nodes, each owning a list of files,
 * optional children and a weak back-reference to its parent.
 *
 * The nodes live in an arena (`Forest.nodes`); a child or parent reference is
 * an index into it. The tri-state check mark of each node is kept apart, as a
 * sequence of states indexed like the arena, because it is the only part of a
 * node that changes after loading.
 */
module Catalog {
  import opened Wrappers

  datatype CheckState = Checked | Unchecked | Mixed

  /** One downloadable file: `dsize` bytes to fetch, `esize` bytes once extracted. */
  datatype FileInfo = FileInfo(url: string, sha256: string, dsize: int, esize: int)

  /** Which of the two declared sizes of a file is summed. */
  datatype Metric = Download | Extracted

  datatype NodeData = NodeData(
    name: string,
    description: string,
    dir: string,
    files: seq<FileInfo>,
    children: Option<seq<nat>>,  // None when the manifest has no `children` (or it is `null`)
    parent: Option<nat>)         // the weak `parent` reference

  /** The arena of all nodes and, in order, the indices of the top-level nodes. */
  datatype Forest = Forest(nodes: seq<NodeData>, roots: seq<nat>)

  /** A node's children, or none when it has no `children` list. */
  function KidsOf(n: NodeData): seq<nat> {
    n.children.GetOr([])
  }

  /** The children of arena node `i`. */
  function Kids(f: Forest, i: nat): seq<nat>
    requires i < |f.nodes|
  {
    KidsOf(f.nodes[i])
  }

  predicate NoDup(s: seq<nat>) {
    forall a, b :: 0 <= a < b < |s| ==> s[a] != s[b]
  }

  /**
   * The arena describes a forest: children come after their parent, child and
   * parent references agree, no node is listed twice among its siblings, and the
   * parentless nodes are exactly the roots.
   */
  ghost predicate WellFormed(f: Forest) {
    && (forall i, k :: 0 <= i < |f.nodes| && 0 <= k < |Kids(f, i)| ==>
          i < Kids(f, i)[k] < |f.nodes| && f.nodes[Kids(f, i)[k]].parent == Some(i))
    && (forall i :: 0 <= i < |f.nodes| && f.nodes[i].parent.Some? ==>
          f.nodes[i].parent.value < i && i in Kids(f, f.nodes[i].parent.value))
    && (forall i :: 0 <= i < |f.nodes| ==> NoDup(Kids(f, i)))
    && (forall k :: 0 <= k < |f.roots| ==> f.roots[k] < |f.nodes| && f.nodes[f.roots[k]].parent.None?)
    && (forall i :: 0 <= i < |f.nodes| && f.nodes[i].parent.None? ==> i in f.roots)
    && NoDup(f.roots)
  }

  /** A state for every node of the arena. */
  ghost predicate Fits(f: Forest, st: seq<CheckState>) {
    WellFormed(f) && |st| == |f.nodes|
  }

  // ---------------------------------------------------------------------------
  // Subtrees, via the parent chain
  // ---------------------------------------------------------------------------

  /** `j` is `i` or one of its descendants: walking up from `j` reaches `i`. */
  ghost predicate InSubtree(f: Forest, j: nat, i: nat)
    requires WellFormed(f) && j < |f.nodes|
    decreases j
  {
    j == i || (f.nodes[j].parent.Some? && InSubtree(f, f.nodes[j].parent.value, i))
  }

  lemma {:induction false} SubtreeBelow(f: Forest, j: nat, i: nat)
    requires WellFormed(f) && j < |f.nodes| && InSubtree(f, j, i)
    ensures i <= j && i < |f.nodes|
    decreases j
  {
    if j != i {
      SubtreeBelow(f, f.nodes[j].parent.value, i);
    }
  }

  lemma {:induction false} SubtreeTrans(f: Forest, j: nat, k: nat, i: nat)
    requires WellFormed(f) && j < |f.nodes| && k < |f.nodes|
    requires InSubtree(f, j, k) && InSubtree(f, k, i)
    ensures InSubtree(f, j, i)
    decreases j
  {
    if j != k {
      SubtreeTrans(f, f.nodes[j].parent.value, k, i);
    }
  }

  /** The ancestors of a node form a chain. */
  lemma {:induction false} SubtreeLinear(f: Forest, j: nat, a: nat, b: nat)
    requires WellFormed(f) && j < |f.nodes| && a < |f.nodes| && b < |f.nodes|
    requires InSubtree(f, j, a) && InSubtree(f, j, b)
    ensures InSubtree(f, a, b) || InSubtree(f, b, a)
    decreases j
  {
    if j != a && j != b {
      SubtreeLinear(f, f.nodes[j].parent.value, a, b);
    }
  }

  lemma KidInSubtree(f: Forest, i: nat, k: nat)
    requires WellFormed(f) && i < |f.nodes| && k < |Kids(f, i)|
    ensures Kids(f, i)[k] < |f.nodes| && InSubtree(f, Kids(f, i)[k], i) && Kids(f, i)[k] != i
  {
    var c := Kids(f, i)[k];
    assert f.nodes[c].parent == Some(i);
  }

  /** The proper descendants of `i` are exactly the members of its children's subtrees. */
  lemma {:induction false} KidsCover(f: Forest, j: nat, i: nat)
    requires WellFormed(f) && j < |f.nodes| && i < |f.nodes|
    ensures (j != i && InSubtree(f, j, i)) <==>
            exists k :: 0 <= k < |Kids(f, i)| && InSubtree(f, j, Kids(f, i)[k])
    decreases j
  {
    if exists k :: 0 <= k < |Kids(f, i)| && InSubtree(f, j, Kids(f, i)[k]) {
      var k :| 0 <= k < |Kids(f, i)| && InSubtree(f, j, Kids(f, i)[k]);
      KidInSubtree(f, i, k);
      SubtreeTrans(f, j, Kids(f, i)[k], i);
      SubtreeBelow(f, j, Kids(f, i)[k]);
    }
    if j != i && InSubtree(f, j, i) {
      var p := f.nodes[j].parent.value;
      if p == i {
        assert j in Kids(f, i);
        var k :| 0 <= k < |Kids(f, i)| && Kids(f, i)[k] == j;
        assert InSubtree(f, j, Kids(f, i)[k]);
      } else {
        KidsCover(f, p, i);
        var k :| 0 <= k < |Kids(f, i)| && InSubtree(f, p, Kids(f, i)[k]);
        assert InSubtree(f, j, Kids(f, i)[k]);
      }
    }
  }

  /** Two siblings (children of one node, or two roots) have disjoint subtrees. */
  lemma SiblingsDisjoint(f: Forest, x: nat, a: nat, b: nat)
    requires WellFormed(f) && x < |f.nodes| && a < |f.nodes| && b < |f.nodes|
    requires f.nodes[a].parent == f.nodes[b].parent
    requires InSubtree(f, x, a) && InSubtree(f, x, b)
    ensures a == b
  {
    SubtreeLinear(f, x, a, b);
    if a != b {
      if InSubtree(f, a, b) {
        SubtreeBelow(f, f.nodes[a].parent.value, b);
      } else {
        SubtreeBelow(f, f.nodes[b].parent.value, a);
      }
    }
  }

  /** Every node lies in the subtree of some root. */
  lemma {:induction false} ReachesRoot(f: Forest, j: nat)
    requires WellFormed(f) && j < |f.nodes|
    ensures exists k :: 0 <= k < |f.roots| && InSubtree(f, j, f.roots[k])
    decreases j
  {
    if f.nodes[j].parent.None? {
      assert j in f.roots;
      var k :| 0 <= k < |f.roots| && f.roots[k] == j;
      assert InSubtree(f, j, f.roots[k]);
    } else {
      var p := f.nodes[j].parent.value;
      ReachesRoot(f, p);
      var k :| 0 <= k < |f.roots| && InSubtree(f, p, f.roots[k]);
      assert InSubtree(f, j, f.roots[k]);
    }
  }

  // ---------------------------------------------------------------------------
  // Sizes
  // ---------------------------------------------------------------------------

  function FileSize(fi: FileInfo, m: Metric): int {
    if m == Download then fi.dsize else fi.esize
  }

  /** Every file of the list declares non-negative sizes. */
  predicate SizesNonNegative(files: seq<FileInfo>) {
    forall k :: 0 <= k < |files| ==> files[k].dsize >= 0 && files[k].esize >= 0
  }

  /** Every node of the arena declares non-negative sizes. */
  predicate ForestSizesNonNegative(f: Forest) {
    forall i :: 0 <= i < |f.nodes| ==> SizesNonNegative(f.nodes[i].files)
  }

  /**
   * `files.map { size }.reduce(0, +)`: a left fold, so peeled from the back.
   * With non-negative sizes the sum is non-negative and bounds every file.
   */
  function OwnSize(files: seq<FileInfo>, m: Metric): (s: int)
    ensures SizesNonNegative(files) ==> 0 <= s && forall k :: 0 <= k < |files| ==> FileSize(files[k], m) <= s
  {
    if files == [] then 0 else OwnSize(files[..|files| - 1], m) + FileSize(files[|files| - 1], m)
  }

  /** The own size of each listed child whose state is exactly `Checked`, summed left to right. */
  function CheckedKidsSize(f: Forest, st: seq<CheckState>, ks: seq<nat>, m: Metric): (s: int)
    requires forall k :: 0 <= k < |ks| ==> ks[k] < |f.nodes| && ks[k] < |st|
    ensures ForestSizesNonNegative(f) ==> 0 <= s <= AllKidsSize(f, ks, m)
  {
    if ks == [] then 0
    else
      var c := ks[|ks| - 1];
      CheckedKidsSize(f, st, ks[..|ks| - 1], m) + (if st[c] == Checked then OwnSize(f.nodes[c].files, m) else 0)
  }

  /**
   * `downloadSizeRecursive` (m = Download) and `extractedSizeRecursive` (m = Extracted):
   * the node's own files plus the own files of its exactly-checked children.
   * With non-negative sizes it lies between the node's own size and its own
   * size plus every child's own size.
   */
  function SizeRecursive(f: Forest, st: seq<CheckState>, i: nat, m: Metric): (s: int)
    requires Fits(f, st) && i < |f.nodes|
    ensures ForestSizesNonNegative(f) ==>
              OwnSize(f.nodes[i].files, m) <= s <= OwnSize(f.nodes[i].files, m) + AllKidsSize(f, Kids(f, i), m)
  {
    OwnSize(f.nodes[i].files, m) + CheckedKidsSize(f, st, Kids(f, i), m)
  }

  /** The size of a concatenation of file lists is the sum of the sizes. */
  lemma {:induction false} OwnSizeAppend(a: seq<FileInfo>, b: seq<FileInfo>, m: Metric)
    ensures OwnSize(a + b, m) == OwnSize(a, m) + OwnSize(b, m)
    decreases |b|
  {
    if b != [] {
      assert (a + b)[..|a + b| - 1] == a + b[..|b| - 1];
      OwnSizeAppend(a, b[..|b| - 1], m);
    } else {
      assert a + b == a;
    }
  }

  /** Only the states of the listed children matter. */
  lemma {:induction false} CheckedKidsSizeAgree(f: Forest, st1: seq<CheckState>, st2: seq<CheckState>, ks: seq<nat>, m: Metric)
    requires forall k :: 0 <= k < |ks| ==> ks[k] < |f.nodes| && ks[k] < |st1| && ks[k] < |st2| && st1[ks[k]] == st2[ks[k]]
    ensures CheckedKidsSize(f, st1, ks, m) == CheckedKidsSize(f, st2, ks, m)
    decreases |ks|
  {
    if ks != [] {
      CheckedKidsSizeAgree(f, st1, st2, ks[..|ks| - 1], m);
    }
  }

  /** The sum of the own sizes of all listed nodes, whatever their state. */
  function AllKidsSize(f: Forest, ks: seq<nat>, m: Metric): int
    requires forall k :: 0 <= k < |ks| ==> ks[k] < |f.nodes|
  {
    if ks == [] then 0 else AllKidsSize(f, ks[..|ks| - 1], m) + OwnSize(f.nodes[ks[|ks| - 1]].files, m)
  }

  lemma {:induction false} CheckedKidsSizeExtremes(f: Forest, st: seq<CheckState>, ks: seq<nat>, m: Metric)
    requires forall k :: 0 <= k < |ks| ==> ks[k] < |f.nodes| && ks[k] < |st|
    ensures (forall k :: 0 <= k < |ks| ==> st[ks[k]] == Checked) ==> CheckedKidsSize(f, st, ks, m) == AllKidsSize(f, ks, m)
    ensures (forall k :: 0 <= k < |ks| ==> st[ks[k]] != Checked) ==> CheckedKidsSize(f, st, ks, m) == 0
    decreases |ks|
  {
    if ks != [] {
      CheckedKidsSizeExtremes(f, st, ks[..|ks| - 1], m);
    }
  }

  /**
   * A node's recursive size depends on no state but its children's: not on its
   * own state, and not on any grandchild's.
   */
  lemma SizeRecursiveDependsOnKidsOnly(f: Forest, st1: seq<CheckState>, st2: seq<CheckState>, i: nat, m: Metric)
    requires Fits(f, st1) && Fits(f, st2) && i < |f.nodes|
    requires forall k :: 0 <= k < |Kids(f, i)| ==> st1[Kids(f, i)[k]] == st2[Kids(f, i)[k]]
    ensures SizeRecursive(f, st1, i, m) == SizeRecursive(f, st2, i, m)
  {
    CheckedKidsSizeAgree(f, st1, st2, Kids(f, i), m);
  }

  /**
   * With every child checked, the recursive size is the own size plus every
   * child's own size; with no child exactly checked (each unchecked or mixed),
   * it is the own size alone.
   */
  lemma SizeRecursiveExtremes(f: Forest, st: seq<CheckState>, i: nat, m: Metric)
    requires Fits(f, st) && i < |f.nodes|
    ensures (forall k :: 0 <= k < |Kids(f, i)| ==> st[Kids(f, i)[k]] == Checked) ==>
              SizeRecursive(f, st, i, m) == OwnSize(f.nodes[i].files, m) + AllKidsSize(f, Kids(f, i), m)
    ensures (forall k :: 0 <= k < |Kids(f, i)| ==> st[Kids(f, i)[k]] != Checked) ==>
              SizeRecursive(f, st, i, m) == OwnSize(f.nodes[i].files, m)
  {
    CheckedKidsSizeExtremes(f, st, Kids(f, i), m);
  }

  // ---------------------------------------------------------------------------
  // Selected items
  // ---------------------------------------------------------------------------

  /** Every listed node is a node of the arena that is not unchecked. */
  predicate Selectable(f: Forest, st: seq<CheckState>, r: seq<nat>) {
    forall k :: 0 <= k < |r| ==> r[k] < |f.nodes| && r[k] < |st| && st[r[k]] != Unchecked
  }

  /**
   * `Node.selectedItems`: the node if it is not unchecked, then each child's
   * list in order; which nodes it lists is `SelectedItemsMembers`.
   */
  function SelectedItems(f: Forest, st: seq<CheckState>, i: nat): (r: seq<nat>)
    requires Fits(f, st) && i < |f.nodes|
    ensures st[i] != Unchecked ==> |r| > 0 && r[0] == i
    decreases |f.nodes| - i, 1
  {
    (if st[i] != Unchecked then [i] else []) + SelectedList(f, st, Kids(f, i), i)
  }

  /** The concatenation of the selected items of each listed node (all of them above `bound`). */
  function SelectedList(f: Forest, st: seq<CheckState>, ks: seq<nat>, ghost bound: int): (r: seq<nat>)
    requires Fits(f, st) && -1 <= bound
    requires forall k :: 0 <= k < |ks| ==> bound < ks[k] < |f.nodes|
    decreases |f.nodes| - bound, 0, |ks|
  {
    if ks == [] then [] else SelectedItems(f, st, ks[0]) + SelectedList(f, st, ks[1..], bound)
  }

  /**
   * `ModelStore.selectedItems`: the roots' lists, concatenated in root order;
   * every listed node is a node that is not unchecked.
   */
  function StoreSelectedItems(f: Forest, st: seq<CheckState>): (r: seq<nat>)
    requires Fits(f, st)
    ensures Selectable(f, st, r)
  {
    StoreSelectable(f, st);
    SelectedList(f, st, f.roots, -1)
  }

  lemma StoreSelectable(f: Forest, st: seq<CheckState>)
    requires Fits(f, st)
    ensures Selectable(f, st, SelectedList(f, st, f.roots, -1))
  {
    var r := SelectedList(f, st, f.roots, -1);
    forall k | 0 <= k < |r| ensures r[k] < |f.nodes| && st[r[k]] != Unchecked {
      SelectedListMembers(f, st, f.roots, -1, r[k]);
    }
  }

  lemma {:induction false} SelectedItemsMembers(f: Forest, st: seq<CheckState>, i: nat, x: nat)
    requires Fits(f, st) && i < |f.nodes|
    ensures x in SelectedItems(f, st, i) <==> x < |f.nodes| && InSubtree(f, x, i) && st[x] != Unchecked
    decreases |f.nodes| - i, 1
  {
    SelectedListMembers(f, st, Kids(f, i), i, x);
    if x < |f.nodes| {
      KidsCover(f, x, i);
    }
  }

  lemma {:induction false} SelectedListMembers(f: Forest, st: seq<CheckState>, ks: seq<nat>, bound: int, x: nat)
    requires Fits(f, st) && -1 <= bound
    requires forall k :: 0 <= k < |ks| ==> bound < ks[k] < |f.nodes|
    ensures x in SelectedList(f, st, ks, bound) <==>
            x < |f.nodes| && st[x] != Unchecked && exists k :: 0 <= k < |ks| && InSubtree(f, x, ks[k])
    decreases |f.nodes| - bound, 0, |ks|
  {
    if ks != [] {
      SelectedItemsMembers(f, st, ks[0], x);
      SelectedListMembers(f, st, ks[1..], bound, x);
      if x < |f.nodes| && exists k :: 0 <= k < |ks| && InSubtree(f, x, ks[k]) {
        var k :| 0 <= k < |ks| && InSubtree(f, x, ks[k]);
        if k > 0 {
          assert ks[1..][k - 1] == ks[k];
        }
      }
    }
  }

  /** The listed nodes are distinct siblings: all have the same parent. */
  ghost predicate Siblings(f: Forest, ks: seq<nat>)
    requires forall k :: 0 <= k < |ks| ==> ks[k] < |f.nodes|
  {
    NoDup(ks) && forall k :: 0 <= k < |ks| ==> f.nodes[ks[k]].parent == f.nodes[ks[0]].parent
  }

  lemma {:induction false} SelectedItemsNoDup(f: Forest, st: seq<CheckState>, i: nat)
    requires Fits(f, st) && i < |f.nodes|
    ensures NoDup(SelectedItems(f, st, i))
    decreases |f.nodes| - i, 1
  {
    var ks := Kids(f, i);
    forall k | 0 <= k < |ks| ensures f.nodes[ks[k]].parent == Some(i) { }
    SelectedListNoDup(f, st, ks, i);
    SelectedListMembers(f, st, ks, i, i);
    if exists k :: 0 <= k < |ks| && InSubtree(f, i, ks[k]) {
      var k :| 0 <= k < |ks| && InSubtree(f, i, ks[k]);
      SubtreeBelow(f, i, ks[k]);
    }
    NoDupAppend((if st[i] != Unchecked then [i] else []), SelectedList(f, st, ks, i));
  }

  lemma {:induction false} SelectedListNoDup(f: Forest, st: seq<CheckState>, ks: seq<nat>, bound: int)
    requires Fits(f, st) && -1 <= bound
    requires forall k :: 0 <= k < |ks| ==> bound < ks[k] < |f.nodes|
    requires Siblings(f, ks)
    ensures NoDup(SelectedList(f, st, ks, bound))
    decreases |f.nodes| - bound, 0, |ks|
  {
    if ks != [] {
      var head, tail := SelectedItems(f, st, ks[0]), SelectedList(f, st, ks[1..], bound);
      SelectedItemsNoDup(f, st, ks[0]);
      assert Siblings(f, ks[1..]) by {
        forall k | 0 <= k < |ks[1..]| ensures f.nodes[ks[1..][k]].parent == f.nodes[ks[1..][0]].parent {
          assert ks[1..][k] == ks[k + 1];
        }
      }
      SelectedListNoDup(f, st, ks[1..], bound);
      forall x | x in head && x in tail ensures false {
        SelectedItemsMembers(f, st, ks[0], x);
        SelectedListMembers(f, st, ks[1..], bound, x);
        var k :| 0 <= k < |ks[1..]| && InSubtree(f, x, ks[1..][k]);
        SiblingsDisjoint(f, x, ks[0], ks[k + 1]);
      }
      NoDupAppend(head, tail);
    }
  }

  lemma NoDupAppend(a: seq<nat>, b: seq<nat>)
    requires NoDup(a) && NoDup(b) && forall x :: x in a ==> x !in b
    ensures NoDup(a + b)
  {
    forall p, q | 0 <= p < q < |a + b| ensures (a + b)[p] != (a + b)[q] {
      if q >= |a| && p < |a| {
        assert (a + b)[q] == b[q - |a|];
        assert (a + b)[p] in a;
      }
    }
  }

  /**
   * The store's selection lists every node that is not unchecked, each exactly once.
   */
  lemma StoreSelectedItemsExact(f: Forest, st: seq<CheckState>)
    requires Fits(f, st)
    ensures NoDup(StoreSelectedItems(f, st))
    ensures forall x: nat :: x in StoreSelectedItems(f, st) <==> x < |f.nodes| && st[x] != Unchecked
  {
    assert Siblings(f, f.roots);
    SelectedListNoDup(f, st, f.roots, -1);
    forall x: nat ensures x in StoreSelectedItems(f, st) <==> x < |f.nodes| && st[x] != Unchecked {
      SelectedListMembers(f, st, f.roots, -1, x);
      if x < |f.nodes| {
        ReachesRoot(f, x);
      }
    }
  }

  /** One round of the collecting loop: appending a child's list keeps the rest to collect exact. */
  lemma CollectStep(f: Forest, st: seq<CheckState>, i: nat, ks: seq<nat>, k: nat, results: seq<nat>, sub: seq<nat>)
    requires Fits(f, st) && i < |f.nodes| && ks == Kids(f, i) && k < |ks|
    requires results + SelectedList(f, st, ks[k..], i) == SelectedItems(f, st, i)
    requires sub == SelectedItems(f, st, ks[k])
    ensures (results + sub) + SelectedList(f, st, ks[k + 1..], i) == SelectedItems(f, st, i)
  {
    assert ks[k..][1..] == ks[k + 1..];
    var rest := SelectedList(f, st, ks[k + 1..], i);
    assert SelectedList(f, st, ks[k..], i) == sub + rest;
    assert results + (sub + rest) == (results + sub) + rest;
  }

  /**
   * `Node.selectedItems` as the source computes it: start with the node itself
   * unless it is unchecked, then append each child's list in child order.
   */
  method CollectSelectedItems(f: Forest, st: seq<CheckState>, i: nat) returns (results: seq<nat>)
    requires Fits(f, st) && i < |f.nodes|
    ensures results == SelectedItems(f, st, i)
    decreases |f.nodes| - i
  {
    results := [];
    if st[i] != Unchecked {
      results := results + [i];
    }
    var kids := Kids(f, i);
    for k := 0 to |kids|
      invariant results + SelectedList(f, st, kids[k..], i) == SelectedItems(f, st, i)
    {
      var sub := CollectSelectedItems(f, st, kids[k]);
      CollectStep(f, st, i, kids, k, results, sub);
      results := results + sub;
    }
  }
}
