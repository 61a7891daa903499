/**
 * The selection engine behind the catalog's outline view: toggling a node's
 * check mark, cascading it to the node's descendants, recomputing the
 * ancestors' tri-state marks, and keeping the two size totals up to date.
 *
 * `TreeViewModel` updates the shared state array in place; its methods are
 * proved against `ToggleSpec`, a function of the old states, and the
 * properties of a toggle are lemmas about `ToggleSpec`.
 */
module Selection {
  import opened Wrappers
  import opened Catalog

  /**
   * The mark a parent gets from its children's marks: checked when all are
   * checked (vacuously so with no children), unchecked when there are children
   * and all are unchecked, mixed otherwise.
   */
  function ParentStateOf(cs: seq<CheckState>): (r: CheckState)
    ensures r == Checked <==> forall k :: 0 <= k < |cs| ==> cs[k] == Checked
    ensures r == Unchecked <==> |cs| > 0 && forall k :: 0 <= k < |cs| ==> cs[k] == Unchecked
    ensures r == Mixed <==> (exists k :: 0 <= k < |cs| && cs[k] != Checked) && (exists k :: 0 <= k < |cs| && cs[k] != Unchecked)
  {
    var allChecked := forall k :: 0 <= k < |cs| ==> cs[k] == Checked;
    var allUnchecked := forall k :: 0 <= k < |cs| ==> cs[k] == Unchecked;
    if allChecked then (assert |cs| > 0 ==> cs[0] == Checked; Checked) else if allUnchecked then Unchecked else Mixed
  }

  /** The marks of a node's children in child order (none for a leaf). */
  function KidStates(f: Forest, st: seq<CheckState>, a: nat): (cs: seq<CheckState>)
    requires Fits(f, st) && a < |f.nodes|
    ensures |cs| == |Kids(f, a)|
  {
    seq(|Kids(f, a)|, k requires 0 <= k < |Kids(f, a)| => st[Kids(f, a)[k]])
  }

  function Derived(f: Forest, st: seq<CheckState>, a: nat): CheckState
    requires Fits(f, st) && a < |f.nodes|
  {
    ParentStateOf(KidStates(f, st, a))
  }

  /** The state a toggle gives the toggled node: a mixed node becomes checked. */
  function Flip(s: CheckState): CheckState {
    if s == Checked then Unchecked else Checked
  }

  /** The parent-state law: every node with children carries the mark its children determine. */
  ghost predicate Law(f: Forest, st: seq<CheckState>)
    requires Fits(f, st)
  {
    forall a :: 0 <= a < |f.nodes| && |Kids(f, a)| > 0 ==> st[a] == Derived(f, st, a)
  }

  /** `a` lies on the parent chain above `i` (strictly). */
  ghost predicate StrictAncestor(f: Forest, a: nat, i: nat)
    requires WellFormed(f) && i < |f.nodes|
  {
    f.nodes[i].parent.Some? && InSubtree(f, f.nodes[i].parent.value, a)
  }

  /** What `updateChildren` leaves: every proper descendant of `i` marked `s`. */
  ghost function Cascade(f: Forest, st: seq<CheckState>, i: nat, s: CheckState): seq<CheckState>
    requires Fits(f, st) && i < |f.nodes|
  {
    seq(|st|, j requires 0 <= j < |st| => if j != i && InSubtree(f, j, i) then s else st[j])
  }

  /** What `updateParentState` leaves: each node on the chain from `p` up recomputed, bottom-up. */
  ghost function Recompute(f: Forest, st: seq<CheckState>, p: Option<nat>): seq<CheckState>
    requires Fits(f, st) && (p.Some? ==> p.value < |f.nodes|)
    decreases if p.Some? then p.value + 1 else 0
  {
    if p.None? then st
    else
      var a := p.value;
      Recompute(f, st[a := Derived(f, st, a)], f.nodes[a].parent)
  }

  /** The states after `toggle(node: i)`. */
  ghost function ToggleSpec(f: Forest, st: seq<CheckState>, i: nat): seq<CheckState>
    requires Fits(f, st) && i < |f.nodes|
  {
    var ns := Flip(st[i]);
    Recompute(f, Cascade(f, st[i := ns], i, ns), f.nodes[i].parent)
  }

  /**
   * The sum, over the listed roots that are not unchecked, of their recursive
   * size; with non-negative sizes it is non-negative.
   */
  function RootsTotal(f: Forest, st: seq<CheckState>, rs: seq<nat>, m: Metric): (t: int)
    requires Fits(f, st) && forall k :: 0 <= k < |rs| ==> rs[k] < |f.nodes|
    ensures ForestSizesNonNegative(f) ==> 0 <= t
  {
    if rs == [] then 0
    else
      var r := rs[|rs| - 1];
      RootsTotal(f, st, rs[..|rs| - 1], m) + (if st[r] != Unchecked then SizeRecursive(f, st, r, m) else 0)
  }

  /** With non-negative sizes, the total bounds the recursive size of every root that is not unchecked. */
  lemma {:induction false} RootsTotalBounds(f: Forest, st: seq<CheckState>, rs: seq<nat>, m: Metric)
    requires Fits(f, st) && ForestSizesNonNegative(f) && forall k :: 0 <= k < |rs| ==> rs[k] < |f.nodes|
    ensures forall k :: 0 <= k < |rs| && st[rs[k]] != Unchecked ==> SizeRecursive(f, st, rs[k], m) <= RootsTotal(f, st, rs, m)
    decreases |rs|
  {
    if rs != [] {
      var init := rs[..|rs| - 1];
      RootsTotalBounds(f, st, init, m);
      forall k | 0 <= k < |rs| && st[rs[k]] != Unchecked
        ensures SizeRecursive(f, st, rs[k], m) <= RootsTotal(f, st, rs, m)
      {
        if k < |init| {
          assert init[k] == rs[k];
        }
      }
    }
  }

  // ---------------------------------------------------------------------------
  // Properties of a toggle
  // ---------------------------------------------------------------------------

  /** Two state vectors that agree on a node's children give it the same derived mark. */
  lemma DerivedAgree(f: Forest, s1: seq<CheckState>, s2: seq<CheckState>, a: nat)
    requires Fits(f, s1) && Fits(f, s2) && a < |f.nodes|
    requires forall k :: 0 <= k < |Kids(f, a)| ==> s1[Kids(f, a)[k]] == s2[Kids(f, a)[k]]
    ensures Derived(f, s1, a) == Derived(f, s2, a)
  {
    assert KidStates(f, s1, a) == KidStates(f, s2, a);
  }

  /** A node whose children (at least one) all carry `s`, checked or unchecked, derives `s`. */
  lemma DerivedUniform(f: Forest, st: seq<CheckState>, a: nat, s: CheckState)
    requires Fits(f, st) && a < |f.nodes| && |Kids(f, a)| > 0 && s != Mixed
    requires forall k :: 0 <= k < |Kids(f, a)| ==> st[Kids(f, a)[k]] == s
    ensures Derived(f, st, a) == s
  {
    var cs := KidStates(f, st, a);
    assert cs[0] == s;
  }

  /** Recomputing the chain from `p` touches no node off that chain. */
  lemma {:induction false} RecomputeFrame(f: Forest, st: seq<CheckState>, p: Option<nat>, j: nat)
    requires Fits(f, st) && (p.Some? ==> p.value < |f.nodes|) && j < |st|
    ensures |Recompute(f, st, p)| == |st|
    ensures !(p.Some? && InSubtree(f, p.value, j)) ==> Recompute(f, st, p)[j] == st[j]
    decreases if p.Some? then p.value + 1 else 0
  {
    if p.Some? {
      var a := p.value;
      RecomputeFrame(f, st[a := Derived(f, st, a)], f.nodes[a].parent, j);
    }
  }

  /** The chain recomputation fixes its first node's mark for good. */
  lemma RecomputeHead(f: Forest, st: seq<CheckState>, q: nat)
    requires Fits(f, st) && q < |f.nodes|
    ensures |Recompute(f, st, Some(q))| == |st|
    ensures Recompute(f, st, Some(q))[q] == Derived(f, Recompute(f, st, Some(q)), q)
  {
    var st' := st[q := Derived(f, st, q)];
    var up := f.nodes[q].parent;
    var r := Recompute(f, st', up);
    assert r == Recompute(f, st, Some(q));
    RecomputeFrame(f, st', up, q);
    if up.Some? && InSubtree(f, up.value, q) {
      SubtreeBelow(f, up.value, q);
    }
    forall k | 0 <= k < |Kids(f, q)| ensures r[Kids(f, q)[k]] == st'[Kids(f, q)[k]] {
      var c := Kids(f, q)[k];
      if up.Some? && InSubtree(f, up.value, c) {
        SubtreeBelow(f, up.value, c);
      }
      RecomputeFrame(f, st', up, c);
    }
    forall k | 0 <= k < |Kids(f, q)| ensures st'[Kids(f, q)[k]] == st[Kids(f, q)[k]] { }
    DerivedAgree(f, r, st, q);
  }

  /** After recomputing the chain from `p`, every node on it carries the mark its children determine. */
  lemma {:induction false} RecomputeLaw(f: Forest, st: seq<CheckState>, p: Option<nat>, a: nat)
    requires Fits(f, st) && (p.Some? ==> p.value < |f.nodes|) && a < |f.nodes|
    requires p.Some? && InSubtree(f, p.value, a)
    ensures |Recompute(f, st, p)| == |st|
    ensures Recompute(f, st, p)[a] == Derived(f, Recompute(f, st, p), a)
    decreases p.value
  {
    var q := p.value;
    if a == q {
      RecomputeHead(f, st, q);
    } else {
      var st' := st[q := Derived(f, st, q)];
      assert Recompute(f, st, p) == Recompute(f, st', f.nodes[q].parent);
      RecomputeLaw(f, st', f.nodes[q].parent, a);
    }
  }

  /**
   * `toggle` sets the node to unchecked if it was checked and to checked
   * otherwise, and gives every descendant that same mark.
   */
  lemma ToggleSetsSubtree(f: Forest, st: seq<CheckState>, i: nat)
    requires Fits(f, st) && i < |f.nodes|
    ensures |ToggleSpec(f, st, i)| == |st|
    ensures ToggleSpec(f, st, i)[i] == (if st[i] == Checked then Unchecked else Checked)
    ensures forall j :: 0 <= j < |st| && InSubtree(f, j, i) ==> ToggleSpec(f, st, i)[j] == Flip(st[i])
  {
    var ns := Flip(st[i]);
    var c := Cascade(f, st[i := ns], i, ns);
    var up := f.nodes[i].parent;
    RecomputeFrame(f, c, up, i);
    forall j | 0 <= j < |st| && InSubtree(f, j, i) ensures ToggleSpec(f, st, i)[j] == ns {
      SubtreeBelow(f, j, i);
      if up.Some? && InSubtree(f, up.value, j) {
        SubtreeBelow(f, up.value, j);
      }
      RecomputeFrame(f, c, up, j);
    }
  }

  /** After `toggle`, every ancestor of the node carries the mark its children determine. */
  lemma ToggleRecomputesAncestors(f: Forest, st: seq<CheckState>, i: nat)
    requires Fits(f, st) && i < |f.nodes|
    ensures |ToggleSpec(f, st, i)| == |st|
    ensures forall a :: 0 <= a < |st| && StrictAncestor(f, a, i) ==>
              ToggleSpec(f, st, i)[a] == Derived(f, ToggleSpec(f, st, i), a)
  {
    var ns := Flip(st[i]);
    var c := Cascade(f, st[i := ns], i, ns);
    RecomputeFrame(f, c, f.nodes[i].parent, i);
    forall a | 0 <= a < |st| && StrictAncestor(f, a, i)
      ensures ToggleSpec(f, st, i)[a] == Derived(f, ToggleSpec(f, st, i), a)
    {
      RecomputeLaw(f, c, f.nodes[i].parent, a);
    }
  }

  /** `toggle` changes no node outside the toggled subtree and the chain of its ancestors. */
  lemma ToggleLocal(f: Forest, st: seq<CheckState>, i: nat)
    requires Fits(f, st) && i < |f.nodes|
    ensures |ToggleSpec(f, st, i)| == |st|
    ensures forall j :: 0 <= j < |st| && !InSubtree(f, j, i) && !StrictAncestor(f, j, i) ==>
              ToggleSpec(f, st, i)[j] == st[j]
  {
    var ns := Flip(st[i]);
    var c := Cascade(f, st[i := ns], i, ns);
    RecomputeFrame(f, c, f.nodes[i].parent, i);
    forall j | 0 <= j < |st| && !InSubtree(f, j, i) && !StrictAncestor(f, j, i)
      ensures ToggleSpec(f, st, i)[j] == st[j]
    {
      RecomputeFrame(f, c, f.nodes[i].parent, j);
    }
  }

  /** A freshly loaded catalog, all unchecked, satisfies the parent-state law. */
  lemma InitialLaw(f: Forest, st: seq<CheckState>)
    requires Fits(f, st) && forall j :: 0 <= j < |st| ==> st[j] == Unchecked
    ensures Law(f, st)
  {
    forall a | 0 <= a < |f.nodes| && |Kids(f, a)| > 0 ensures st[a] == Derived(f, st, a) {
      DerivedUniform(f, st, a, Unchecked);
    }
  }

  /** While every listed root is unchecked, the total is zero, as the totals of a fresh view model are. */
  lemma {:induction false} RootsTotalUnchecked(f: Forest, st: seq<CheckState>, rs: seq<nat>, m: Metric)
    requires Fits(f, st) && forall k :: 0 <= k < |rs| ==> rs[k] < |f.nodes| && st[rs[k]] == Unchecked
    ensures RootsTotal(f, st, rs, m) == 0
    decreases |rs|
  {
    if rs != [] {
      RootsTotalUnchecked(f, st, rs[..|rs| - 1], m);
    }
  }

  /** A toggle preserves the parent-state law. */
  lemma TogglePreservesLaw(f: Forest, st: seq<CheckState>, i: nat)
    requires Fits(f, st) && i < |f.nodes| && Law(f, st)
    ensures Fits(f, ToggleSpec(f, st, i)) && Law(f, ToggleSpec(f, st, i))
  {
    var t := ToggleSpec(f, st, i);
    var ns := Flip(st[i]);
    ToggleSetsSubtree(f, st, i);
    ToggleRecomputesAncestors(f, st, i);
    ToggleLocal(f, st, i);
    forall a | 0 <= a < |f.nodes| && |Kids(f, a)| > 0 ensures t[a] == Derived(f, t, a) {
      if InSubtree(f, a, i) {
        forall k | 0 <= k < |Kids(f, a)| ensures t[Kids(f, a)[k]] == ns {
          KidInSubtree(f, a, k);
          SubtreeTrans(f, Kids(f, a)[k], a, i);
        }
        DerivedUniform(f, t, a, ns);
      } else if !StrictAncestor(f, a, i) {
        forall k | 0 <= k < |Kids(f, a)| ensures t[Kids(f, a)[k]] == st[Kids(f, a)[k]] {
          var c := Kids(f, a)[k];
          KidInSubtree(f, a, k);
          assert f.nodes[c].parent == Some(a);
          if StrictAncestor(f, c, i) {
            SubtreeTrans(f, f.nodes[i].parent.value, c, a);
          }
        }
        DerivedAgree(f, t, st, a);
      }
    }
  }

  /** Under the law, every node below a checked (or unchecked) node carries the same mark. */
  lemma {:induction false} UniformSubtree(f: Forest, st: seq<CheckState>, i: nat, j: nat)
    requires Fits(f, st) && Law(f, st) && i < |f.nodes| && j < |f.nodes| && st[i] != Mixed
    requires InSubtree(f, j, i)
    ensures st[j] == st[i]
    decreases j
  {
    if j != i {
      var p := f.nodes[j].parent.value;
      UniformSubtree(f, st, i, p);
      assert j in Kids(f, p);
      var k :| 0 <= k < |Kids(f, p)| && Kids(f, p)[k] == j;
      assert KidStates(f, st, p)[k] == st[j];
    }
  }

  /** Every strict ancestor has at least one child. */
  lemma {:induction false} AncestorHasKids(f: Forest, a: nat, i: nat)
    requires WellFormed(f) && i < |f.nodes| && a < |f.nodes| && StrictAncestor(f, a, i)
    ensures |Kids(f, a)| > 0
    decreases i
  {
    var q := f.nodes[i].parent.value;
    if q == a {
      assert i in Kids(f, a);
    } else {
      AncestorHasKids(f, a, q);
    }
  }

  /**
   * The marks on the chain above `x` are determined by the marks off it: two
   * state vectors that agree off the chain and both obey the law on it agree.
   */
  lemma {:induction false} ChainDetermined(f: Forest, s1: seq<CheckState>, s2: seq<CheckState>, x: nat)
    requires Fits(f, s1) && Fits(f, s2) && x < |f.nodes|
    requires forall j :: 0 <= j < |s1| && !StrictAncestor(f, j, x) ==> s1[j] == s2[j]
    requires forall a :: 0 <= a < |s1| && StrictAncestor(f, a, x) ==>
               s1[a] == Derived(f, s1, a) && s2[a] == Derived(f, s2, a)
    ensures s1 == s2
    decreases x
  {
    if f.nodes[x].parent.Some? {
      var q := f.nodes[x].parent.value;
      assert StrictAncestor(f, q, x);
      forall k | 0 <= k < |Kids(f, q)| ensures s1[Kids(f, q)[k]] == s2[Kids(f, q)[k]] {
        var c := Kids(f, q)[k];
        if StrictAncestor(f, c, x) {
          SubtreeBelow(f, q, c);
        }
      }
      DerivedAgree(f, s1, s2, q);
      forall j | 0 <= j < |s1| && !StrictAncestor(f, j, q) ensures s1[j] == s2[j] { }
      forall a | 0 <= a < |s1| && StrictAncestor(f, a, q) ensures StrictAncestor(f, a, x) {
        SubtreeTrans(f, q, f.nodes[q].parent.value, a);
      }
      ChainDetermined(f, s1, s2, q);
    } else {
      assert forall j :: 0 <= j < |s1| ==> s1[j] == s2[j];
    }
  }

  /**
   * Under the law, toggling a node that is not mixed twice restores every
   * node's mark, and with them both totals.
   */
  lemma ToggleTwiceRestores(f: Forest, st: seq<CheckState>, i: nat)
    requires Fits(f, st) && Law(f, st) && i < |f.nodes| && st[i] != Mixed
    ensures Fits(f, ToggleSpec(f, st, i))
    ensures ToggleSpec(f, ToggleSpec(f, st, i), i) == st
    ensures forall m: Metric :: RootsTotal(f, ToggleSpec(f, ToggleSpec(f, st, i), i), f.roots, m) == RootsTotal(f, st, f.roots, m)
  {
    var s1 := ToggleSpec(f, st, i);
    ToggleSetsSubtree(f, st, i);
    ToggleLocal(f, st, i);
    var s2 := ToggleSpec(f, s1, i);
    ToggleSetsSubtree(f, s1, i);
    ToggleLocal(f, s1, i);
    ToggleRecomputesAncestors(f, s1, i);
    forall j | 0 <= j < |s2| && !StrictAncestor(f, j, i) ensures s2[j] == st[j] {
      if InSubtree(f, j, i) {
        UniformSubtree(f, st, i, j);
      }
    }
    forall a | 0 <= a < |s2| && StrictAncestor(f, a, i) ensures s2[a] == Derived(f, s2, a) && st[a] == Derived(f, st, a) {
      AncestorHasKids(f, a, i);
    }
    ChainDetermined(f, s2, st, i);
  }

  class TreeViewModel {
    const forest: Forest
    /** The `state` of every node, indexed like `forest.nodes`; shared with the model store. */
    const state: array<CheckState>
    var totalDownloadSize: int
    var totalExtractedSize: int

    ghost predicate Valid()
      reads this
    {
      WellFormed(forest) && state.Length == |forest.nodes|
    }

    /** The totals start at zero; they are first computed by a toggle. */
    constructor (forest: Forest, state: array<CheckState>)
      requires WellFormed(forest) && state.Length == |forest.nodes|
      ensures Valid() && this.forest == forest && this.state == state
      ensures totalDownloadSize == 0 && totalExtractedSize == 0
    {
      this.forest := forest;
      this.state := state;
      totalDownloadSize := 0;
      totalExtractedSize := 0;
    }

    method Toggle(i: nat)
      requires Valid() && i < |forest.nodes|
      modifies this, state
      ensures Valid()
      ensures state[..] == ToggleSpec(forest, old(state[..]), i)
      ensures totalDownloadSize == RootsTotal(forest, state[..], forest.roots, Download)
      ensures totalExtractedSize == RootsTotal(forest, state[..], forest.roots, Extracted)
    {
      var newState := if state[i] == Checked then Unchecked else Checked;
      ghost var st0 := state[..];
      state[i] := newState;
      assert state[..] == st0[i := Flip(st0[i])];
      UpdateChildren(i, newState);
      UpdateParentState(forest.nodes[i].parent);
      CalculateTotals();
    }

    method CalculateTotals()
      requires Valid()
      modifies this
      ensures Valid()
      ensures totalDownloadSize == RootsTotal(forest, state[..], forest.roots, Download)
      ensures totalExtractedSize == RootsTotal(forest, state[..], forest.roots, Extracted)
    {
      totalDownloadSize := CalculateTotal(Download);
      totalExtractedSize := CalculateTotal(Extracted);
    }

    method UpdateChildren(i: nat, s: CheckState)
      requires Valid() && i < |forest.nodes|
      modifies state
      ensures state[..] == Cascade(forest, old(state[..]), i, s)
      decreases |forest.nodes| - i
    {
      var kids := Kids(forest, i);
      for k := 0 to |kids|
        invariant forall j :: 0 <= j < state.Length ==>
          state[j] == if exists q :: 0 <= q < k && InSubtree(forest, j, kids[q]) then s else old(state[j])
      {
        var c := kids[k];
        state[c] := s;
        UpdateChildren(c, s);
      }
      forall j | 0 <= j < state.Length
        ensures state[j] == Cascade(forest, old(state[..]), i, s)[j]
      {
        KidsCover(forest, j, i);
      }
    }

    method UpdateParentState(p: Option<nat>)
      requires Valid() && (p.Some? ==> p.value < |forest.nodes|)
      modifies state
      ensures state[..] == Recompute(forest, old(state[..]), p)
      decreases if p.Some? then p.value + 1 else 0
    {
      if p.None? {
        return;
      }
      var a := p.value;
      var childrenStates := KidStates(forest, state[..], a);
      state[a] := ParentStateOf(childrenStates);
      UpdateParentState(forest.nodes[a].parent);
    }

    method CalculateTotal(m: Metric) returns (total: int)
      requires Valid()
      ensures total == RootsTotal(forest, state[..], forest.roots, m)
    {
      total := 0;
      for k := 0 to |forest.roots|
        invariant total == RootsTotal(forest, state[..], forest.roots[..k], m)
      {
        var r := forest.roots[k];
        assert forest.roots[..k + 1][..k] == forest.roots[..k];
        if state[r] != Unchecked {
          total := total + SizeRecursive(forest, state[..], r, m);
        }
      }
      assert forest.roots[..|forest.roots|] == forest.roots;
    }
  }
}
