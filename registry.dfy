/**
 * The bipartition registry of phyx's bipartition tool. Every internal node
 * of every tree (the root and edges below the support cutoff excepted)
 * yields a clade and the other side of its split; the registry keeps, per
 * distinct bipartition, the clade, its other side as first seen, the ids of
 * the taxa missing from the tree it was first seen in, and how many times
 * it has been counted. Node-wise mode counts each orientation as its own
 * entry (and registers both sides of an edge at the root of an unrooted
 * tree); edgewise mode treats the two sides of an edge as one entry and
 * counts it at most once per tree.
 */
module Bipartitions {
  import opened Clades
  import opened Forest
  import opened Wrappers

  /** The four parallel lists biparts, biparts2, not_included and bp_count. */
  datatype Registry = Registry(
    clades: seq<seq<int>>,
    others: seq<seq<int>>,
    missing: seq<seq<int>>,
    counts: seq<nat>)

  const Empty: Registry := Registry([], [], [], [])

  predicate WellFormed(r: Registry) {
    && |r.others| == |r.clades|
    && |r.missing| == |r.clades|
    && |r.counts| == |r.clades|
    && NoDup(r.clades)
    && (forall e :: 0 <= e < |r.counts| ==> r.counts[e] >= 1)
    && (forall e :: 0 <= e < |r.clades| ==> Sorted(r.clades[e]) && Sorted(r.others[e]))
  }

  /** r2 keeps every entry of r in place (counts aside) and may add more. */
  predicate Extends(r: Registry, r2: Registry) {
    r.clades <= r2.clades && r.others <= r2.others && r.missing <= r2.missing
  }

  lemma ExtendsTrans(r: Registry, r2: Registry, r3: Registry)
    requires Extends(r, r2) && Extends(r2, r3)
    ensures Extends(r, r3)
  {
  }

  /** Entry numbers below n. */
  predicate InRange(seen: seq<nat>, n: nat) {
    forall k :: k in seen ==> k < n
  }

  function Sum(s: seq<nat>): nat {
    if s == [] then 0 else Sum(s[..|s| - 1]) + s[|s| - 1]
  }

  lemma SumAppend(s: seq<nat>, x: nat)
    ensures Sum(s + [x]) == Sum(s) + x
  {
    assert (s + [x])[..|s|] == s;
  }

  lemma {:induction false} SumBump(s: seq<nat>, k: nat)
    requires k < |s|
    ensures Sum(s[k := s[k] + 1]) == Sum(s) + 1
  {
    var t := s[k := s[k] + 1];
    var n := |s| - 1;
    if k == n {
      assert t[..n] == s[..n];
    } else {
      assert t[..n] == s[..n][k := s[k] + 1];
      SumBump(s[..n], k);
    }
  }

  /** A new entry, counted once. */
  function Append(r: Registry, clade: seq<int>, other: seq<int>, missing: seq<int>): (r2: Registry)
    requires WellFormed(r) && Sorted(clade) && Sorted(other) && clade !in r.clades
    ensures WellFormed(r2) && Extends(r, r2)
    ensures |r2.clades| == |r.clades| + 1
    ensures r2.clades[|r.clades|] == clade && r2.others[|r.clades|] == other
    ensures r2.missing[|r.clades|] == missing && r2.counts == r.counts + [1]
  {
    Registry(r.clades + [clade], r.others + [other], r.missing + [missing], r.counts + [1])
  }

  /** One more count for entry k. */
  function Bump(r: Registry, k: nat): (r2: Registry)
    requires WellFormed(r) && k < |r.clades|
    ensures WellFormed(r2) && Extends(r, r2)
    ensures r2.clades == r.clades && r2.others == r.others && r2.missing == r.missing
    ensures r2.counts == r.counts[k := r.counts[k] + 1]
  {
    r.(counts := r.counts[k := r.counts[k] + 1])
  }

  /**
   * The entry the node-wise code increments for a bipartition it has
   * already seen: it searches the clade list only, so when only the other
   * side matched, the position is one past the last entry.
   */
  function NodewiseIndexAsWritten(r: Registry, clade: seq<int>): (k: nat)
    ensures k <= |r.clades| && (k < |r.clades| <==> clade in r.clades)
    ensures k < |r.clades| ==> r.clades[k] == clade
  {
    Find(r.clades, clade)
  }

  /** The entry that matched: the clade's own entry, else the entry whose other side matched. */
  function NodewiseIndex(r: Registry, clade: seq<int>, other: seq<int>): (k: nat)
    requires |r.others| == |r.clades|
    requires clade in r.clades || other in r.others
    ensures k < |r.clades|
    ensures clade in r.clades ==> r.clades[k] == clade
    ensures clade !in r.clades ==> r.others[k] == other
  {
    if clade in r.clades then Find(r.clades, clade) else Find(r.others, other)
  }

  /**
   * Node-wise registration of one oriented bipartition: a new entry when
   * neither the clade is a registered clade nor its other side a registered
   * other side, otherwise one more count for the matching entry.
   */
  function NodewiseAdded(r: Registry, clade: seq<int>, other: seq<int>, missing: seq<int>): (r2: Registry)
    requires WellFormed(r) && Sorted(clade) && Sorted(other)
    ensures WellFormed(r2) && Extends(r, r2)
  {
    if clade !in r.clades && other !in r.others then Append(r, clade, other, missing)
    else Bump(r, NodewiseIndex(r, clade, other))
  }

  /**
   * The entry an edgewise bipartition already seen belongs to: the clade's
   * entry when the clade is registered, else the entry holding its other
   * side as clade.
   */
  function EdgewiseIndex(r: Registry, clade: seq<int>, other: seq<int>): (k: nat)
    requires WellFormed(r)
    requires clade in r.clades || other in r.clades
    ensures k < |r.clades|
    ensures r.clades[k] == clade || r.clades[k] == other
  {
    CountOfDistinct(r.clades, clade);
    if Count(r.clades, clade) == 1 then Find(r.clades, clade) else Find(r.clades, other)
  }

  /**
   * Edgewise registration of an edge; seen holds the entries already counted
   * for the current tree, so that an entry is counted at most once per tree.
   */
  function EdgewiseAdded(r: Registry, seen: seq<nat>, clade: seq<int>, other: seq<int>, missing: seq<int>)
    : (res: (Registry, seq<nat>))
    requires WellFormed(r) && Sorted(clade) && Sorted(other) && InRange(seen, |r.clades|)
    ensures WellFormed(res.0) && Extends(r, res.0) && InRange(res.1, |res.0.clades|)
  {
    if clade !in r.clades && other !in r.clades then
      (Append(r, clade, other, missing), seen + [|r.clades|])
    else
      var k := EdgewiseIndex(r, clade, other);
      if k in seen then (r, seen) else (Bump(r, k), seen + [k])
  }

  /** The ids of the forest's names that the tree lacks, in the order of the name list. */
  function NotIncluded(run: Run, t: Tree): seq<int> {
    Ids(run.ids, Minus(run.names, t.leaves))
  }

  /**
   * The missing ids are the ids of exactly the names the tree lacks, and
   * there are never more of them than names: they fit a buffer sized by
   * the name list.
   */
  lemma NotIncludedAreMissing(run: Run, t: Tree)
    ensures var r := NotIncluded(run, t);
            && |r| <= |run.names|
            && (forall n :: n in run.names && n !in t.leaves ==> IdOf(run.ids, n) in r)
            && (forall v :: v in r ==> exists n :: n in run.names && n !in t.leaves && v == IdOf(run.ids, n))
  {
    var ms := Minus(run.names, t.leaves);
    IdsElems(run.ids, ms);
    MinusShorter(run.names, t.leaves);
    assert forall n :: n in ms ==> IdOf(run.ids, n) in IdSet(run.ids, ms);
    forall v | v in NotIncluded(run, t)
      ensures exists n :: n in run.names && n !in t.leaves && v == IdOf(run.ids, n)
    {
      assert v in IdSet(run.ids, ms);
      var n :| n in ms && v == IdOf(run.ids, n);
    }
  }

  /**
   * The missing names as written: the set difference is copied into a
   * buffer sized by the number of distinct names in the tree, so it fits
   * only when no more names are missing than the tree has; None stands for
   * the write past the end of the buffer.
   */
  function NotIncludedAsWritten(run: Run, t: Tree): (r: Option<seq<int>>)
    ensures r.Some? ==> r.value == NotIncluded(run, t)
  {
    var missingNames := Minus(Dedup(run.names), t.leaves);
    if |missingNames| <= |Dedup(t.leaves)| then Some(NotIncluded(run, t)) else None
  }

  /** Five names, of which a tree holds two: three missing names overrun a buffer of two. */
  lemma NotIncludedOverflows()
    ensures NotIncludedAsWritten(
              Run(["A", "B", "C", "D", "E"], map[], false, false, 0.0, s => 0.0),
              Tree(["A", "B"], 2, [])) == None
  {
    var names := ["A", "B", "C", "D", "E"];
    var leaves := ["A", "B"];
    MissingOverflow(names, leaves);
  }

  /**
   * With distinct names and a tree of distinct leaves drawn from them, the
   * buffer overflows as soon as more than half of the names are missing.
   */
  lemma MissingOverflow(names: seq<string>, leaves: seq<string>)
    requires NoDup(names) && NoDup(leaves) && Elems(leaves) <= Elems(names)
    requires |names| > 2 * |leaves|
    ensures |Minus(Dedup(names), leaves)| > |Dedup(leaves)|
  {
    DedupOfDistinct(names);
    DedupOfDistinct(leaves);
    MinusKeepSplit(names, leaves);
    var kept := Keep(names, leaves);
    DistinctMultiset(kept);
    DistinctMultiset(leaves);
    assert Elems(kept) == Elems(leaves);
    var rest := Minus(names, leaves);
    assert |multiset(kept)| == |multiset(leaves)| == |leaves|;
    assert |multiset(rest)| + |multiset(kept)| == |multiset(names)|;
    assert |rest| == |multiset(rest)| && |kept| == |multiset(kept)| && |names| == |multiset(names)|;
  }

  /**
   * The root, and with a cutoff set any edge whose label is empty or reads
   * below the cutoff, are not registered.
   */
  predicate Skipped(run: Run, t: Tree, n: Node) {
    |n.leafNames| == |t.leaves| || BelowCutoff(run, n)
  }

  /** Registration of one internal node of tree t. */
  function NodeStep(run: Run, t: Tree, r: Registry, seen: seq<nat>, n: Node): (res: (Registry, seq<nat>))
    requires WellFormed(r) && InRange(seen, |r.clades|)
    ensures WellFormed(res.0) && Extends(r, res.0) && InRange(res.1, |res.0.clades|)
  {
    if Skipped(run, t, n) then (r, seen)
    else
      var clade := Clade(run.ids, n.leafNames);
      var other := Complement(run.ids, t.leaves, n.leafNames);
      var missing := NotIncluded(run, t);
      if !run.edgewise then
        var r1 := NodewiseAdded(r, clade, other, missing);
        if Unrooted(t) && n.parentIsRoot then
          var r2 := NodewiseAdded(r1, other, clade, missing);
          ExtendsTrans(r, r1, r2);
          (r2, seen)
        else (r1, seen)
      else if |clade| < 2 || |other| < 2 then (r, seen)
      else EdgewiseAdded(r, seen, clade, other, missing)
  }

  /** Registration of the first k internal nodes of t, with the entries counted for t so far. */
  function NodesRegistered(run: Run, t: Tree, r: Registry, k: nat): (res: (Registry, seq<nat>))
    requires WellFormed(r) && k <= |t.internals|
    ensures WellFormed(res.0) && Extends(r, res.0) && InRange(res.1, |res.0.clades|)
  {
    if k == 0 then (r, [])
    else
      var prev := NodesRegistered(run, t, r, k - 1);
      var res := NodeStep(run, t, prev.0, prev.1, t.internals[k - 1]);
      ExtendsTrans(r, prev.0, res.0);
      res
  }

  lemma NodesRegisteredNext(run: Run, t: Tree, r: Registry, k: nat)
    requires WellFormed(r) && k < |t.internals|
    ensures var prev := NodesRegistered(run, t, r, k);
            NodesRegistered(run, t, r, k + 1) == NodeStep(run, t, prev.0, prev.1, t.internals[k])
  {
  }

  function TreeRegistered(run: Run, r: Registry, t: Tree): (r2: Registry)
    requires WellFormed(r)
    ensures WellFormed(r2) && Extends(r, r2)
  {
    NodesRegistered(run, t, r, |t.internals|).0
  }

  /** Registration of a sequence of trees, one after another. */
  function ForestRegistered(run: Run, r: Registry, trees: seq<Tree>): (r2: Registry)
    requires WellFormed(r)
    ensures WellFormed(r2) && Extends(r, r2)
  {
    if trees == [] then r
    else
      var prev := ForestRegistered(run, r, trees[..|trees| - 1]);
      var r2 := TreeRegistered(run, prev, trees[|trees| - 1]);
      ExtendsTrans(r, prev, r2);
      r2
  }

  // ---------------------------------------------------------------------
  // Node-wise registration

  /**
   * One node-wise registration adds exactly one count, and adds an entry
   * exactly when neither the clade nor its other side was seen before; the
   * new entry is the bipartition as given, counted once.
   */
  lemma NodewiseAddsOneCount(r: Registry, clade: seq<int>, other: seq<int>, missing: seq<int>)
    requires WellFormed(r) && Sorted(clade) && Sorted(other)
    ensures var r2 := NodewiseAdded(r, clade, other, missing);
            && Sum(r2.counts) == Sum(r.counts) + 1
            && (|r2.clades| == |r.clades| + 1 <==> clade !in r.clades && other !in r.others)
            && (|r2.clades| == |r.clades| <==> clade in r.clades || other in r.others)
            && (clade !in r.clades && other !in r.others ==>
                  r2.clades[|r.clades|] == clade && r2.others[|r.clades|] == other &&
                  r2.missing[|r.clades|] == missing && r2.counts[|r.clades|] == 1)
  {
    if clade !in r.clades && other !in r.others {
      SumAppend(r.counts, 1);
    } else {
      SumBump(r.counts, NodewiseIndex(r, clade, other));
    }
  }

  /**
   * How many registrations node n of t makes: none when it is not
   * registered, two node-wise for an edge at the root of an unrooted tree
   * (both orientations), one otherwise.
   */
  function Registrations(run: Run, t: Tree, n: Node): nat {
    if !Registers(run, t, n) then 0 else if !run.edgewise && Unrooted(t) && n.parentIsRoot then 2 else 1
  }

  /** The registrations the first k internal nodes of t make. */
  function TreeRegistrations(run: Run, t: Tree, k: nat): nat
    requires k <= |t.internals|
  {
    if k == 0 then 0 else TreeRegistrations(run, t, k - 1) + Registrations(run, t, t.internals[k - 1])
  }

  /** The registrations all trees make. */
  function ForestRegistrations(run: Run, trees: seq<Tree>): nat {
    if trees == [] then 0
    else
      var t := trees[|trees| - 1];
      ForestRegistrations(run, trees[..|trees| - 1]) + TreeRegistrations(run, t, |t.internals|)
  }

  lemma NodewiseNextNodeCounts(run: Run, t: Tree, r: Registry, j: nat)
    requires !run.edgewise && WellFormed(r) && j < |t.internals|
    requires Sum(NodesRegistered(run, t, r, j).0.counts) == Sum(r.counts) + TreeRegistrations(run, t, j)
    ensures Sum(NodesRegistered(run, t, r, j + 1).0.counts) == Sum(r.counts) + TreeRegistrations(run, t, j + 1)
  {
    var prev := NodesRegistered(run, t, r, j);
    NodesRegisteredNext(run, t, r, j);
    var n := t.internals[j];
    if !Skipped(run, t, n) {
      var clade := Clade(run.ids, n.leafNames);
      var other := Complement(run.ids, t.leaves, n.leafNames);
      var missing := NotIncluded(run, t);
      NodewiseAddsOneCount(prev.0, clade, other, missing);
      if Unrooted(t) && n.parentIsRoot {
        NodewiseAddsOneCount(NodewiseAdded(prev.0, clade, other, missing), other, clade, missing);
      }
    }
  }

  /** Once the first j nodes add one count per registration, so do all the tree's nodes. */
  lemma {:induction false} NodewiseNodesCount(run: Run, t: Tree, r: Registry, j: nat)
    requires !run.edgewise && WellFormed(r) && j <= |t.internals|
    requires Sum(NodesRegistered(run, t, r, j).0.counts) == Sum(r.counts) + TreeRegistrations(run, t, j)
    ensures Sum(TreeRegistered(run, r, t).counts) == Sum(r.counts) + TreeRegistrations(run, t, |t.internals|)
    decreases |t.internals| - j
  {
    if j < |t.internals| {
      NodewiseNextNodeCounts(run, t, r, j);
      NodewiseNodesCount(run, t, r, j + 1);
    }
  }

  /**
   * Node-wise, the counts over the forest add up to exactly one per
   * registration (one per registered node, two per edge at the root of an
   * unrooted tree), so there are never more entries than registrations.
   */
  lemma {:induction false} NodewiseForestCounts(run: Run, trees: seq<Tree>)
    requires !run.edgewise
    ensures var r := ForestRegistered(run, Empty, trees);
            Sum(r.counts) == ForestRegistrations(run, trees) && |r.clades| <= ForestRegistrations(run, trees)
  {
    if trees != [] {
      var init := trees[..|trees| - 1];
      var t := trees[|trees| - 1];
      NodewiseForestCounts(run, init);
      var prev := ForestRegistered(run, Empty, init);
      NodewiseNodesCount(run, t, prev, 0);
      EntriesBoundedByCounts(ForestRegistered(run, Empty, trees));
    }
  }

  /** Every entry has been counted at least once, so there are no more entries than counts. */
  lemma {:induction false} EntriesBoundedByCounts(r: Registry)
    requires WellFormed(r)
    ensures |r.clades| <= Sum(r.counts)
    decreases |r.clades|
  {
    if r.clades != [] {
      var n := |r.clades| - 1;
      var r0 := Registry(r.clades[..n], r.others[..n], r.missing[..n], r.counts[..n]);
      assert NoDup(r0.clades);
      EntriesBoundedByCounts(r0);
    }
  }

  /** Each entry's two sides hold, between them, exactly the ids u. */
  predicate Coherent(r: Registry, u: multiset<int>)
    requires |r.others| == |r.clades|
  {
    forall e :: 0 <= e < |r.clades| ==> multiset(r.clades[e]) + multiset(r.others[e]) == u
  }

  /**
   * When every entry splits the same ids u, a bipartition of u whose other
   * side is registered also has its clade registered, at the same entry:
   * the as-written lookup through the clade list then finds the entry.
   */
  lemma CoherentLookupAgrees(r: Registry, u: multiset<int>, clade: seq<int>, other: seq<int>)
    requires WellFormed(r) && Coherent(r, u)
    requires Sorted(clade) && Sorted(other) && multiset(clade) + multiset(other) == u
    requires clade in r.clades || other in r.others
    ensures clade in r.clades
    ensures NodewiseIndexAsWritten(r, clade) == NodewiseIndex(r, clade, other)
  {
    if clade !in r.clades {
      var e := Find(r.others, other);
      calc {
        multiset(r.clades[e]);
        (multiset(r.clades[e]) + multiset(other)) - multiset(other);
        u - multiset(other);
        (multiset(clade) + multiset(other)) - multiset(other);
        multiset(clade);
      }
      SortedUnique(r.clades[e], clade);
    }
  }

  /**
   * The as-written lookup overruns: with entries [0 1 | 2 3] and [2 3 | 0 1]
   * from a four-taxon tree, the clade [0 1 4] of a five-taxon tree, whose
   * other side is [2 3], is not new, yet it is not a registered clade, so
   * the position incremented is one past the last entry.
   */
  lemma NodewiseIndexOverruns()
    ensures var r := Registry([[0, 1], [2, 3]], [[2, 3], [0, 1]], [[], []], [1, 1]);
            && WellFormed(r)
            && [2, 3] in r.others
            && NodewiseIndexAsWritten(r, [0, 1, 4]) == |r.counts|
            && NodewiseIndex(r, [0, 1, 4], [2, 3]) == 0
  {
    var r := Registry([[0, 1], [2, 3]], [[2, 3], [0, 1]], [[], []], [1, 1]);
    assert r.clades[0] != [0, 1, 4] && r.clades[1] != [0, 1, 4];
    assert r.others[0] == [2, 3];
  }

  /** Every entry from position lo on satisfies P. */
  ghost predicate AllFrom(r: Registry, lo: nat, P: (seq<int>, seq<int>) -> bool)
    requires |r.others| == |r.clades|
  {
    forall e :: lo <= e < |r.clades| ==> P(r.clades[e], r.others[e])
  }

  lemma NodewiseKeeps(r: Registry, clade: seq<int>, other: seq<int>, missing: seq<int>,
                      lo: nat, P: (seq<int>, seq<int>) -> bool)
    requires WellFormed(r) && Sorted(clade) && Sorted(other)
    requires AllFrom(r, lo, P) && P(clade, other)
    ensures AllFrom(NodewiseAdded(r, clade, other, missing), lo, P)
  {
    var r2 := NodewiseAdded(r, clade, other, missing);
    forall e | lo <= e < |r2.clades| ensures P(r2.clades[e], r2.others[e]) {
      if e < |r.clades| {
        assert r2.clades[e] == r.clades[e] && r2.others[e] == r.others[e];
      }
    }
  }

  lemma EdgewiseKeeps(r: Registry, seen: seq<nat>, clade: seq<int>, other: seq<int>, missing: seq<int>,
                      lo: nat, P: (seq<int>, seq<int>) -> bool)
    requires WellFormed(r) && Sorted(clade) && Sorted(other) && InRange(seen, |r.clades|)
    requires AllFrom(r, lo, P) && P(clade, other)
    ensures AllFrom(EdgewiseAdded(r, seen, clade, other, missing).0, lo, P)
  {
    var r2 := EdgewiseAdded(r, seen, clade, other, missing).0;
    forall e | lo <= e < |r2.clades| ensures P(r2.clades[e], r2.others[e]) {
      if e < |r.clades| {
        assert r2.clades[e] == r.clades[e] && r2.others[e] == r.others[e];
      }
    }
  }

  /** Node n of t is registered: not skipped, and in edgewise mode both sides have two taxa. */
  predicate Registers(run: Run, t: Tree, n: Node) {
    && !Skipped(run, t, n)
    && (run.edgewise ==>
          |Clade(run.ids, n.leafNames)| >= 2 && |Complement(run.ids, t.leaves, n.leafNames)| >= 2)
  }

  /** Both orientations of node n's bipartition satisfy P. */
  ghost predicate BothSides(run: Run, t: Tree, n: Node, P: (seq<int>, seq<int>) -> bool) {
    var clade := Clade(run.ids, n.leafNames);
    var other := Complement(run.ids, t.leaves, n.leafNames);
    P(clade, other) && P(other, clade)
  }

  lemma NodeStepKeeps(run: Run, t: Tree, r: Registry, seen: seq<nat>, n: Node,
                      lo: nat, P: (seq<int>, seq<int>) -> bool)
    requires WellFormed(r) && InRange(seen, |r.clades|) && AllFrom(r, lo, P)
    requires Registers(run, t, n) ==> BothSides(run, t, n, P)
    ensures AllFrom(NodeStep(run, t, r, seen, n).0, lo, P)
  {
    if Registers(run, t, n) {
      var clade := Clade(run.ids, n.leafNames);
      var other := Complement(run.ids, t.leaves, n.leafNames);
      var missing := NotIncluded(run, t);
      if !run.edgewise {
        NodewiseKeeps(r, clade, other, missing, lo, P);
        var r1 := NodewiseAdded(r, clade, other, missing);
        NodewiseKeeps(r1, other, clade, missing, lo, P);
      } else {
        EdgewiseKeeps(r, seen, clade, other, missing, lo, P);
      }
    }
  }

  /**
   * A property of both orientations of every registered node's bipartition
   * holds of every entry the tree adds, and of every entry from lo on that
   * had it before.
   */
  lemma NodesRegisteredKeep(run: Run, t: Tree, r: Registry, k: nat,
                            lo: nat, P: (seq<int>, seq<int>) -> bool)
    requires WellFormed(r) && k <= |t.internals| && AllFrom(r, lo, P)
    requires forall j :: 0 <= j < |t.internals| && Registers(run, t, t.internals[j]) ==> BothSides(run, t, t.internals[j], P)
    ensures AllFrom(NodesRegistered(run, t, r, k).0, lo, P)
  {
    var inv := (run1: Run, t1: Tree, r1: Registry, seen: seq<nat>) => run1 == run && t1 == t && |r1.others| == |r1.clades| ==> AllFrom(r1, lo, P);
    forall run1: Run, t1: Tree, r1: Registry, seen: seq<nat>, n: Node
      | WellFormed(r1) && InRange(seen, |r1.clades|) && n in t1.internals && inv(run1, t1, r1, seen)
      ensures inv(run1, t1, NodeStep(run1, t1, r1, seen, n).0, NodeStep(run1, t1, r1, seen, n).1)
    {
      if run1 == run && t1 == t {
        var j :| 0 <= j < |t.internals| && t.internals[j] == n;
        NodeStepKeeps(run, t, r1, seen, n, lo, P);
      }
    }
    NodesRegisteredPreserve(run, t, r, k, inv);
  }

  /**
   * A property of the registration state (and of the run and the tree
   * being registered) that every node step preserves.
   */
  type StepInvariant = Inv: (Run, Tree, Registry, seq<nat>) -> bool
    | forall run: Run, t: Tree, r: Registry, seen: seq<nat>, n: Node {:trigger NodeStep(run, t, r, seen, n)}
        | WellFormed(r) && InRange(seen, |r.clades|) && n in t.internals && Inv(run, t, r, seen)
        :: Inv(run, t, NodeStep(run, t, r, seen, n).0, NodeStep(run, t, r, seen, n).1)
    witness (run: Run, t: Tree, r: Registry, seen: seq<nat>) => true

  /** A step invariant that holds before a tree's nodes holds after any number of them. */
  lemma {:induction false} NodesRegisteredPreserve(run: Run, t: Tree, r: Registry, k: nat, Inv: StepInvariant)
    requires WellFormed(r) && k <= |t.internals| && Inv(run, t, r, [])
    ensures var res := NodesRegistered(run, t, r, k); Inv(run, t, res.0, res.1)
  {
    if k > 0 {
      NodesRegisteredPreserve(run, t, r, k - 1, Inv);
      NodesRegisteredPreserveStep(run, t, r, k, Inv);
    }
  }

  /** One induction step of NodesRegisteredPreserve. */
  lemma NodesRegisteredPreserveStep(run: Run, t: Tree, r: Registry, k: nat, Inv: StepInvariant)
    requires WellFormed(r) && 0 < k <= |t.internals|
    requires var res := NodesRegistered(run, t, r, k - 1); Inv(run, t, res.0, res.1)
    ensures var res := NodesRegistered(run, t, r, k); Inv(run, t, res.0, res.1)
  {
    var prev := NodesRegistered(run, t, r, k - 1);
    assert NodesRegistered(run, t, r, k) == NodeStep(run, t, prev.0, prev.1, t.internals[k - 1]);
  }

  /** The ids of a tree's leaves. */
  function TreeIds(run: Run, t: Tree): multiset<int> {
    multiset(Ids(run.ids, t.leaves))
  }

  /** Registering the nodes of t keeps every entry a split of t's ids. */
  lemma NodesRegisteredCoherent(run: Run, t: Tree, r: Registry, k: nat)
    requires ValidTree(t) && k <= |t.internals|
    requires WellFormed(r) && Coherent(r, TreeIds(run, t))
    ensures Coherent(NodesRegistered(run, t, r, k).0, TreeIds(run, t))
  {
    var u := TreeIds(run, t);
    var P := (a: seq<int>, b: seq<int>) => multiset(a) + multiset(b) == u;
    forall j | 0 <= j < |t.internals| && Registers(run, t, t.internals[j])
      ensures BothSides(run, t, t.internals[j], P)
    {
      CladeAndComplementCoverTree(run.ids, t.leaves, t.internals[j].leafNames);
    }
    NodesRegisteredKeep(run, t, r, k, 0, P);
    var r2 := NodesRegistered(run, t, r, k).0;
    forall e | 0 <= e < |r2.clades| ensures multiset(r2.clades[e]) + multiset(r2.others[e]) == u {
      assert P(r2.clades[e], r2.others[e]);
    }
  }

  /** All trees hold the same taxa as the first. */
  predicate SameTaxa(trees: seq<Tree>) {
    forall i :: 0 <= i < |trees| ==> Elems(trees[i].leaves) == Elems(trees[0].leaves)
  }

  lemma SameTaxaSameIds(run: Run, a: Tree, b: Tree)
    requires NoDup(a.leaves) && NoDup(b.leaves) && Elems(a.leaves) == Elems(b.leaves)
    ensures TreeIds(run, a) == TreeIds(run, b)
  {
    DistinctMultiset(a.leaves);
    DistinctMultiset(b.leaves);
    IdsPermutation(run.ids, a.leaves, b.leaves);
  }

  /**
   * When every tree holds the same taxa, every entry registered over the
   * forest splits the ids of those taxa, so (by CoherentLookupAgrees) the
   * as-written node-wise lookup never overruns.
   */
  lemma {:induction false} SameTaxaForestCoherent(run: Run, trees: seq<Tree>, m: nat)
    requires 0 < m <= |trees|
    requires forall i :: 0 <= i < |trees| ==> ValidTree(trees[i])
    requires SameTaxa(trees)
    ensures Coherent(ForestRegistered(run, Empty, trees[..m]), TreeIds(run, trees[0]))
  {
    var prefix := trees[..m];
    var init := prefix[..m - 1];
    assert init == trees[..m - 1];
    var t := trees[m - 1];
    SameTaxaSameIds(run, t, trees[0]);
    if m > 1 {
      SameTaxaForestCoherent(run, trees, m - 1);
    }
    NodesRegisteredCoherent(run, t, ForestRegistered(run, Empty, init), |t.internals|);
  }

  // ---------------------------------------------------------------------
  // What gets registered

  /**
   * Every entry a tree adds is a proper split of that tree: both sides are
   * non-empty and together have as many ids as the tree has leaves (so
   * the root is not registered); in edgewise mode both sides have at least
   * two taxa.
   */
  lemma NewEntriesAreProperSplits(run: Run, t: Tree, r: Registry, k: nat)
    requires ValidTree(t) && WellFormed(r) && k <= |t.internals|
    ensures var r2 := NodesRegistered(run, t, r, k).0;
            forall e :: |r.clades| <= e < |r2.clades| ==>
              && 0 < |r2.clades[e]| < |t.leaves|
              && 0 < |r2.others[e]| < |t.leaves|
              && |r2.clades[e]| + |r2.others[e]| == |t.leaves|
              && (run.edgewise ==> |r2.clades[e]| >= 2 && |r2.others[e]| >= 2)
  {
    var size := |t.leaves|;
    var P := (a: seq<int>, b: seq<int>) =>
      0 < |a| < size && 0 < |b| < size && |a| + |b| == size && (run.edgewise ==> |a| >= 2 && |b| >= 2);
    forall j | 0 <= j < |t.internals| && Registers(run, t, t.internals[j])
      ensures BothSides(run, t, t.internals[j], P)
    {
      CladeAndComplementCoverTree(run.ids, t.leaves, t.internals[j].leafNames);
    }
    NodesRegisteredKeep(run, t, r, k, |r.clades|, P);
    var r2 := NodesRegistered(run, t, r, k).0;
    forall e | |r.clades| <= e < |r2.clades|
      ensures P(r2.clades[e], r2.others[e])
    {
    }
  }

  /**
   * Each entry's clade, other side and missing ids hold, between them,
   * exactly the ids u.
   */
  predicate Covers(r: Registry, u: multiset<int>)
    requires |r.others| == |r.clades| && |r.missing| == |r.clades|
  {
    forall e :: 0 <= e < |r.clades| ==> multiset(r.clades[e]) + multiset(r.others[e]) + multiset(r.missing[e]) == u
  }

  /**
   * With distinct names, a tree of distinct leaves drawn from them and the
   * ids of the names it lacks hold the ids of all names, each once.
   */
  lemma TreeAndMissingCoverNames(run: Run, t: Tree)
    requires NoDup(run.names) && NoDup(t.leaves) && Elems(t.leaves) <= Elems(run.names)
    ensures TreeIds(run, t) + multiset(NotIncluded(run, t)) == multiset(Ids(run.ids, run.names))
  {
    var rest := Minus(run.names, t.leaves);
    MinusKeepSplit(run.names, t.leaves);
    KeptAreLeaves(run.names, t.leaves);
    IdsAppend(run.ids, rest, t.leaves);
    IdsPermutation(run.ids, rest + t.leaves, run.names);
  }

  /** The bipartition of one node of t and the ids t lacks hold the ids of all names. */
  lemma NodeCoversNames(run: Run, t: Tree, j: nat)
    requires ValidTree(t) && j < |t.internals|
    requires NoDup(run.names) && Elems(t.leaves) <= Elems(run.names)
    ensures var n := t.internals[j];
            multiset(Clade(run.ids, n.leafNames)) + multiset(Complement(run.ids, t.leaves, n.leafNames))
              + multiset(NotIncluded(run, t)) == multiset(Ids(run.ids, run.names))
  {
    CladeAndComplementCoverTree(run.ids, t.leaves, t.internals[j].leafNames);
    TreeAndMissingCoverNames(run, t);
  }

  lemma NodewiseAddedCovers(r: Registry, clade: seq<int>, other: seq<int>, missing: seq<int>, u: multiset<int>)
    requires WellFormed(r) && Sorted(clade) && Sorted(other) && Covers(r, u)
    requires multiset(clade) + multiset(other) + multiset(missing) == u
    ensures Covers(NodewiseAdded(r, clade, other, missing), u)
  {
    var r2 := NodewiseAdded(r, clade, other, missing);
    forall e | 0 <= e < |r2.clades|
      ensures multiset(r2.clades[e]) + multiset(r2.others[e]) + multiset(r2.missing[e]) == u
    {
      if e < |r.clades| {
        assert r2.clades[e] == r.clades[e] && r2.others[e] == r.others[e] && r2.missing[e] == r.missing[e];
      }
    }
  }

  lemma EdgewiseAddedCovers(r: Registry, seen: seq<nat>, clade: seq<int>, other: seq<int>, missing: seq<int>,
                            u: multiset<int>)
    requires WellFormed(r) && Sorted(clade) && Sorted(other) && InRange(seen, |r.clades|) && Covers(r, u)
    requires multiset(clade) + multiset(other) + multiset(missing) == u
    ensures Covers(EdgewiseAdded(r, seen, clade, other, missing).0, u)
  {
    var r2 := EdgewiseAdded(r, seen, clade, other, missing).0;
    forall e | 0 <= e < |r2.clades|
      ensures multiset(r2.clades[e]) + multiset(r2.others[e]) + multiset(r2.missing[e]) == u
    {
      if e < |r.clades| {
        assert r2.clades[e] == r.clades[e] && r2.others[e] == r.others[e] && r2.missing[e] == r.missing[e];
      }
    }
  }

  lemma NodeStepCovers(run: Run, t: Tree, r: Registry, seen: seq<nat>, n: Node, u: multiset<int>)
    requires WellFormed(r) && InRange(seen, |r.clades|) && Covers(r, u)
    requires multiset(Clade(run.ids, n.leafNames)) + multiset(Complement(run.ids, t.leaves, n.leafNames))
               + multiset(NotIncluded(run, t)) == u
    ensures Covers(NodeStep(run, t, r, seen, n).0, u)
  {
    if Registers(run, t, n) {
      var clade := Clade(run.ids, n.leafNames);
      var other := Complement(run.ids, t.leaves, n.leafNames);
      var missing := NotIncluded(run, t);
      if !run.edgewise {
        NodewiseAddedCovers(r, clade, other, missing, u);
        NodewiseAddedCovers(NodewiseAdded(r, clade, other, missing), other, clade, missing, u);
      } else {
        EdgewiseAddedCovers(r, seen, clade, other, missing, u);
      }
    }
  }

  /** Registering the nodes of t keeps every entry, with its missing ids, a split of all names' ids. */
  lemma NodesRegisteredCover(run: Run, t: Tree, r: Registry, k: nat)
    requires ValidTree(t) && k <= |t.internals|
    requires NoDup(run.names) && Elems(t.leaves) <= Elems(run.names)
    requires WellFormed(r) && Covers(r, multiset(Ids(run.ids, run.names)))
    ensures Covers(NodesRegistered(run, t, r, k).0, multiset(Ids(run.ids, run.names)))
  {
    var u := multiset(Ids(run.ids, run.names));
    var inv := (run1: Run, t1: Tree, r1: Registry, seen: seq<nat>) =>
      run1 == run && t1 == t && |r1.others| == |r1.clades| && |r1.missing| == |r1.clades| ==> Covers(r1, u);
    forall run1: Run, t1: Tree, r1: Registry, seen: seq<nat>, n: Node
      | WellFormed(r1) && InRange(seen, |r1.clades|) && n in t1.internals && inv(run1, t1, r1, seen)
      ensures inv(run1, t1, NodeStep(run1, t1, r1, seen, n).0, NodeStep(run1, t1, r1, seen, n).1)
    {
      if run1 == run && t1 == t {
        var j :| 0 <= j < |t.internals| && t.internals[j] == n;
        NodeCoversNames(run, t, j);
        NodeStepCovers(run, t, r1, seen, n, u);
      }
    }
    NodesRegisteredPreserve(run, t, r, k, inv);
  }

  /**
   * With distinct names and trees whose leaves are among them, every entry
   * of the registry built over the forest splits the ids of all names
   * three ways: its clade, its other side and the ids missing from the
   * tree it was first seen in. Multisets, because ids can collide.
   */
  lemma {:induction false} ForestRegisteredCovers(run: Run, trees: seq<Tree>)
    requires NoDup(run.names)
    requires forall i :: 0 <= i < |trees| ==> ValidTree(trees[i]) && Elems(trees[i].leaves) <= Elems(run.names)
    ensures Covers(ForestRegistered(run, Empty, trees), multiset(Ids(run.ids, run.names)))
  {
    if trees != [] {
      var init := trees[..|trees| - 1];
      var t := trees[|trees| - 1];
      ForestRegisteredCovers(run, init);
      NodesRegisteredCover(run, t, ForestRegistered(run, Empty, init), |t.internals|);
    }
  }

  /** A tree none of whose internal nodes is registered leaves the registry as it was. */
  lemma {:induction false} SkippedNodesChangeNothing(run: Run, t: Tree, r: Registry, k: nat)
    requires WellFormed(r) && k <= |t.internals|
    requires forall j :: 0 <= j < k ==> Skipped(run, t, t.internals[j])
    ensures NodesRegistered(run, t, r, k) == (r, [])
  {
    if k > 0 {
      SkippedNodesChangeNothing(run, t, r, k - 1);
    }
  }

  // ---------------------------------------------------------------------
  // Edgewise registration

  /** No entry's other side is the clade of a different entry. */
  predicate SidesApart(r: Registry) {
    forall e :: 0 <= e < |r.others| && e < |r.clades| && r.others[e] in r.clades ==> r.others[e] == r.clades[e]
  }

  /**
   * In a registry whose sides stay apart, both orientations of a registered
   * edge lead to that edge's entry.
   */
  lemma EitherOrientationSameEntry(r: Registry, e: nat)
    requires WellFormed(r) && SidesApart(r) && e < |r.clades|
    ensures EdgewiseIndex(r, r.clades[e], r.others[e]) == e
    ensures EdgewiseIndex(r, r.others[e], r.clades[e]) == e
  {
    var x, y := r.clades[e], r.others[e];
    CountOfDistinct(r.clades, x);
    CountOfDistinct(r.clades, y);
    assert r.clades[Find(r.clades, x)] == r.clades[e];
  }

  /**
   * No entry's other side is the clade of an earlier entry: an edge is
   * appended only when neither of its sides is a registered clade, and a
   * repeated edge only adds a count.
   */
  predicate SidesFresh(r: Registry) {
    forall e :: 0 <= e < |r.others| && e < |r.clades| ==> r.others[e] !in r.clades[..e]
  }

  /**
   * When every entry splits the same ids, fresh sides are apart: were entry
   * e's other side the clade of a different entry f, then e's clade would
   * be f's other side, and the later of the two would have the earlier
   * one's clade as its other side.
   */
  lemma FreshSidesApart(r: Registry, u: multiset<int>)
    requires WellFormed(r) && Coherent(r, u) && SidesFresh(r)
    ensures SidesApart(r)
  {
    forall e | 0 <= e < |r.others| && e < |r.clades| && r.others[e] in r.clades
      ensures r.others[e] == r.clades[e]
    {
      var f := Find(r.clades, r.others[e]);
      if f < e {
        assert false;
      } else if e < f {
        calc {
          multiset(r.clades[e]);
          (multiset(r.clades[e]) + multiset(r.others[e])) - multiset(r.others[e]);
          u - multiset(r.clades[f]);
          (multiset(r.clades[f]) + multiset(r.others[f])) - multiset(r.clades[f]);
          multiset(r.others[f]);
        }
        SortedUnique(r.clades[e], r.others[f]);
        assert false;
      }
    }
  }

  /** An edgewise step keeps the sides fresh. */
  lemma EdgewiseAddedKeepsFresh(r: Registry, seen: seq<nat>, clade: seq<int>, other: seq<int>, missing: seq<int>)
    requires WellFormed(r) && Sorted(clade) && Sorted(other) && InRange(seen, |r.clades|)
    requires SidesFresh(r)
    ensures SidesFresh(EdgewiseAdded(r, seen, clade, other, missing).0)
  {
    var r2 := EdgewiseAdded(r, seen, clade, other, missing).0;
    if clade !in r.clades && other !in r.clades {
      forall e | 0 <= e < |r2.others| && e < |r2.clades| ensures r2.others[e] !in r2.clades[..e] {
        if e < |r.clades| {
          assert r2.clades[..e] == r.clades[..e] && r2.others[e] == r.others[e];
        } else {
          assert r2.clades[..e] == r.clades;
        }
      }
    }
  }

  lemma EdgewiseStepKeepsFresh(run: Run, t: Tree, r: Registry, seen: seq<nat>, n: Node)
    requires run.edgewise && WellFormed(r) && InRange(seen, |r.clades|) && SidesFresh(r)
    ensures SidesFresh(NodeStep(run, t, r, seen, n).0)
  {
    if Registers(run, t, n) {
      EdgewiseAddedKeepsFresh(r, seen, Clade(run.ids, n.leafNames), Complement(run.ids, t.leaves, n.leafNames),
                              NotIncluded(run, t));
    }
  }

  /** Registering a tree's first k nodes edgewise keeps the sides fresh. */
  lemma EdgewiseNodesKeepFresh(run: Run, t: Tree, r: Registry, k: nat)
    requires run.edgewise && WellFormed(r) && k <= |t.internals| && SidesFresh(r)
    ensures SidesFresh(NodesRegistered(run, t, r, k).0)
  {
    var inv := (run1: Run, t1: Tree, r1: Registry, seen: seq<nat>) => run1.edgewise ==> SidesFresh(r1);
    forall run1: Run, t1: Tree, r1: Registry, seen: seq<nat>, n: Node
      | WellFormed(r1) && InRange(seen, |r1.clades|) && inv(run1, t1, r1, seen)
      ensures inv(run1, t1, NodeStep(run1, t1, r1, seen, n).0, NodeStep(run1, t1, r1, seen, n).1)
    {
      if run1.edgewise {
        EdgewiseStepKeepsFresh(run1, t1, r1, seen, n);
      }
    }
    NodesRegisteredPreserve(run, t, r, k, inv);
  }

  /** Edgewise registration of any forest keeps the sides fresh. */
  lemma {:induction false} EdgewiseForestKeepsFresh(run: Run, trees: seq<Tree>)
    requires run.edgewise
    ensures SidesFresh(ForestRegistered(run, Empty, trees))
  {
    if trees != [] {
      var init := trees[..|trees| - 1];
      var t := trees[|trees| - 1];
      EdgewiseForestKeepsFresh(run, init);
      EdgewiseNodesKeepFresh(run, t, ForestRegistered(run, Empty, init), |t.internals|);
    }
  }

  /**
   * Edgewise, over a forest whose trees hold the same taxa, either side of
   * every registered edge leads to that edge's entry.
   */
  lemma EdgewiseForestOrientations(run: Run, trees: seq<Tree>, e: nat)
    requires run.edgewise
    requires forall i :: 0 <= i < |trees| ==> ValidTree(trees[i])
    requires SameTaxa(trees)
    requires e < |ForestRegistered(run, Empty, trees).clades|
    ensures var r := ForestRegistered(run, Empty, trees);
            EdgewiseIndex(r, r.clades[e], r.others[e]) == e && EdgewiseIndex(r, r.others[e], r.clades[e]) == e
  {
    var r := ForestRegistered(run, Empty, trees);
    assert trees != [];
    EdgewiseForestKeepsFresh(run, trees);
    SameTaxaForestCoherent(run, trees, |trees|);
    assert trees[..|trees|] == trees;
    FreshSidesApart(r, TreeIds(run, trees[0]));
    EitherOrientationSameEntry(r, e);
  }

  /**
   * During edgewise registration of one tree, an entry that existed before
   * has gained one count exactly when it is listed as seen, and an entry the
   * tree added has count one and is listed as seen.
   */
  predicate CountedOnce(r0: Registry, res: (Registry, seq<nat>)) {
    var (r, seen) := res;
    && |r0.clades| <= |r.clades| && |r.counts| == |r.clades| && |r0.counts| == |r0.clades|
    && forall e :: 0 <= e < |r.clades| ==>
         r.counts[e] == (if e < |r0.clades| then r0.counts[e] else 0) + (if e in seen then 1 else 0)
  }

  lemma EdgewiseStepCountedOnce(run: Run, t: Tree, r0: Registry, r: Registry, seen: seq<nat>, n: Node)
    requires run.edgewise && WellFormed(r) && InRange(seen, |r.clades|)
    requires CountedOnce(r0, (r, seen))
    ensures var res := NodeStep(run, t, r, seen, n);
            CountedOnce(r0, res)
  {
    if !Skipped(run, t, n) {
      var clade := Clade(run.ids, n.leafNames);
      var other := Complement(run.ids, t.leaves, n.leafNames);
      if |clade| >= 2 && |other| >= 2 {
        EdgewiseAddedCountedOnce(r0, r, seen, clade, other, NotIncluded(run, t));
      }
    }
  }

  lemma EdgewiseAddedCountedOnce(r0: Registry, r: Registry, seen: seq<nat>, clade: seq<int>, other: seq<int>, missing: seq<int>)
    requires WellFormed(r) && InRange(seen, |r.clades|) && Sorted(clade) && Sorted(other)
    requires CountedOnce(r0, (r, seen))
    ensures var res := EdgewiseAdded(r, seen, clade, other, missing);
            CountedOnce(r0, res)
  {
    var res := EdgewiseAdded(r, seen, clade, other, missing);
    if clade !in r.clades && other !in r.clades {
      forall e | 0 <= e < |res.0.clades|
        ensures res.0.counts[e] == (if e < |r0.clades| then r0.counts[e] else 0) + (if e in res.1 then 1 else 0)
      {
        if e < |r.clades| {
          assert e in res.1 <==> e in seen;
        } else {
          assert e !in seen;
        }
      }
    } else {
      var k := EdgewiseIndex(r, clade, other);
      if k !in seen {
        forall e | 0 <= e < |res.0.clades|
          ensures res.0.counts[e] == (if e < |r0.clades| then r0.counts[e] else 0) + (if e in res.1 then 1 else 0)
        {
          assert e in res.1 <==> e in seen || e == k;
        }
      }
    }
  }

  lemma EdgewiseNodesCountedOnce(run: Run, t: Tree, r: Registry, k: nat)
    requires run.edgewise && WellFormed(r) && k <= |t.internals|
    ensures CountedOnce(r, NodesRegistered(run, t, r, k))
  {
    var inv := (run1: Run, t1: Tree, r1: Registry, seen: seq<nat>) => run1.edgewise ==> CountedOnce(r, (r1, seen));
    forall run1: Run, t1: Tree, r1: Registry, seen: seq<nat>, n: Node
      | WellFormed(r1) && InRange(seen, |r1.clades|) && inv(run1, t1, r1, seen)
      ensures inv(run1, t1, NodeStep(run1, t1, r1, seen, n).0, NodeStep(run1, t1, r1, seen, n).1)
    {
      if run1.edgewise {
        EdgewiseStepCountedOnce(run1, t1, r, r1, seen, n);
      }
    }
    NodesRegisteredPreserve(run, t, r, k, inv);
  }

  /** In edgewise mode a tree adds at most one count to any entry. */
  lemma EdgewiseAtMostOncePerTree(run: Run, r: Registry, t: Tree)
    requires run.edgewise && WellFormed(r)
    ensures var r2 := TreeRegistered(run, r, t);
            && (forall e :: 0 <= e < |r.clades| ==> r.counts[e] <= r2.counts[e] <= r.counts[e] + 1)
            && (forall e :: |r.clades| <= e < |r2.clades| ==> r2.counts[e] == 1)
  {
    EdgewiseNodesCountedOnce(run, t, r, |t.internals|);
    var res := NodesRegistered(run, t, r, |t.internals|);
    var r2 := res.0;
    forall e | |r.clades| <= e < |r2.clades| ensures r2.counts[e] == 1 {
      assert r2.counts[e] >= 1;
      assert r2.counts[e] == if e in res.1 then 1 else 0;
    }
  }

  predicate CountsAtMost(r: Registry, bound: nat) {
    forall e :: 0 <= e < |r.counts| ==> r.counts[e] <= bound
  }

  /** Hence in edgewise mode no entry is counted more often than there are trees. */
  lemma {:induction false} EdgewiseCountsBoundedByTrees(run: Run, trees: seq<Tree>)
    requires run.edgewise
    ensures CountsAtMost(ForestRegistered(run, Empty, trees), |trees|)
  {
    if trees != [] {
      var init := trees[..|trees| - 1];
      EdgewiseCountsBoundedByTrees(run, init);
      var prev := ForestRegistered(run, Empty, init);
      var r := TreeRegistered(run, prev, trees[|trees| - 1]);
      assert ForestRegistered(run, Empty, trees) == r;
      EdgewiseAtMostOncePerTree(run, prev, trees[|trees| - 1]);
      forall e | 0 <= e < |r.counts| ensures r.counts[e] <= |trees| {
        if e < |prev.counts| {
          assert prev.counts[e] <= |init|;
        }
      }
    }
  }

  /** An edgewise step adds at most one count. */
  lemma EdgewiseAddedAtMostOneCount(r: Registry, seen: seq<nat>, clade: seq<int>, other: seq<int>, missing: seq<int>)
    requires WellFormed(r) && Sorted(clade) && Sorted(other) && InRange(seen, |r.clades|)
    ensures var r2 := EdgewiseAdded(r, seen, clade, other, missing).0;
            Sum(r.counts) <= Sum(r2.counts) <= Sum(r.counts) + 1
  {
    if clade !in r.clades && other !in r.clades {
      SumAppend(r.counts, 1);
    } else {
      var k := EdgewiseIndex(r, clade, other);
      if k !in seen {
        SumBump(r.counts, k);
      }
    }
  }

  lemma EdgewiseNextNodeCounts(run: Run, t: Tree, r: Registry, j: nat)
    requires run.edgewise && WellFormed(r) && j < |t.internals|
    requires Sum(NodesRegistered(run, t, r, j).0.counts) <= Sum(r.counts) + TreeRegistrations(run, t, j)
    ensures Sum(NodesRegistered(run, t, r, j + 1).0.counts) <= Sum(r.counts) + TreeRegistrations(run, t, j + 1)
  {
    var prev := NodesRegistered(run, t, r, j);
    NodesRegisteredNext(run, t, r, j);
    var n := t.internals[j];
    if Registers(run, t, n) {
      EdgewiseAddedAtMostOneCount(prev.0, prev.1, Clade(run.ids, n.leafNames),
                                  Complement(run.ids, t.leaves, n.leafNames), NotIncluded(run, t));
    }
  }

  /** Once the first j nodes add at most one count per registration, so do all the tree's nodes. */
  lemma {:induction false} EdgewiseNodesCount(run: Run, t: Tree, r: Registry, j: nat)
    requires run.edgewise && WellFormed(r) && j <= |t.internals|
    requires Sum(NodesRegistered(run, t, r, j).0.counts) <= Sum(r.counts) + TreeRegistrations(run, t, j)
    ensures Sum(TreeRegistered(run, r, t).counts) <= Sum(r.counts) + TreeRegistrations(run, t, |t.internals|)
    decreases |t.internals| - j
  {
    if j < |t.internals| {
      EdgewiseNextNodeCounts(run, t, r, j);
      EdgewiseNodesCount(run, t, r, j + 1);
    }
  }

  /**
   * Edgewise, the counts over the forest add up to at most one per
   * registered edge (an edge seen again in the same tree adds nothing), so
   * there are never more entries than edges registered.
   */
  lemma {:induction false} EdgewiseForestCounts(run: Run, trees: seq<Tree>)
    requires run.edgewise
    ensures var r := ForestRegistered(run, Empty, trees);
            |r.clades| <= Sum(r.counts) <= ForestRegistrations(run, trees)
  {
    if trees != [] {
      var init := trees[..|trees| - 1];
      var t := trees[|trees| - 1];
      EdgewiseForestCounts(run, init);
      var prev := ForestRegistered(run, Empty, init);
      EdgewiseNodesCount(run, t, prev, 0);
    }
    EntriesBoundedByCounts(ForestRegistered(run, Empty, trees));
  }

  // ---------------------------------------------------------------------
  // The registry as the source keeps it: four vectors updated in place

  class BipartRegistry {
    var clades: seq<seq<int>>
    var others: seq<seq<int>>
    var missing: seq<seq<int>>
    var counts: seq<nat>

    function Model(): Registry
      reads this
    {
      Registry(clades, others, missing, counts)
    }

    ghost predicate Valid()
      reads this
    {
      WellFormed(Model())
    }

    constructor ()
      ensures Valid() && Model() == Empty
    {
      clades, others, missing, counts := [], [], [], [];
    }

    method AddNodewise(clade: seq<int>, other: seq<int>, missingIds: seq<int>)
      requires Valid() && Sorted(clade) && Sorted(other)
      modifies this
      ensures Valid() && Model() == NodewiseAdded(old(Model()), clade, other, missingIds)
    {
      ghost var r0 := Model();
      if clade !in clades && other !in others {
        clades := clades + [clade];
        others := others + [other];
        missing := missing + [missingIds];
        counts := counts + [1];
        assert Model() == Append(r0, clade, other, missingIds);
      } else {
        var index := if clade in clades then Find(clades, clade) else Find(others, other);
        assert index == NodewiseIndex(r0, clade, other);
        counts := counts[index := counts[index] + 1];
        assert Model() == Bump(r0, index);
      }
    }

    method AddEdgewise(clade: seq<int>, other: seq<int>, missingIds: seq<int>, seen: seq<nat>)
      returns (seen2: seq<nat>)
      requires Valid() && Sorted(clade) && Sorted(other) && InRange(seen, |clades|)
      modifies this
      ensures Valid() && (Model(), seen2) == EdgewiseAdded(old(Model()), seen, clade, other, missingIds)
    {
      ghost var r0 := Model();
      if clade !in clades && other !in clades {
        clades := clades + [clade];
        others := others + [other];
        missing := missing + [missingIds];
        counts := counts + [1];
        seen2 := seen + [|counts| - 1];
        assert Model() == Append(r0, clade, other, missingIds);
      } else {
        CountOfDistinct(clades, clade);
        var index := if Count(clades, clade) == 1 then Find(clades, clade) else Find(clades, other);
        assert index == EdgewiseIndex(r0, clade, other);
        if index !in seen {
          counts := counts[index := counts[index] + 1];
          seen2 := seen + [index];
          assert Model() == Bump(r0, index);
        } else {
          seen2 := seen;
        }
      }
    }

    /** Registers one internal node of tree t; missingIds are the ids of the names t lacks. */
    method RegisterNode(run: Run, t: Tree, n: Node, missingIds: seq<int>, seen: seq<nat>)
      returns (seen2: seq<nat>)
      requires Valid() && InRange(seen, |clades|) && missingIds == NotIncluded(run, t)
      modifies this
      ensures Valid() && (Model(), seen2) == NodeStep(run, t, old(Model()), seen, n)
    {
      seen2 := seen;
      //skip the root, and edges below the cutoff
      if |n.leafNames| == |t.leaves| || BelowCutoff(run, n) {
        return;
      }
      var clade := Clade(run.ids, n.leafNames);
      var other := Complement(run.ids, t.leaves, n.leafNames);
      if !run.edgewise {
        AddNodewise(clade, other, missingIds);
        if t.rootChildren > 2 && n.parentIsRoot {
          AddNodewise(other, clade, missingIds);
        }
      } else if |clade| >= 2 && |other| >= 2 {
        seen2 := AddEdgewise(clade, other, missingIds, seen);
      }
    }

    /** Registers the internal nodes of one tree, in the tree's internal-node order. */
    method RegisterTree(run: Run, t: Tree)
      requires Valid()
      modifies this
      ensures Valid() && Model() == TreeRegistered(run, old(Model()), t)
    {
      ghost var r0 := Model();
      var missingIds := NotIncluded(run, t);
      var seen: seq<nat> := [];
      var j := 0;
      while j < |t.internals|
        invariant 0 <= j <= |t.internals|
        invariant Valid() && InRange(seen, |clades|)
        invariant (Model(), seen) == NodesRegistered(run, t, r0, j)
      {
        seen := RegisterNode(run, t, t.internals[j], missingIds, seen);
        NodesRegisteredNext(run, t, r0, j);
        j := j + 1;
      }
    }

    /** Registers every tree of the forest in order. */
    method RegisterForest(run: Run, trees: seq<Tree>)
      requires Valid()
      modifies this
      ensures Valid() && Model() == ForestRegistered(run, old(Model()), trees)
    {
      var i := 0;
      while i < |trees|
        invariant 0 <= i <= |trees|
        invariant Valid()
        invariant Model() == ForestRegistered(run, old(Model()), trees[..i])
      {
        assert trees[..i + 1][..i] == trees[..i];
        RegisterTree(run, trees[i]);
        i := i + 1;
      }
      assert trees[..i] == trees;
    }
  }
}
