/**
 * Labelling of the map tree: every internal node other than the root is
 * named with the frequency, among the input trees, of the entry its clade
 * matches (its count divided by the number of trees). The lookup is the
 * one the presence matrix uses: node-wise the clade's entry; edgewise the
 * clade's entry when it is listed exactly once, else the entry whose other
 * side it is.
 */
module MapTree {
  import opened Wrappers
  import opened Clades
  import opened Forest
  import opened Bipartitions
  import opened Presence

  /** The entry a map-tree clade is looked up at (the number of entries when it is absent). */
  function MapIndex(run: Run, r: Registry, clade: seq<int>): nat {
    ColumnOf(run, r, clade)
  }

  /**
   * The value read for a non-root node as the code is written: every lookup
   * is taken as found, so a clade that matches no entry reads the count one
   * past the end. None stands for that out-of-range read.
   */
  function MapValueAsWritten(run: Run, r: Registry, numTrees: nat, clade: seq<int>): Option<real>
    requires numTrees > 0
  {
    var e := MapIndex(run, r, clade);
    if e < |r.counts| then Some(r.counts[e] as real / numTrees as real) else None
  }

  /**
   * The label of an internal node of the map tree: none for the root (its
   * name is left as it is), the frequency of the matched entry, or 0 when
   * the clade matches no entry.
   */
  function MapLabel(run: Run, r: Registry, numTrees: nat, n: Node): Option<real>
    requires numTrees > 0 || |r.counts| == 0
  {
    if n.isRoot then None
    else
      var e := MapIndex(run, r, Clade(run.ids, n.leafNames));
      if e < |r.counts| then Some(r.counts[e] as real / numTrees as real) else Some(0.0)
  }

  lemma DivBounds(c: nat, n: nat)
    requires 0 < n && c <= n
    ensures 0.0 <= c as real / n as real <= 1.0
    ensures c > 0 ==> c as real / n as real > 0.0
  {
    var q := c as real / n as real;
    assert q * n as real == c as real;
  }

  /** Only the root goes unlabelled. */
  lemma OnlyRootUnlabelled(run: Run, r: Registry, numTrees: nat, n: Node)
    requires numTrees > 0 || |r.counts| == 0
    ensures MapLabel(run, r, numTrees, n).None? <==> n.isRoot
  {
  }

  /**
   * When no entry is counted more often than there are trees (as edgewise
   * registration guarantees), every label is a frequency between 0 and 1.
   */
  lemma LabelsAreFrequencies(run: Run, r: Registry, numTrees: nat, n: Node)
    requires numTrees > 0 && CountsAtMost(r, numTrees)
    requires !n.isRoot
    ensures 0.0 <= MapLabel(run, r, numTrees, n).value <= 1.0
  {
    var e := MapIndex(run, r, Clade(run.ids, n.leafNames));
    if e < |r.counts| {
      DivBounds(r.counts[e], numTrees);
    }
  }

  /**
   * A label is positive exactly when the node's clade is a registered clade
   * or, edgewise, the other side of a registered edge.
   */
  lemma LabelPositiveIffRegistered(run: Run, r: Registry, numTrees: nat, n: Node)
    requires WellFormed(r) && numTrees > 0
    requires !n.isRoot
    ensures var clade := Clade(run.ids, n.leafNames);
            MapLabel(run, r, numTrees, n).value > 0.0 <==>
            clade in r.clades || (run.edgewise && clade in r.others)
  {
    var clade := Clade(run.ids, n.leafNames);
    var e := MapIndex(run, r, clade);
    if run.edgewise {
      CountOfDistinct(r.clades, clade);
    }
    if e < |r.counts| {
      DivPositive(r.counts[e], numTrees);
    }
  }

  lemma DivPositive(c: nat, n: nat)
    requires 0 < n && 0 < c
    ensures c as real / n as real > 0.0
  {
    var q := c as real / n as real;
    assert q * n as real == c as real;
  }

  /** Wherever the code as written reads in range, it gives the label. */
  lemma AsWrittenAgreesInRange(run: Run, r: Registry, numTrees: nat, n: Node)
    requires numTrees > 0 && !n.isRoot
    requires MapValueAsWritten(run, r, numTrees, Clade(run.ids, n.leafNames)).Some?
    ensures MapLabel(run, r, numTrees, n) == MapValueAsWritten(run, r, numTrees, Clade(run.ids, n.leafNames))
  {
  }

  /**
   * With no entries registered (a single tree with no internal node but the
   * root, say), any non-root node of the map tree makes the code as written
   * read past the end of the counts, while the intended label is 0.
   */
  lemma MapLookupOverruns()
    ensures var run := Run(["A", "B", "C"], map["A" := 0, "B" := 1, "C" := 2], false, false, 0.0, s => 0.0);
            var n := Node(["A", "B"], false, true, "");
            && MapValueAsWritten(run, Empty, 1, Clade(run.ids, n.leafNames)).None?
            && MapLabel(run, Empty, 1, n) == Some(0.0)
  {
  }

  /**
   * Names every internal node of the map tree in order, skipping the root,
   * with the frequency of the entry its clade matches.
   */
  method RelabelMapTree(run: Run, r: Registry, numTrees: nat, t: Tree) returns (labels: seq<Option<real>>)
    requires numTrees > 0 || |r.counts| == 0
    ensures |labels| == |t.internals|
    ensures forall k :: 0 <= k < |t.internals| ==> labels[k] == MapLabel(run, r, numTrees, t.internals[k])
  {
    labels := [];
    var i := 0;
    while i < |t.internals|
      invariant 0 <= i <= |t.internals| && |labels| == i
      invariant forall k :: 0 <= k < i ==> labels[k] == MapLabel(run, r, numTrees, t.internals[k])
    {
      var n := t.internals[i];
      if n.isRoot {
        labels := labels + [None];
      } else {
        var clade := Clade(run.ids, n.leafNames);
        var index := MapIndex(run, r, clade);
        if index < |r.counts| {
          labels := labels + [Some(r.counts[index] as real / numTrees as real)];
        } else {
          labels := labels + [Some(0.0)];
        }
      }
      i := i + 1;
    }
  }
}
