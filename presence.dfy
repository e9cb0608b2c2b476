/**
 * The matrices built from the registry: the presence matrix (one row per
 * tree, one column per registered entry, plus a column for the root in
 * node-wise mode), the selection of trees with distinct rows, and the
 * logical matrix (one row per entry, one column per taxon name).
 */
module Presence {
  import opened Clades
  import opened Forest
  import opened Bipartitions

  /** The number of columns: one per entry, plus one for the root in node-wise mode. */
  function Width(run: Run, r: Registry): nat {
    if run.edgewise then |r.clades| else |r.clades| + 1
  }

  /**
   * The column of an internal node's clade. Node-wise it is the clade's
   * entry, or the root column when the clade is not a registered clade;
   * edgewise it is the clade's entry, or else the entry whose other side
   * the clade is.
   */
  function ColumnOf(run: Run, r: Registry, clade: seq<int>): nat {
    if run.edgewise then
      if Count(r.clades, clade) == 1 then Find(r.clades, clade) else Find(r.others, clade)
    else Find(r.clades, clade)
  }

  /**
   * Node-wise, the column holds the clade, or is the root column when the
   * clade is not registered; edgewise, a clade listed once has its own
   * column, and otherwise the column is the entry whose other side it is,
   * if there is one.
   */
  lemma ColumnOfFinds(run: Run, r: Registry, clade: seq<int>)
    ensures var c := ColumnOf(run, r, clade);
            && (!run.edgewise ==> c <= |r.clades| && (c < |r.clades| <==> clade in r.clades))
            && ((!run.edgewise || Count(r.clades, clade) == 1) && c < |r.clades| ==> r.clades[c] == clade)
            && (run.edgewise && Count(r.clades, clade) == 1 ==> c < |r.clades|)
            && (run.edgewise && Count(r.clades, clade) != 1 ==> (c < |r.others| <==> clade in r.others))
            && (run.edgewise && Count(r.clades, clade) != 1 && c < |r.others| ==> r.others[c] == clade)
  {
  }

  /**
   * The column of the other orientation of an edge at the root of an
   * unrooted tree: the entry of the other side, or, when that lookup
   * returns the row length, the entry of the clade itself.
   */
  function MirrorColumnOf(r: Registry, width: nat, clade: seq<int>, other: seq<int>): nat {
    var x := Find(r.clades, other);
    if x == width then Find(r.clades, clade) else x
  }

  /** Whether the matrix loop marks anything for node n. */
  predicate Marks(run: Run, n: Node) {
    !BelowCutoff(run, n) && !(run.edgewise && n.isRoot)
  }

  /** The columns marked for a node with the given sides; mirror tells whether the node is an edge at the root of an unrooted tree. */
  function Columns(run: Run, r: Registry, mirror: bool, clade: seq<int>, other: seq<int>, side: seq<int>): seq<nat> {
    var c := ColumnOf(run, r, clade);
    if mirror then [c, MirrorColumnOf(r, Width(run, r), side, other)] else [c]
  }

  /** The columns marked for node n of tree t. */
  function NodeColumns(run: Run, r: Registry, t: Tree, n: Node): seq<nat> {
    if !Marks(run, n) then []
    else
      Columns(run, r, Unrooted(t) && n.parentIsRoot, Clade(run.ids, n.leafNames),
              Complement(run.ids, t.leaves, n.leafNames), Clade(run.ids, Dedup(n.leafNames)))
  }

  /** Marking one column sets it when it lies inside the row and changes nothing otherwise. */
  lemma MarkedOne(row: seq<int>, a: nat)
    ensures Marked(row, [a]) == if a < |row| then row[a := 1] else row
  {
  }

  /** Marking two columns is marking one after the other. */
  lemma MarkedTwo(row: seq<int>, a: nat, b: nat)
    ensures Marked(row, [a, b]) == Marked(Marked(row, [a]), [b])
  {
  }

  /** Every column a node of t marks lies inside the row. */
  predicate ColumnsInRange(run: Run, r: Registry, t: Tree) {
    forall j, c :: 0 <= j < |t.internals| && c in NodeColumns(run, r, t, t.internals[j]) ==> c < Width(run, r)
  }

  /** In node-wise mode every lookup lands inside the row: a miss lands in the root column. */
  lemma NodewiseColumnsInRange(run: Run, r: Registry, t: Tree)
    requires !run.edgewise
    ensures ColumnsInRange(run, r, t)
    ensures forall clade :: clade !in r.clades ==> ColumnOf(run, r, clade) == |r.clades| == Width(run, r) - 1
  {
    forall j | 0 <= j < |t.internals|
      ensures forall c :: c in NodeColumns(run, r, t, t.internals[j]) ==> c < Width(run, r)
    {
      var n := t.internals[j];
      if Marks(run, n) {
        NodewiseColumnsBounded(run, r, Unrooted(t) && n.parentIsRoot, Clade(run.ids, n.leafNames),
                               Complement(run.ids, t.leaves, n.leafNames), Clade(run.ids, Dedup(n.leafNames)));
      }
    }
  }

  lemma NodewiseColumnsBounded(run: Run, r: Registry, mirror: bool, clade: seq<int>, other: seq<int>, side: seq<int>)
    requires !run.edgewise
    ensures forall c :: c in Columns(run, r, mirror, clade, other, side) ==> c < Width(run, r)
  {
    var x := Find(r.clades, other);
    assert x <= |r.clades| < Width(run, r);
  }

  /**
   * In node-wise mode a row is one longer than the clade list, so the
   * search for the other side never returns the row length: the fallback
   * to the clade itself is never taken, and an other side that is not a
   * registered clade marks the root column.
   */
  lemma NodewiseMirrorNeverFallsBack(run: Run, r: Registry, side: seq<int>, other: seq<int>)
    requires !run.edgewise
    ensures MirrorColumnOf(r, Width(run, r), side, other) == Find(r.clades, other)
    ensures other !in r.clades ==> MirrorColumnOf(r, Width(run, r), side, other) == |r.clades|
  {
  }

  /**
   * An edgewise lookup can miss: when no edge was registered (every edge had
   * a side with fewer than two taxa, as in a rooted tree over three taxa),
   * every edge the matrix loop marks is looked up one past the end of the
   * row, where the code as written stores its 1. MarkNode leaves such a
   * column unwritten.
   */
  lemma EdgewiseLookupCanMiss(run: Run, t: Tree, j: nat)
    requires run.edgewise && j < |t.internals| && Marks(run, t.internals[j])
    ensures !ColumnsInRange(run, Empty, t)
  {
    var n := t.internals[j];
    var c := ColumnOf(run, Empty, Clade(run.ids, n.leafNames));
    assert c == 0 && Width(run, Empty) == 0;
    assert c in NodeColumns(run, Empty, t, n);
  }

  /** Column c is marked by one of the first k internal nodes of t. */
  predicate MarkedBy(run: Run, r: Registry, t: Tree, k: nat, c: nat)
    requires k <= |t.internals|
  {
    exists j :: 0 <= j < k && c in NodeColumns(run, r, t, t.internals[j])
  }

  /** The row after the first k internal nodes: 1 exactly in the columns they mark. */
  function RowUpTo(run: Run, r: Registry, t: Tree, k: nat): (row: seq<int>)
    requires k <= |t.internals|
    ensures |row| == Width(run, r)
  {
    seq(Width(run, r), c requires 0 <= c => if MarkedBy(run, r, t, k, c) then 1 else 0)
  }

  /** The presence row of tree t. */
  function Row(run: Run, r: Registry, t: Tree): (row: seq<int>)
    ensures |row| == Width(run, r)
  {
    RowUpTo(run, r, t, |t.internals|)
  }

  /** Sets the given columns of a row to 1. */
  function Marked(row: seq<int>, cols: seq<nat>): (r: seq<int>)
    ensures |r| == |row|
  {
    seq(|row|, c requires 0 <= c < |row| => if c in cols then 1 else row[c])
  }

  lemma RowStep(run: Run, r: Registry, t: Tree, k: nat)
    requires k < |t.internals|
    ensures RowUpTo(run, r, t, k + 1) == Marked(RowUpTo(run, r, t, k), NodeColumns(run, r, t, t.internals[k]))
  {
    var cols := NodeColumns(run, r, t, t.internals[k]);
    forall c | 0 <= c < Width(run, r)
      ensures MarkedBy(run, r, t, k + 1, c) <==> MarkedBy(run, r, t, k, c) || c in cols
    {
      if MarkedBy(run, r, t, k + 1, c) && c !in cols {
        var j :| 0 <= j < k + 1 && c in NodeColumns(run, r, t, t.internals[j]);
        assert j < k;
      }
    }
  }

  /**
   * Marks the columns of one internal node: the column of its clade, and
   * for an edge at the root of an unrooted tree also the column of the
   * other orientation. A column past the end of the row is not written.
   */
  method MarkNode(run: Run, r: Registry, t: Tree, n: Node, row: seq<int>) returns (row2: seq<int>)
    requires |row| == Width(run, r)
    ensures row2 == Marked(row, NodeColumns(run, r, t, n))
  {
    //edges below the cutoff, and in edgewise mode the root, mark nothing
    if BelowCutoff(run, n) || (run.edgewise && n.isRoot) {
      assert row == Marked(row, []);
      return row;
    }
    var clade := Clade(run.ids, n.leafNames);
    var other := Complement(run.ids, t.leaves, n.leafNames);
    var side := Clade(run.ids, Dedup(n.leafNames));
    var mirror := t.rootChildren > 2 && n.parentIsRoot;
    var index;
    if run.edgewise {
      if Count(r.clades, clade) == 1 {
        index := Find(r.clades, clade);
      } else {
        index := Find(r.others, clade);
      }
    } else {
      index := Find(r.clades, clade);
    }
    MarkedOne(row, index);
    row2 := row;
    if index < |row2| {
      row2 := row2[index := 1];
    }
    if mirror {
      var x := Find(r.clades, other);
      if x == |row2| {
        x := Find(r.clades, side);
      }
      assert NodeColumns(run, r, t, n) == [index, x];
      MarkedOne(row2, x);
      MarkedTwo(row, index, x);
      if x < |row2| {
        row2 := row2[x := 1];
      }
    } else {
      assert NodeColumns(run, r, t, n) == [index];
    }
  }

  /** Builds the presence row of one tree from its internal nodes in order. */
  method BuildRow(run: Run, r: Registry, t: Tree) returns (row: seq<int>)
    ensures row == Row(run, r, t)
  {
    row := seq(Width(run, r), c => 0);
    assert row == RowUpTo(run, r, t, 0);
    var j := 0;
    while j < |t.internals|
      invariant 0 <= j <= |t.internals|
      invariant row == RowUpTo(run, r, t, j)
    {
      RowStep(run, r, t, j);
      row := MarkNode(run, r, t, t.internals[j], row);
      j := j + 1;
    }
  }

  /** The presence matrix: one row per tree. */
  function Matrix(run: Run, r: Registry, trees: seq<Tree>): (m: seq<seq<int>>)
    ensures |m| == |trees|
    ensures forall i :: 0 <= i < |trees| ==> |m[i]| == Width(run, r)
  {
    seq(|trees|, i requires 0 <= i < |trees| => Row(run, r, trees[i]))
  }

  method BuildMatrix(run: Run, r: Registry, trees: seq<Tree>) returns (m: seq<seq<int>>)
    ensures m == Matrix(run, r, trees)
  {
    m := [];
    var i := 0;
    while i < |trees|
      invariant 0 <= i <= |trees|
      invariant m == Matrix(run, r, trees[..i])
    {
      var row := BuildRow(run, r, trees[i]);
      m := m + [row];
      i := i + 1;
    }
    assert trees[..i] == trees;
  }

  /**
   * In node-wise mode a tree's row marks the entry of every clade of an
   * internal node that the registry holds as a clade.
   */
  lemma RegisteredCladeIsMarked(run: Run, r: Registry, t: Tree, j: nat)
    requires !run.edgewise && j < |t.internals| && !BelowCutoff(run, t.internals[j])
    requires Clade(run.ids, t.internals[j].leafNames) in r.clades
    ensures var e := Find(r.clades, Clade(run.ids, t.internals[j].leafNames));
            e < |r.clades| && Row(run, r, t)[e] == 1
  {
    var e := Find(r.clades, Clade(run.ids, t.internals[j].leafNames));
    assert e in NodeColumns(run, r, t, t.internals[j]);
    assert MarkedBy(run, r, t, |t.internals|, e);
  }

  /** A row of zeros and ones. */
  predicate Binary(row: seq<int>) {
    forall c :: 0 <= c < |row| ==> row[c] == 0 || row[c] == 1
  }

  lemma RowsAreBinary(run: Run, r: Registry, t: Tree)
    ensures Binary(Row(run, r, t))
  {
  }

  /** The sum of column c over the rows of m. */
  function ColumnSum(m: seq<seq<int>>, c: nat): int
    requires forall i :: 0 <= i < |m| ==> c < |m[i]|
  {
    if m == [] then 0 else ColumnSum(m[..|m| - 1], c) + m[|m| - 1][c]
  }

  /**
   * Over a matrix of zeros and ones a column sums to the number of rows
   * exactly when every row holds the entry, and to zero exactly when none
   * does; it is never more than the number of rows.
   */
  lemma {:induction false} ColumnSumCounts(m: seq<seq<int>>, c: nat)
    requires forall i :: 0 <= i < |m| ==> c < |m[i]| && Binary(m[i])
    ensures 0 <= ColumnSum(m, c) <= |m|
    ensures ColumnSum(m, c) == |m| <==> forall i :: 0 <= i < |m| ==> m[i][c] == 1
    ensures ColumnSum(m, c) == 0 <==> forall i :: 0 <= i < |m| ==> m[i][c] == 0
  {
    if m != [] {
      var init := m[..|m| - 1];
      var last := m[|m| - 1];
      assert forall i :: 0 <= i < |init| ==> init[i] == m[i];
      ColumnSumCounts(init, c);
      assert Binary(last) && c < |last|;
      assert last[c] == 0 || last[c] == 1;
      if ColumnSum(m, c) == |m| {
        assert ColumnSum(init, c) == |init| && last[c] == 1;
      }
      if ColumnSum(m, c) == 0 {
        assert ColumnSum(init, c) == 0 && last[c] == 0;
      }
    }
  }

  /** The rows of m at the given positions. */
  function RowsAt(m: seq<seq<int>>, at: seq<nat>): set<seq<int>> {
    set k | 0 <= k < |at| && at[k] < |m| :: m[at[k]]
  }

  /**
   * The trees whose row has not occurred before, in order. Each listed tree
   * is the first with its row, and every tree's row is the row of a listed
   * tree.
   */
  method UniqueRows(m: seq<seq<int>>) returns (firsts: seq<nat>)
    ensures forall k, l :: 0 <= k < l < |firsts| ==> firsts[k] < firsts[l]
    ensures forall k :: 0 <= k < |firsts| ==>
              firsts[k] < |m| && forall i :: 0 <= i < firsts[k] ==> m[i] != m[firsts[k]]
    ensures forall i :: 0 <= i < |m| ==> m[i] in RowsAt(m, firsts)
  {
    var seen: set<seq<int>> := {};
    firsts := [];
    ghost var rep: seq<nat> := [];
    var i := 0;
    while i < |m|
      invariant 0 <= i <= |m| && |rep| == i
      invariant forall k, l :: 0 <= k < l < |firsts| ==> firsts[k] < firsts[l]
      invariant forall k :: 0 <= k < |firsts| ==> firsts[k] < i
      invariant forall k :: 0 <= k < |firsts| ==> forall p :: 0 <= p < firsts[k] ==> m[p] != m[firsts[k]]
      invariant forall p :: 0 <= p < i ==> rep[p] < |firsts| && firsts[rep[p]] <= p && m[firsts[rep[p]]] == m[p]
      invariant forall p :: 0 <= p < i ==> m[p] in seen
      invariant forall row :: row in seen ==> exists p :: 0 <= p < i && m[p] == row
    {
      if m[i] !in seen {
        rep := rep + [|firsts|];
        firsts := firsts + [i];
        seen := seen + {m[i]};
      } else {
        var p :| 0 <= p < i && m[p] == m[i];
        rep := rep + [rep[p]];
      }
      i := i + 1;
    }
    forall q | 0 <= q < |m| ensures m[q] in RowsAt(m, firsts) {
      assert m[firsts[rep[q]]] == m[q];
    }
  }

  /** The logical row of a clade: 1 for each name whose id the clade holds. */
  function LogicalRow(run: Run, clade: seq<int>): (row: seq<int>)
    ensures |row| == |run.names|
    ensures forall j :: 0 <= j < |run.names| ==> (row[j] == 1 <==> IdOf(run.ids, run.names[j]) in clade)
    ensures Binary(row)
  {
    seq(|run.names|, j requires 0 <= j < |run.names| => if IdOf(run.ids, run.names[j]) in clade then 1 else 0)
  }

  /** Builds the logical matrix: one row per entry, one column per taxon name. */
  method BuildLogical(run: Run, r: Registry) returns (lm: seq<seq<int>>)
    ensures |lm| == |r.clades|
    ensures forall i :: 0 <= i < |r.clades| ==> lm[i] == LogicalRow(run, r.clades[i])
  {
    lm := [];
    var i := 0;
    while i < |r.clades|
      invariant 0 <= i <= |r.clades|
      invariant |lm| == i
      invariant forall k :: 0 <= k < i ==> lm[k] == LogicalRow(run, r.clades[k])
    {
      var row := seq(|run.names|, j => 0);
      var j := 0;
      while j < |run.names|
        invariant 0 <= j <= |run.names| && |row| == |run.names|
        invariant forall q :: 0 <= q < j ==> row[q] == LogicalRow(run, r.clades[i])[q]
        invariant forall q :: j <= q < |run.names| ==> row[q] == 0
      {
        if IdOf(run.ids, run.names[j]) in r.clades[i] {
          row := row[j := 1];
        }
        j := j + 1;
      }
      lm := lm + [row];
      i := i + 1;
    }
  }

  /**
   * The logical matrix loses nothing: of two clades holding only ids of
   * names, equal logical rows mean the clades hold the same ids.
   */
  lemma LogicalRowsDetermineClades(run: Run, a: seq<int>, b: seq<int>)
    requires Elems(a) <= IdSet(run.ids, run.names) && Elems(b) <= IdSet(run.ids, run.names)
    requires LogicalRow(run, a) == LogicalRow(run, b)
    ensures Elems(a) == Elems(b)
  {
    forall v | v in a ensures v in b {
      assert v in Elems(a);
      var n :| n in run.names && IdOf(run.ids, n) == v;
      var j :| 0 <= j < |run.names| && run.names[j] == n;
      assert LogicalRow(run, a)[j] == 1;
    }
    forall v | v in b ensures v in a {
      assert v in Elems(b);
      var n :| n in run.names && IdOf(run.ids, n) == v;
      var j :| 0 <= j < |run.names| && run.names[j] == n;
      assert LogicalRow(run, b)[j] == 1;
    }
  }

  /**
   * Of two sorted clades without repeated ids (as when the tree's names
   * have distinct ids) holding only ids of names, equal logical rows mean
   * equal clades.
   */
  lemma LogicalRowsDetermineDistinctClades(run: Run, a: seq<int>, b: seq<int>)
    requires Sorted(a) && Sorted(b) && NoDup(a) && NoDup(b)
    requires Elems(a) <= IdSet(run.ids, run.names) && Elems(b) <= IdSet(run.ids, run.names)
    requires LogicalRow(run, a) == LogicalRow(run, b)
    ensures a == b
  {
    LogicalRowsDetermineClades(run, a, b);
    DistinctMultiset(a);
    DistinctMultiset(b);
    SortedUnique(a, b);
  }
}
