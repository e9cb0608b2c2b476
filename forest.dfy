/**
 * The trees the bipartition analysis reads, given as plain data: the
 * parser that builds them is not part of this model. For each tree the
 * analysis needs the names at its external nodes (in the tree's own
 * external-node order), the number of children of its root, and its
 * internal nodes (the root among them) in the tree's internal-node order.
 * For each internal node it needs the names of the leaves below it, whether
 * it is the root, whether its parent is the root, and its name (the label that may hold a support value).
 */
module Forest {
  import opened Clades

  datatype Node = Node(leafNames: seq<string>, isRoot: bool, parentIsRoot: bool, name: string)

  datatype Tree = Tree(leaves: seq<string>, rootChildren: nat, internals: seq<Node>)

  /**
   * What a parsed tree guarantees: distinct leaf names, and every internal
   * node sits over a non-empty set of distinct leaves of the tree.
   */
  predicate ValidTree(t: Tree) {
    && NoDup(t.leaves)
    && forall j :: 0 <= j < |t.internals| ==>
         var n := t.internals[j];
         n.leafNames != [] && NoDup(n.leafNames) && Elems(n.leafNames) <= Elems(t.leaves)
  }

  /** A root with more than two children marks the tree as unrooted. */
  predicate Unrooted(t: Tree) {
    t.rootChildren > 2
  }

  /**
   * The settings of one run and the taxon index built from the forest.
   * `strtod` stands for the C library's reading of a numeric prefix of a
   * label (0.0 when there is none).
   */
  datatype Run = Run(
    names: seq<string>,
    ids: map<string, int>,
    edgewise: bool,
    cutoff: bool,
    cutnum: real,
    strtod: string -> real)

  /** With a cutoff set, an edge whose name is empty or reads below the cutoff is skipped. */
  predicate BelowCutoff(run: Run, n: Node) {
    run.cutoff && (|n.name| < 1 || run.strtod(n.name) < run.cutnum)
  }
}
