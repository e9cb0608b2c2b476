/**
 * The taxon index: every leaf name of the forest in order of first
 * sighting, and the id given to each. The id of a new name is its position
 * among the external nodes of the tree in which it is first seen, not its
 * position in the list of names, so names first seen in different trees
 * can share an id.
 */
module Taxa {
  import opened Clades
  import opened Forest

  /** The (name, external-node position) pairs of one tree, in order. */
  function Positions(leaves: seq<string>): (p: seq<(string, int)>)
    ensures |p| == |leaves|
    ensures forall k :: 0 <= k < |leaves| ==> p[k] == (leaves[k], k)
  {
    seq(|leaves|, k requires 0 <= k < |leaves| => (leaves[k], k))
  }

  /** The pairs of all trees, tree after tree: the order the index visits them in. */
  function Sightings(trees: seq<Tree>): seq<(string, int)> {
    if trees == [] then []
    else Sightings(trees[..|trees| - 1]) + Positions(trees[|trees| - 1].leaves)
  }

  function SightedNames(occ: seq<(string, int)>): set<string> {
    set p | p in occ :: p.0
  }

  datatype TaxonIndex = TaxonIndex(names: seq<string>, ids: map<string, int>)

  /**
   * The index after visiting the sightings in order: a name is added, with
   * the position it was sighted at, only when it is not already listed.
   */
  function IndexOf(occ: seq<(string, int)>): (x: TaxonIndex)
    ensures NoDup(x.names)
    ensures x.ids.Keys == Elems(x.names)
    ensures Elems(x.names) == SightedNames(occ)
  {
    if occ == [] then TaxonIndex([], map[])
    else
      var prev := IndexOf(occ[..|occ| - 1]);
      var (name, pos) := occ[|occ| - 1];
      assert occ == occ[..|occ| - 1] + [(name, pos)];
      assert SightedNames(occ) == SightedNames(occ[..|occ| - 1]) + {name};
      if name in prev.names then prev
      else
        assert Elems(prev.names + [name]) == Elems(prev.names) + {name};
        TaxonIndex(prev.names + [name], prev.ids[name := pos])
  }

  lemma IndexOfStep(occ: seq<(string, int)>, name: string, pos: int)
    ensures IndexOf(occ + [(name, pos)]) ==
            var prev := IndexOf(occ);
            if name in prev.names then prev else TaxonIndex(prev.names + [name], prev.ids[name := pos])
  {
    assert (occ + [(name, pos)])[..|occ|] == occ;
  }

  /** The id of a name is the position attached to its first sighting. */
  lemma {:induction false} IdIsFirstSighting(occ: seq<(string, int)>, k: nat)
    requires k < |occ|
    requires forall i :: 0 <= i < k ==> occ[i].0 != occ[k].0
    ensures occ[k].0 in IndexOf(occ).ids
    ensures IndexOf(occ).ids[occ[k].0] == occ[k].1
  {
    var init := occ[..|occ| - 1];
    var name := occ[k].0;
    if k == |occ| - 1 {
      forall p | p in init ensures p.0 != name {
        var i :| 0 <= i < |init| && init[i] == p;
        assert occ[i] == p;
      }
    } else {
      IdIsFirstSighting(init, k);
    }
  }

  lemma {:induction false} SightingsPrefix(trees: seq<Tree>, m: nat)
    requires m <= |trees|
    ensures Sightings(trees[..m]) <= Sightings(trees)
  {
    if m < |trees| {
      var init := trees[..|trees| - 1];
      assert init[..m] == trees[..m];
      SightingsPrefix(init, m);
      assert Sightings(init) <= Sightings(trees);
    } else {
      assert trees[..m] == trees;
    }
  }

  /**
   * Every name of the first tree (whose leaf names are distinct) gets its
   * position in that tree as id.
   */
  lemma FirstTreeGivesPositions(trees: seq<Tree>, k: nat)
    requires |trees| > 0 && NoDup(trees[0].leaves)
    requires k < |trees[0].leaves|
    ensures trees[0].leaves[k] in IndexOf(Sightings(trees)).ids
    ensures IndexOf(Sightings(trees)).ids[trees[0].leaves[k]] == k
  {
    var occ := Sightings(trees);
    var leaves := trees[0].leaves;
    SightingsPrefix(trees, 1);
    assert trees[..1][..0] == [];
    var first := Sightings(trees[..1]);
    assert first == Positions(leaves);
    assert forall i :: 0 <= i < |first| ==> occ[i] == first[i];
    assert occ[k] == (leaves[k], k);
    forall i | 0 <= i < k ensures occ[i].0 != occ[k].0 {
      assert occ[i] == (leaves[i], i);
    }
    IdIsFirstSighting(occ, k);
  }

  /**
   * When no tree has a name the first tree lacks, the ids are the positions
   * in the first tree and so no two names share an id.
   */
  lemma SharedTaxaGiveDistinctIds(trees: seq<Tree>)
    requires |trees| > 0 && NoDup(trees[0].leaves)
    requires forall t :: 0 <= t < |trees| ==> Elems(trees[t].leaves) <= Elems(trees[0].leaves)
    ensures InjectiveOn(IndexOf(Sightings(trees)).ids, IndexOf(Sightings(trees)).names)
  {
    var x := IndexOf(Sightings(trees));
    forall a, b | a in x.names && b in x.names && a != b
      ensures IdOf(x.ids, a) != IdOf(x.ids, b)
    {
      var ka := InFirstTree(trees, a);
      var kb := InFirstTree(trees, b);
      FirstTreeGivesPositions(trees, ka);
      FirstTreeGivesPositions(trees, kb);
    }
  }

  lemma InFirstTree(trees: seq<Tree>, a: string) returns (k: nat)
    requires |trees| > 0
    requires forall t :: 0 <= t < |trees| ==> Elems(trees[t].leaves) <= Elems(trees[0].leaves)
    requires a in SightedNames(Sightings(trees))
    ensures k < |trees[0].leaves| && trees[0].leaves[k] == a
  {
    SightedNamesAreLeaves(trees, a);
    var t :| 0 <= t < |trees| && a in trees[t].leaves;
    assert a in Elems(trees[0].leaves);
    k :| 0 <= k < |trees[0].leaves| && trees[0].leaves[k] == a;
  }

  lemma {:induction false} SightedNamesAreLeaves(trees: seq<Tree>, a: string)
    requires a in SightedNames(Sightings(trees))
    ensures exists t :: 0 <= t < |trees| && a in trees[t].leaves
  {
    var init := trees[..|trees| - 1];
    var last := trees[|trees| - 1].leaves;
    var p :| p in Sightings(trees) && p.0 == a;
    if p in Sightings(init) {
      SightedNamesAreLeaves(init, a);
      var t :| 0 <= t < |init| && a in init[t].leaves;
      assert trees[t] == init[t];
    } else {
      assert p in Positions(last);
      var i :| 0 <= i < |last| && Positions(last)[i] == p;
      assert a == last[i];
    }
  }

  /**
   * Names first seen in different trees can collide: with trees whose
   * external nodes are A, B and C, A, the name C gets id 0, as A did.
   */
  lemma NewNameTakesLocalPosition()
    ensures var trees := [Tree(["A", "B"], 2, []), Tree(["C", "A"], 2, [])];
            var x := IndexOf(Sightings(trees));
            x.names == ["A", "B", "C"] && x.ids["A"] == 0 && x.ids["C"] == 0
  {
    var trees := [Tree(["A", "B"], 2, []), Tree(["C", "A"], 2, [])];
    ExampleSightings();
    var s1, s2, s3 := [("A", 0)], [("A", 0), ("B", 1)], [("A", 0), ("B", 1), ("C", 0)];
    var x1 := TaxonIndex(["A"], map["A" := 0]);
    var x2 := TaxonIndex(["A", "B"], map["A" := 0, "B" := 1]);
    var x3 := TaxonIndex(["A", "B", "C"], map["A" := 0, "B" := 1, "C" := 0]);
    assert IndexOf(s1) == x1 by {
      IndexOfStep([], "A", 0);
      assert [] + [("A", 0)] == s1;
    }
    assert IndexOf(s2) == x2 by {
      IndexOfStep(s1, "B", 1);
      assert s1 + [("B", 1)] == s2;
    }
    assert IndexOf(s3) == x3 by {
      IndexOfStep(s2, "C", 0);
      assert s2 + [("C", 0)] == s3;
      assert "C" !in x2.names;
    }
    assert IndexOf(Sightings(trees)) == x3 by {
      IndexOfStep(s3, "A", 1);
      assert s3 + [("A", 1)] == Sightings(trees);
    }
  }

  lemma ExampleSightings()
    ensures Sightings([Tree(["A", "B"], 2, []), Tree(["C", "A"], 2, [])]) == [("A", 0), ("B", 1), ("C", 0), ("A", 1)]
  {
    var trees := [Tree(["A", "B"], 2, []), Tree(["C", "A"], 2, [])];
    assert trees[..1] == [trees[0]];
    assert [trees[0]][..0] == [];
    assert Positions(["A", "B"]) == [("A", 0), ("B", 1)];
    assert Positions(["C", "A"]) == [("C", 0), ("A", 1)];
    assert Sightings(trees[..1]) == [("A", 0), ("B", 1)];
  }

  /**
   * Builds the index by visiting every external node of every tree in
   * order, adding a name only if it is not yet listed.
   */
  method IndexNames(trees: seq<Tree>) returns (names: seq<string>, ids: map<string, int>)
    ensures TaxonIndex(names, ids) == IndexOf(Sightings(trees))
  {
    names, ids := [], map[];
    var t := 0;
    while t < |trees|
      invariant 0 <= t <= |trees|
      invariant TaxonIndex(names, ids) == IndexOf(Sightings(trees[..t]))
    {
      var leaves := trees[t].leaves;
      ghost var before := Sightings(trees[..t]);
      assert before + Positions(leaves)[..0] == before;
      var i := 0;
      while i < |leaves|
        invariant 0 <= i <= |leaves|
        invariant TaxonIndex(names, ids) == IndexOf(before + Positions(leaves)[..i])
      {
        var tname := leaves[i];
        assert before + Positions(leaves)[..i + 1] == (before + Positions(leaves)[..i]) + [(tname, i)];
        IndexOfStep(before + Positions(leaves)[..i], tname, i);
        if tname !in names {
          ids := ids[tname := i];
          names := names + [tname];
        }
        i := i + 1;
      }
      assert trees[..t + 1][..t] == trees[..t];
      assert Positions(leaves)[..i] == Positions(leaves);
      t := t + 1;
    }
    assert trees[..t] == trees;
  }
}
