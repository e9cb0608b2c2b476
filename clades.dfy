/**
 * Canonical clades. A clade (one side of a bipartition) is kept as the
 * taxon ids of its leaves in ascending order, so that two clades are the
 * same exactly when their id sequences are equal. Taxon names are strings;
 * looking a name up in the name index yields its id, or 0 for a name the
 * index has never seen (what std::map::operator[] returns).
 */
module Clades {

  predicate NoDup<T(==)>(s: seq<T>) {
    forall i, j :: 0 <= i < j < |s| ==> s[i] != s[j]
  }

  function Elems<T>(s: seq<T>): set<T> {
    set x | x in s
  }

  predicate Sorted(s: seq<int>) {
    forall i, j :: 0 <= i < j < |s| ==> s[i] <= s[j]
  }

  /** Inserts x into a sorted sequence, keeping it sorted. */
  function Insert(x: int, s: seq<int>): (r: seq<int>)
    requires Sorted(s)
    ensures Sorted(r)
    ensures multiset(r) == multiset(s) + multiset{x}
  {
    if s == [] || x <= s[0] then
      InsertFront(x, s);
      [x] + s
    else
      SortedTail(s);
      var rest := Insert(x, s[1..]);
      InsertBehind(x, s, rest);
      [s[0]] + rest
  }

  lemma InsertFront(x: int, s: seq<int>)
    requires Sorted(s) && (s == [] || x <= s[0])
    ensures Sorted([x] + s)
  {
    if s != [] {
      SortedTail(s);
    }
  }

  lemma InsertBehind(x: int, s: seq<int>, rest: seq<int>)
    requires Sorted(s) && s != [] && s[0] < x
    requires Sorted(rest) && multiset(rest) == multiset(s[1..]) + multiset{x}
    ensures Sorted([s[0]] + rest)
    ensures multiset([s[0]] + rest) == multiset(s) + multiset{x}
  {
    assert s == [s[0]] + s[1..];
    forall k | 0 <= k < |rest| ensures s[0] <= rest[k] {
      var y := rest[k];
      assert y in multiset(rest);
      if y != x {
        assert y in multiset(s[1..]);
        var m :| 0 <= m < |s[1..]| && s[1..][m] == y;
        assert s[m + 1] == y;
      }
    }
  }

  /** The sorted rearrangement of an id sequence (std::sort). */
  function Sort(s: seq<int>): (r: seq<int>)
    ensures Sorted(r)
    ensures multiset(r) == multiset(s)
  {
    if s == [] then []
    else
      assert s == s[..|s| - 1] + [s[|s| - 1]];
      Insert(s[|s| - 1], Sort(s[..|s| - 1]))
  }

  lemma SortedTail(s: seq<int>)
    requires Sorted(s) && s != []
    ensures Sorted(s[1..])
    ensures forall k :: 0 <= k < |s| ==> s[0] <= s[k]
  {
    forall i, j | 0 <= i < j < |s[1..]| ensures s[1..][i] <= s[1..][j] {
      assert s[1..][i] == s[i + 1] && s[1..][j] == s[j + 1];
    }
  }

  /** A sorted sequence is determined by its multiset of elements. */
  lemma {:induction false} SortedUnique(a: seq<int>, b: seq<int>)
    requires Sorted(a) && Sorted(b)
    requires multiset(a) == multiset(b)
    ensures a == b
  {
    if a == [] {
      assert |b| == |multiset(b)| == 0;
    } else {
      assert |b| == |multiset(b)| == |multiset(a)| == |a|;
      SortedTail(a);
      SortedTail(b);
      assert a[0] in multiset(b);
      assert b[0] in multiset(a);
      assert a[0] in b && b[0] in a;
      assert a[0] == b[0];
      assert a == [a[0]] + a[1..];
      assert b == [b[0]] + b[1..];
      calc {
        multiset(a[1..]);
        multiset(a) - multiset{a[0]};
        multiset(b) - multiset{b[0]};
        multiset(b[1..]);
      }
      SortedUnique(a[1..], b[1..]);
    }
  }

  function IdOf(ids: map<string, int>, name: string): int {
    if name in ids then ids[name] else 0
  }

  /** The ids of a sequence of names, position by position. */
  function Ids(ids: map<string, int>, names: seq<string>): (r: seq<int>)
    ensures |r| == |names|
  {
    if names == [] then [] else [IdOf(ids, names[0])] + Ids(ids, names[1..])
  }

  lemma {:induction false} IdsAppend(ids: map<string, int>, a: seq<string>, b: seq<string>)
    ensures Ids(ids, a + b) == Ids(ids, a) + Ids(ids, b)
  {
    if a == [] {
      assert a + b == b;
    } else {
      assert (a + b)[0] == a[0];
      assert (a + b)[1..] == a[1..] + b;
      IdsAppend(ids, a[1..], b);
      calc {
        Ids(ids, a + b);
        [IdOf(ids, a[0])] + Ids(ids, a[1..] + b);
        [IdOf(ids, a[0])] + (Ids(ids, a[1..]) + Ids(ids, b));
        ([IdOf(ids, a[0])] + Ids(ids, a[1..])) + Ids(ids, b);
        Ids(ids, a) + Ids(ids, b);
      }
    }
  }

  lemma IdsRemoveOne(ids: map<string, int>, pre: seq<string>, x: string, post: seq<string>)
    ensures multiset(Ids(ids, pre + [x] + post)) == multiset(Ids(ids, pre + post)) + multiset{IdOf(ids, x)}
  {
    IdsAppend(ids, pre + [x], post);
    IdsAppend(ids, pre, [x]);
    IdsAppend(ids, pre, post);
  }

  lemma IndexOfMember<T>(t: seq<T>, x: T) returns (k: nat)
    requires x in multiset(t)
    ensures k < |t| && t[k] == x
    ensures multiset(t[..k] + t[k + 1..]) == multiset(t) - multiset{x}
  {
    k :| 0 <= k < |t| && t[k] == x;
    assert t == t[..k] + [x] + t[k + 1..];
  }

  /** The multiset of ids depends only on the multiset of names. */
  lemma {:induction false} IdsPermutation(ids: map<string, int>, s: seq<string>, t: seq<string>)
    requires multiset(s) == multiset(t)
    ensures multiset(Ids(ids, s)) == multiset(Ids(ids, t))
    decreases |s|
  {
    if s == [] {
      assert |t| == |multiset(t)| == 0;
    } else {
      var k := IndexOfMember(t, s[0]);
      RestOfPermutation(s, t[..k] + t[k + 1..], multiset(t));
      IdsPermutation(ids, s[1..], t[..k] + t[k + 1..]);
      IdsPermutationStep(ids, s, t, k);
    }
  }

  /** The inductive step: the first name of s, found at position k of t, contributes the same id to both. */
  lemma IdsPermutationStep(ids: map<string, int>, s: seq<string>, t: seq<string>, k: nat)
    requires s != [] && k < |t| && t[k] == s[0]
    requires multiset(Ids(ids, s[1..])) == multiset(Ids(ids, t[..k] + t[k + 1..]))
    ensures multiset(Ids(ids, s)) == multiset(Ids(ids, t))
  {
    var x, pre, post := s[0], t[..k], t[k + 1..];
    IdsRemoveOne(ids, pre, x, post);
    assert t == pre + [x] + post;
  }

  lemma RestOfPermutation<T>(s: seq<T>, rest: seq<T>, m: multiset<T>)
    requires s != [] && multiset(s) == m && multiset(rest) == m - multiset{s[0]}
    ensures multiset(s[1..]) == multiset(rest)
  {
    assert s == [s[0]] + s[1..];
  }

  /** The distinct names of s, each at its first occurrence (std::set copy). */
  function Dedup(s: seq<string>): (r: seq<string>)
    ensures NoDup(r)
    ensures Elems(r) == Elems(s)
  {
    if s == [] then []
    else
      var p := Dedup(s[..|s| - 1]);
      assert s == s[..|s| - 1] + [s[|s| - 1]];
      if s[|s| - 1] in p then p
      else
        assert Elems(p + [s[|s| - 1]]) == Elems(p) + {s[|s| - 1]};
        p + [s[|s| - 1]]
  }

  lemma {:induction false} DedupOfDistinct(s: seq<string>)
    requires NoDup(s)
    ensures Dedup(s) == s
  {
    if s != [] {
      var init := s[..|s| - 1];
      DedupOfDistinct(init);
      assert s[|s| - 1] !in init;
      assert s == init + [s[|s| - 1]];
    }
  }

  /** The names of s that do not occur in drop, in the order of s (std::set_difference). */
  function Minus(s: seq<string>, drop: seq<string>): (r: seq<string>)
    ensures forall x :: x in r <==> x in s && x !in drop
  {
    if s == [] then []
    else if s[0] in drop then Minus(s[1..], drop)
    else [s[0]] + Minus(s[1..], drop)
  }

  lemma {:induction false} MinusShorter(s: seq<string>, drop: seq<string>)
    ensures |Minus(s, drop)| <= |s|
  {
    if s != [] {
      MinusShorter(s[1..], drop);
    }
  }

  /** The names of s that do occur in keep, in the order of s. */
  function Keep(s: seq<string>, keep: seq<string>): (r: seq<string>)
    ensures forall x :: x in r <==> x in s && x in keep
  {
    if s == [] then []
    else if s[0] in keep then [s[0]] + Keep(s[1..], keep)
    else Keep(s[1..], keep)
  }

  lemma {:induction false} MinusKeepSplit(s: seq<string>, drop: seq<string>)
    ensures multiset(Minus(s, drop)) + multiset(Keep(s, drop)) == multiset(s)
    ensures NoDup(s) ==> NoDup(Minus(s, drop)) && NoDup(Keep(s, drop))
  {
    if s != [] {
      MinusKeepSplit(s[1..], drop);
      assert s == [s[0]] + s[1..];
      if NoDup(s) {
        assert NoDup(s[1..]) by {
          forall i, j | 0 <= i < j < |s[1..]| ensures s[1..][i] != s[1..][j] {
            assert s[1..][i] == s[i + 1] && s[1..][j] == s[j + 1];
          }
        }
        assert s[0] !in s[1..];
        ConsNoDup(s[0], Minus(s[1..], drop));
        ConsNoDup(s[0], Keep(s[1..], drop));
      }
    }
  }

  lemma ConsNoDup(x: string, s: seq<string>)
    requires NoDup(s) && x !in s
    ensures NoDup([x] + s)
  {
    forall i, j | 0 <= i < j < |[x] + s| ensures ([x] + s)[i] != ([x] + s)[j] {
      if i > 0 {
        assert ([x] + s)[i] == s[i - 1];
      }
      assert ([x] + s)[j] == s[j - 1];
    }
  }

  lemma {:induction false} DistinctMultiset<T>(s: seq<T>)
    requires NoDup(s)
    ensures multiset(s) == multiset(Elems(s))
  {
    if s != [] {
      DistinctMultiset(s[1..]);
      assert s == [s[0]] + s[1..];
      assert s[0] !in s[1..];
      assert Elems(s) == {s[0]} + Elems(s[1..]);
    }
  }

  /** Position of the first occurrence of x in s, or |s| when absent (std::find). */
  function Find<T(==)>(s: seq<T>, x: T): (k: nat)
    ensures k <= |s|
    ensures k < |s| <==> x in s
    ensures k < |s| ==> s[k] == x && forall i :: 0 <= i < k ==> s[i] != x
  {
    if s == [] then 0
    else if s[0] == x then 0
    else 1 + Find(s[1..], x)
  }

  /** The number of occurrences of x in s (std::count). */
  function Count<T(==)>(s: seq<T>, x: T): nat {
    multiset(s)[x]
  }

  lemma CountOfDistinct<T>(s: seq<T>, x: T)
    requires NoDup(s)
    ensures Count(s, x) == if x in s then 1 else 0
  {
    if x in s {
      var k := Find(s, x);
      assert s == s[..k] + [x] + s[k + 1..];
      assert x !in s[..k];
      assert x !in s[k + 1..];
    } else {
      assert multiset(s)[x] == 0;
    }
  }

  /** The clade of a node: the sorted ids of its leaves. */
  function Clade(ids: map<string, int>, leaves: seq<string>): (r: seq<int>)
    ensures Sorted(r) && |r| == |leaves|
  {
    var r := Sort(Ids(ids, leaves));
    assert |r| == |multiset(r)| == |multiset(Ids(ids, leaves))|;
    r
  }

  /** The other side: the sorted ids of the tree's distinct leaves that are not in the clade. */
  function Complement(ids: map<string, int>, treeLeaves: seq<string>, leaves: seq<string>): (r: seq<int>)
    ensures Sorted(r)
  {
    Sort(Ids(ids, Minus(Dedup(treeLeaves), leaves)))
  }

  /**
   * For a tree with distinct leaf names and a node whose distinct leaves
   * lie in the tree, the clade and its complement together hold the ids of
   * the tree's leaves, each exactly once, and the complement has the
   * remaining number of taxa.
   */
  lemma CladeAndComplementCoverTree(ids: map<string, int>, treeLeaves: seq<string>, leaves: seq<string>)
    requires NoDup(treeLeaves) && NoDup(leaves)
    requires Elems(leaves) <= Elems(treeLeaves)
    ensures multiset(Clade(ids, leaves)) + multiset(Complement(ids, treeLeaves, leaves))
            == multiset(Ids(ids, treeLeaves))
    ensures |Complement(ids, treeLeaves, leaves)| == |treeLeaves| - |leaves|
  {
    DedupOfDistinct(treeLeaves);
    var kept := Keep(treeLeaves, leaves);
    var rest := Minus(treeLeaves, leaves);
    KeptAreLeaves(treeLeaves, leaves);
    MinusKeepSplit(treeLeaves, leaves);
    IdsPermutation(ids, kept, leaves);
    IdsPermutation(ids, rest + kept, treeLeaves);
    IdsAppend(ids, rest, kept);
    var comp := Complement(ids, treeLeaves, leaves);
    calc {
      multiset(Clade(ids, leaves)) + multiset(comp);
      multiset(Ids(ids, leaves)) + multiset(Ids(ids, rest));
      multiset(Ids(ids, kept)) + multiset(Ids(ids, rest));
      multiset(Ids(ids, rest + kept));
      multiset(Ids(ids, treeLeaves));
    }
    assert |comp| == |multiset(comp)| == |multiset(Ids(ids, rest))| == |rest|;
    assert |multiset(rest)| + |multiset(kept)| == |multiset(treeLeaves)|;
  }

  /** The tree leaves kept by a node are, as a multiset, the node's own distinct leaves. */
  lemma KeptAreLeaves(treeLeaves: seq<string>, leaves: seq<string>)
    requires NoDup(treeLeaves) && NoDup(leaves)
    requires Elems(leaves) <= Elems(treeLeaves)
    ensures multiset(Keep(treeLeaves, leaves)) == multiset(leaves)
  {
    var kept := Keep(treeLeaves, leaves);
    MinusKeepSplit(treeLeaves, leaves);
    DistinctMultiset(kept);
    DistinctMultiset(leaves);
    assert Elems(kept) == Elems(leaves);
  }

  /** Names map to ids one to one on the given names. */
  predicate InjectiveOn(ids: map<string, int>, names: seq<string>) {
    forall a, b :: a in names && b in names && a != b ==> IdOf(ids, a) != IdOf(ids, b)
  }

  function IdSet(ids: map<string, int>, names: seq<string>): set<int> {
    set n | n in names :: IdOf(ids, n)
  }

  lemma {:induction false} IdsElems(ids: map<string, int>, names: seq<string>)
    ensures Elems(Ids(ids, names)) == IdSet(ids, names)
  {
    if names != [] {
      IdsElems(ids, names[1..]);
      assert names == [names[0]] + names[1..];
      assert IdSet(ids, names) == {IdOf(ids, names[0])} + IdSet(ids, names[1..]);
      assert Elems(Ids(ids, names)) == {IdOf(ids, names[0])} + Elems(Ids(ids, names[1..]));
    }
  }
}
