/**
 * The conflict analysis. For every entry some but not all trees have, the
 * entries it conflicts with are collected (those some but not all trees
 * have and that the logical test flags), their counts are turned into
 * proportions of the total, and the internode certainty (ICA) is 1 plus
 * the sum of p * log(p) over those proportions, with a log whose base is
 * the number of proportions; it is negated when some conflicting entry was
 * counted more often than the entry itself. The tree certainty (TSCA) adds
 * up the unsigned ICA of these entries and 1 for every entry all trees
 * have. The logical test and the logarithm are parameters.
 */
module Certainty {
  import opened Clades
  import opened Bipartitions
  import opened Presence
  import opened Forest

  /** The counts, presence matrix and logical matrix the analysis reads. */
  datatype Tables = Tables(counts: seq<nat>, m: seq<seq<int>>, lm: seq<seq<int>>)

  /**
   * One logical row and one count per entry, every entry counted, every
   * presence row covering the entries, and some tree whenever there is an
   * entry (every entry comes from a tree).
   */
  predicate ValidTables(x: Tables) {
    && |x.lm| == |x.counts|
    && (forall e :: 0 <= e < |x.counts| ==> x.counts[e] >= 1)
    && (forall i :: 0 <= i < |x.m| ==> |x.m[i]| >= |x.counts|)
    && (|x.counts| > 0 ==> |x.m| > 0)
  }

  /**
   * The tables the program hands to the analysis: the counts of the
   * registry built from all trees, the presence matrix over those trees
   * and one logical row per entry.
   */
  function PipelineTables(run: Run, trees: seq<Tree>): Tables {
    var r := ForestRegistered(run, Empty, trees);
    Tables(r.counts, Matrix(run, r, trees),
           seq(|r.clades|, i requires 0 <= i < |r.clades| => LogicalRow(run, r.clades[i])))
  }

  /** Registration, the presence matrix and the logical matrix always yield tables the analysis accepts. */
  lemma PipelineTablesValid(run: Run, trees: seq<Tree>)
    ensures ValidTables(PipelineTables(run, trees))
  {
  }

  /** The options of the run and the external helpers. */
  datatype Settings = Settings(
    edgewise: bool,
    firstTree: bool,
    logical: (seq<int>, seq<int>, bool) -> bool,
    logn: (real, nat) -> real)

  /** The number of trees that have entry e. */
  function Support(x: Tables, e: nat): int
    requires ValidTables(x) && e < |x.counts|
  {
    ColumnSum(x.m, e)
  }

  /** Some, but not all, trees have entry e. */
  predicate Contested(x: Tables, e: nat)
    requires ValidTables(x) && e < |x.counts|
  {
    Support(x, e) != |x.m| && Support(x, e) > 0
  }

  /** Entry j is counted as a conflict of entry i. */
  predicate Conflicting(x: Tables, s: Settings, i: nat, j: nat)
    requires ValidTables(x) && i < |x.counts| && j < |x.counts|
  {
    i != j && Contested(x, j) && s.logical(x.lm[i], x.lm[j], s.edgewise)
  }

  /** The conflicts of entry i among the first k entries, in order. */
  function Conflicts(x: Tables, s: Settings, i: nat, k: nat): (r: seq<nat>)
    requires ValidTables(x) && i < |x.counts| && k <= |x.counts|
    ensures forall a :: 0 <= a < |r| ==> r[a] < k
  {
    if k == 0 then []
    else
      var prev := Conflicts(x, s, i, k - 1);
      if Conflicting(x, s, i, k - 1) then prev + [k - 1] else prev
  }

  /**
   * The conflicts of entry i are exactly the entries that conflict with it,
   * each once, in increasing order.
   */
  lemma {:induction false} ConflictsAreExactly(x: Tables, s: Settings, i: nat, k: nat)
    requires ValidTables(x) && i < |x.counts| && k <= |x.counts|
    ensures var r := Conflicts(x, s, i, k);
            && (forall j: nat :: j in r <==> j < k && Conflicting(x, s, i, j))
            && (forall a, b :: 0 <= a < b < |r| ==> r[a] < r[b])
  {
    if k > 0 {
      ConflictsAreExactly(x, s, i, k - 1);
      var prev := Conflicts(x, s, i, k - 1);
      if Conflicting(x, s, i, k - 1) {
        var r := prev + [k - 1];
        assert forall a :: 0 <= a < |prev| ==> r[a] == prev[a];
      }
    }
  }

  lemma ConflictsNext(x: Tables, s: Settings, i: nat, k: nat)
    requires ValidTables(x) && i < |x.counts| && k < |x.counts|
    ensures Conflicts(x, s, i, k + 1) ==
            if Conflicting(x, s, i, k) then Conflicts(x, s, i, k) + [k] else Conflicts(x, s, i, k)
  {
  }

  /** The counts of entry i and then of its conflicts (conflict_nums before division). */
  function ConflictCounts(x: Tables, s: Settings, i: nat): (r: seq<nat>)
    requires ValidTables(x) && i < |x.counts|
    ensures |r| >= 1 && r[0] == x.counts[i]
  {
    [x.counts[i]] + CountsOf(x, Conflicts(x, s, i, |x.counts|))
  }

  /** The counts of the given entries. */
  function CountsOf(x: Tables, js: seq<nat>): (r: seq<nat>)
    requires forall a :: 0 <= a < |js| ==> js[a] < |x.counts|
    ensures |r| == |js| && forall a :: 0 <= a < |js| ==> r[a] == x.counts[js[a]]
  {
    seq(|js|, k requires 0 <= k < |js| => x.counts[js[k]])
  }

  lemma CountsOfAppend(x: Tables, js: seq<nat>, j: nat)
    requires forall a :: 0 <= a < |js| ==> js[a] < |x.counts|
    requires j < |x.counts|
    ensures CountsOf(x, js + [j]) == CountsOf(x, js) + [x.counts[j]]
  {
  }

  /** -1 when a later count exceeds the first, else 1. */
  function SignOf(nums: seq<nat>): int
    requires |nums| >= 1
  {
    if exists k :: 1 <= k < |nums| && nums[k] > nums[0] then -1 else 1
  }

  /** Each count as a proportion of the total. */
  function Proportions(nums: seq<nat>, total: nat): (p: seq<real>)
    requires total > 0
    ensures |p| == |nums|
  {
    seq(|nums|, k requires 0 <= k < |nums| => nums[k] as real / total as real)
  }

  /** The sum of p * logn(p, n) over the proportions. */
  function LogTerms(props: seq<real>, n: nat, logn: (real, nat) -> real): real {
    if props == [] then 0.0
    else LogTerms(props[..|props| - 1], n, logn) + props[|props| - 1] * logn(props[|props| - 1], n)
  }

  function UnsignedIca(props: seq<real>, logn: (real, nat) -> real): real {
    1.0 + LogTerms(props, |props|, logn)
  }

  /** What the analysis reports for one entry. */
  datatype Report =
    | NotShown
    | Universal
    | Conflicted(conflictCounts: seq<nat>, total: nat, freq: real, sign: int, unsignedIca: real)
  {
    /** The signed ICA of a conflicted entry. */
    function Ica(): real
      requires Conflicted?
    {
      sign as real * unsignedIca
    }
  }

  /**
   * The report for entry i: with the first-tree option, entries the first
   * tree lacks are not shown; an entry some but not all trees have is
   * analysed; an entry all trees have is universal.
   */
  function EntryReport(x: Tables, s: Settings, i: nat): Report
    requires ValidTables(x) && i < |x.counts|
  {
    if s.firstTree && x.m[0][i] != 1 then NotShown
    else if Contested(x, i) then
      var nums := ConflictCounts(x, s, i);
      var total := Sum(nums);
      SumFirst(nums);
      var props := Proportions(nums, total);
      Conflicted(nums, total, props[0], SignOf(nums), UnsignedIca(props, s.logn))
    else if Support(x, i) == |x.m| then Universal
    else NotShown
  }

  /** What an entry adds to TSCA: 1 when universal, its unsigned ICA when conflicted. */
  function Contribution(rep: Report): real {
    match rep
    case NotShown => 0.0
    case Universal => 1.0
    case Conflicted(_, _, _, _, u) => u
  }

  function Tsca(reps: seq<Report>): real {
    if reps == [] then 0.0 else Tsca(reps[..|reps| - 1]) + Contribution(reps[|reps| - 1])
  }

  function SumReal(s: seq<real>): real {
    if s == [] then 0.0 else SumReal(s[..|s| - 1]) + s[|s| - 1]
  }

  // ---------------------------------------------------------------------
  // Properties

  /**
   * The sign is negative exactly when some conflicting entry was counted
   * more often than the entry itself.
   */
  lemma SignRule(x: Tables, s: Settings, i: nat)
    requires ValidTables(x) && i < |x.counts|
    ensures SignOf(ConflictCounts(x, s, i)) == -1 <==>
            exists j :: 0 <= j < |x.counts| && Conflicting(x, s, i, j) && x.counts[j] > x.counts[i]
  {
    ConflictsAreExactly(x, s, i, |x.counts|);
    if SignOf(ConflictCounts(x, s, i)) == -1 {
      NegativeSignHasWitness(x, s, i);
    }
    if exists j :: 0 <= j < |x.counts| && Conflicting(x, s, i, j) && x.counts[j] > x.counts[i] {
      var j :| 0 <= j < |x.counts| && Conflicting(x, s, i, j) && x.counts[j] > x.counts[i];
      WitnessGivesNegativeSign(x, s, i, j);
    }
  }

  lemma NegativeSignHasWitness(x: Tables, s: Settings, i: nat)
    requires ValidTables(x) && i < |x.counts|
    requires forall j: nat :: j in Conflicts(x, s, i, |x.counts|) <==> j < |x.counts| && Conflicting(x, s, i, j)
    requires SignOf(ConflictCounts(x, s, i)) == -1
    ensures exists j :: 0 <= j < |x.counts| && Conflicting(x, s, i, j) && x.counts[j] > x.counts[i]
  {
    var js := Conflicts(x, s, i, |x.counts|);
    var nums := ConflictCounts(x, s, i);
    var k :| 1 <= k < |nums| && nums[k] > nums[0];
    assert nums[k] == x.counts[js[k - 1]];
    assert js[k - 1] in js;
  }

  lemma WitnessGivesNegativeSign(x: Tables, s: Settings, i: nat, j: nat)
    requires ValidTables(x) && i < |x.counts| && j < |x.counts|
    requires forall j: nat :: j in Conflicts(x, s, i, |x.counts|) <==> j < |x.counts| && Conflicting(x, s, i, j)
    requires Conflicting(x, s, i, j) && x.counts[j] > x.counts[i]
    ensures SignOf(ConflictCounts(x, s, i)) == -1
  {
    var js := Conflicts(x, s, i, |x.counts|);
    var nums := ConflictCounts(x, s, i);
    assert j in js;
    var k :| 0 <= k < |js| && js[k] == j;
    assert nums[k + 1] == x.counts[j];
  }

  lemma {:induction false} SumRealOfProportions(nums: seq<nat>, total: nat)
    requires total > 0
    ensures SumReal(Proportions(nums, total)) == Sum(nums) as real / total as real
  {
    if nums != [] {
      var init := nums[..|nums| - 1];
      SumRealOfProportions(init, total);
      var p := Proportions(nums, total);
      assert p[..|p| - 1] == Proportions(init, total);
      var t := total as real;
      calc {
        SumReal(p);
        SumReal(Proportions(init, total)) + nums[|nums| - 1] as real / t;
        Sum(init) as real / t + nums[|nums| - 1] as real / t;
        (Sum(init) as real + nums[|nums| - 1] as real) / t;
        Sum(nums) as real / t;
      }
    }
  }

  /** Counts with a positive total become proportions that add up to one. */
  lemma ProportionsSumToOne(nums: seq<nat>)
    requires Sum(nums) > 0
    ensures SumReal(Proportions(nums, Sum(nums))) == 1.0
  {
    SumRealOfProportions(nums, Sum(nums));
    DivIsOne(Sum(nums) as real, Sum(nums) as real);
  }

  lemma {:induction false} SumFirst(nums: seq<nat>)
    requires |nums| >= 1
    ensures Sum(nums) >= nums[0]
    ensures Sum(nums) == nums[0] <==> forall k :: 1 <= k < |nums| ==> nums[k] == 0
  {
    if |nums| > 1 {
      var init := nums[..|nums| - 1];
      SumFirst(init);
      assert forall k :: 1 <= k < |init| ==> init[k] == nums[k];
    }
  }

  /**
   * The frequency of a conflicted entry (its own proportion) is 1 exactly
   * when it has no conflicts.
   */
  lemma FreqOneIffNoConflicts(x: Tables, s: Settings, i: nat)
    requires ValidTables(x) && i < |x.counts|
    ensures var nums := ConflictCounts(x, s, i);
            Sum(nums) > 0 && (Proportions(nums, Sum(nums))[0] == 1.0 <==> Conflicts(x, s, i, |x.counts|) == [])
  {
    var nums := ConflictCounts(x, s, i);
    var js := Conflicts(x, s, i, |x.counts|);
    SumFirst(nums);
    if js != [] {
      assert nums[1] == x.counts[js[0]] >= 1;
    }
    OwnShareIsOneIffAlone(nums);
  }

  /** The first of some counts is all of their total exactly when the others are zero. */
  lemma OwnShareIsOneIffAlone(nums: seq<nat>)
    requires |nums| >= 1 && nums[0] > 0
    ensures Sum(nums) > 0
    ensures Proportions(nums, Sum(nums))[0] == 1.0 <==> forall k :: 1 <= k < |nums| ==> nums[k] == 0
  {
    SumFirst(nums);
    var p := Proportions(nums, Sum(nums));
    assert p[0] == nums[0] as real / Sum(nums) as real;
    DivIsOne(nums[0] as real, Sum(nums) as real);
  }

  lemma DivIsOne(a: real, t: real)
    requires t > 0.0
    ensures a / t == 1.0 <==> a == t
  {
    if a / t == 1.0 {
      assert a == (a / t) * t;
    }
  }

  /** An entry all trees have is nobody's conflict. */
  lemma UniversalNeverConflicts(x: Tables, s: Settings, i: nat, j: nat)
    requires ValidTables(x) && i < |x.counts| && j < |x.counts|
    requires Support(x, j) == |x.m|
    ensures j !in Conflicts(x, s, i, |x.counts|)
  {
    ConflictsAreExactly(x, s, i, |x.counts|);
  }

  /** With a symmetric logical test, conflict between analysed entries is mutual. */
  lemma ConflictIsMutual(x: Tables, s: Settings, i: nat, j: nat)
    requires ValidTables(x) && i < |x.counts| && j < |x.counts|
    requires forall a, b :: s.logical(a, b, s.edgewise) == s.logical(b, a, s.edgewise)
    requires Contested(x, i) && Contested(x, j)
    ensures j in Conflicts(x, s, i, |x.counts|) <==> i in Conflicts(x, s, j, |x.counts|)
  {
    assert s.logical(x.lm[i], x.lm[j], s.edgewise) == s.logical(x.lm[j], x.lm[i], s.edgewise);
    ConflictsAreExactly(x, s, i, |x.counts|);
    ConflictsAreExactly(x, s, j, |x.counts|);
  }

  lemma DivOrder(a: real, b: real, t: real)
    requires t > 0.0
    ensures a / t > b / t <==> a > b
  {
    assert a / t - b / t == (a - b) / t;
    if a > b {
      assert (a - b) / t > 0.0;
    } else {
      assert (b - a) / t >= 0.0;
      assert b / t - a / t == (b - a) / t;
    }
  }

  // ---------------------------------------------------------------------
  // The analysis loop

  /** Collects the counts of entry i and of its conflicts, and their total. */
  method CollectConflicts(x: Tables, s: Settings, i: nat) returns (totalcount: nat, nums: seq<nat>)
    requires ValidTables(x) && i < |x.counts|
    ensures nums == ConflictCounts(x, s, i)
    ensures totalcount == Sum(nums)
  {
    totalcount := x.counts[i];
    nums := [x.counts[i]];
    assert nums == [x.counts[i]] + CountsOf(x, []);
    var j := 0;
    while j < |x.counts|
      invariant 0 <= j <= |x.counts|
      invariant nums == [x.counts[i]] + CountsOf(x, Conflicts(x, s, i, j))
      invariant totalcount == Sum(nums)
    {
      totalcount, nums := ConsiderEntry(x, s, i, j, totalcount, nums);
      j := j + 1;
    }
  }

  /** One step of the collection: entry j is added when it conflicts with entry i. */
  method ConsiderEntry(x: Tables, s: Settings, i: nat, j: nat, totalcount: nat, nums: seq<nat>)
    returns (totalcount2: nat, nums2: seq<nat>)
    requires ValidTables(x) && i < |x.counts| && j < |x.counts|
    requires nums == [x.counts[i]] + CountsOf(x, Conflicts(x, s, i, j))
    requires totalcount == Sum(nums)
    ensures nums2 == [x.counts[i]] + CountsOf(x, Conflicts(x, s, i, j + 1))
    ensures totalcount2 == Sum(nums2)
  {
    var sumc2 := ColumnSum(x.m, j);
    if i != j && sumc2 != |x.m| && sumc2 > 0 && s.logical(x.lm[i], x.lm[j], s.edgewise) {
      ConflictTaken(x, s, i, j, nums);
      totalcount2 := totalcount + x.counts[j];
      nums2 := nums + [x.counts[j]];
    } else {
      ConflictsNext(x, s, i, j);
      totalcount2, nums2 := totalcount, nums;
    }
  }

  lemma ConflictTaken(x: Tables, s: Settings, i: nat, j: nat, nums: seq<nat>)
    requires ValidTables(x) && i < |x.counts| && j < |x.counts|
    requires nums == [x.counts[i]] + CountsOf(x, Conflicts(x, s, i, j))
    requires Conflicting(x, s, i, j)
    ensures nums + [x.counts[j]] == [x.counts[i]] + CountsOf(x, Conflicts(x, s, i, j + 1))
    ensures Sum(nums + [x.counts[j]]) == Sum(nums) + x.counts[j]
  {
    var js := Conflicts(x, s, i, j);
    ConflictsNext(x, s, i, j);
    CountsOfAppend(x, js, j);
    SumAppend(nums, x.counts[j]);
    assert nums + [x.counts[j]] == [x.counts[i]] + (CountsOf(x, js) + [x.counts[j]]);
  }

  /**
   * Divides every count by the total in place, setting the sign to -1 when
   * a proportion exceeds the entry's own (already divided) proportion.
   */
  method Normalize(nums: seq<nat>, totalcount: nat) returns (props: seq<real>, sign: int)
    requires |nums| >= 1 && totalcount > 0
    ensures props == Proportions(nums, totalcount)
    ensures sign == SignOf(nums)
  {
    props := seq(|nums|, k requires 0 <= k < |nums| => nums[k] as real);
    sign := 1;
    var t := totalcount as real;
    var j := 0;
    while j < |props|
      invariant 0 <= j <= |props| && |props| == |nums|
      invariant forall k :: 0 <= k < j ==> props[k] == nums[k] as real / t
      invariant forall k :: j <= k < |props| ==> props[k] == nums[k] as real
      invariant sign == if exists k :: 1 <= k < j && nums[k] > nums[0] then -1 else 1
    {
      props := props[j := props[j] / t];
      if j > 0 {
        DivOrder(nums[j] as real, nums[0] as real, t);
      }
      if props[j] > props[0] {
        sign := -1;
      }
      j := j + 1;
    }
  }

  method UnsignedIcaOf(props: seq<real>, logn: (real, nat) -> real) returns (ica: real)
    ensures ica == UnsignedIca(props, logn)
  {
    ica := 1.0;
    var j := 0;
    while j < |props|
      invariant 0 <= j <= |props|
      invariant ica == 1.0 + LogTerms(props[..j], |props|, logn)
    {
      assert props[..j + 1][..j] == props[..j];
      ica := ica + props[j] * logn(props[j], |props|);
      j := j + 1;
    }
    assert props[..j] == props;
  }

  /** The terms p * logn(p, n) add up to at most zero when each of them does. */
  lemma {:induction false} LogTermsNonPositive(props: seq<real>, n: nat, logn: (real, nat) -> real)
    requires forall k :: 0 <= k < |props| ==> props[k] * logn(props[k], n) <= 0.0
    ensures LogTerms(props, n, logn) <= 0.0
  {
    if props != [] {
      LogTermsNonPositive(props[..|props| - 1], n, logn);
    }
  }

  /**
   * With a logarithm that is never positive on proportions (p <= 1), the
   * unsigned ICA is at most 1, the value of an entry with no conflicts.
   */
  lemma UnsignedIcaAtMostOne(props: seq<real>, logn: (real, nat) -> real)
    requires forall k :: 0 <= k < |props| ==> props[k] * logn(props[k], |props|) <= 0.0
    ensures UnsignedIca(props, logn) <= 1.0
  {
    LogTermsNonPositive(props, |props|, logn);
  }

  /** The report for one entry. */
  method AnalyzeEntry(x: Tables, s: Settings, i: nat) returns (rep: Report)
    requires ValidTables(x) && i < |x.counts|
    ensures rep == EntryReport(x, s, i)
  {
    if s.firstTree && x.m[0][i] != 1 {
      return NotShown;
    }
    var sumc := ColumnSum(x.m, i);
    if sumc != |x.m| && sumc > 0 {
      var totalcount, nums := CollectConflicts(x, s, i);
      SumFirst(nums);
      var props, sign := Normalize(nums, totalcount);
      var ica := UnsignedIcaOf(props, s.logn);
      rep := Conflicted(nums, totalcount, props[0], sign, ica);
    } else if sumc == |x.m| {
      rep := Universal;
    } else {
      rep := NotShown;
    }
  }

  /**
   * Analyses every entry in order, adding to TSCA the unsigned ICA of each
   * conflicted entry and 1 for each universal one.
   */
  method Analyze(x: Tables, s: Settings) returns (reports: seq<Report>, tsca: real)
    requires ValidTables(x)
    ensures |reports| == |x.counts|
    ensures forall i :: 0 <= i < |x.counts| ==> reports[i] == EntryReport(x, s, i)
    ensures tsca == Tsca(reports)
  {
    reports := [];
    tsca := 0.0;
    var i := 0;
    while i < |x.counts|
      invariant 0 <= i <= |x.counts| && |reports| == i
      invariant forall k :: 0 <= k < i ==> reports[k] == EntryReport(x, s, k)
      invariant tsca == Tsca(reports)
    {
      var rep := AnalyzeEntry(x, s, i);
      tsca := AddContribution(tsca, rep);
      TscaAppend(reports, rep);
      assert forall k :: 0 <= k < i ==> (reports + [rep])[k] == reports[k];
      reports := reports + [rep];
      i := i + 1;
    }
  }

  /** Adds an entry's share to TSCA: its unsigned ICA when conflicted, 1 when universal. */
  method AddContribution(tsca: real, rep: Report) returns (tsca2: real)
    ensures tsca2 == tsca + Contribution(rep)
  {
    tsca2 := tsca;
    match rep {
      case Conflicted(_, _, _, _, ica) =>
        tsca2 := tsca2 + ica;
      case Universal =>
        tsca2 := tsca2 + 1.0;
      case NotShown =>
    }
  }

  lemma TscaAppend(reps: seq<Report>, rep: Report)
    ensures Tsca(reps + [rep]) == Tsca(reps) + Contribution(rep)
  {
    assert (reps + [rep])[..|reps|] == reps;
  }

  /** When every tree has every entry, TSCA is the number of entries. */
  lemma {:induction false} AllUniversalTsca(reps: seq<Report>)
    requires forall k :: 0 <= k < |reps| ==> reps[k] == Universal
    ensures Tsca(reps) == |reps| as real
  {
    if reps != [] {
      AllUniversalTsca(reps[..|reps| - 1]);
    }
  }

  /** TSCA is at least the number of universal entries when no unsigned ICA is negative. */
  lemma {:induction false} TscaAtLeastUniversal(reps: seq<Report>)
    requires forall k :: 0 <= k < |reps| ==> Contribution(reps[k]) >= 0.0
    ensures Tsca(reps) >= |set k | 0 <= k < |reps| && reps[k] == Universal| as real
  {
    if reps != [] {
      var n := |reps| - 1;
      var init := reps[..n];
      TscaAtLeastUniversal(init);
      var before := set k | 0 <= k < n && init[k] == Universal;
      var after := set k | 0 <= k < |reps| && reps[k] == Universal;
      if reps[n] == Universal {
        assert after == before + {n};
      } else {
        assert after == before;
      }
    }
  }
}
