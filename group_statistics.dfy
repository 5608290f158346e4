/**
  Group statistics over a constructed dataset: the target values of one
  protected group, the number of them equal to an outcome, the overall rate of
  outcome 1, and the per-group conditional probability of an outcome.
 */
module GroupStatistics {
  import opened Wrappers
  import opened Frames
  import opened Schema

  /** The target cells of the rows whose protected cell equals `group`, in row order. */
  function Targets(prot: seq<Cell>, targ: seq<Cell>, group: int): (r: seq<Cell>)
    requires |prot| == |targ|
    ensures |r| == Occurrences(prot, group)
    decreases |prot|
  {
    if prot == [] then []
    else
      var n := |prot| - 1;
      Targets(prot[..n], targ[..n], group) + (if Matches(prot[n], group) then [targ[n]] else [])
  }

  /** The indices of the rows whose protected cell equals `group`, increasing. */
  function MatchingRows(prot: seq<Cell>, group: int): (rows: seq<nat>)
    ensures forall k :: 0 <= k < |rows| ==> rows[k] < |prot| && Matches(prot[rows[k]], group)
    ensures forall i :: 0 <= i < |prot| && Matches(prot[i], group) ==> i in rows
    ensures forall k, l :: 0 <= k < l < |rows| ==> rows[k] < rows[l]
  {
    if prot == [] then []
    else
      var n := |prot| - 1;
      MatchingRows(prot[..n], group) + (if Matches(prot[n], group) then [n] else [])
  }

  /** `Targets` picks the target cell of exactly the matching rows, in their order. */
  lemma {:induction false} TargetsAreMatchingRows(prot: seq<Cell>, targ: seq<Cell>, group: int)
    requires |prot| == |targ|
    ensures |Targets(prot, targ, group)| == |MatchingRows(prot, group)|
    ensures forall k :: 0 <= k < |Targets(prot, targ, group)| ==>
      Targets(prot, targ, group)[k] == targ[MatchingRows(prot, group)[k]]
  {
    if prot != [] {
      var n := |prot| - 1;
      TargetsAreMatchingRows(prot[..n], targ[..n], group);
      var rows := MatchingRows(prot[..n], group);
      forall k | 0 <= k < |rows| ensures targ[..n][rows[k]] == targ[rows[k]] {
        assert rows[k] < n;
      }
    }
  }

  /** The number of rows whose protected cell equals `group` and whose target equals `accepted`. */
  function JointCount(prot: seq<Cell>, targ: seq<Cell>, group: int, accepted: int): (n: nat)
    requires |prot| == |targ|
    ensures n <= Occurrences(prot, group)
    ensures n <= Occurrences(targ, accepted)
    decreases |prot|
  {
    if prot == [] then 0
    else
      var m := |prot| - 1;
      JointCount(prot[..m], targ[..m], group, accepted)
        + (if Matches(prot[m], group) && Matches(targ[m], accepted) then 1 else 0)
  }

  /** Counting the outcome among the group's targets is counting the rows that have both. */
  lemma {:induction false} CountIsJointCount(prot: seq<Cell>, targ: seq<Cell>, group: int, accepted: int)
    requires |prot| == |targ|
    ensures Occurrences(Targets(prot, targ, group), accepted) == JointCount(prot, targ, group, accepted)
  {
    if prot != [] {
      var n := |prot| - 1;
      var before := Targets(prot[..n], targ[..n], group);
      CountIsJointCount(prot[..n], targ[..n], group, accepted);
      if Matches(prot[n], group) {
        assert Targets(prot, targ, group) == before + [targ[n]];
        OccurrencesSnoc(before, targ[n], accepted);
      } else {
        assert Targets(prot, targ, group) == before;
      }
    }
  }

  /** `get_all_targets_of_group`: `data.loc[data[protectedCol] == group, targetCol].values`. */
  function GetAllTargetsOfGroup(d: Dataset, targetCol: string, protectedCol: string, group: int)
    : (r: Result<seq<Cell>, Error>)
    requires d.data.WellFormed()
    ensures protectedCol !in d.data.names ==> r == Failure(MissingColumn(protectedCol))
    ensures protectedCol in d.data.names && targetCol !in d.data.names ==> r == Failure(MissingColumn(targetCol))
    ensures protectedCol in d.data.names && targetCol in d.data.names ==> r.Success?
    ensures r.Success? ==>
      var prot := Column(d.data, protectedCol);
      var targ := Column(d.data, targetCol);
      var rows := MatchingRows(prot, group);
      && |r.value| == |rows| <= d.data.rows
      && (forall k :: 0 <= k < |r.value| ==> r.value[k] == targ[rows[k]])
      && (r.value == [] <==> forall i :: 0 <= i < |prot| ==> !Matches(prot[i], group))
  {
    if protectedCol !in d.data.names then Failure(MissingColumn(protectedCol))
    else if targetCol !in d.data.names then Failure(MissingColumn(targetCol))
    else
      var prot := Column(d.data, protectedCol);
      var targ := Column(d.data, targetCol);
      TargetsAreMatchingRows(prot, targ, group);
      OccurrencesExtremes(prot, group);
      Success(Targets(prot, targ, group))
  }

  /** `count_classification_and_category`: how many of the group's targets equal `accepted`. */
  function CountClassificationAndCategory(d: Dataset, targetCol: string, protectedCol: string, group: int, accepted: int)
    : (r: Result<nat, Error>)
    requires d.data.WellFormed()
    ensures protectedCol !in d.data.names ==> r == Failure(MissingColumn(protectedCol))
    ensures protectedCol in d.data.names && targetCol !in d.data.names ==> r == Failure(MissingColumn(targetCol))
    ensures protectedCol in d.data.names && targetCol in d.data.names ==> r.Success?
    ensures r.Success? ==>
      var prot := Column(d.data, protectedCol);
      var targ := Column(d.data, targetCol);
      && r.value == JointCount(prot, targ, group, accepted)
      && r.value <= Occurrences(prot, group)
      && (Occurrences(prot, group) == 0 ==> r.value == 0)
  {
    match GetAllTargetsOfGroup(d, targetCol, protectedCol, group)
    case Failure(e) => Failure(e)
    case Success(classes) =>
      CountIsJointCount(Column(d.data, protectedCol), Column(d.data, targetCol), group, accepted);
      Success(Occurrences(classes, accepted))
  }

  /** `prob_positive_classification`: the share of all rows whose target equals 1. */
  function ProbPositiveClassification(d: Dataset, targetCol: string): (r: Result<real, Error>)
    requires d.data.WellFormed()
    ensures targetCol !in d.data.names ==> r == Failure(MissingColumn(targetCol))
    ensures targetCol in d.data.names && d.data.rows == 0 ==> r == Failure(ZeroDivision)
    ensures targetCol in d.data.names && d.data.rows > 0 ==> r.Success?
    ensures r.Success? ==>
      var targ := Column(d.data, targetCol);
      && 0.0 <= r.value <= 1.0
      && r.value * (d.data.rows as real) == Occurrences(targ, 1) as real
      && (r.value == 0.0 <==> forall i :: 0 <= i < |targ| ==> !Matches(targ[i], 1))
      && (r.value == 1.0 <==> forall i :: 0 <= i < |targ| ==> Matches(targ[i], 1))
  {
    if targetCol !in d.data.names then Failure(MissingColumn(targetCol))
    else
      var targ := Column(d.data, targetCol);
      var posCounts := Occurrences(targ, 1);
      OccurrencesExtremes(targ, 1);
      if |targ| == 0 then Failure(ZeroDivision)
      else
        Success(Share(posCounts, |targ|))
  }

  /** `part / total` for a part of a non-empty total: a share in [0, 1], 0 and 1 exactly at the extremes. */
  function Share(part: nat, total: nat): (q: real)
    requires part <= total && total > 0
    ensures 0.0 <= q <= 1.0
    ensures q * (total as real) == part as real
    ensures q == 0.0 <==> part == 0
    ensures q == 1.0 <==> part == total
  {
    part as real / total as real
  }

  /** P(outcome == accepted | protected == group), estimated within one group. */
  function CondProb(prot: seq<Cell>, targ: seq<Cell>, group: int, accepted: int): (p: real)
    requires |prot| == |targ| && Occurrences(prot, group) > 0
    ensures 0.0 <= p <= 1.0
    ensures p == 0.0 <==> JointCount(prot, targ, group, accepted) == 0
    ensures p == 1.0 <==> JointCount(prot, targ, group, accepted) == Occurrences(prot, group)
  {
    Share(JointCount(prot, targ, group, accepted), Occurrences(prot, group))
  }

  /** A conditional probability is its group's outcome count divided by the member count. */
  lemma CondProbIsQuotient(prot: seq<Cell>, targ: seq<Cell>, group: int, accepted: int)
    requires |prot| == |targ| && Occurrences(prot, group) > 0
    ensures CondProb(prot, targ, group, accepted)
      == JointCount(prot, targ, group, accepted) as real / Occurrences(prot, group) as real
  {
  }

  /** `m` maps each code of `prot` to its conditional probability of outcome `accepted`. */
  ghost predicate IsConditionalProbMap(m: map<int, real>, prot: seq<Cell>, targ: seq<Cell>, accepted: int)
    requires |prot| == |targ|
  {
    && (forall g :: g in m <==> Occurrences(prot, g) > 0)
    && (forall g :: g in m ==> Occurrences(prot, g) > 0 && m[g] == CondProb(prot, targ, g, accepted))
  }

  /** `m` holds the conditional probabilities of exactly the groups `groups[..i]`. */
  ghost predicate FilledUpTo(m: map<int, real>, groups: seq<int>, i: nat, prot: seq<Cell>, targ: seq<Cell>, accepted: int)
    requires |prot| == |targ| && i <= |groups|
  {
    && (forall g :: g in m <==> g in groups[..i])
    && (forall g :: g in m ==> Occurrences(prot, g) > 0 && m[g] == CondProb(prot, targ, g, accepted))
  }

  /** Adding the next group's conditional probability extends the filled prefix by one group. */
  lemma FillNext(m: map<int, real>, groups: seq<int>, i: nat, prot: seq<Cell>, targ: seq<Cell>, accepted: int)
    requires |prot| == |targ| && i < |groups| && Occurrences(prot, groups[i]) > 0
    requires FilledUpTo(m, groups, i, prot, targ, accepted)
    ensures FilledUpTo(m[groups[i] := CondProb(prot, targ, groups[i], accepted)], groups, i + 1, prot, targ, accepted)
  {
    assert groups[..i + 1] == groups[..i] + [groups[i]];
  }

  /** `conditional_prob_for_group_category`: check the column names, then fill the map group by group. */
  method ConditionalProbForGroupCategory(d: Dataset, targetCol: string, protectedCol: string, accepted: int)
    returns (r: Result<map<int, real>, Error>)
    requires d.Valid()
    ensures targetCol !in d.targetCols ==> r == Failure(UnknownTargetColumn)
    ensures targetCol in d.targetCols && protectedCol !in d.protectedCols ==> r == Failure(UnknownProtectedColumn)
    ensures targetCol in d.targetCols && protectedCol in d.protectedCols ==>
      && r.Success?
      && IsConditionalProbMap(r.value, Column(d.data, protectedCol), Column(d.data, targetCol), accepted)
  {
    if targetCol !in d.targetCols {
      return Failure(UnknownTargetColumn);
    }
    if protectedCol !in d.protectedCols {
      return Failure(UnknownProtectedColumn);
    }
    var prot := Column(d.data, protectedCol);
    var targ := Column(d.data, targetCol);
    var conditionalProbs: map<int, real> := map[];
    var groups := Groups(prot);
    var protectedGroupCounts := GroupCounts(prot);
    for i := 0 to |groups|
      invariant FilledUpTo(conditionalProbs, groups, i, prot, targ, accepted)
    {
      var groupCategory := groups[i];
      var memberCount := protectedGroupCounts[groupCategory];
      var count := CountClassificationAndCategory(d, targetCol, protectedCol, groupCategory, accepted);
      CondProbIsQuotient(prot, targ, groupCategory, accepted);
      FillNext(conditionalProbs, groups, i, prot, targ, accepted);
      conditionalProbs := conditionalProbs[groupCategory := count.value as real / memberCount as real];
    }
    assert groups[..|groups|] == groups;
    return Success(conditionalProbs);
  }

  /** On the example rows group 1's outcomes are [1, 0, 1] and an absent group has none. */
  lemma ExampleTargets()
    ensures
      var prot := [Int(0), Int(0), Int(1), Int(1), Int(1)];
      var targ := [Int(0), Int(1), Int(1), Int(0), Int(1)];
      && Targets(prot, targ, 1) == [Int(1), Int(0), Int(1)]
      && Targets(prot, targ, 7) == []
  {
    var p1, t1 := [Int(0)], [Int(0)];
    var p2, t2 := p1 + [Int(0)], t1 + [Int(1)];
    var p3, t3 := p2 + [Int(1)], t2 + [Int(1)];
    var p4, t4 := p3 + [Int(1)], t3 + [Int(0)];
    var p5, t5 := p4 + [Int(1)], t4 + [Int(1)];
    assert p2[..1] == p1 && t2[..1] == t1;
    assert p3[..2] == p2 && t3[..2] == t2;
    assert p4[..3] == p3 && t4[..3] == t3;
    assert p5[..4] == p4 && t5[..4] == t4;
    assert Targets(p1, t1, 1) == [] && Targets(p1, t1, 7) == [];
    assert Targets(p2, t2, 1) == [] && Targets(p2, t2, 7) == [];
    assert Targets(p3, t3, 1) == [Int(1)] && Targets(p3, t3, 7) == [];
    assert Targets(p4, t4, 1) == [Int(1), Int(0)] && Targets(p4, t4, 7) == [];
    assert p5 == [Int(0), Int(0), Int(1), Int(1), Int(1)];
    assert t5 == [Int(0), Int(1), Int(1), Int(0), Int(1)];
  }

  /**
    Protected codes [0, 0, 1, 1, 1] with outcomes [0, 1, 1, 0, 1]: group 1's outcomes are
    [1, 0, 1], two of them positive, and the conditional probabilities of outcome 1 are
    1/2 for group 0 and 2/3 for group 1; an absent group has no outcomes.
   */
  lemma WorkedExample()
    ensures
      var prot := [Int(0), Int(0), Int(1), Int(1), Int(1)];
      var targ := [Int(0), Int(1), Int(1), Int(0), Int(1)];
      && Targets(prot, targ, 1) == [Int(1), Int(0), Int(1)]
      && JointCount(prot, targ, 1, 1) == 2
      && Occurrences(prot, 0) == 2 && Occurrences(prot, 1) == 3
      && CondProb(prot, targ, 0, 1) == 0.5
      && CondProb(prot, targ, 1, 1) == 2.0 / 3.0
      && Targets(prot, targ, 7) == []
  {
    var p1, t1 := [Int(0)], [Int(0)];
    var p2, t2 := p1 + [Int(0)], t1 + [Int(1)];
    var p3, t3 := p2 + [Int(1)], t2 + [Int(1)];
    var p4, t4 := p3 + [Int(1)], t3 + [Int(0)];
    var p5, t5 := p4 + [Int(1)], t4 + [Int(1)];
    assert p2[..1] == p1 && t2[..1] == t1;
    assert p3[..2] == p2 && t3[..2] == t2;
    assert p4[..3] == p3 && t4[..3] == t3;
    assert p5[..4] == p4 && t5[..4] == t4;
    assert Occurrences(p1, 0) == 1 && Occurrences(p1, 1) == 0;
    assert Occurrences(p2, 0) == 2 && Occurrences(p2, 1) == 0;
    assert Occurrences(p3, 0) == 2 && Occurrences(p3, 1) == 1;
    assert Occurrences(p4, 0) == 2 && Occurrences(p4, 1) == 2;
    ExampleTargets();
    assert JointCount(p1, t1, 0, 1) == 0 && JointCount(p1, t1, 1, 1) == 0;
    assert JointCount(p2, t2, 0, 1) == 1 && JointCount(p2, t2, 1, 1) == 0;
    assert JointCount(p3, t3, 0, 1) == 1 && JointCount(p3, t3, 1, 1) == 1;
    assert JointCount(p4, t4, 0, 1) == 1 && JointCount(p4, t4, 1, 1) == 1;
    assert p5 == [Int(0), Int(0), Int(1), Int(1), Int(1)];
    assert t5 == [Int(0), Int(1), Int(1), Int(0), Int(1)];
  }

  /** Three of the five example outcomes are 1. */
  lemma ExampleOutcomeCount()
    ensures Occurrences([Int(0), Int(1), Int(1), Int(0), Int(1)], 1) == 3
  {
    var t1 := [Int(0)];
    var t2 := t1 + [Int(1)];
    var t3 := t2 + [Int(1)];
    var t4 := t3 + [Int(0)];
    var t5 := t4 + [Int(1)];
    assert t2[..1] == t1 && t3[..2] == t2 && t4[..3] == t3 && t5[..4] == t4;
    assert Occurrences(t1, 1) == 0;
    assert Occurrences(t2, 1) == 1;
    assert Occurrences(t3, 1) == 2;
    assert Occurrences(t4, 1) == 2;
    assert t5 == [Int(0), Int(1), Int(1), Int(0), Int(1)];
  }

  /** The five example rows of `WorkedExample` as a dataset with one protected and one target column. */
  function ExampleDataset(): Dataset
  {
    var prot := [Int(0), Int(0), Int(1), Int(1), Int(1)];
    var targ := [Int(0), Int(1), Int(1), Int(0), Int(1)];
    Dataset(Table(["protected_x", "target_y"], [prot, targ], 5), ["protected_x"], ["target_y"])
  }

  /** Construction accepts the example table with exactly this classification. */
  lemma ExampleDatasetIsValid()
    ensures ExampleDataset().Valid()
  {
    var d := ExampleDataset();
    var names := d.data.names;
    assert ColumnsWithPrefix(names[..1], PROTECTED_PREFIX) == ["protected_x"];
    assert ColumnsWithPrefix(names, PROTECTED_PREFIX) == ["protected_x"];
    assert TARGET_PREFIX[0] != names[0][0];
    assert ColumnsWithPrefix(names[..1], TARGET_PREFIX) == [];
    assert ColumnsWithPrefix(names, TARGET_PREFIX) == ["target_y"];
    assert Column(d.data, "protected_x") == d.data.columns[0];
  }

  /** The members answer on the example dataset as the worked example computes, and fail on an unknown column. */
  lemma DatasetWorkedExample()
    ensures
      var d := ExampleDataset();
      && GetAllTargetsOfGroup(d, "target_y", "protected_x", 1) == Success([Int(1), Int(0), Int(1)])
      && GetAllTargetsOfGroup(d, "target_y", "protected_q", 1) == Failure(MissingColumn("protected_q"))
      && CountClassificationAndCategory(d, "target_y", "protected_x", 0, 1) == Success(1)
      && CountClassificationAndCategory(d, "target_y", "protected_x", 1, 1) == Success(2)
      && ProbPositiveClassification(d, "target_y") == Success(0.6)
  {
    var d := ExampleDataset();
    var targ := d.data.columns[1];
    WorkedExample();
    assert Column(d.data, "protected_x") == d.data.columns[0];
    assert Column(d.data, "target_y") == targ;
    ExampleOutcomeCount();
  }

  /** On the example rows, the only conditional probability map for outcome 1 is {0: 0.5, 1: 2/3}. */
  lemma WorkedExampleProbMap(m: map<int, real>)
    requires IsConditionalProbMap(m, ExampleDataset().data.columns[0], ExampleDataset().data.columns[1], 1)
    ensures m == map[0 := 0.5, 1 := 2.0 / 3.0]
  {
    var prot := ExampleDataset().data.columns[0];
    WorkedExample();
    assert m.Keys == {0, 1} by {
      forall g ensures g in m <==> g == 0 || g == 1 {
        if g != 0 && g != 1 {
          OccurrencesExtremes(prot, g);
        }
      }
    }
  }
}
