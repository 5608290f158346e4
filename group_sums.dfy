/** Sums over the groups of a protected column, and what the conditional probabilities add up to. */
module GroupSums {
  import opened Wrappers
  import opened Frames
  import opened Schema
  import opened GroupStatistics

  /** The member counts of the groups `gs`, added up. */
  function MemberCountSum(gs: seq<int>, prot: seq<Cell>): nat
  {
    if gs == [] then 0
    else MemberCountSum(gs[..|gs| - 1], prot) + Occurrences(prot, gs[|gs| - 1])
  }

  /** The per-group counts of outcome `accepted`, added up over the groups `gs`. */
  function AcceptedCountSum(gs: seq<int>, prot: seq<Cell>, targ: seq<Cell>, accepted: int): nat
    requires |prot| == |targ|
  {
    if gs == [] then 0
    else AcceptedCountSum(gs[..|gs| - 1], prot, targ, accepted) + JointCount(prot, targ, gs[|gs| - 1], accepted)
  }

  /** The number of groups in `gs` that the cell `c` belongs to. */
  function Hits(gs: seq<int>, c: Cell): nat
  {
    if gs == [] then 0
    else Hits(gs[..|gs| - 1], c) + (if Matches(c, gs[|gs| - 1]) then 1 else 0)
  }

  /** An integer cell belongs to exactly one of a duplicate-free list of groups that holds its code. */
  lemma {:induction false} HitsOfCode(gs: seq<int>, v: int)
    requires NoDuplicates(gs)
    ensures Hits(gs, Int(v)) == if v in gs then 1 else 0
  {
    if gs != [] {
      var init := gs[..|gs| - 1];
      assert gs == init + [gs[|gs| - 1]];
      HitsOfCode(init, v);
      if gs[|gs| - 1] == v {
        assert v !in init;
      }
    }
  }

  lemma {:induction false} JointCountSnoc(prot: seq<Cell>, targ: seq<Cell>, x: Cell, y: Cell, group: int, accepted: int)
    requires |prot| == |targ|
    ensures JointCount(prot + [x], targ + [y], group, accepted)
      == JointCount(prot, targ, group, accepted) + (if Matches(x, group) && Matches(y, accepted) then 1 else 0)
  {
    assert (prot + [x])[..|prot|] == prot;
    assert (targ + [y])[..|targ|] == targ;
  }

  lemma {:induction false} MemberCountSumSnoc(gs: seq<int>, prot: seq<Cell>, x: Cell)
    ensures MemberCountSum(gs, prot + [x]) == MemberCountSum(gs, prot) + Hits(gs, x)
  {
    if gs != [] {
      MemberCountSumSnoc(gs[..|gs| - 1], prot, x);
      OccurrencesSnoc(prot, x, gs[|gs| - 1]);
    }
  }

  lemma {:induction false} AcceptedCountSumSnoc(gs: seq<int>, prot: seq<Cell>, targ: seq<Cell>, x: Cell, y: Cell, accepted: int)
    requires |prot| == |targ|
    ensures AcceptedCountSum(gs, prot + [x], targ + [y], accepted)
      == AcceptedCountSum(gs, prot, targ, accepted) + (if Matches(y, accepted) then Hits(gs, x) else 0)
  {
    if gs != [] {
      AcceptedCountSumSnoc(gs[..|gs| - 1], prot, targ, x, y, accepted);
      JointCountSnoc(prot, targ, x, y, gs[|gs| - 1], accepted);
    }
  }

  lemma {:induction false} SumsOfEmptyColumn(gs: seq<int>, accepted: int)
    ensures MemberCountSum(gs, []) == 0
    ensures AcceptedCountSum(gs, [], [], accepted) == 0
  {
    if gs != [] {
      SumsOfEmptyColumn(gs[..|gs| - 1], accepted);
    }
  }

  /** Groups that cover every row once: member counts add up to the rows, outcome counts to the column's. */
  lemma {:induction false} CoveringGroupSums(gs: seq<int>, prot: seq<Cell>, targ: seq<Cell>, accepted: int)
    requires NoDuplicates(gs) && |prot| == |targ|
    requires forall i :: 0 <= i < |prot| ==> prot[i].Int? && prot[i].value in gs
    ensures MemberCountSum(gs, prot) == |prot|
    ensures AcceptedCountSum(gs, prot, targ, accepted) == Occurrences(targ, accepted)
  {
    if prot == [] {
      SumsOfEmptyColumn(gs, accepted);
    } else {
      var n := |prot| - 1;
      var p, t := prot[..n], targ[..n];
      CoveringGroupSums(gs, p, t, accepted);
      assert prot == p + [prot[n]] && targ == t + [targ[n]];
      MemberCountSumSnoc(gs, p, prot[n]);
      AcceptedCountSumSnoc(gs, p, t, prot[n], targ[n], accepted);
      HitsOfCode(gs, prot[n].value);
      OccurrencesSnoc(t, targ[n], accepted);
    }
  }

  /** `np.unique`'s counts of a protected column add up to its number of rows. */
  lemma MemberCountsSumToRows(prot: seq<Cell>)
    requires AllIntCodes(prot)
    ensures MemberCountSum(Groups(prot), prot) == |prot|
  {
    InGroups(prot);
    CoveringGroupSums(Groups(prot), prot, prot, 0);
  }

  /** The groups' counts of an outcome add up to the outcome's count over the whole column. */
  lemma AcceptedCountsSumToTotal(prot: seq<Cell>, targ: seq<Cell>, accepted: int)
    requires AllIntCodes(prot) && |prot| == |targ|
    ensures AcceptedCountSum(Groups(prot), prot, targ, accepted) == Occurrences(targ, accepted)
  {
    InGroups(prot);
    CoveringGroupSums(Groups(prot), prot, targ, accepted);
  }

  lemma InGroups(prot: seq<Cell>)
    requires AllIntCodes(prot)
    ensures NoDuplicates(Groups(prot))
    ensures forall i :: 0 <= i < |prot| ==> prot[i].Int? && prot[i].value in Groups(prot)
  {
    forall i | 0 <= i < |prot| ensures prot[i].Int? && prot[i].value in Groups(prot) {
      OccurrencesExtremes(prot, prot[i].value);
      assert Matches(prot[i], prot[i].value);
    }
  }

  /** The overall rate of outcome 1 is the sum of the groups' outcome-1 counts over the row count. */
  lemma {:induction false} PositiveRateIsGroupWeighted(d: Dataset, targetCol: string, protectedCol: string)
    requires d.Valid() && targetCol in d.targetCols && protectedCol in d.protectedCols && d.data.rows > 0
    ensures
      var prot := Column(d.data, protectedCol);
      var targ := Column(d.data, targetCol);
      && AcceptedCountSum(Groups(prot), prot, targ, 1) <= d.data.rows
      && ProbPositiveClassification(d, targetCol) == Success(Share(AcceptedCountSum(Groups(prot), prot, targ, 1), d.data.rows))
  {
    var prot := Column(d.data, protectedCol);
    var targ := Column(d.data, targetCol);
    AcceptedCountsSumToTotal(prot, targ, 1);
  }

  /** A probability `w` weighted by a member count `c`. */
  function Weighted(w: real, c: nat): real
  {
    w * (c as real)
  }

  /** The probabilities `m[g]` of the groups `gs`, each weighted by its member count `counts[g]`, added up. */
  function WeightedSum(gs: seq<int>, m: map<int, real>, counts: map<int, nat>): real
    requires forall j :: 0 <= j < |gs| ==> gs[j] in m && gs[j] in counts
  {
    if gs == [] then 0.0
    else WeightedSum(gs[..|gs| - 1], m, counts) + Weighted(m[gs[|gs| - 1]], counts[gs[|gs| - 1]])
  }

  lemma WeightedQuotient(q: real, a: nat, b: nat)
    requires b > 0 && q == a as real / b as real
    ensures Weighted(q, b) == a as real
  {
  }

  lemma WeightedSumSnoc(gs: seq<int>, m: map<int, real>, counts: map<int, nat>)
    requires gs != [] && forall j :: 0 <= j < |gs| ==> gs[j] in m && gs[j] in counts
    ensures
      var g := gs[|gs| - 1];
      WeightedSum(gs, m, counts) == WeightedSum(gs[..|gs| - 1], m, counts) + Weighted(m[g], counts[g])
  {
  }

  /** A group's conditional probability times its member count is its outcome count. */
  lemma CondProbTimesCount(
    m: map<int, real>, counts: map<int, nat>, prot: seq<Cell>, targ: seq<Cell>, g: int, accepted: int)
    requires |prot| == |targ|
    requires IsConditionalProbMap(m, prot, targ, accepted)
    requires g in m && g in counts && counts[g] == Occurrences(prot, g)
    ensures Weighted(m[g], counts[g]) == JointCount(prot, targ, g, accepted) as real
  {
    var w := m[g];
    var c := counts[g];
    var hits := JointCount(prot, targ, g, accepted);
    assert w == CondProb(prot, targ, g, accepted);
    CondProbIsQuotient(prot, targ, g, accepted);
    assert w == hits as real / c as real;
    WeightedQuotient(w, hits, c);
  }

  /** Adding a group to the weighted sum adds that group's outcome count. */
  lemma WeightedSumStep(
    gs: seq<int>, m: map<int, real>, counts: map<int, nat>, prot: seq<Cell>, targ: seq<Cell>, accepted: int)
    requires |prot| == |targ|
    requires IsConditionalProbMap(m, prot, targ, accepted)
    requires forall g :: g in counts ==> counts[g] == Occurrences(prot, g)
    requires gs != [] && forall j :: 0 <= j < |gs| ==> gs[j] in m && gs[j] in counts
    ensures WeightedSum(gs, m, counts)
      == WeightedSum(gs[..|gs| - 1], m, counts) + JointCount(prot, targ, gs[|gs| - 1], accepted) as real
  {
    var g := gs[|gs| - 1];
    var before := WeightedSum(gs[..|gs| - 1], m, counts);
    var product := Weighted(m[g], counts[g]);
    var hits := JointCount(prot, targ, g, accepted);
    WeightedSumSnoc(gs, m, counts);
    assert WeightedSum(gs, m, counts) == before + product;
    CondProbTimesCount(m, counts, prot, targ, g, accepted);
    assert product == hits as real;
  }

  /** Weighting a conditional probability map by the member counts gives back the outcome counts. */
  lemma {:induction false} WeightedSumIsAcceptedCount(
    gs: seq<int>, m: map<int, real>, counts: map<int, nat>, prot: seq<Cell>, targ: seq<Cell>, accepted: int)
    requires |prot| == |targ|
    requires IsConditionalProbMap(m, prot, targ, accepted)
    requires forall g :: g in counts ==> counts[g] == Occurrences(prot, g)
    requires forall j :: 0 <= j < |gs| ==> gs[j] in m && gs[j] in counts
    ensures WeightedSum(gs, m, counts) == AcceptedCountSum(gs, prot, targ, accepted) as real
  {
    if gs != [] {
      var g := gs[|gs| - 1];
      WeightedSumIsAcceptedCount(gs[..|gs| - 1], m, counts, prot, targ, accepted);
      WeightedSumStep(gs, m, counts, prot, targ, accepted);
    }
  }

  /**
    The rate `prob_positive_classification` reports is the mean of the conditional
    probabilities of outcome 1 that `conditional_prob_for_group_category` reports, each
    weighted by the group's member count in `protected_group_counts`.
   */
  lemma PositiveRateIsWeightedMean(d: Dataset, targetCol: string, protectedCol: string, m: map<int, real>)
    requires d.Valid() && targetCol in d.targetCols && protectedCol in d.protectedCols && d.data.rows > 0
    requires IsConditionalProbMap(m, Column(d.data, protectedCol), Column(d.data, targetCol), 1)
    ensures
      var prot := Column(d.data, protectedCol);
      && (forall j :: 0 <= j < |Groups(prot)| ==> Groups(prot)[j] in m && Groups(prot)[j] in GroupCounts(prot))
      && ProbPositiveClassification(d, targetCol)
         == Success(WeightedSum(Groups(prot), m, GroupCounts(prot)) / (d.data.rows as real))
  {
    var prot := Column(d.data, protectedCol);
    var targ := Column(d.data, targetCol);
    var gs := Groups(prot);
    assert forall j :: 0 <= j < |gs| ==> gs[j] in m && gs[j] in GroupCounts(prot) by {
      forall j | 0 <= j < |gs| ensures gs[j] in m && gs[j] in GroupCounts(prot) {
        assert gs[j] in gs;
      }
    }
    PositiveRateIsGroupWeighted(d, targetCol, protectedCol);
    WeightedSumIsAcceptedCount(gs, m, GroupCounts(prot), prot, targ, 1);
  }

  /** With outcomes in {0, 1}, each member of a group has exactly one of the two outcomes. */
  lemma {:induction false} BinaryOutcomesSplitGroup(prot: seq<Cell>, targ: seq<Cell>, group: int)
    requires |prot| == |targ|
    requires forall i :: 0 <= i < |targ| ==> Matches(targ[i], 0) || Matches(targ[i], 1)
    ensures JointCount(prot, targ, group, 0) + JointCount(prot, targ, group, 1) == Occurrences(prot, group)
  {
    if prot != [] {
      var n := |prot| - 1;
      BinaryOutcomesSplitGroup(prot[..n], targ[..n], group);
    }
  }

  /** Shares of two parts that make up the total add up to 1. */
  lemma SharesOfPartition(a: nat, b: nat, total: nat)
    requires a + b == total && total > 0
    ensures Share(a, total) + Share(b, total) == 1.0
  {
    assert a as real / total as real + b as real / total as real == (a + b) as real / total as real;
  }

  /**
    For binary outcomes the maps for `accepted = 0` and `accepted = 1` have the same groups,
    and a group's two probabilities add up to 1.
   */
  lemma ConditionalProbsComplement(m0: map<int, real>, m1: map<int, real>, prot: seq<Cell>, targ: seq<Cell>)
    requires |prot| == |targ|
    requires forall i :: 0 <= i < |targ| ==> Matches(targ[i], 0) || Matches(targ[i], 1)
    requires IsConditionalProbMap(m0, prot, targ, 0) && IsConditionalProbMap(m1, prot, targ, 1)
    ensures m0.Keys == m1.Keys
    ensures forall g :: g in m0 ==> m0[g] + m1[g] == 1.0
  {
    assert forall g :: g in m0.Keys <==> g in m1.Keys;
    forall g | g in m0 ensures m0[g] + m1[g] == 1.0 {
      BinaryOutcomesSplitGroup(prot, targ, g);
      SharesOfPartition(JointCount(prot, targ, g, 0), JointCount(prot, targ, g, 1), Occurrences(prot, g));
    }
  }
}
