/**
 * Age bucketing: `pd.cut(age, bins=[0, 18, 35, 50, 65, inf], labels=...)`
 * with pandas' defaults (right-closed intervals, lowest edge excluded), so
 * the buckets are (0,18], (18,35], (35,50], (50,65] and (65,inf). An age
 * outside every interval (0 or less) gets a missing value.
 */
module AgeGroups {
  import opened Wrappers

  /** The ordered categories of the `Age Group` column. */
  datatype Label = Age0To17 | Age18To35 | Age36To50 | Age51To65 | Age65Plus {

    /** Position of the label in the ordered categorical. */
    function Index(): nat {
      match this
      case Age0To17 => 0
      case Age18To35 => 1
      case Age36To50 => 2
      case Age51To65 => 3
      case Age65Plus => 4
    }

    /** The label string shown on the chart. */
    function Text(): string {
      match this
      case Age0To17 => "0-17"
      case Age18To35 => "18-35"
      case Age36To50 => "36-50"
      case Age51To65 => "51-65"
      case Age65Plus => "65+"
    }
  }

  /** `age_labels`, in category order. */
  const AgeLabels: seq<Label> := [Age0To17, Age18To35, Age36To50, Age51To65, Age65Plus]

  /** The label strings of `age_labels`, in category order. */
  const AgeLabelTexts: seq<string> := ["0-17", "18-35", "36-50", "51-65", "65+"]

  /** Each category shows the string at its own position of `age_labels`,
      and no two categories share a string. */
  lemma AgeLabelsText()
    ensures |AgeLabels| == |AgeLabelTexts|
    ensures forall i :: 0 <= i < |AgeLabels| ==> AgeLabels[i].Text() == AgeLabelTexts[i]
    ensures forall l1: Label, l2: Label :: l1.Text() == l2.Text() ==> l1 == l2
  {
  }

  /** The finite edges of `age_bins`; the final edge, `float('inf')`, stays
      implicit: no integer age reaches it. */
  const BinEdges: seq<int> := [0, 18, 35, 50, 65]

  /** Number of edges strictly below `x`: pandas' `searchsorted(x, side='left')`
      on the sorted edges, which `cut` uses for right-closed bins. */
  function EdgesBelow(edges: seq<int>, x: int): (n: nat)
    ensures n <= |edges|
  {
    if edges == [] then 0
    else (if edges[0] < x then 1 else 0) + EdgesBelow(edges[1..], x)
  }

  /** `age` lies in the right-closed interval of label `l`. */
  predicate InBin(age: int, l: Label) {
    BinEdges[l.Index()] < age && (l.Index() + 1 < |BinEdges| ==> age <= BinEdges[l.Index() + 1])
  }

  /** The edges below `age`, spelled out for the fixed bins. */
  lemma EdgesBelowBins(age: int)
    ensures EdgesBelow(BinEdges, age) ==
      if age <= 0 then 0 else if age <= 18 then 1 else if age <= 35 then 2
      else if age <= 50 then 3 else if age <= 65 then 4 else 5
  {
    var e0, e1, e2, e3, e4 := BinEdges, [18, 35, 50, 65], [35, 50, 65], [50, 65], [65];
    assert e0[1..] == e1 && e1[1..] == e2 && e2[1..] == e3 && e3[1..] == e4 && e4[1..] == [];
    assert EdgesBelow(e4, age) == if 65 < age then 1 else 0;
    assert EdgesBelow(e3, age) == (if 50 < age then 1 else 0) + EdgesBelow(e4, age);
    assert EdgesBelow(e2, age) == (if 35 < age then 1 else 0) + EdgesBelow(e3, age);
    assert EdgesBelow(e1, age) == (if 18 < age then 1 else 0) + EdgesBelow(e2, age);
  }

  /** The bucket of one age: the label of the interval holding it, or
      missing when no interval does. */
  function Cut(age: int): (r: Option<Label>)
    ensures r.None? <==> age <= 0
    ensures forall l :: r == Some(l) <==> InBin(age, l)
  {
    EdgesBelowBins(age);
    var n := EdgesBelow(BinEdges, age);
    if n == 0 then None else Some(AgeLabels[n - 1])
  }

  /** The label order and the label indices agree. */
  lemma AgeLabelsIndexed()
    ensures |AgeLabels| == 5
    ensures forall i :: 0 <= i < |AgeLabels| ==> AgeLabels[i].Index() == i
    ensures forall l: Label :: l.Index() < |AgeLabels| && AgeLabels[l.Index()] == l
  {
  }

  /** Every label occurs exactly once in the label order. */
  lemma AgeLabelsDistinct()
    ensures forall l: Label :: multiset(AgeLabels)[l] == 1
  {
    var m := multiset(AgeLabels);
    assert m == multiset{Age0To17} + multiset{Age18To35} + multiset{Age36To50} + multiset{Age51To65} + multiset{Age65Plus};
    forall l: Label
      ensures m[l] == 1
    {
      match l
      case Age0To17 =>
      case Age18To35 =>
      case Age36To50 =>
      case Age51To65 =>
      case Age65Plus =>
    }
  }

  /** The boundaries as the code draws them, not as the label strings read. */
  lemma CutBoundaries(age: int)
    ensures age <= 0 ==> Cut(age) == None
    ensures 1 <= age <= 18 ==> Cut(age) == Some(Age0To17)
    ensures 19 <= age <= 35 ==> Cut(age) == Some(Age18To35)
    ensures 36 <= age <= 50 ==> Cut(age) == Some(Age36To50)
    ensures 51 <= age <= 65 ==> Cut(age) == Some(Age51To65)
    ensures 66 <= age ==> Cut(age) == Some(Age65Plus)
  {
  }

  /** The intervals do not overlap: an age lies in at most one of them. */
  lemma BinsDisjoint(age: int, l1: Label, l2: Label)
    requires InBin(age, l1) && InBin(age, l2)
    ensures l1 == l2
  {
  }

  /** Counting edges below is monotone in the value. */
  lemma {:induction false} EdgesBelowMonotone(edges: seq<int>, a: int, b: int)
    requires a <= b
    ensures EdgesBelow(edges, a) <= EdgesBelow(edges, b)
  {
    if edges != [] {
      EdgesBelowMonotone(edges[1..], a, b);
    }
  }

  /** Bucketing is monotone: an older person never gets an earlier label. */
  lemma CutMonotone(a: int, b: int)
    requires a <= b && Cut(a).Some? && Cut(b).Some?
    ensures Cut(a).value.Index() <= Cut(b).value.Index()
  {
    EdgesBelowMonotone(BinEdges, a, b);
    EdgesBelowBins(a);
    EdgesBelowBins(b);
  }
}
