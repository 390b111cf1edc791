/**
 * The data pipeline of the dashboard: derive `age` and `Age Group` for every
 * person of the roster (`load_and_process_data`), then aggregate them by sex,
 * by age group and by job title (`create_figures`), without the plotting.
 */
module People {
  import opened Wrappers
  import opened Ages
  import opened AgeGroups
  import opened ValueCounts

  /** One row of the roster as read: `Sex`, `Date of birth` (already parsed)
      and `Job Title`; a text column may hold a missing value. */
  datatype Person = Person(sex: Option<string>, birth: Date, jobTitle: Option<string>)

  /** A roster row with the two derived columns. */
  datatype Row = Row(person: Person, age: int, ageGroup: Option<Label>)

  /** Per job title: the sum of the ages and the number of rows, from which
      the chart's mean age is divided out. */
  datatype TitleGroup = TitleGroup(title: string, ageSum: int, size: nat)

  function ProcessRow(person: Person, today: Date): Row {
    var age := CalculateAge(person.birth, today);
    Row(person, age, Cut(age))
  }

  function Processor(today: Date): Person -> Row {
    person => ProcessRow(person, today)
  }

  /** Adds the `age` column (completed years at `today`) and the `Age Group`
      column (its bucket, or missing) to every row; the roster itself and its
      row order are unchanged. */
  function LoadAndProcessData(people: seq<Person>, today: Date): (rows: seq<Row>)
    ensures |rows| == |people|
    ensures forall i :: 0 <= i < |rows| ==> rows[i].person == people[i]
    ensures forall i :: 0 <= i < |rows| ==>
      OnOrBefore(Anniversary(people[i].birth, rows[i].age), today) &&
      Before(today, Anniversary(people[i].birth, rows[i].age + 1))
    ensures forall i :: 0 <= i < |rows| ==> (rows[i].ageGroup.None? <==> rows[i].age <= 0)
    ensures forall i, l :: 0 <= i < |rows| ==> (rows[i].ageGroup == Some(l) <==> InBin(rows[i].age, l))
  {
    MapSeq(Processor(today), people)
  }

  function SexOf(row: Row): Option<string> {
    row.person.sex
  }

  function AgeGroupOf(row: Row): Option<Label> {
    row.ageGroup
  }

  function TitleOf(row: Row): Option<string> {
    row.person.jobTitle
  }

  function TitleOfGroup(group: TitleGroup): string {
    group.title
  }

  /** The `Sex` column. */
  function SexColumn(rows: seq<Row>): seq<Option<string>> {
    MapSeq(SexOf, rows)
  }

  /** The `Age Group` column. */
  function AgeGroupColumn(rows: seq<Row>): seq<Option<Label>> {
    MapSeq(AgeGroupOf, rows)
  }

  /** The `Job Title` column. */
  function TitleColumn(rows: seq<Row>): seq<Option<string>> {
    MapSeq(TitleOf, rows)
  }

  /** Sort key of `sort_values('Age Group')`: the category position. */
  function LabelOrder(row: (Label, nat)): int {
    row.0.Index()
  }

  /** `df['Sex'].value_counts()`: one row per distinct present sex with the
      number of rows holding it, largest counts first; the counts add up to
      the rows whose sex is present. */
  function SexCounts(sex: seq<Option<string>>): (counts: seq<(string, nat)>)
    ensures forall x :: Occurrences(Keys(counts), x) == if Some(x) in sex then 1 else 0
    ensures forall i :: 0 <= i < |counts| ==>
      counts[i].1 == Occurrences(sex, Some(counts[i].0)) && counts[i].1 > 0
    ensures SortedBy(counts, CountDescending)
    ensures TotalCount(counts) == |sex| - Occurrences(sex, None)
  {
    var present := Present(sex);
    var counts := SortBy(Tally(present, Distinct(present)), CountDescending);
    ValueCountsRows(sex, counts);
    counts
  }

  /** Re-sorting by the ordered categorical restores the label order,
      whatever order `value_counts` returned its rows in. */
  lemma {:induction false} AgeGroupOrderFixed(present: seq<Label>, byCount: seq<(Label, nat)>)
    requires multiset(byCount) == multiset(Tally(present, AgeLabels))
    ensures SortBy(byCount, LabelOrder) == Tally(present, AgeLabels)
  {
    AgeLabelsIndexed();
    var tally := Tally(present, AgeLabels);
    assert StrictlySortedBy(tally, LabelOrder);
    SortedPermutationUnique(SortBy(byCount, LabelOrder), tally, LabelOrder);
  }

  /** The age-group aggregate: exactly the five labels in category order,
      zero counts included, each with the number of rows in that bucket;
      the counts add up to the rows that have a bucket. */
  function AgeGroupCounts(groups: seq<Option<Label>>): (counts: seq<(Label, nat)>)
    ensures |counts| == |AgeLabels|
    ensures forall i :: 0 <= i < |counts| ==>
      counts[i].0 == AgeLabels[i] && counts[i].1 == Occurrences(groups, Some(AgeLabels[i]))
    ensures TotalCount(counts) == |groups| - Occurrences(groups, None)
  {
    var tally := Tally(Present(groups), AgeLabels);
    var counts := SortBy(SortBy(tally, CountDescending), LabelOrder);
    assert counts == tally by { AgeGroupSortsCancel(Present(groups)); }
    AgeGroupTally(groups, counts);
    counts
  }

  /** `value_counts` orders the tally by count, `sort_values` restores the
      label order. */
  lemma AgeGroupSortsCancel(present: seq<Label>)
    ensures SortBy(SortBy(Tally(present, AgeLabels), CountDescending), LabelOrder) == Tally(present, AgeLabels)
  {
    AgeGroupOrderFixed(present, SortBy(Tally(present, AgeLabels), CountDescending));
  }

  /** The tally of an age-group column over the five labels, counted
      against the column. */
  lemma AgeGroupTally(column: seq<Option<Label>>, tally: seq<(Label, nat)>)
    requires tally == Tally(Present(column), AgeLabels)
    ensures |tally| == |AgeLabels|
    ensures forall i :: 0 <= i < |tally| ==>
      tally[i].0 == AgeLabels[i] && tally[i].1 == Occurrences(column, Some(AgeLabels[i]))
    ensures TotalCount(tally) == |column| - Occurrences(column, None)
  {
    PresentTally(column, AgeLabels);
    AgeLabelsDistinct();
    TallyTotal(Present(column), AgeLabels);
    OccurrencesIsMultiplicity(column, None);
  }

  /** The sum of the ages of the rows with job title `title`. */
  function AgeSumFor(rows: seq<Row>, title: string): int {
    if rows == [] then 0
    else (if rows[0].person.jobTitle == Some(title) then rows[0].age else 0) + AgeSumFor(rows[1..], title)
  }

  function GroupOf(rows: seq<Row>, present: seq<string>): string -> TitleGroup {
    title => TitleGroup(title, AgeSumFor(rows, title), multiset(present)[title])
  }

  /** `df.groupby('Job Title')['age']`, before the mean: one group per
      distinct present title, each with a positive size equal to the number
      of rows holding that title and the sum of those rows' ages. */
  function JobTitleGroups(rows: seq<Row>): (groups: seq<TitleGroup>)
    ensures forall x :: Occurrences(MapSeq(TitleOfGroup, groups), x) == if Some(x) in TitleColumn(rows) then 1 else 0
    ensures forall i :: 0 <= i < |groups| ==>
      groups[i].size == Occurrences(TitleColumn(rows), Some(groups[i].title)) && groups[i].size > 0
    ensures forall i :: 0 <= i < |groups| ==> groups[i].ageSum == AgeSumFor(rows, groups[i].title)
  {
    var present := Present(TitleColumn(rows));
    var titles := Distinct(present);
    var groups := MapSeq(GroupOf(rows, present), titles);
    assert forall i :: 0 <= i < |groups| ==>
      groups[i].title == titles[i] && groups[i].size == multiset(present)[titles[i]] &&
      groups[i].ageSum == AgeSumFor(rows, titles[i]);
    assert MapSeq(TitleOfGroup, groups) == titles;
    DistinctPresent(TitleColumn(rows));
    groups
  }

  lemma {:induction false} AgeSumBounds(rows: seq<Row>, title: string, lo: int, hi: int)
    requires forall i :: 0 <= i < |rows| ==> lo <= rows[i].age <= hi
    ensures lo * Occurrences(TitleColumn(rows), Some(title)) <= AgeSumFor(rows, title)
    ensures AgeSumFor(rows, title) <= hi * Occurrences(TitleColumn(rows), Some(title))
  {
    if rows != [] {
      var column := TitleColumn(rows);
      assert column[1..] == TitleColumn(rows[1..]);
      AgeSumBounds(rows[1..], title, lo, hi);
      var n := Occurrences(column[1..], Some(title));
      var rest := AgeSumFor(rows[1..], title);
      assert |column| == |rows| && column[0] == TitleOf(rows[0]);
      if rows[0].person.jobTitle == Some(title) {
        assert Occurrences(column, Some(title)) == n + 1;
        assert AgeSumFor(rows, title) == rows[0].age + rest;
        assert lo * (n + 1) == lo * n + lo;
        assert hi * (n + 1) == hi * n + hi;
      } else {
        assert Occurrences(column, Some(title)) == n;
        assert AgeSumFor(rows, title) == rest;
      }
    }
  }

  /** The mean age of every job-title group lies within the range of the
      ages: `lo * size <= ageSum <= hi * size`. */
  lemma JobTitleMeanWithinAgeRange(rows: seq<Row>, lo: int, hi: int, i: int)
    requires forall k :: 0 <= k < |rows| ==> lo <= rows[k].age <= hi
    requires 0 <= i < |JobTitleGroups(rows)|
    ensures var g := JobTitleGroups(rows)[i];
      lo * g.size <= g.ageSum <= hi * g.size
  {
    var g := JobTitleGroups(rows)[i];
    var present := Present(TitleColumn(rows));
    assert g == GroupOf(rows, present)(Distinct(present)[i]);
    AgeSumBounds(rows, g.title, lo, hi);
  }

  /** The sum of the ages of the rows whose job title is one of `titles`. */
  function AgeSumIn(rows: seq<Row>, titles: seq<string>): int {
    if rows == [] then 0
    else
      var held := rows[0].person.jobTitle.Some? && rows[0].person.jobTitle.value in titles;
      (if held then rows[0].age else 0) + AgeSumIn(rows[1..], titles)
  }

  /** The sum of the ages of the rows that have a job title. */
  function TitledAgeSum(rows: seq<Row>): int {
    if rows == [] then 0
    else (if rows[0].person.jobTitle.Some? then rows[0].age else 0) + TitledAgeSum(rows[1..])
  }

  /** The age sums of a sequence of groups, added up. */
  function GroupsAgeTotal(groups: seq<TitleGroup>): int {
    if groups == [] then 0 else groups[0].ageSum + GroupsAgeTotal(groups[1..])
  }

  /** Summing over no titles gives nothing. */
  lemma {:induction false} AgeSumInNothing(rows: seq<Row>)
    ensures AgeSumIn(rows, []) == 0
  {
    if rows != [] {
      AgeSumInNothing(rows[1..]);
    }
  }

  /** Adding a title not yet among `titles` adds that title's age sum. */
  lemma {:induction false} AgeSumInCons(rows: seq<Row>, title: string, titles: seq<string>)
    requires title !in titles
    ensures AgeSumIn(rows, [title] + titles) == AgeSumFor(rows, title) + AgeSumIn(rows, titles)
  {
    if rows != [] {
      AgeSumInCons(rows[1..], title, titles);
    }
  }

  /** Titles that cover every job title of the rows sum the ages of all
      rows that have a title. */
  lemma {:induction false} AgeSumInCovering(rows: seq<Row>, titles: seq<string>)
    requires forall k :: 0 <= k < |rows| && rows[k].person.jobTitle.Some? ==> rows[k].person.jobTitle.value in titles
    ensures AgeSumIn(rows, titles) == TitledAgeSum(rows)
  {
    if rows != [] {
      forall k | 0 <= k < |rows[1..]| && rows[1..][k].person.jobTitle.Some?
        ensures rows[1..][k].person.jobTitle.value in titles
      {
        assert rows[1..][k] == rows[k + 1];
      }
      AgeSumInCovering(rows[1..], titles);
    }
  }

  /** Groups with pairwise different titles, each holding its title's age
      sum, add up to the ages of the rows holding one of their titles. */
  lemma {:induction false} GroupsAgeTotalByTitle(rows: seq<Row>, groups: seq<TitleGroup>)
    requires forall i :: 0 <= i < |groups| ==> groups[i].ageSum == AgeSumFor(rows, groups[i].title)
    requires forall i, j :: 0 <= i < j < |groups| ==> groups[i].title != groups[j].title
    ensures GroupsAgeTotal(groups) == AgeSumIn(rows, MapSeq(TitleOfGroup, groups))
  {
    if groups == [] {
      AgeSumInNothing(rows);
      assert MapSeq(TitleOfGroup, groups) == [];
    } else {
      var rest := groups[1..];
      GroupsAgeTotalByTitle(rows, rest);
      var titles := MapSeq(TitleOfGroup, rest);
      assert MapSeq(TitleOfGroup, groups) == [groups[0].title] + titles;
      forall k | 0 <= k < |titles|
        ensures titles[k] != groups[0].title
      {
        assert titles[k] == groups[k + 1].title;
      }
      AgeSumInCons(rows, groups[0].title, titles);
    }
  }

  /** Nothing is lost or counted twice by the grouping: the groups' age sums
      add up to the ages of all rows that have a job title. */
  lemma JobTitleAgeTotal(rows: seq<Row>)
    ensures GroupsAgeTotal(JobTitleGroups(rows)) == TitledAgeSum(rows)
  {
    var groups := JobTitleGroups(rows);
    var titles := MapSeq(TitleOfGroup, groups);
    var column := TitleColumn(rows);
    NoRepeats(titles);
    forall i, j | 0 <= i < j < |groups|
      ensures groups[i].title != groups[j].title
    {
      assert titles[i] == groups[i].title && titles[j] == groups[j].title;
    }
    GroupsAgeTotalByTitle(rows, groups);
    forall k | 0 <= k < |rows| && rows[k].person.jobTitle.Some?
      ensures rows[k].person.jobTitle.value in titles
    {
      assert |column| == |rows| && column[k] == TitleOf(rows[k]);
      OccurrencesIsMultiplicity(titles, rows[k].person.jobTitle.value);
    }
    AgeSumInCovering(rows, titles);
  }

  /** The age-group aggregate does not depend on the order of the roster. */
  lemma AgeGroupCountsIgnoreRowOrder(people1: seq<Person>, people2: seq<Person>, today: Date)
    requires multiset(people1) == multiset(people2)
    ensures AgeGroupCounts(AgeGroupColumn(LoadAndProcessData(people1, today))) ==
            AgeGroupCounts(AgeGroupColumn(LoadAndProcessData(people2, today)))
  {
    var rows1, rows2 := LoadAndProcessData(people1, today), LoadAndProcessData(people2, today);
    MapSeqPermutation(Processor(today), people1, people2);
    MapSeqPermutation(AgeGroupOf, rows1, rows2);
    var counts1, counts2 := AgeGroupCounts(AgeGroupColumn(rows1)), AgeGroupCounts(AgeGroupColumn(rows2));
    forall i | 0 <= i < |counts1|
      ensures counts1[i] == counts2[i]
    {
      OccurrencesIsMultiplicity(AgeGroupColumn(rows1), Some(AgeLabels[i]));
      OccurrencesIsMultiplicity(AgeGroupColumn(rows2), Some(AgeLabels[i]));
    }
  }

  /** Occurrences in a three-element sequence, position by position. */
  lemma OccurrencesInThree<T>(s: seq<T>, x: T)
    requires |s| == 3
    ensures Occurrences(s, x) == (if s[0] == x then 1 else 0) + (if s[1] == x then 1 else 0) + (if s[2] == x then 1 else 0)
  {
    var s1 := s[1..];
    var s2 := s1[1..];
    assert s2[1..] == [] && s1[0] == s[1] && s2[0] == s[2];
    assert Occurrences(s2, x) == if s[2] == x then 1 else 0;
    assert Occurrences(s1, x) == (if s[1] == x then 1 else 0) + Occurrences(s2, x);
  }

  /** A three-person roster, evaluated on 2024-06-01. */
  const ExampleRoster: seq<Person> := [
    Person(Some("Male"), Date(2000, 1, 1), Some("Engineer")),
    Person(Some("Female"), Date(1990, 6, 15), Some("Engineer")),
    Person(Some("Male"), Date(1970, 3, 3), Some("Manager"))]

  const ExampleToday: Date := Date(2024, 6, 1)

  /** Ages 24, 33 and 54 (the second birthday of the year is still ahead),
      the buckets they fall in, and the sex column. */
  lemma ExampleAgesAndGroups()
    ensures var rows := LoadAndProcessData(ExampleRoster, ExampleToday);
      MapSeq((r: Row) => r.age, rows) == [24, 33, 54] &&
      AgeGroupColumn(rows) == [Some(Age18To35), Some(Age18To35), Some(Age51To65)] &&
      SexColumn(rows) == [Some("Male"), Some("Female"), Some("Male")]
  {
    var rows := LoadAndProcessData(ExampleRoster, ExampleToday);
    assert |rows| == 3;
    assert rows[0] == ProcessRow(ExampleRoster[0], ExampleToday);
    assert rows[1] == ProcessRow(ExampleRoster[1], ExampleToday);
    assert rows[2] == ProcessRow(ExampleRoster[2], ExampleToday);
    assert rows[0].age == 24 && rows[1].age == 33 && rows[2].age == 54;
    CutBoundaries(24);
    CutBoundaries(33);
    CutBoundaries(54);
    var ages := MapSeq((r: Row) => r.age, rows);
    assert ages[0] == 24 && ages[1] == 33 && ages[2] == 54;
    var groups := AgeGroupColumn(rows);
    assert |groups| == 3;
    assert groups[0] == AgeGroupOf(rows[0]) && groups[1] == AgeGroupOf(rows[1]) && groups[2] == AgeGroupOf(rows[2]);
    assert groups[0] == Cut(24) && groups[1] == Cut(33) && groups[2] == Cut(54);
    assert groups[0] == Some(Age18To35) && groups[1] == Some(Age18To35) && groups[2] == Some(Age51To65);
    var sex := SexColumn(rows);
    assert |sex| == 3;
    assert sex[0] == SexOf(rows[0]) && sex[1] == SexOf(rows[1]) && sex[2] == SexOf(rows[2]);
  }

  /** The age-group aggregate of the example: all five labels, in order. */
  lemma ExampleAgeGroupCounts()
    ensures AgeGroupCounts(AgeGroupColumn(LoadAndProcessData(ExampleRoster, ExampleToday))) ==
      [(Age0To17, 0), (Age18To35, 2), (Age36To50, 0), (Age51To65, 1), (Age65Plus, 0)]
  {
    ExampleAgesAndGroups();
    var groups := AgeGroupColumn(LoadAndProcessData(ExampleRoster, ExampleToday));
    TwoAdultsOneSenior(groups, AgeGroupCounts(groups));
  }

  /** Counting a column with two people of 18-35 and one of 51-65 against
      the five labels. */
  lemma TwoAdultsOneSenior(groups: seq<Option<Label>>, counts: seq<(Label, nat)>)
    requires groups == [Some(Age18To35), Some(Age18To35), Some(Age51To65)]
    requires |counts| == |AgeLabels|
    requires forall i :: 0 <= i < |counts| ==>
      counts[i].0 == AgeLabels[i] && counts[i].1 == Occurrences(groups, Some(AgeLabels[i]))
    ensures counts == [(Age0To17, 0), (Age18To35, 2), (Age36To50, 0), (Age51To65, 1), (Age65Plus, 0)]
  {
    assert counts[0] == (Age0To17, 0) by { OccurrencesInThree(groups, Some(Age0To17)); }
    assert counts[1] == (Age18To35, 2) by { OccurrencesInThree(groups, Some(Age18To35)); }
    assert counts[2] == (Age36To50, 0) by { OccurrencesInThree(groups, Some(Age36To50)); }
    assert counts[3] == (Age51To65, 1) by { OccurrencesInThree(groups, Some(Age51To65)); }
    assert counts[4] == (Age65Plus, 0) by { OccurrencesInThree(groups, Some(Age65Plus)); }
  }

  /** The sex aggregate of the example. */
  lemma ExampleSexCounts()
    ensures SexCounts(SexColumn(LoadAndProcessData(ExampleRoster, ExampleToday))) == [("Male", 2), ("Female", 1)]
  {
    ExampleAgesAndGroups();
    MaleFemaleMale();
  }

  /** The sex aggregate of the column Male, Female, Male. */
  lemma MaleFemaleMale()
    ensures SexCounts([Some("Male"), Some("Female"), Some("Male")]) == [("Male", 2), ("Female", 1)]
  {
    var sex := [Some("Male"), Some("Female"), Some("Male")];
    var present := Present(sex);
    PresentOfMaleFemaleMale(sex);
    DistinctOfMaleFemaleMale(present);
    TallyOfMaleFemaleMale(present);
  }

  /** Its tally is already in descending count order, so sorting keeps it. */
  lemma TallyOfMaleFemaleMale(present: seq<string>)
    requires present == ["Male", "Female", "Male"]
    ensures SortBy(Tally(present, ["Male", "Female"]), CountDescending) == [("Male", 2), ("Female", 1)]
  {
    var tally := Tally(present, ["Male", "Female"]);
    assert multiset(present) == multiset{"Male", "Female", "Male"};
    assert tally == [("Male", 2), ("Female", 1)];
    assert StrictlySortedBy(tally, CountDescending);
    SortedPermutationUnique(SortBy(tally, CountDescending), tally, CountDescending);
  }

  /** Dropping missing values from that column keeps all three. */
  lemma PresentOfMaleFemaleMale(column: seq<Option<string>>)
    requires column == [Some("Male"), Some("Female"), Some("Male")]
    ensures Present(column) == ["Male", "Female", "Male"]
  {
    assert column[1..] == [Some("Female"), Some("Male")];
    assert column[1..][1..] == [Some("Male")];
    assert column[1..][1..][1..] == [];
  }

  /** Its distinct values, in first-appearance order. */
  lemma DistinctOfMaleFemaleMale(present: seq<string>)
    requires present == ["Male", "Female", "Male"]
    ensures Distinct(present) == ["Male", "Female"]
  {
    var p1, p2 := present[..2][..1], present[..2];
    assert p1 == ["Male"] && p1[..0] == [] && p2 == ["Male", "Female"] && p2[..1] == p1;
    assert Distinct(p1) == ["Male"];
    assert Distinct(p2) == ["Male", "Female"];
  }
}
