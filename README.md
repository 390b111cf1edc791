# People dashboard: data pipeline model

A Dafny model of the data side of the people-analysis dashboard (`main.py`).
The dashboard reads a roster of people (sex, date of birth, job title). It
derives each person's age in completed years and sorts that age into one of
five age groups. It then aggregates the roster three ways for its charts:

- the number of people per sex;
- the number of people per age group, in age-group order;
- the mean age per job title.

The model has five modules:

- `Wrappers` (`wrappers.dfy`): the `Option` type. `None` stands for a missing
  cell (pandas' NaN).
- `Ages` (`ages.dfy`): `calculate_age`. The wall-clock read becomes an explicit
  evaluation date `today`. The result is proved to be the unique number of
  completed years: the age-th birthday is on or before `today`, and the next one
  is after it.
- `AgeGroups` (`age_groups.dfy`): the `pd.cut` bucketing with edges
  `[0, 18, 35, 50, 65, inf]` and the ordered categorical of the five labels.
  `pd.cut` is right-closed by default and the code passes no `right=` argument,
  so the buckets are `(0,18]`, `(18,35]`, `(35,50]`, `(50,65]` and `(65,inf)`.
  This means an age of 18 is labelled `0-17`, an age of 65 is labelled `51-65`,
  and an age of 0 or less gets no group. The model follows the code; the labels
  read as half-open buckets, which the code does not implement.
- `ValueCounts` (`value_counts.dfy`): the generic parts of pandas'
  `value_counts`. Missing values are dropped and present values are
  de-duplicated. Each distinct value is tallied against its number of rows,
  and the rows are sorted by a key. The module also proves that a sorted
  permutation of a strictly sorted sequence is that sequence.
- `People` (`people.dfy`): `load_and_process_data` over a roster, the three
  aggregations of `create_figures`, and properties relating them:
  - the age-group chart lists all five groups in order, whatever order
    `value_counts` returned;
  - the age-group counts do not depend on row order;
  - every job title's mean age lies between the smallest and largest ages;
  - concrete values for a three-person roster.

## Model

| member | source | states |
|---|---|---|
| `Ages.CalculateAge` | main.py:26-31 | the age-th birthday is on or before today and the (age+1)-th is after today |
| `Ages.AgeIsYearDifferenceOrOneLess` | main.py:28-30 | the age is the year difference or one less, and one less exactly when today's (month, day) tuple precedes the birth's |
| `Ages.CompletedYearsUnique` | main.py:26-31 | any k whose k-th birthday has passed and whose (k+1)-th has not equals the computed age |
| `Ages.AgeIsLargestCompletedYear` | main.py:26-31 | every k whose k-th birthday is on or before today is at most the age |
| `Ages.AgeNonNegative` | main.py:28-30 | a birth date on or before today gives a non-negative age |
| `Ages.AgeOnBirthday` | main.py:29-30 | on the birthday the age is the year difference (the strict tuple comparison does not decrement) |
| `Ages.AgeDayBeforeBirthday` | main.py:29-30 | on the day before the birthday in the same month the age is the year difference minus one |
| `AgeGroups.Cut` | main.py:17-19 | an age has no group iff it is at most 0; it has label l iff it lies in l's right-closed interval |
| `AgeGroups.CutBoundaries` | main.py:17-19 | the table of buckets: <=0 none, 1..18 "0-17", 19..35 "18-35", 36..50 "36-50", 51..65 "51-65", >=66 "65+" |
| `AgeGroups.BinsDisjoint` | main.py:17-19 | no age lies in two buckets |
| `AgeGroups.CutMonotone` | main.py:17-19 | of two bucketed ages, the older one never gets an earlier age group |
| `AgeGroups.AgeLabelsIndexed` | main.py:18-21 | the category list holds five labels, and each label sits at its own category position |
| `AgeGroups.AgeLabelsText` | main.py:18 | the categories show the strings "0-17", "18-35", "36-50", "51-65", "65+" in order, and no two categories share a string |
| `AgeGroups.AgeLabelsDistinct` | main.py:18 | each label occurs exactly once among the categories |
| `ValueCounts.OccurrencesIsMultiplicity` | main.py:35 | counting occurrences by a scan equals the multiplicity in the column's multiset |
| `ValueCounts.Present` | main.py:35 | dropping missing cells keeps every present value with its multiplicity and removes exactly the missing cells |
| `ValueCounts.Distinct` | main.py:35 | every value of the column appears exactly once and nothing else does |
| `ValueCounts.InsertBy` | main.py:35 | inserting into a sorted sequence keeps it sorted and adds exactly the one element |
| `ValueCounts.SortBy` | main.py:35 | the result is sorted by the key and is a permutation of the input |
| `ValueCounts.SortedPermutationUnique` | main.py:48 | a sorted permutation of a strictly sorted sequence is that sequence |
| `ValueCounts.TallyTotal` | main.py:35-36 | when every value has exactly one key, the tally's counts add up to the number of values |
| `ValueCounts.ValueCountsRows` | main.py:35-36 | any reordering of the tally of distinct present values has each present value once, each count equal to its rows and positive, and the counts summing to the present rows |
| `People.LoadAndProcessData` | main.py:12-23 | row order and person data are kept; each age is the completed years at today; each age group is missing iff age <= 0 and is otherwise the bucket the age falls in |
| `People.SexCounts` | main.py:35-36 | one row per distinct present sex, each count equal to its rows and positive, largest counts first, counts summing to the rows with a sex |
| `People.AgeGroupOrderFixed` | main.py:46-48 | sorting any permutation of the label tally by category position gives the tally in label order |
| `People.AgeGroupSortsCancel` | main.py:43-48 | sorting by count and then by category position gives the tally in label order |
| `People.AgeGroupTally` | main.py:43-44 | the five-label tally of the age-group column has each label's row count, in label order, summing to the rows with a group |
| `People.AgeGroupCounts` | main.py:43-48 | all five labels in category order, zero counts included, each with its number of rows; the counts add up to the rows with a group |
| `People.AgeGroupCountsIgnoreRowOrder` | main.py:43-48 | two rosters that are permutations of each other give the same age-group chart |
| `People.JobTitleGroups` | main.py:57 | one group per distinct present job title, each with a positive size equal to its number of rows and an age sum equal to the sum of those rows' ages |
| `People.JobTitleAgeTotal` | main.py:57 | the groups' age sums add up to the ages of all rows that have a job title, so no row is lost or counted twice |
| `People.AgeSumBounds` | main.py:57 | if all ages are in [lo, hi], one title's age sum lies between lo and hi times its row count |
| `People.JobTitleMeanWithinAgeRange` | main.py:57 | every job title's mean age (ageSum / size) lies within the range of all ages |
| `People.ExampleAgesAndGroups` | main.py:15-21 | at 2024-06-01, birth dates 2000-01-01, 1990-06-15 and 1970-03-03 give ages 24, 33 and 54, in "18-35", "18-35" and "51-65" |
| `People.ExampleAgeGroupCounts` | main.py:43-48 | that roster gives the chart 0-17: 0, 18-35: 2, 36-50: 0, 51-65: 1, 65+: 0 |
| `People.ExampleSexCounts` | main.py:35-36 | that roster gives the sex chart Male: 2, Female: 1 |

## Left out

- The Dash application: layout, bootstrap theme, the refresh interval and the callback (main.py:67-108). These are UI and a timer.
- The plotly figures: bar charts, titles, axis labels and colour maps (main.py:37-41, 50-62). The model stops at the data frames that feed them.
- Reading `./data/people.csv` and `pd.to_datetime` (main.py:13-14). They are file I/O and text parsing. A person arrives with an already-parsed birth date.
- Missing birth dates. `pd.to_datetime(..., format='%Y-%m-%d')` (main.py:14) raises on an unparseable date, so the load fails. An empty cell becomes NaT instead. For such a row `calculate_age` yields NaN, because `NaT.year` is NaN and the tuple test at main.py:29 is false. Its age group is then missing. The row drops out of the age-group chart and out of the job-title mean, but it still counts in the sex chart. `Person.birth` is a plain date, so the model has no such row.
- Calendar validity. Dates are plain (year, month, day) integer triples.
- People.LoadAndProcessData: the model ages the whole roster against one evaluation date `today`. The source calls `datetime.now()` (main.py:27) once per row through `.apply` (main.py:15), so a load that crosses midnight or New Year can age rows against different dates. The model does not capture that, and `People.AgeGroupCountsIgnoreRowOrder` relies on the single date.
- People.JobTitleGroups: the mean's floating-point division is left out. The model keeps each title's age sum and size, and the mean is bounded through `lo * size <= ageSum <= hi * size`.
- People.JobTitleGroups: groups come in first-appearance order of the titles. `groupby` sorts them by title; the model does not, so it does not state the row order of the job-title chart.
- People.SexCounts: ties between equal counts keep first-appearance order (a stable sort). pandas sorts counts with an unstable sort, so it leaves tie order unspecified; the model proves nothing about ties beyond "largest counts first".
- ValueCounts.SortBy: modelled as a stable insertion sort on values. pandas' sort algorithm and in-place frame updates are not modelled; only sortedness and permutation are stated.
- `load_and_process_data` assigns new columns to the frame in place. The model returns new rows instead; nothing else holds a reference to the frame.
