/**
 * The pieces of pandas' `value_counts` and `sort_values` that the dashboard
 * relies on, over sequences: dropping missing values, one row per distinct
 * value with its count, and ordering rows by a key.
 */
module ValueCounts {
  import opened Wrappers

  /** Applies `f` to every element, keeping positions. */
  function MapSeq<A, B>(f: A -> B, s: seq<A>): seq<B> {
    seq(|s|, i requires 0 <= i < |s| => f(s[i]))
  }

  /** The number of positions of `s` that hold `x`. */
  function Occurrences<T(==)>(s: seq<T>, x: T): nat {
    if s == [] then 0 else (if s[0] == x then 1 else 0) + Occurrences(s[1..], x)
  }

  /** Counting positions agrees with the multiplicity in the multiset of `s`,
      so a count depends only on which values occur, not on their order. */
  lemma {:induction false} OccurrencesIsMultiplicity<T>(s: seq<T>, x: T)
    ensures Occurrences(s, x) == multiset(s)[x]
  {
    if s != [] {
      OccurrencesIsMultiplicity(s[1..], x);
      assert s == [s[0]] + s[1..];
    }
  }

  /** `dropna`: the present values of a column, in order. Each value keeps
      its multiplicity and the missing entries are gone. */
  function Present<T(==,!new)>(s: seq<Option<T>>): (r: seq<T>)
    ensures forall x :: multiset(r)[x] == multiset(s)[Some(x)]
    ensures |r| == |s| - multiset(s)[None]
  {
    if s == [] then []
    else
      assert s == [s[0]] + s[1..];
      (if s[0].Some? then [s[0].value] else []) + Present(s[1..])
  }

  /** The distinct values of `s` in order of first appearance: every value
      of `s` exactly once and nothing else. */
  function Distinct<T(==,!new)>(s: seq<T>): (r: seq<T>)
    ensures forall x :: multiset(r)[x] == if x in s then 1 else 0
  {
    if s == [] then []
    else
      var front, last := s[..|s| - 1], s[|s| - 1];
      assert s == front + [last];
      var d := Distinct(front);
      if last in d then d else d + [last]
  }

  /** One `(key, count)` row per key, in key order, where the count is the
      multiplicity of the key among the values. */
  function Tally<T(==)>(values: seq<T>, keys: seq<T>): seq<(T, nat)> {
    seq(|keys|, i requires 0 <= i < |keys| => (keys[i], multiset(values)[keys[i]]))
  }

  /** The key of an aggregate row. */
  function Key<T>(row: (T, nat)): T {
    row.0
  }

  /** The key column of an aggregate. */
  function Keys<T>(rows: seq<(T, nat)>): seq<T> {
    MapSeq(Key, rows)
  }

  /** The sum of the count column of an aggregate. */
  function TotalCount<T>(rows: seq<(T, nat)>): nat {
    if rows == [] then 0 else rows[0].1 + TotalCount(rows[1..])
  }

  /** Sort key for `value_counts`' default order: larger counts first. */
  function CountDescending<T>(row: (T, nat)): int {
    -(row.1 as int)
  }

  /** `s` is ordered by `key`, ties allowed. */
  predicate SortedBy<T>(s: seq<T>, key: T -> int) {
    forall i, j :: 0 <= i < j < |s| ==> key(s[i]) <= key(s[j])
  }

  /** `s` is ordered by `key` with no two elements sharing a key. */
  predicate StrictlySortedBy<T>(s: seq<T>, key: T -> int) {
    forall i, j :: 0 <= i < j < |s| ==> key(s[i]) < key(s[j])
  }

  /** Inserts `x` before the first element whose key is not smaller. */
  function InsertBy<T(==)>(x: T, s: seq<T>, key: T -> int): (r: seq<T>)
    requires SortedBy(s, key)
    ensures SortedBy(r, key)
    ensures multiset(r) == multiset(s) + multiset{x}
    ensures r[0] == x || (s != [] && r[0] == s[0])
  {
    if s == [] || key(x) <= key(s[0]) then
      [x] + s
    else
      var rest := InsertBy(x, s[1..], key);
      assert key(s[0]) <= key(rest[0]);
      assert s == [s[0]] + s[1..];
      [s[0]] + rest
  }

  /** `sort_values` by `key`: an ordered permutation of `s`. */
  function SortBy<T(==)>(s: seq<T>, key: T -> int): (r: seq<T>)
    ensures SortedBy(r, key)
    ensures multiset(r) == multiset(s)
  {
    if s == [] then []
    else
      assert s == [s[0]] + s[1..];
      InsertBy(s[0], SortBy(s[1..], key), key)
  }

  /** An ordered permutation of a strictly ordered sequence starts with
      the same element: both start with the element of least key. */
  lemma SortedHeadsAgree<T>(a: seq<T>, b: seq<T>, key: T -> int)
    requires SortedBy(a, key) && StrictlySortedBy(b, key)
    requires multiset(a) == multiset(b) && a != []
    ensures b != [] && a[0] == b[0]
  {
    assert a[0] in multiset(b);
    var k :| 0 <= k < |b| && b[k] == a[0];
    assert b[0] in multiset(a);
    var m :| 0 <= m < |a| && a[m] == b[0];
    assert key(a[0]) <= key(a[m]);
  }

  /** Sorting by a key that the target orders strictly has only one outcome:
      any ordered permutation of a strictly ordered sequence is that sequence. */
  lemma {:induction false} SortedPermutationUnique<T>(a: seq<T>, b: seq<T>, key: T -> int)
    requires SortedBy(a, key) && StrictlySortedBy(b, key)
    requires multiset(a) == multiset(b)
    ensures a == b
  {
    assert |a| == |multiset(a)| == |multiset(b)| == |b|;
    if a != [] {
      SortedHeadsAgree(a, b, key);
      assert a == [a[0]] + a[1..];
      assert b == [b[0]] + b[1..];
      assert multiset(a[1..]) == multiset(a) - multiset{a[0]};
      assert multiset(b[1..]) == multiset(b) - multiset{b[0]};
      SortedPermutationUnique(a[1..], b[1..], key);
    }
  }

  /** Taking the same element out of two permutations of each other leaves
      permutations of each other. */
  lemma RemoveMatched<T>(s: seq<T>, t: seq<T>, j: int)
    requires multiset(s) == multiset(t) && s != []
    requires 0 <= j < |t| && t[j] == s[0]
    ensures multiset(s[1..]) == multiset(t[..j] + t[j + 1..])
  {
    assert t == t[..j] + [t[j]] + t[j + 1..];
    assert s == [s[0]] + s[1..];
    var rest := t[..j] + t[j + 1..];
    assert multiset(t) == multiset(rest) + multiset{s[0]};
    assert multiset(s) == multiset(s[1..]) + multiset{s[0]};
    calc {
      multiset(s[1..]);
      multiset(s) - multiset{s[0]};
      multiset(t) - multiset{s[0]};
      multiset(rest);
    }
  }

  /** A sequence in which no value occurs twice has pairwise different
      entries. */
  lemma NoRepeats<T>(s: seq<T>)
    requires forall x :: Occurrences(s, x) <= 1
    ensures forall i, j :: 0 <= i < j < |s| ==> s[i] != s[j]
  {
    forall i, j | 0 <= i < j < |s|
      ensures s[i] != s[j]
    {
      var a, b := s[..j], s[j..];
      assert s == a + b;
      OccurrencesIsMultiplicity(s, s[j]);
      assert s[i] == a[i] && s[j] == b[0];
      assert multiset(s)[s[j]] == multiset(a)[s[j]] + multiset(b)[s[j]];
      assert multiset(b)[s[j]] >= 1;
    }
  }

  /** Mapping distributes over concatenation. */
  lemma MapSeqAppend<A, B>(f: A -> B, a: seq<A>, b: seq<A>)
    ensures MapSeq(f, a + b) == MapSeq(f, a) + MapSeq(f, b)
  {
  }

  /** Mapping preserves permutations: reordering the input only reorders
      the output. */
  lemma {:induction false} MapSeqPermutation<A, B>(f: A -> B, s: seq<A>, t: seq<A>)
    requires multiset(s) == multiset(t)
    ensures multiset(MapSeq(f, s)) == multiset(MapSeq(f, t))
  {
    assert |s| == |multiset(s)| == |multiset(t)| == |t|;
    if s != [] {
      var x := s[0];
      assert x in multiset(t);
      var j :| 0 <= j < |t| && t[j] == x;
      var left, right := t[..j], t[j + 1..];
      RemoveMatched(s, t, j);
      MapSeqPermutation(f, s[1..], left + right);
      assert s == [x] + s[1..];
      MapSeqAppend(f, [x], s[1..]);
      assert t == left + ([x] + right);
      MapSeqAppend(f, left, [x] + right);
      MapSeqAppend(f, [x], right);
      MapSeqAppend(f, left, right);
    }
  }

  /** The total of a concatenation is the sum of the totals. */
  lemma {:induction false} TotalCountAppend<T>(a: seq<(T, nat)>, b: seq<(T, nat)>)
    ensures TotalCount(a + b) == TotalCount(a) + TotalCount(b)
  {
    if a == [] {
      assert a + b == b;
    } else {
      assert (a + b)[1..] == a[1..] + b;
      TotalCountAppend(a[1..], b);
    }
  }

  /** The sum of the counts does not depend on the row order. */
  lemma {:induction false} TotalCountPermutation<T>(a: seq<(T, nat)>, b: seq<(T, nat)>)
    requires multiset(a) == multiset(b)
    ensures TotalCount(a) == TotalCount(b)
  {
    assert |a| == |multiset(a)| == |multiset(b)| == |b|;
    if a != [] {
      var x := a[0];
      assert x in multiset(b);
      var j :| 0 <= j < |b| && b[j] == x;
      var rest := b[..j] + b[j + 1..];
      assert b == b[..j] + ([x] + b[j + 1..]);
      RemoveMatched(a, b, j);
      TotalCountPermutation(a[1..], rest);
      TotalCountAppend(b[..j], [x] + b[j + 1..]);
      TotalCountAppend(b[..j], b[j + 1..]);
      assert ([x] + b[j + 1..])[1..] == b[j + 1..];
    }
  }

  /** One more value adds one to the total for every key equal to it. */
  lemma {:induction false} TallySnoc<T>(values: seq<T>, x: T, keys: seq<T>)
    ensures TotalCount(Tally(values + [x], keys)) == TotalCount(Tally(values, keys)) + multiset(keys)[x]
  {
    if keys != [] {
      TallySnoc(values, x, keys[1..]);
      assert Tally(values + [x], keys)[1..] == Tally(values + [x], keys[1..]);
      assert Tally(values, keys)[1..] == Tally(values, keys[1..]);
      assert keys == [keys[0]] + keys[1..];
    }
  }

  /** A tally of no values counts nothing. */
  lemma {:induction false} TallyOfNothing<T>(keys: seq<T>)
    ensures TotalCount(Tally([], keys)) == 0
  {
    if keys != [] {
      assert Tally([], keys)[1..] == Tally([], keys[1..]);
      TallyOfNothing(keys[1..]);
    }
  }

  /** When every value matches exactly one key, the counts add up to the
      number of values. */
  lemma {:induction false} TallyTotal<T>(values: seq<T>, keys: seq<T>)
    requires forall x :: x in values ==> multiset(keys)[x] == 1
    ensures TotalCount(Tally(values, keys)) == |values|
  {
    if values == [] {
      TallyOfNothing(keys);
    } else {
      var front, last := values[..|values| - 1], values[|values| - 1];
      assert values == front + [last];
      TallyTotal(front, keys);
      TallySnoc(front, last, keys);
    }
  }

  /** A row of any reordering of a tally is a key with its count. */
  lemma PermutedTallyRow<T>(rows: seq<(T, nat)>, values: seq<T>, keys: seq<T>, i: int)
    requires multiset(rows) == multiset(Tally(values, keys))
    requires 0 <= i < |rows|
    ensures rows[i].0 in keys && rows[i].1 == multiset(values)[rows[i].0]
  {
    assert rows[i] in multiset(Tally(values, keys));
  }

  /** Reordering a tally keeps one row per key: the key column of the
      reordered rows holds the keys with their multiplicities. */
  lemma PermutedTallyKeys<T>(rows: seq<(T, nat)>, values: seq<T>, keys: seq<T>)
    requires multiset(rows) == multiset(Tally(values, keys))
    ensures multiset(Keys(rows)) == multiset(keys)
  {
    MapSeqPermutation(Key, rows, Tally(values, keys));
    var t := Tally(values, keys);
    assert |Keys(t)| == |keys|;
    forall i | 0 <= i < |keys|
      ensures Keys(t)[i] == keys[i]
    {
      assert Keys(t)[i] == Key(t[i]);
    }
    assert Keys(t) == keys;
  }

  /** The tally of the present values of a column, counted against the
      column itself: each key with the number of rows holding it. */
  lemma PresentTally<T(!new)>(column: seq<Option<T>>, keys: seq<T>)
    ensures forall i :: 0 <= i < |keys| ==>
      Tally(Present(column), keys)[i] == (keys[i], Occurrences(column, Some(keys[i])))
  {
    forall i | 0 <= i < |keys|
      ensures Tally(Present(column), keys)[i] == (keys[i], Occurrences(column, Some(keys[i])))
    {
      OccurrencesIsMultiplicity(column, Some(keys[i]));
    }
  }

  /** `value_counts` over a column with missing values, in whatever row
      order: one row per distinct present value, each with the number of
      rows holding it, and the counts adding up to the present rows. */
  lemma ValueCountsRows<T(!new)>(column: seq<Option<T>>, counts: seq<(T, nat)>)
    requires multiset(counts) == multiset(Tally(Present(column), Distinct(Present(column))))
    ensures forall x :: Occurrences(Keys(counts), x) == if Some(x) in column then 1 else 0
    ensures forall i :: 0 <= i < |counts| ==>
      counts[i].1 == Occurrences(column, Some(counts[i].0)) && counts[i].1 > 0
    ensures TotalCount(counts) == |column| - Occurrences(column, None)
  {
    var present := Present(column);
    var keys := Distinct(present);
    forall x
      ensures Occurrences(Keys(counts), x) == if Some(x) in column then 1 else 0
    {
      PermutedTallyKeys(counts, present, keys);
      OccurrencesIsMultiplicity(Keys(counts), x);
      assert x in present <==> multiset(present)[x] > 0;
    }
    forall i | 0 <= i < |counts|
      ensures counts[i].1 == Occurrences(column, Some(counts[i].0)) && counts[i].1 > 0
    {
      PermutedTallyRow(counts, present, keys, i);
      OccurrencesIsMultiplicity(column, Some(counts[i].0));
      assert multiset(keys)[counts[i].0] > 0;
    }
    TotalCountPermutation(counts, Tally(present, keys));
    TallyTotal(present, keys);
    OccurrencesIsMultiplicity(column, None);
  }

  /** The distinct present values of a column: each value that some row
      holds appears once, and each is held by at least one row. */
  lemma DistinctPresent<T(!new)>(column: seq<Option<T>>)
    ensures forall x :: Occurrences(Distinct(Present(column)), x) == if Some(x) in column then 1 else 0
    ensures forall k :: k in Distinct(Present(column)) ==>
      multiset(Present(column))[k] == Occurrences(column, Some(k)) > 0
  {
    var present := Present(column);
    var keys := Distinct(present);
    forall x
      ensures Occurrences(keys, x) == if Some(x) in column then 1 else 0
      ensures x in keys ==> multiset(present)[x] == Occurrences(column, Some(x)) > 0
    {
      OccurrencesIsMultiplicity(keys, x);
      OccurrencesIsMultiplicity(column, Some(x));
      assert x in present <==> multiset(present)[x] > 0;
    }
  }
}
