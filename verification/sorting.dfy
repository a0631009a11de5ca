/** `sortMedications`, `bubbleSort` and `selectionSort`: the registry is
    copied into an array snapshot, which is then sorted by name (`strcmp`),
    price or quantity with one of two quadratic algorithms. The registry
    itself is never reordered. */
module Sorting {
  import opened Records
  import opened CStrings
  import Registry

  /** The `sortBy` codes the sorts understand: 1 name, 2 price, 3 quantity.
      Any other code makes every comparison false. */
  predicate KnownKey(sortBy: int) {
    1 <= sortBy <= 3
  }

  /** `shouldSwap` of `bubbleSort`: `a` compares strictly greater than `b`. */
  predicate OutOfOrder(a: Medication, b: Medication, sortBy: int) {
    if sortBy == 1 then StrCmp(a.name, b.name) > 0
    else if sortBy == 2 then a.price > b.price
    else if sortBy == 3 then a.quantity > b.quantity
    else false
  }

  /** `shouldSelect` of `selectionSort`: `a` compares strictly less than `b`. */
  predicate Precedes(a: Medication, b: Medication, sortBy: int) {
    if sortBy == 1 then StrCmp(a.name, b.name) < 0
    else if sortBy == 2 then a.price < b.price
    else if sortBy == 3 then a.quantity < b.quantity
    else false
  }

  /** `a` and `b` carry the same key; under an unknown code every pair does,
      since no comparison ever separates them. */
  predicate SameKey(a: Medication, b: Medication, sortBy: int) {
    if sortBy == 1 then a.name == b.name
    else if sortBy == 2 then a.price == b.price
    else if sortBy == 3 then a.quantity == b.quantity
    else true
  }

  /** Ascending: no earlier element compares greater than a later one. */
  predicate Sorted(s: seq<Medication>, sortBy: int) {
    forall i, j :: 0 <= i < j < |s| ==> !OutOfOrder(s[i], s[j], sortBy)
  }

  /** The selection test is the bubble test with its arguments swapped. */
  lemma PrecedesIsSwappedOutOfOrder(a: Medication, b: Medication, sortBy: int)
    ensures Precedes(a, b, sortBy) <==> OutOfOrder(b, a, sortBy)
  {
    StrCmpAntisymmetric(a.name, b.name);
  }

  /** "Not greater" is transitive. */
  lemma NotOutOfOrderTransitive(a: Medication, b: Medication, c: Medication, sortBy: int)
    requires !OutOfOrder(a, b, sortBy) && !OutOfOrder(b, c, sortBy)
    ensures !OutOfOrder(a, c, sortBy)
  {
    if sortBy == 1 {
      StrCmpTransitive(a.name, b.name, c.name);
    }
  }

  /** "Greater" is asymmetric, hence irreflexive. */
  lemma OutOfOrderAsymmetric(a: Medication, b: Medication, sortBy: int)
    requires OutOfOrder(a, b, sortBy)
    ensures !OutOfOrder(b, a, sortBy) && !SameKey(a, b, sortBy)
  {
    StrCmpAntisymmetric(a.name, b.name);
  }

  /** Two records neither of which compares greater carry the same key. */
  lemma NeitherGreaterMeansSameKey(a: Medication, b: Medication, sortBy: int)
    requires !OutOfOrder(a, b, sortBy) && !OutOfOrder(b, a, sortBy)
    ensures SameKey(a, b, sortBy)
  {
    StrCmpAntisymmetric(a.name, b.name);
  }

  /** The records of `s` whose key equals that of `k`, in the order of `s`. */
  function KeyClass(s: seq<Medication>, k: Medication, sortBy: int): (r: seq<Medication>)
  {
    if |s| == 0 then []
    else (if SameKey(s[0], k, sortBy) then [s[0]] else []) + KeyClass(s[1..], k, sortBy)
  }

  /** Stable with respect to `input`: every group of records sharing a key
      appears in `s` in the same relative order as in `input`. */
  ghost predicate StableWith(s: seq<Medication>, input: seq<Medication>, sortBy: int) {
    forall k :: KeyClass(s, k, sortBy) == KeyClass(input, k, sortBy)
  }

  lemma {:induction false} KeyClassConcat(a: seq<Medication>, b: seq<Medication>, k: Medication, sortBy: int)
    ensures KeyClass(a + b, k, sortBy) == KeyClass(a, k, sortBy) + KeyClass(b, k, sortBy)
    decreases |a|
  {
    if |a| == 0 {
      assert a + b == b;
    } else {
      assert (a + b)[1..] == a[1..] + b;
      KeyClassConcat(a[1..], b, k, sortBy);
    }
  }

  /** `s` with the records at `i` and `j` exchanged. */
  function Swap(s: seq<Medication>, i: nat, j: nat): (r: seq<Medication>)
    requires i < |s| && j < |s|
    ensures |r| == |s| && r[i] == s[j] && r[j] == s[i]
    ensures forall p :: 0 <= p < |s| && p != i && p != j ==> r[p] == s[p]
    ensures multiset(r) == multiset(s)
  {
    s[i := s[j]][j := s[i]]
  }

  /** Exchanging two neighbours whose keys differ keeps every key group in
      order, since no group holds both of them. */
  lemma SwapNeighboursKeepsGroups(s: seq<Medication>, j: nat, sortBy: int)
    requires j + 1 < |s| && OutOfOrder(s[j], s[j + 1], sortBy)
    ensures StableWith(Swap(s, j, j + 1), s, sortBy)
  {
    var t := Swap(s, j, j + 1);
    var x, y := s[j], s[j + 1];
    OutOfOrderAsymmetric(x, y, sortBy);
    var pre, suf := s[..j], s[j + 2..];
    assert s == pre + [x, y] + suf;
    assert t == pre + [y, x] + suf;
    forall k
      ensures KeyClass(t, k, sortBy) == KeyClass(s, k, sortBy)
    {
      KeyClassConcat(pre + [x, y], suf, k, sortBy);
      KeyClassConcat(pre, [x, y], k, sortBy);
      KeyClassConcat(pre + [y, x], suf, k, sortBy);
      KeyClassConcat(pre, [y, x], k, sortBy);
      KeyClassOfPair(x, y, k, sortBy);
    }
  }

  /** Two records with different keys cannot both fall in one group, so
      their order does not matter to any group. */
  lemma KeyClassOfPair(x: Medication, y: Medication, k: Medication, sortBy: int)
    requires !SameKey(x, y, sortBy)
    ensures KeyClass([x, y], k, sortBy) == KeyClass([y, x], k, sortBy)
  {
    assert [x, y][1..] == [y];
    assert [y, x][1..] == [x];
    assert [y][1..] == [] && [x][1..] == [];
  }

  /** `bubbleSort`: passes of neighbour comparisons, each pass stopping one
      place earlier; a pair is exchanged only when the first is strictly
      greater. */
  method BubbleSort(input: seq<Medication>, sortBy: int) returns (arr: seq<Medication>)
    ensures multiset(arr) == multiset(input)
    ensures Sorted(arr, sortBy)
    ensures StableWith(arr, input, sortBy)
    ensures !KnownKey(sortBy) ==> arr == input
  {
    arr := input;
    var n := |arr|;
    var i := 0;
    while i < n - 1
      invariant 0 <= i <= n && (n > 0 ==> i <= n - 1)
      invariant |arr| == n
      invariant multiset(arr) == multiset(input)
      invariant StableWith(arr, input, sortBy)
      invariant !KnownKey(sortBy) ==> arr == input
      invariant forall p, q :: n - i <= p < q < n ==> !OutOfOrder(arr[p], arr[q], sortBy)
      invariant forall p, q :: 0 <= p < n - i <= q < n ==> !OutOfOrder(arr[p], arr[q], sortBy)
    {
      var passed := BubblePass(arr, n - i - 1, sortBy);
      forall k
        ensures KeyClass(passed, k, sortBy) == KeyClass(input, k, sortBy)
      {
        assert KeyClass(passed, k, sortBy) == KeyClass(arr, k, sortBy);
      }
      arr := passed;
      i := i + 1;
    }
  }

  /** One pass of `bubbleSort`'s inner loop over positions 0 to `last`: it
      carries the greatest of them to `last`, touches nothing behind it, and
      keeps every key group in order. */
  method BubblePass(s: seq<Medication>, last: nat, sortBy: int) returns (arr: seq<Medication>)
    requires last < |s|
    requires forall p, q :: 0 <= p <= last < q < |s| ==> !OutOfOrder(s[p], s[q], sortBy)
    ensures |arr| == |s| && multiset(arr) == multiset(s)
    ensures StableWith(arr, s, sortBy)
    ensures !KnownKey(sortBy) ==> arr == s
    ensures arr[last + 1..] == s[last + 1..]
    ensures forall p :: 0 <= p <= last ==> !OutOfOrder(arr[p], arr[last], sortBy)
    ensures forall p, q :: 0 <= p <= last < q < |s| ==> !OutOfOrder(arr[p], arr[q], sortBy)
  {
    arr := s;
    var j := 0;
    while j < last
      invariant 0 <= j <= last
      invariant |arr| == |s| && multiset(arr) == multiset(s)
      invariant StableWith(arr, s, sortBy)
      invariant !KnownKey(sortBy) ==> arr == s
      invariant arr[last + 1..] == s[last + 1..]
      invariant forall p :: 0 <= p < j ==> !OutOfOrder(arr[p], arr[j], sortBy)
      invariant forall p, q :: 0 <= p <= last < q < |s| ==> !OutOfOrder(arr[p], arr[q], sortBy)
    {
      if OutOfOrder(arr[j], arr[j + 1], sortBy) {
        BubbleExchange(s, arr, j, last, sortBy);
        arr := Swap(arr, j, j + 1);
      } else {
        forall p | 0 <= p < j
          ensures !OutOfOrder(arr[p], arr[j + 1], sortBy)
        {
          NotOutOfOrderTransitive(arr[p], arr[j], arr[j + 1], sortBy);
        }
      }
      j := j + 1;
    }
  }

  /** An exchange inside a bubble pass carries the greater record forward and
      keeps the pass's other facts. */
  lemma BubbleExchange(s: seq<Medication>, arr: seq<Medication>, j: nat, last: nat, sortBy: int)
    requires j < last < |arr| == |s|
    requires OutOfOrder(arr[j], arr[j + 1], sortBy)
    requires StableWith(arr, s, sortBy)
    requires forall p :: 0 <= p < j ==> !OutOfOrder(arr[p], arr[j], sortBy)
    requires forall p, q :: 0 <= p <= last < q < |s| ==> !OutOfOrder(arr[p], arr[q], sortBy)
    ensures var t := Swap(arr, j, j + 1);
      && StableWith(t, s, sortBy)
      && t[last + 1..] == arr[last + 1..]
      && (forall p :: 0 <= p <= j ==> !OutOfOrder(t[p], t[j + 1], sortBy))
      && (forall p, q :: 0 <= p <= last < q < |s| ==> !OutOfOrder(t[p], t[q], sortBy))
  {
    var t := Swap(arr, j, j + 1);
    SwapNeighboursKeepsGroups(arr, j, sortBy);
    OutOfOrderAsymmetric(arr[j], arr[j + 1], sortBy);
    forall k
      ensures KeyClass(t, k, sortBy) == KeyClass(s, k, sortBy)
    {
      assert KeyClass(t, k, sortBy) == KeyClass(arr, k, sortBy);
    }
    assert t[last + 1..] == arr[last + 1..];
  }

  /** `selectionSort`: for each position the first strictly smallest record
      of the rest is found and exchanged into place. */
  method SelectionSort(input: seq<Medication>, sortBy: int) returns (arr: seq<Medication>)
    ensures multiset(arr) == multiset(input)
    ensures Sorted(arr, sortBy)
    ensures !KnownKey(sortBy) ==> arr == input
  {
    arr := input;
    var n := |arr|;
    var i := 0;
    while i < n - 1
      invariant 0 <= i <= n && (n > 0 ==> i <= n - 1)
      invariant |arr| == n
      invariant multiset(arr) == multiset(input)
      invariant !KnownKey(sortBy) ==> arr == input
      invariant forall p, q :: 0 <= p < q < i ==> !OutOfOrder(arr[p], arr[q], sortBy)
      invariant forall p, q :: 0 <= p < i <= q < n ==> !OutOfOrder(arr[p], arr[q], sortBy)
    {
      var minIndex := i;
      var j := i + 1;
      while j < n
        invariant i <= minIndex < j <= n
        invariant !KnownKey(sortBy) ==> minIndex == i
        invariant forall q :: i <= q < j ==> !OutOfOrder(arr[minIndex], arr[q], sortBy)
      {
        PrecedesIsSwappedOutOfOrder(arr[j], arr[minIndex], sortBy);
        if Precedes(arr[j], arr[minIndex], sortBy) {
          OutOfOrderAsymmetric(arr[minIndex], arr[j], sortBy);
          forall q | i <= q < j
            ensures !OutOfOrder(arr[j], arr[q], sortBy)
          {
            NotOutOfOrderTransitive(arr[j], arr[minIndex], arr[q], sortBy);
          }
          minIndex := j;
        }
        j := j + 1;
      }
      if minIndex != i {
        arr := Swap(arr, i, minIndex);
      }
      i := i + 1;
    }
  }

  /** The snapshot loop of `sortMedications`: the registry copied into an
      array, head first. */
  method Snapshot(list: Registry.MedicationList) returns (arr: seq<Medication>)
    ensures arr == list
  {
    arr := [];
    var current := list;
    while current != []
      invariant arr + current == list
      decreases |current|
    {
      arr := arr + [current[0]];
      current := current[1..];
    }
  }

  /** What `sortMedications` produces: nothing when the registry is empty,
      an error for an algorithm code other than 1 or 2, otherwise the sorted
      snapshot. */
  datatype SortOutcome = NothingToSort | InvalidAlgorithm | SortedRecords(records: seq<Medication>)

  /** `sortMedications` with the two codes it reads passed in: `sortBy`
      selects the key, `algorithm` 1 bubble sort and 2 selection sort. */
  method SortMedications(list: Registry.MedicationList, sortBy: int, algorithm: int) returns (r: SortOutcome)
    ensures |list| == 0 <==> r == NothingToSort
    ensures |list| > 0 && algorithm != 1 && algorithm != 2 ==> r == InvalidAlgorithm
    ensures |list| > 0 && (algorithm == 1 || algorithm == 2) ==>
      r.SortedRecords? && multiset(r.records) == multiset(list) && Sorted(r.records, sortBy)
    ensures r.SortedRecords? && algorithm == 1 ==> StableWith(r.records, list, sortBy)
    ensures r.SortedRecords? && !KnownKey(sortBy) ==> r.records == list
  {
    var count := Registry.MedicationCount(list);
    if count == 0 {
      return NothingToSort;
    }
    var snapshot := Snapshot(list);
    if algorithm == 1 {
      var sorted := BubbleSort(snapshot, sortBy);
      r := SortedRecords(sorted);
    } else if algorithm == 2 {
      var sorted := SelectionSort(snapshot, sortBy);
      r := SortedRecords(sorted);
    } else {
      r := InvalidAlgorithm;
    }
  }

  /** Nothing in a sorted sequence compares smaller than its first record. */
  lemma SortedHeadIsLeast(s: seq<Medication>, p: nat, sortBy: int)
    requires Sorted(s, sortBy) && p < |s|
    ensures !OutOfOrder(s[0], s[p], sortBy)
  {
    if p == 0 && OutOfOrder(s[0], s[0], sortBy) {
      OutOfOrderAsymmetric(s[0], s[0], sortBy);
    }
  }

  /** No two records of `s` share a key. */
  predicate DistinctKeys(s: seq<Medication>, sortBy: int) {
    forall i, j :: 0 <= i < j < |s| ==> !SameKey(s[i], s[j], sortBy)
  }

  /** When no two records share a key there is only one ascending order, so
      any two sorted permutations of the same records coincide; in
      particular bubble sort and selection sort then return the same array. */
  lemma {:induction false} SortedPermutationIsUnique(a: seq<Medication>, b: seq<Medication>, sortBy: int)
    requires multiset(a) == multiset(b)
    requires Sorted(a, sortBy) && Sorted(b, sortBy) && DistinctKeys(a, sortBy)
    ensures a == b
    decreases |a|
  {
    assert |a| == |multiset(a)| == |multiset(b)| == |b|;
    if |a| > 0 {
      assert a[0] in multiset(b);
      var p :| 0 <= p < |b| && b[p] == a[0];
      assert b[0] in multiset(a);
      var q :| 0 <= q < |a| && a[q] == b[0];
      SortedHeadIsLeast(b, p, sortBy);
      SortedHeadIsLeast(a, q, sortBy);
      NeitherGreaterMeansSameKey(a[0], a[q], sortBy);
      assert q == 0;
      assert a[0] == b[0];
      DropCommonHead(a, b);
      assert Sorted(a[1..], sortBy) && Sorted(b[1..], sortBy) && DistinctKeys(a[1..], sortBy);
      SortedPermutationIsUnique(a[1..], b[1..], sortBy);
    }
  }

  /** Two sequences with the same records and the same first record have the
      same records after it. */
  lemma DropCommonHead(a: seq<Medication>, b: seq<Medication>)
    requires |a| > 0 && |b| > 0 && a[0] == b[0] && multiset(a) == multiset(b)
    ensures multiset(a[1..]) == multiset(b[1..])
  {
    assert a == [a[0]] + a[1..] && b == [b[0]] + b[1..];
    assert multiset(a[1..]) == multiset(a) - multiset{a[0]};
    assert multiset(b[1..]) == multiset(b) - multiset{b[0]};
  }
}
