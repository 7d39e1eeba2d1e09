/**
 Binary searches over sorted lists, as the controller's utilities write them: with a comparison
 that takes an index, and with no promise that the list is sorted by it.
 */
module SortedSearch {

  /** sort.Search of Go's standard library: the border between "no" and "yes". */
  method Search(n: nat, f: nat -> bool) returns (r: nat)
    ensures r <= n && (r < n ==> f(r)) && (r > 0 ==> !f(r - 1))
  {
    var i, j := 0, n;
    while i < j
      invariant 0 <= i <= j <= n && (j < n ==> f(j)) && (i > 0 ==> !f(i - 1))
    {
      var h := (i + j) / 2;
      if !f(h) {
        i := h + 1;
      } else {
        j := h;
      }
    }
    r := i;
  }

  /** Once "yes", always "yes". */
  ghost predicate Rising(n: nat, f: nat -> bool) {
    forall i: nat, j: nat :: i <= j < n && f(i) ==> f(j)
  }

  /** The place of a value: behind everything that it does not precede. */
  ghost predicate IsPlace(n: nat, f: nat -> bool, r: nat) {
    r <= n && (forall i: nat :: i < r ==> !f(i)) && (forall i: nat :: r <= i < n ==> f(i))
  }

  lemma BorderIsPlace(n: nat, f: nat -> bool, r: nat)
    requires Rising(n, f) && r <= n && (r < n ==> f(r)) && (r > 0 ==> !f(r - 1))
    ensures IsPlace(n, f, r)
  {
    forall i: nat | i < r ensures !f(i) {
      assert !f(r - 1);
    }
  }

  /** The list with the value between what it does not precede and what it does. */
  ghost predicate InsertedAt<T>(arr: seq<T>, value: T, compare: nat -> bool, at: nat, r: seq<T>) {
    && at <= |arr| && r == arr[..at] + [value] + arr[at..]
    && (at < |arr| ==> compare(at)) && (at > 0 ==> !compare(at - 1))
    && (Rising(|arr|, compare) ==> IsPlace(|arr|, compare, at))
  }

  /** Inserts a value at its place, which keeps all the others in order. */
  method InsertSorted<T>(arr: seq<T>, value: T, compare: nat -> bool) returns (r: seq<T>)
    ensures exists at: nat :: InsertedAt(arr, value, compare, at, r)
  {
    var i := Search(|arr|, compare);
    var grown := arr + [value];
    r := grown[..i + 1] + arr[i..];
    r := r[i := value];
    assert grown[..i] == arr[..i];
    if Rising(|arr|, compare) {
      BorderIsPlace(|arr|, compare, i);
    }
    assert InsertedAt(arr, value, compare, i, r);
  }

  /** The signs of a comparison with a sorted list: first above, then equal, then below. */
  ghost predicate Descends(n: nat, compare: nat -> int) {
    forall i: nat, j: nat :: i <= j < n ==> (compare(i) <= 0 ==> compare(j) <= 0) && (compare(i) < 0 ==> compare(j) < 0)
  }

  /** The last element at or before the target; among equal ones, the first. */
  ghost predicate IsPredecessor(n: nat, compare: nat -> int, r: int) {
    && -1 <= r < n
    && (r >= 0 ==> compare(r) >= 0)
    && (forall i: nat :: i < n && i < r ==> compare(i) > 0)
    && (forall i: nat :: r < i < n ==> compare(i) < 0 || (r >= 0 && compare(r) == 0 == compare(i)))
  }

  /** The element that compares equal, or the one before the place where it would be; -1 if there is none. */
  method SearchElementOrSmaller(n: nat, compare: nat -> int) returns (r: int)
    ensures -1 <= r < n
    ensures Descends(n, compare) ==> IsPredecessor(n, compare, r)
  {
    var f := (i: nat) => compare(i) <= 0;
    var i := Search(n, f);
    ghost var descends := Descends(n, compare);
    if descends {
      BorderSplits(n, compare, i);
    }
    if i >= n {
      return n - 1;
    }
    if compare(i) == 0 {
      return i;
    }
    if descends {
      forall j: nat | i <= j < n ensures compare(j) < 0 {}
    }
    r := i - 1;
  }

  lemma BorderSplits(n: nat, compare: nat -> int, r: nat)
    requires Descends(n, compare) && r <= n && (r < n ==> compare(r) <= 0) && (r > 0 ==> compare(r - 1) > 0)
    ensures (forall i: nat :: i < r ==> compare(i) > 0) && (forall i: nat :: r <= i < n ==> compare(i) <= 0)
  {
    forall i: nat | i < r ensures compare(i) > 0 {
      assert compare(r - 1) > 0;
    }
  }

  /** The first and the last element that compare equal; -1 and -1 if none does. */
  method SearchRange(n: nat, compare: nat -> int) returns (lower: int, upper: int)
    ensures -1 <= lower < n && -1 <= upper < n
    ensures lower >= 0 <==> upper >= 0
    ensures lower >= 0 ==> lower <= upper && compare(lower) == 0
    ensures Descends(n, compare) ==> forall i: nat :: i < n ==> (compare(i) == 0 <==> lower <= i <= upper)
  {
    lower, upper := -1, -1;
    if n == 0 {
      return;
    }
    var start, end := 0, n - 1;
    ghost var descends := Descends(n, compare);
    while start < end
      invariant 0 <= start <= end < n
      invariant descends ==> forall i: nat :: i < start ==> compare(i) > 0
      invariant end == n - 1 || compare(end) <= 0
    {
      var mid := (start + end) / 2;
      if compare(mid) <= 0 {
        end := mid;
      } else {
        start := mid + 1;
        if descends { BelowIsAbove(n, compare, mid); }
      }
    }
    if compare(start) != 0 {
      if descends { NoneEqual(n, compare, start); }
      return;
    }
    lower := start;
    end := n - 1;
    while start < end
      invariant lower <= start <= end < n
      invariant descends ==> compare(start) >= 0
      invariant descends ==> forall i: nat :: end < i < n ==> compare(i) < 0
    {
      var mid := (start + end) / 2 + 1;
      if compare(mid) < 0 {
        end := mid - 1;
        if descends { forall i: nat | mid <= i < n ensures compare(i) < 0 {} }
      } else {
        start := mid;
      }
    }
    upper := end;
    if descends { AllEqualBetween(n, compare, lower, upper); }
  }

  lemma BelowIsAbove(n: nat, compare: nat -> int, mid: nat)
    requires Descends(n, compare) && mid < n && compare(mid) > 0
    ensures forall i: nat :: i <= mid ==> compare(i) > 0
  {
    forall i: nat | i <= mid ensures compare(i) > 0 {
      assert compare(i) <= 0 ==> compare(mid) <= 0;
    }
  }

  lemma NoneEqual(n: nat, compare: nat -> int, at: nat)
    requires Descends(n, compare) && at < n && compare(at) != 0
    requires forall i: nat :: i < at ==> compare(i) > 0
    requires at == n - 1 || compare(at) <= 0
    ensures forall i: nat :: i < n ==> compare(i) != 0
  {
    forall i: nat | at <= i < n ensures compare(i) != 0 {
      assert compare(at) < 0 ==> compare(i) < 0;
    }
  }

  lemma AllEqualBetween(n: nat, compare: nat -> int, lower: nat, upper: nat)
    requires Descends(n, compare) && lower <= upper < n && compare(lower) == 0 && compare(upper) >= 0
    ensures forall i: nat :: lower <= i <= upper ==> compare(i) == 0
  {
    forall i: nat | lower <= i <= upper ensures compare(i) == 0 {
      assert compare(lower) <= 0 ==> compare(i) <= 0;
      assert compare(i) < 0 ==> compare(upper) < 0;
    }
  }

  /** The list without a range, which is all that compares equal if the list is sorted. */
  ghost predicate RemovedRange<T>(arr: seq<T>, compare: nat -> int, lower: nat, upper: nat, r: seq<T>) {
    && lower <= upper <= |arr| && r == arr[..lower] + arr[upper..]
    && (lower < upper ==> compare(lower) == 0)
    && (Descends(|arr|, compare) ==> forall i: nat :: i < |arr| ==> (compare(i) == 0 <==> lower <= i < upper))
  }

  /** Removes what compares equal; from a sorted list that is all of it, and nothing else. */
  method RemoveItemInSortedSlice<T>(arr: seq<T>, compare: nat -> int) returns (r: seq<T>)
    ensures exists lower: nat, upper: nat :: RemovedRange(arr, compare, lower, upper, r)
  {
    var start, end := SearchRange(|arr|, compare);
    r := arr;
    if start >= 0 && end >= 0 {
      r := arr[..start] + arr[end + 1..];
      assert RemovedRange(arr, compare, start, end + 1, r);
    } else {
      assert RemovedRange(arr, compare, 0, 0, r);
    }
  }
}
