/**
  `SortedStringListSet`: a read-only set of strings kept as a sorted list,
  with membership decided by an iterative binary search.

  The list is modelled as an array owned by the object.  Construction copies
  the caller's list into a fresh array and sorts that copy in place, so the
  caller's list is never touched.
*/
module Speller {
  import opened JavaStrings

  /** Largest value of a Java `int`; a Java list never holds more elements. */
  const INT_MAX: int := 0x7fff_ffff
  /** Smallest value of a Java `int`. */
  const INT_MIN: int := -0x8000_0000

  /** Non-decreasing in the order of `String.compareTo`. */
  ghost predicate Sorted(s: seq<string>) {
    forall i, j :: 0 <= i < j < |s| ==> LessEq(s[i], s[j])
  }

  /** The first element of a sorted list sorts at or before every element. */
  lemma SortedFirstIsLeast(xs: seq<string>, x: string)
    requires Sorted(xs) && x in xs
    ensures LessEq(xs[0], x)
  {
    var i :| 0 <= i < |xs| && xs[i] == x;
    if i == 0 {
      CompareToZero(x, x);
    }
  }

  /** The order is total and antisymmetric, so a multiset of strings has only
      one sorted arrangement: sorting any permutation of a list gives the
      same list. */
  lemma {:induction false} SortedUnique(xs: seq<string>, ys: seq<string>)
    requires Sorted(xs) && Sorted(ys)
    requires multiset(xs) == multiset(ys)
    ensures xs == ys
    decreases |xs|
  {
    assert |xs| == |multiset(xs)| == |multiset(ys)| == |ys|;
    if xs != [] {
      assert xs[0] in multiset(ys) && ys[0] in multiset(xs);
      SortedFirstIsLeast(ys, xs[0]);
      SortedFirstIsLeast(xs, ys[0]);
      LessEqAntisymmetric(xs[0], ys[0]);
      assert multiset(xs[1..]) == multiset(xs) - multiset{xs[0]} by {
        assert xs == [xs[0]] + xs[1..];
      }
      assert multiset(ys[1..]) == multiset(ys) - multiset{ys[0]} by {
        assert ys == [ys[0]] + ys[1..];
      }
      SortedUnique(xs[1..], ys[1..]);
      assert xs == [xs[0]] + xs[1..] && ys == [ys[0]] + ys[1..];
    }
  }

  /** Sorts `a` in place into non-decreasing `compareTo` order (insertion
      sort; it stands in for `Collections.sort`). */
  method SortInPlace(a: array<string>)
    modifies a
    ensures Sorted(a[..])
    ensures multiset(a[..]) == old(multiset(a[..]))
  {
    var i := 0;
    while i < a.Length
      invariant 0 <= i <= a.Length
      invariant forall k, l :: 0 <= k < l < i ==> LessEq(a[k], a[l])
      invariant multiset(a[..]) == old(multiset(a[..]))
    {
      InsertIntoSortedPrefix(a, i);
      i := i + 1;
    }
  }

  /** Given a sorted prefix `a[..i]`, moves `a[i]` left past the larger
      elements, so that `a[..i + 1]` is sorted. */
  method InsertIntoSortedPrefix(a: array<string>, i: int)
    requires 0 <= i < a.Length
    requires forall k, l :: 0 <= k < l < i ==> LessEq(a[k], a[l])
    modifies a
    ensures forall k, l :: 0 <= k < l <= i ==> LessEq(a[k], a[l])
    ensures multiset(a[..]) == old(multiset(a[..]))
    ensures forall k :: i < k < a.Length ==> a[k] == old(a[k])
  {
    var j := i;
    while j > 0 && Less(a[j], a[j - 1])
      invariant 0 <= j <= i
      invariant forall k, l :: 0 <= k < l <= i && k != j && l != j ==> LessEq(a[k], a[l])
      invariant forall l :: j < l <= i ==> LessEq(a[j], a[l])
      invariant multiset(a[..]) == old(multiset(a[..]))
      invariant forall k :: i < k < a.Length ==> a[k] == old(a[k])
    {
      SwapWithPrevious(a, j);
      j := j - 1;
    }
    if j > 0 {
      NotLessIsGreaterEq(a[j], a[j - 1]);
      forall k | 0 <= k < j - 1
        ensures LessEq(a[k], a[j])
      {
        LessEqTransitive(a[k], a[j - 1], a[j]);
      }
    }
  }

  /** Exchanges `a[j - 1]` and `a[j]` and leaves the rest of `a` alone. */
  method SwapWithPrevious(a: array<string>, j: int)
    requires 0 < j < a.Length
    modifies a
    ensures a[j - 1] == old(a[j]) && a[j] == old(a[j - 1])
    ensures forall k :: 0 <= k < a.Length && k != j - 1 && k != j ==> a[k] == old(a[k])
    ensures multiset(a[..]) == old(multiset(a[..]))
  {
    a[j - 1], a[j] := a[j], a[j - 1];
  }

  class SortedStringListSet {
    /** The sorted copy of the strings the set was built from. */
    var data: array<string>
    /** The list the set was built from, as it was at construction. */
    ghost var Input: seq<string>

    ghost predicate Valid()
      reads this, data
    {
      && data.Length <= INT_MAX
      && Sorted(data[..])
      && multiset(data[..]) == multiset(Input)
    }

    /** Copies `input` into a fresh array and sorts the copy. */
    constructor (input: array<string>)
      requires input.Length <= INT_MAX
      ensures Valid()
      ensures fresh(data)
      ensures Input == input[..]
      ensures unchanged(input)
    {
      var copy := new string[input.Length];
      var i := 0;
      while i < input.Length
        invariant 0 <= i <= input.Length
        invariant copy[..i] == input[..i]
      {
        copy[i] := input[i];
        i := i + 1;
      }
      assert copy[..] == input[..];
      SortInPlace(copy);
      data := copy;
      Input := input[..];
    }

    /** Searches `data[start..end)` for `query`.  A non-negative result is an
        index holding `query`; a negative result is `-(p + 1)` for the
        insertion point `p`: everything in the range before `p` sorts before
        `query` and everything from `p` on sorts after it. */
    method BinarySearch(query: string, start: int, end: int) returns (r: int)
      requires Valid()
      requires 0 <= start <= end <= data.Length
      ensures INT_MIN <= r <= INT_MAX
      ensures 0 <= r ==> start <= r < end && data[r] == query
      ensures r < 0 ==>
        && start <= -(r + 1) <= end
        && (forall k :: start <= k < -(r + 1) ==> Less(data[k], query))
        && (forall k :: -(r + 1) <= k < end ==> Less(query, data[k]))
        && (forall k :: start <= k < end ==> data[k] != query)
    {
      var lo, hi := start, end;
      while lo < hi
        invariant start <= lo <= hi <= end
        invariant forall k :: start <= k < lo ==> Less(data[k], query)
        invariant forall k :: hi <= k < end ==> Less(query, data[k])
        decreases hi - lo
      {
        var mid := lo + (hi - lo) / 2;
        var midVal := data[mid];
        if CompareTo(query, midVal) == 0 {
          CompareToZero(query, midVal);
          return mid;
        } else if CompareTo(query, midVal) < 0 {
          forall k | mid <= k < end
            ensures Less(query, data[k])
          {
            if mid < k < hi {
              assert LessEq(data[..][mid], data[..][k]);
              LessLessEqTransitive(query, data[mid], data[k]);
            }
          }
          hi := mid;
        } else {
          NotLessIsGreaterEq(query, midVal);
          CompareToZero(midVal, query);
          forall k | start <= k <= mid
            ensures Less(data[k], query)
          {
            if lo <= k < mid {
              assert LessEq(data[..][k], data[..][mid]);
              LessEqLessTransitive(data[k], data[mid], query);
            }
          }
          lo := mid + 1;
        }
      }
      forall k | start <= k < end
        ensures data[k] != query
      {
        CompareToZero(query, query);
      }
      return -(lo + 1);
    }

    /** Whether `key` was in the list the set was built from. */
    method Contains(key: string) returns (found: bool)
      requires Valid()
      ensures found <==> key in Input
    {
      var i := BinarySearch(key, 0, data.Length);
      found := i >= 0;
      if found {
        assert data[..][i] == key;
      }
      assert key in Input <==> key in data[..] by {
        assert key in multiset(Input) <==> key in multiset(data[..]);
      }
    }

    /** The number of strings the set was built from, duplicates included. */
    function Size(): (n: nat)
      reads this, data
      requires Valid()
      ensures n == |Input|
    {
      assert |data[..]| == |multiset(data[..])|;
      data.Length
    }
  }

  /** Two sets built from permutations of one list answer every membership
      query alike (and, by `SortedUnique`, even hold the same sorted data). */
  method PermutedInputsAgree(xs: array<string>, ys: array<string>, key: string)
    returns (inXs: bool, inYs: bool)
    requires xs.Length <= INT_MAX
    requires multiset(xs[..]) == multiset(ys[..])
    ensures inXs == inYs
  {
    assert |ys[..]| == |multiset(ys[..])| == |multiset(xs[..])| == |xs[..]|;
    var s := new SortedStringListSet(xs);
    var t := new SortedStringListSet(ys);
    inXs := s.Contains(key);
    inYs := t.Contains(key);
    assert key in xs[..] <==> key in ys[..] by {
      assert key in multiset(xs[..]) <==> key in multiset(ys[..]);
    }
  }
}
