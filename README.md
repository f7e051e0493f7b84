# SortedStringListSet, modelled and verified in Dafny

`SortedStringListSet` is the spell-checker's dictionary built on a sorted
list. The set is built once from a list of words and is read-only after
that. Its constructor copies the caller's list and sorts the copy. It
answers `contains` with an iterative binary search that compares strings
with `String.compareTo`, and it answers `size` with the list's length.

The project has two modules:

- `JavaStrings` (`java_strings.dfy`) models `String.compareTo` as
  `CompareTo`. Like Java, it returns the difference of the first pair of
  characters that differ, or else the difference of the lengths. The module
  proves the properties that sorting and binary search need:
  - the result is zero exactly for equal strings;
  - swapping the arguments negates the result;
  - its sign gives a transitive, total, antisymmetric order;
  - that order is the lexicographic order (`LexLess`), which is defined
    without recursion.
- `Speller` (`sorted_string_list_set.dfy`) holds the class
  `SortedStringListSet`:
  - a `data` array field, as the source's `data` list;
  - a ghost `Input` field, the caller's list as it was at construction;
  - a `Valid()` invariant: `data` is sorted, `data` is a permutation of
    `Input`, and `data` fits Java's `int` size range.

  The constructor copies the input into a fresh array and sorts it in place
  with `SortInPlace`. `BinarySearch` is the source's `while` loop, with its
  invariants. `Contains` calls it over `[0, size)`. `Size` is the array's
  length. `PermutedInputsAgree` is a client: two sets built from
  permutations of one list answer `contains` alike.

`new ArrayList<>(data)` and `Collections.sort` (SortedStringListSet.java:26-27)
keep duplicates, so `Valid()` requires non-decreasing order and `Size` counts
duplicates.

Java's `int` matters in one place. The not-found result `-(start + 1)`
overflows in Java only when `start` is `Integer.MAX_VALUE`. There the
wrapped value `Integer.MIN_VALUE` is the same number as the mathematical
`-(start + 1)`. Dafny's unbounded integers therefore give exactly Java's
result, and `BinarySearch` also proves that the result fits in an `int`.
`mid = start + (end - start) / 2` cannot overflow, and its operands are
never negative, so Dafny's division agrees with Java's.

## Model

| member | source | states |
|---|---|---|
| `JavaStrings.CompareToZero` | src/main/java/edu/smith/cs/csc212/speller/SortedStringListSet.java:60-61 | `compareTo` is zero if and only if the two strings are equal, so the "found" branch really found `query` |
| `JavaStrings.CompareToAntisymmetric` | src/main/java/edu/smith/cs/csc212/speller/SortedStringListSet.java:62-66 | `CompareTo(a, b) == -CompareTo(b, a)`, so "not less than `data[mid]` and not equal" means greater |
| `JavaStrings.LessEqTransitive` | src/main/java/edu/smith/cs/csc212/speller/SortedStringListSet.java:27 | the at-or-before order used for sorting is transitive |
| `JavaStrings.NotLessIsGreaterEq` | src/main/java/edu/smith/cs/csc212/speller/SortedStringListSet.java:64-66 | the order is total: if `a` is not before `b`, then `b` is at or before `a` |
| `JavaStrings.LessEqAntisymmetric` | src/main/java/edu/smith/cs/csc212/speller/SortedStringListSet.java:27 | two strings each at or before the other are equal |
| `JavaStrings.LessLessEqTransitive` | src/main/java/edu/smith/cs/csc212/speller/SortedStringListSet.java:62-63 | `query` before `data[mid]`, and `data[mid]` at or before a later element, put `query` before that element (this justifies `end = mid`) |
| `JavaStrings.LessEqLessTransitive` | src/main/java/edu/smith/cs/csc212/speller/SortedStringListSet.java:64-65 | an earlier element at or before `data[mid]`, and `data[mid]` before `query`, put that element before `query` (this justifies `start = mid + 1`) |
| `JavaStrings.CompareToIsLexicographic` | src/main/java/edu/smith/cs/csc212/speller/SortedStringListSet.java:60-62 | a negative `compareTo` means exactly that `a` is a proper prefix of `b`, or that `a` has the smaller character at the first difference |
| `Speller.SortInPlace` | src/main/java/edu/smith/cs/csc212/speller/SortedStringListSet.java:27 | sorting leaves the list in non-decreasing `compareTo` order and a permutation of what it was |
| `Speller.InsertIntoSortedPrefix` | src/main/java/edu/smith/cs/csc212/speller/SortedStringListSet.java:27 | one insertion step: given a sorted prefix of length `i`, the prefix of length `i + 1` ends sorted, the elements are only permuted, and everything after position `i` is unchanged |
| `Speller.SwapWithPrevious` | src/main/java/edu/smith/cs/csc212/speller/SortedStringListSet.java:27 | exchanges two neighbouring elements, leaves every other position unchanged and keeps the multiset of elements |
| `Speller.SortedUnique` | src/main/java/edu/smith/cs/csc212/speller/SortedStringListSet.java:25-28 | two sorted lists with the same elements (as multisets) are equal, so the sorted data depends only on the input's multiset, not on its order or on the sorting algorithm |
| `Speller.SortedStringListSet.constructor` | src/main/java/edu/smith/cs/csc212/speller/SortedStringListSet.java:25-28 | `data` is a fresh array, sorted and a permutation of the input list, and the caller's list is unchanged |
| `Speller.SortedStringListSet.BinarySearch` | src/main/java/edu/smith/cs/csc212/speller/SortedStringListSet.java:46-69 | a non-negative result `i` lies in `[start, end)` with `data[i] == query`. A negative result is `-(p + 1)` with `start <= p <= end`: elements of the range before `p` sort before `query`, those from `p` on sort after it, and `query` occurs nowhere in the range. The result fits in a Java `int` |
| `Speller.SortedStringListSet.Contains` | src/main/java/edu/smith/cs/csc212/speller/SortedStringListSet.java:42-44 | true if and only if `key` is an element of the list the set was built from, so on an empty list it is false for every key, `""` included |
| `Speller.SortedStringListSet.Size` | src/main/java/edu/smith/cs/csc212/speller/SortedStringListSet.java:75-77 | equals the length of the input list, duplicates included |
| `Speller.PermutedInputsAgree` | src/main/java/edu/smith/cs/csc212/speller/SortedStringListSet.java:25-44 | sets built from two permutations of one list give the same `contains` answer for any key |

## Left out

- `iterator()` (lines 33-36) is a pass-through to the list's iterator, so there is nothing to verify in it.
- The `(String) key` cast in `contains` is not modelled. `Contains` takes a string, so the
  `ClassCastException` case cannot arise.
- `Collections.sort` (TimSort) is not modelled. An insertion sort, `SortInPlace`, stands in for it.
  Both promise a sorted permutation, and `SortedUnique` shows that this promise determines the
  resulting list, so the choice of algorithm cannot change `data`.
- `JavaStrings.CompareTo`: Dafny characters are Unicode scalar values, but Java compares UTF-16 code
  units. The two orders agree on strings without supplementary characters. They can differ when a
  supplementary character (a surrogate pair in Java) is compared with a character from U+E000 to U+FFFF.
- `SortedStringListSet.constructor`: the caller's list is modelled as an array, and its length must fit
  in a Java `int`, as it must for `ArrayList`. The model does not cover lists of other kinds or their
  concurrent modification during the copy.
- Java's `null` and lone surrogates are not modelled. Dafny arrays and strings are never null, and a
  Dafny string cannot hold an unpaired surrogate, so these Java error paths do not arise in the model:
  `new ArrayList<>(null)` throws `NullPointerException` (line 26); `Collections.sort` throws it for a
  list that holds `null` among two or more elements (line 27); and `contains(null)` throws it at
  `query.compareTo` (line 60) on a non-empty set, but returns false on an empty one, where the loop is
  skipped and the result is `-(0 + 1)`.
- Operations inherited from `AbstractSet` and not overridden by the class (`add`, `remove`, `equals`,
  `hashCode` and the rest) are not modelled.
- `CheckSpelling.java` is not modelled. Its parts are dictionary file I/O, wall-clock timing with
  floating-point ratios, printing, and a driver that wires up `TreeSet`, `HashSet` and the custom
  containers.
- `CharTrie` and `LLHash` are not part of this model. Their sources are not available, and a model
  of them would be invented.
