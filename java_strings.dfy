/**
  Java's `String.compareTo`, the ordering that `Collections.sort` and the
  hand-written binary search of the sorted string set both rely on.

  A string is a sequence of characters.  `CompareTo(a, b)` returns what Java
  returns: the difference of the first pair of characters that differ, or,
  when one string is a prefix of the other, the difference of the lengths.
  Only its sign matters to callers; the lemmas below show that its sign is a
  total order that agrees with the textbook lexicographic order.
*/
module JavaStrings {

  function CompareTo(a: string, b: string): int
    decreases |a|
  {
    if |a| == 0 || |b| == 0 then |a| - |b|
    else if a[0] != b[0] then a[0] as int - b[0] as int
    else CompareTo(a[1..], b[1..])
  }

  /** `a` sorts strictly before `b`. */
  predicate Less(a: string, b: string) {
    CompareTo(a, b) < 0
  }

  /** `a` sorts before `b` or is equal to it. */
  predicate LessEq(a: string, b: string) {
    CompareTo(a, b) <= 0
  }

  /** `a` and `b` agree before position `k`, and at `k` the character of
      `a` is the smaller one. */
  ghost predicate DiffersAt(a: string, b: string, k: int) {
    0 <= k < |a| && k < |b| && a[..k] == b[..k] && a[k] < b[k]
  }

  /** The textbook lexicographic order, stated without recursion: `a` is a
      proper prefix of `b`, or at the first position where they differ `a`
      has the smaller character. */
  ghost predicate LexLess(a: string, b: string) {
    (|a| < |b| && a == b[..|a|]) || exists k :: DiffersAt(a, b, k)
  }

  /** Zero exactly for equal strings. */
  lemma {:induction false} CompareToZero(a: string, b: string)
    ensures CompareTo(a, b) == 0 <==> a == b
    decreases |a|
  {
    if |a| != 0 && |b| != 0 && a[0] == b[0] {
      CompareToZero(a[1..], b[1..]);
      if a[1..] == b[1..] {
        assert a == [a[0]] + a[1..] && b == [b[0]] + b[1..];
      }
    }
  }

  /** Swapping the arguments negates the result. */
  lemma {:induction false} CompareToAntisymmetric(a: string, b: string)
    ensures CompareTo(a, b) == -CompareTo(b, a)
    decreases |a|
  {
    if |a| != 0 && |b| != 0 && a[0] == b[0] {
      CompareToAntisymmetric(a[1..], b[1..]);
    }
  }

  /** `LessEq` is transitive. */
  lemma {:induction false} LessEqTransitive(a: string, b: string, c: string)
    requires LessEq(a, b) && LessEq(b, c)
    ensures LessEq(a, c)
    decreases |a|
  {
    if |a| != 0 && |b| != 0 && |c| != 0 && a[0] == b[0] && b[0] == c[0] {
      LessEqTransitive(a[1..], b[1..], c[1..]);
    }
  }

  /** Any two strings are comparable: if `a` is not before `b`, then `b` is
      at or before `a`. */
  lemma NotLessIsGreaterEq(a: string, b: string)
    requires !Less(a, b)
    ensures LessEq(b, a)
  {
    CompareToAntisymmetric(a, b);
  }

  /** `LessEq` is antisymmetric: mutually ordered strings are equal. */
  lemma LessEqAntisymmetric(a: string, b: string)
    requires LessEq(a, b) && LessEq(b, a)
    ensures a == b
  {
    CompareToAntisymmetric(a, b);
    CompareToZero(a, b);
  }

  /** Strictly before, then at-or-before, is strictly before. */
  lemma LessLessEqTransitive(a: string, b: string, c: string)
    requires Less(a, b) && LessEq(b, c)
    ensures Less(a, c)
  {
    LessEqTransitive(a, b, c);
    CompareToZero(a, c);
    if a == c {
      LessEqAntisymmetric(a, b);
      CompareToZero(a, b);
    }
  }

  /** At-or-before, then strictly before, is strictly before. */
  lemma LessEqLessTransitive(a: string, b: string, c: string)
    requires LessEq(a, b) && Less(b, c)
    ensures Less(a, c)
  {
    LessEqTransitive(a, b, c);
    CompareToZero(a, c);
    if a == c {
      LessEqAntisymmetric(b, c);
      CompareToZero(b, c);
    }
  }

  /** A negative `CompareTo` is exactly the lexicographic order. */
  lemma {:induction false} CompareToIsLexicographic(a: string, b: string)
    ensures Less(a, b) <==> LexLess(a, b)
    decreases |a|
  {
    if |a| == 0 {
      if |b| > 0 {
        assert a == b[..0];
      }
    } else if |b| == 0 {
    } else if a[0] != b[0] {
      if a[0] < b[0] {
        assert a[..0] == b[..0];
        assert DiffersAt(a, b, 0);
      } else {
        forall k | DiffersAt(a, b, k)
          ensures false
        {
        }
      }
    } else {
      CompareToIsLexicographic(a[1..], b[1..]);
      PrefixTail(a, b);
      forall k | DiffersAt(a, b, k)
        ensures DiffersAt(a[1..], b[1..], k - 1)
      {
        DiffersAtTail(a, b, k);
      }
      forall k | DiffersAt(a[1..], b[1..], k)
        ensures DiffersAt(a, b, k + 1)
      {
        DiffersAtTail(a, b, k + 1);
      }
    }
  }

  /** With a common first character, `a` is a proper prefix of `b` exactly
      when its tail is a proper prefix of the tail of `b`. */
  lemma PrefixTail(a: string, b: string)
    requires |a| > 0 && |b| > 0 && a[0] == b[0]
    ensures (|a| < |b| && a == b[..|a|]) <==> (|a| - 1 < |b| - 1 && a[1..] == b[1..][..|a| - 1])
  {
  }

  /** With a common first character, `a` and `b` differ first at `k > 0`
      exactly when their tails differ first at `k - 1`. */
  lemma DiffersAtTail(a: string, b: string, k: int)
    requires |a| > 0 && |b| > 0 && a[0] == b[0] && k > 0
    ensures DiffersAt(a, b, k) <==> DiffersAt(a[1..], b[1..], k - 1)
  {
    if 0 < k <= |a| && k <= |b| {
      assert a[..k] == [a[0]] + a[1..][..k - 1];
      assert b[..k] == [b[0]] + b[1..][..k - 1];
    }
  }
}
