/** Array.prototype.sort without a comparator, on an array of strings: the
    elements end up in ascending order of their UTF-16 code units, compared
    lexicographically (a proper prefix comes first). */
module JsSort {
  import opened JsString

  /** Lexicographic order on code-unit sequences, as in the IsLessThan
      comparison of ECMA-262 for two strings, with equality added. */
  predicate LexLessEq(x: seq<int>, y: seq<int>)
    decreases |x|
  {
    |x| == 0 || (|y| > 0 && (x[0] < y[0] || (x[0] == y[0] && LexLessEq(x[1..], y[1..]))))
  }

  /** At the first position where `x` and `y` differ, `x` has the smaller
      code unit. */
  predicate SmallerAtFirstDifference(x: seq<int>, y: seq<int>) {
    exists k :: 0 <= k < |x| && k < |y| && x[..k] == y[..k] && x[k] < y[k]
  }

  /** Two sequences with the same first element compare as their tails do. */
  lemma SameHead(x: seq<int>, y: seq<int>)
    requires |x| > 0 && |y| > 0 && x[0] == y[0]
    ensures x <= y <==> x[1..] <= y[1..]
    ensures SmallerAtFirstDifference(x, y) <==> SmallerAtFirstDifference(x[1..], y[1..])
  {
    var x', y' := x[1..], y[1..];
    assert x == [x[0]] + x' && y == [y[0]] + y';
    if SmallerAtFirstDifference(x', y') {
      var k :| 0 <= k < |x'| && k < |y'| && x'[..k] == y'[..k] && x'[k] < y'[k];
      assert x[..k + 1] == [x[0]] + x'[..k] && y[..k + 1] == [y[0]] + y'[..k];
      assert x[k + 1] < y[k + 1];
    }
    if SmallerAtFirstDifference(x, y) {
      var k :| 0 <= k < |x| && k < |y| && x[..k] == y[..k] && x[k] < y[k];
      assert k > 0;
      assert x'[..k - 1] == x[1..k] && y'[..k - 1] == y[1..k];
      assert x[..k][1..] == x[1..k] && y[..k][1..] == y[1..k];
      assert x'[k - 1] < y'[k - 1];
    }
  }

  /** The recursive order is the one IsLessThan describes: `x` is a prefix of
      `y`, or `x` is smaller at the first position where they differ. */
  lemma {:induction false} LexLessEqCases(x: seq<int>, y: seq<int>)
    ensures LexLessEq(x, y) <==> x <= y || SmallerAtFirstDifference(x, y)
    decreases |x|
  {
    if |x| > 0 && |y| > 0 {
      var x', y' := x[1..], y[1..];
      LexLessEqCases(x', y');
      if x[0] < y[0] {
        assert x[..0] == y[..0];
      } else if x[0] == y[0] {
        SameHead(x, y);
      }
    } else if |x| > 0 {
      assert !(x <= y);
    }
  }

  /** `a` sorts no later than `b` under the default sort order: `a` is a
      prefix of `b` in code units, or has the smaller code unit where they
      first differ. */
  predicate LessEq(a: string, b: string)
    ensures LessEq(a, b) <==> Utf16(a) <= Utf16(b) || SmallerAtFirstDifference(Utf16(a), Utf16(b))
  {
    LexLessEqCases(Utf16(a), Utf16(b));
    LexLessEq(Utf16(a), Utf16(b))
  }

  lemma {:induction false} LexReflexive(x: seq<int>)
    ensures LexLessEq(x, x)
    decreases |x|
  {
    if |x| > 0 {
      LexReflexive(x[1..]);
    }
  }

  lemma {:induction false} LexTotal(x: seq<int>, y: seq<int>)
    ensures LexLessEq(x, y) || LexLessEq(y, x)
    decreases |x|
  {
    if |x| > 0 && |y| > 0 && x[0] == y[0] {
      LexTotal(x[1..], y[1..]);
    }
  }

  lemma {:induction false} LexAntisymmetric(x: seq<int>, y: seq<int>)
    requires LexLessEq(x, y) && LexLessEq(y, x)
    ensures x == y
    decreases |x|
  {
    if |x| > 0 {
      LexAntisymmetric(x[1..], y[1..]);
      assert x == [x[0]] + x[1..] && y == [y[0]] + y[1..];
    }
  }

  lemma {:induction false} LexTransitive(x: seq<int>, y: seq<int>, z: seq<int>)
    requires LexLessEq(x, y) && LexLessEq(y, z)
    ensures LexLessEq(x, z)
    decreases |x|
  {
    if |x| > 0 && x[0] == y[0] && y[0] == z[0] {
      LexTransitive(x[1..], y[1..], z[1..]);
    }
  }

  lemma LessEqReflexive(a: string)
    ensures LessEq(a, a)
  {
    LexReflexive(Utf16(a));
  }

  lemma LessEqTotal(a: string, b: string)
    ensures LessEq(a, b) || LessEq(b, a)
  {
    LexTotal(Utf16(a), Utf16(b));
  }

  /** Two strings that sort at the same place are the same string, because
      the UTF-16 encoding is injective. */
  lemma LessEqAntisymmetric(a: string, b: string)
    requires LessEq(a, b) && LessEq(b, a)
    ensures a == b
  {
    LexAntisymmetric(Utf16(a), Utf16(b));
    Utf16Injective(a, b);
  }

  lemma LessEqTransitive(a: string, b: string, c: string)
    requires LessEq(a, b) && LessEq(b, c)
    ensures LessEq(a, c)
  {
    LexTransitive(Utf16(a), Utf16(b), Utf16(c));
  }

  predicate Sorted(s: seq<string>) {
    forall i, j :: 0 <= i < j < |s| ==> LessEq(s[i], s[j])
  }

  /** Ascending with no element twice. */
  predicate StrictlySorted(s: seq<string>) {
    forall i, j :: 0 <= i < j < |s| ==> LessEq(s[i], s[j]) && s[i] != s[j]
  }

  /** Neighbours in order means the whole sequence is in order. */
  lemma {:induction false} NeighboursSorted(s: seq<string>)
    requires forall k :: 0 < k < |s| ==> LessEq(s[k - 1], s[k])
    ensures Sorted(s)
    decreases |s|
  {
    if |s| > 1 {
      var init := s[..|s| - 1];
      NeighboursSorted(init);
      forall i | 0 <= i < |s| - 1 ensures LessEq(s[i], s[|s| - 1]) {
        if i < |s| - 2 {
          assert init[i] == s[i] && init[|s| - 2] == s[|s| - 2];
          LessEqTransitive(s[i], s[|s| - 2], s[|s| - 1]);
        }
      }
      forall i, j | 0 <= i < j < |s| ensures LessEq(s[i], s[j]) {
        if j < |s| - 1 {
          assert init[i] == s[i] && init[j] == s[j];
        }
      }
    }
  }

  lemma SortedHeadFirst(x: seq<string>, v: string)
    requires Sorted(x) && v in x
    ensures LessEq(x[0], v)
  {
    var i :| 0 <= i < |x| && x[i] == v;
    if i == 0 {
      LessEqReflexive(v);
    }
  }

  lemma TailsSameElements(x: seq<string>, y: seq<string>)
    requires |x| > 0 && |y| > 0 && x[0] == y[0] && multiset(x) == multiset(y)
    ensures multiset(x[1..]) == multiset(y[1..])
  {
    assert x == [x[0]] + x[1..] && y == [y[0]] + y[1..];
    assert multiset(x) == multiset{x[0]} + multiset(x[1..]);
    assert multiset(y) == multiset{x[0]} + multiset(y[1..]);
    assert multiset(x[1..]) == multiset(x) - multiset{x[0]};
    assert multiset(y[1..]) == multiset(y) - multiset{x[0]};
  }

  /** A sorted sequence is determined by its elements: two sorted
      arrangements of the same multiset are equal. */
  lemma {:induction false} SortedUnique(x: seq<string>, y: seq<string>)
    requires Sorted(x) && Sorted(y) && multiset(x) == multiset(y)
    ensures x == y
    decreases |x|
  {
    if |x| == 0 {
      assert |multiset(y)| == 0;
    } else {
      assert |y| == |multiset(y)| == |multiset(x)| == |x|;
      assert x[0] in multiset(y) && y[0] in multiset(x);
      SortedHeadFirst(x, y[0]);
      SortedHeadFirst(y, x[0]);
      LessEqAntisymmetric(x[0], y[0]);
      TailsSameElements(x, y);
      SortedUnique(x[1..], y[1..]);
      assert x == [x[0]] + x[1..] && y == [y[0]] + y[1..];
    }
  }

  /** A sorted sequence without repeated elements is strictly ascending. */
  lemma SortedDistinct(s: seq<string>)
    requires Sorted(s)
    requires forall i, j :: 0 <= i < j < |s| ==> s[i] != s[j]
    ensures StrictlySorted(s)
  {
  }

  /** Swaps two neighbouring elements. */
  method SwapDown(a: array<string>, j: nat)
    requires 0 < j < a.Length
    modifies a
    ensures a[..] == old(a[..])[j - 1 := old(a[j])][j := old(a[j - 1])]
    ensures multiset(a[..]) == multiset(old(a[..]))
  {
    a[j - 1], a[j] := a[j], a[j - 1];
  }

  /** One step of insertion sort: moves `a[i]` down past every larger
      neighbour, so that the first `i + 1` elements are in order. */
  method InsertDown(a: array<string>, i: nat)
    requires i < a.Length
    requires forall k :: 0 < k < i ==> LessEq(a[k - 1], a[k])
    modifies a
    ensures forall k :: 0 < k <= i ==> LessEq(a[k - 1], a[k])
    ensures multiset(a[..]) == multiset(old(a[..]))
  {
    var j := i;
    while j > 0 && !LessEq(a[j - 1], a[j])
      invariant 0 <= j <= i
      invariant forall k :: 0 < k <= i && k != j ==> LessEq(a[k - 1], a[k])
      invariant 0 < j < i ==> LessEq(a[j - 1], a[j + 1])
      invariant multiset(a[..]) == multiset(old(a[..]))
    {
      LessEqTotal(a[j - 1], a[j]);
      SwapDown(a, j);
      j := j - 1;
    }
  }

  /** `a.sort()`: insertion sort in place. The array ends up sorted and holds
      the same elements as before. */
  method SortInPlace(a: array<string>)
    modifies a
    ensures Sorted(a[..])
    ensures multiset(a[..]) == multiset(old(a[..]))
  {
    var i := 0;
    while i < a.Length
      invariant 0 <= i <= a.Length
      invariant forall k :: 0 < k < i ==> LessEq(a[k - 1], a[k])
      invariant multiset(a[..]) == multiset(old(a[..]))
    {
      InsertDown(a, i);
      i := i + 1;
    }
    NeighboursSorted(a[..]);
  }
}
