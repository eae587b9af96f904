/** A JavaScript `Set` as the scripts use it: values added one at a time,
    a value already present left where it is, and `Array.from(set)` listing
    the values in the order they were first added. The set is the sequence of
    its values in that order. */
module OrderedSet {

  predicate NoDuplicates(s: seq<string>) {
    forall i, j :: 0 <= i < j < |s| ==> s[i] != s[j]
  }

  /** `set.add(x)`: appends `x` unless it is already there. */
  function Add(s: seq<string>, x: string): (r: seq<string>)
    ensures NoDuplicates(s) ==> NoDuplicates(r)
    ensures forall y :: y in r <==> y in s || y == x
    ensures x in s ==> r == s
    ensures x !in s ==> r == s + [x]
  {
    if x in s then s else s + [x]
  }

  /** `Array.from(new Set(xs))`, the set built by adding the elements of
      `xs` from first to last: every element of `xs` exactly once and
      nothing else. */
  function Distinct(xs: seq<string>): (r: seq<string>)
    ensures NoDuplicates(r)
    ensures forall y :: y in r <==> y in xs
    ensures |r| <= |xs|
    decreases |xs|
  {
    if xs == [] then [] else Add(Distinct(xs[..|xs| - 1]), xs[|xs| - 1])
  }

  /** The position of the first occurrence of `x` in `xs`. */
  function IndexOf(xs: seq<string>, x: string): (k: nat)
    requires x in xs
    ensures k < |xs| && xs[k] == x && x !in xs[..k]
    decreases |xs|
  {
    if xs[0] == x then 0 else 1 + IndexOf(xs[1..], x)
  }

  lemma {:induction false} IndexOfAppend(xs: seq<string>, z: string, x: string)
    requires x in xs
    ensures IndexOf(xs + [z], x) == IndexOf(xs, x)
    decreases |xs|
  {
    if xs[0] != x {
      assert (xs + [z])[1..] == xs[1..] + [z];
      IndexOfAppend(xs[1..], z, x);
    }
  }

  /** The set lists the values in the order of their first occurrence in
      `xs`. */
  lemma {:induction false} DistinctKeepsFirstOccurrenceOrder(xs: seq<string>)
    ensures forall i, j :: 0 <= i < j < |Distinct(xs)| ==>
              IndexOf(xs, Distinct(xs)[i]) < IndexOf(xs, Distinct(xs)[j])
    decreases |xs|
  {
    if xs != [] {
      var init, last := xs[..|xs| - 1], xs[|xs| - 1];
      assert xs == init + [last];
      var d := Distinct(init);
      DistinctKeepsFirstOccurrenceOrder(init);
      forall y | y in init ensures IndexOf(xs, y) == IndexOf(init, y) {
        IndexOfAppend(init, last, y);
      }
      if last !in init {
        assert IndexOf(xs, last) == |init| by {
          assert xs[..|init|] == init;
        }
      }
    }
  }

  /** Adding values that are all different, to an empty set, lists them in
      the order given. */
  lemma {:induction false} DistinctOfNoDuplicates(xs: seq<string>)
    requires NoDuplicates(xs)
    ensures Distinct(xs) == xs
    decreases |xs|
  {
    if xs != [] {
      var init := xs[..|xs| - 1];
      DistinctOfNoDuplicates(init);
      assert xs == init + [xs[|xs| - 1]];
    }
  }

  lemma {:induction false} NoDuplicatesCountsOnce(x: seq<string>, v: string)
    requires NoDuplicates(x)
    ensures multiset(x)[v] <= 1
    decreases |x|
  {
    if x != [] {
      var init := x[..|x| - 1];
      assert x == init + [x[|x| - 1]];
      NoDuplicatesCountsOnce(init, v);
      if v == x[|x| - 1] {
        assert v !in init;
      }
    }
  }

  /** Rearranging a duplicate-free sequence creates no duplicates. */
  lemma NoDuplicatesPermutation(x: seq<string>, y: seq<string>)
    requires NoDuplicates(x) && multiset(x) == multiset(y)
    ensures NoDuplicates(y)
  {
    forall i, j | 0 <= i < j < |y| ensures y[i] != y[j] {
      NoDuplicatesCountsOnce(x, y[i]);
      assert y == y[..j] + [y[j]] + y[j + 1..];
      assert y[i] in y[..j];
    }
  }

  /** Adding one more value to the set built from `xs`. */
  lemma DistinctSnoc(xs: seq<string>, x: string)
    ensures Distinct(xs + [x]) == Add(Distinct(xs), x)
  {
    assert (xs + [x])[..|xs|] == xs;
  }

  lemma DistinctKeeps(xs: seq<string>, x: string)
    requires x in xs
    ensures x in Distinct(xs)
  {
  }

  /** Adding the next value of `ys` to the set built from `xs` and the
      values of `ys` before it. */
  lemma DistinctAppendStep(xs: seq<string>, ys: seq<string>, j: nat)
    requires j < |ys|
    ensures Distinct(xs + ys[..j + 1]) == Add(Distinct(xs + ys[..j]), ys[j])
  {
    assert xs + ys[..j + 1] == (xs + ys[..j]) + [ys[j]];
    DistinctSnoc(xs + ys[..j], ys[j]);
  }

  /** `xs.forEach(x => set.add(x))` on the set built from `before`. */
  method AddAll(s: seq<string>, ghost before: seq<string>, xs: seq<string>) returns (r: seq<string>)
    requires s == Distinct(before)
    ensures r == Distinct(before + xs)
  {
    r := s;
    assert before + xs[..0] == before;
    for j := 0 to |xs|
      invariant r == Distinct(before + xs[..j])
    {
      DistinctAppendStep(before, xs, j);
      r := Add(r, xs[j]);
    }
    assert xs[..|xs|] == xs;
  }
}
