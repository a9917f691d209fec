/**
  The equilibrium index of cpp/sum_elements_array_before_and_after: find_index and
  the reading loop of main.c.  The running sum is a long long, the sum before the
  current element an unsigned long long, and the two are compared as unsigned.
*/
module Equilibrium {
  import opened MachineInt

  ghost predicate AllInts(s: seq<int>) {
    forall i :: 0 <= i < |s| ==> IsInt(s[i])
  }

  // ------------------------------------------------------------ the question

  function Sum(s: seq<int>): int {
    if s == [] then 0 else Sum(s[..|s| - 1]) + s[|s| - 1]
  }

  lemma {:induction false} SumConcat(a: seq<int>, b: seq<int>)
    ensures Sum(a + b) == Sum(a) + Sum(b)
    decreases |b|
  {
    if b == [] {
      assert a + b == a;
    } else {
      assert (a + b)[..|a + b| - 1] == a + b[..|b| - 1];
      SumConcat(a, b[..|b| - 1]);
    }
  }

  lemma SumStep(s: seq<int>, k: nat)
    requires k < |s|
    ensures Sum(s[..k + 1]) == Sum(s[..k]) + s[k]
  {
    assert s[..k + 1][..k] == s[..k];
  }

  // At most 2^31 - 1 ints: every partial sum stays within 2^62.
  lemma {:induction false} SumBound(s: seq<int>, k: nat)
    requires AllInts(s) && k <= |s|
    ensures -0x8000_0000 * k <= Sum(s[..k]) <= 0x8000_0000 * k
  {
    if k == 0 {
    } else {
      SumBound(s, k - 1);
      SumStep(s, k - 1);
      assert IsInt(s[k - 1]);
    }
  }

  // ---------------------------------------------------------------- the code

  // The running test for a claimed total, right or wrong: the sum before position i is
  // the total minus the sum through it.
  ghost predicate Matches(s: seq<int>, total: int, i: nat)
    requires i < |s|
  {
    Sum(s[..i]) == total - Sum(s[..i + 1])
  }

  lemma MatchesMeans(s: seq<int>, total: int, i: nat)
    requires i < |s|
    ensures Matches(s, total, i) <==> Sum(s[..i]) == total - Sum(s[..i]) - s[i]
  {
    SumStep(s, i);
  }

  // With the true total, it holds where the elements before position i and those after
  // it have equal sums.
  lemma MatchesIsBalanced(s: seq<int>, i: nat)
    requires i < |s|
    ensures Matches(s, Sum(s), i) <==> Sum(s[..i]) == Sum(s[i + 1..])
  {
    assert s == s[..i + 1] + s[i + 1..];
    SumConcat(s[..i + 1], s[i + 1..]);
  }

  lemma NoneBalanced(s: seq<int>, n: nat)
    requires n <= |s| && forall i :: 0 <= i < n ==> !Matches(s, Sum(s), i)
    ensures forall i :: 0 <= i < n ==> Sum(s[..i]) != Sum(s[i + 1..])
  {
    forall i | 0 <= i < n
      ensures Sum(s[..i]) != Sum(s[i + 1..])
    {
      MatchesIsBalanced(s, i);
    }
  }

  // What is left of the total at any point fits a long long.
  lemma RemaindersFit(s: seq<int>)
    requires AllInts(s) && |s| <= INT_MAX
    ensures forall k :: 0 <= k <= |s| ==> IsLong(Sum(s) - Sum(s[..k]))
  {
    forall k | 0 <= k <= |s|
      ensures IsLong(Sum(s) - Sum(s[..k]))
    {
      SumBound(s, k);
      SumBound(s, |s|);
      assert s[..|s|] == s;
    }
  }

  // Unsigned equality is equality when the sum before stays within 2^62.
  lemma UnsignedComparison(before: int, after: int)
    requires -0x4000_0000_0000_0000 <= before <= 0x4000_0000_0000_0000 && IsLong(after)
    ensures before % WORD == after % WORD <==> before == after
  {
    var k := before / WORD - after / WORD;
    assert before - after == k * WORD + (before % WORD - after % WORD);
  }

  // Any claimed total is taken for granted, as long as no signed sum overflows.
  method FindIndex(elements: array<int>, numberOfElements: int, sum0: int) returns (index: int)
    requires numberOfElements <= elements.Length && numberOfElements <= INT_MAX && AllInts(elements[..])
    requires forall k :: 0 <= k <= numberOfElements ==> IsLong(sum0 - Sum(elements[..k]))
    ensures index == -1 || 0 <= index < numberOfElements
    ensures index >= 0 ==> Matches(elements[..], sum0, index)
    ensures forall i :: 0 <= i < (if index == -1 then numberOfElements else index) ==> !Matches(elements[..], sum0, i)
  {
    var sum := sum0;
    var sumBefore := 0;
    ghost var s := elements[..];
    var i := 0;
    while i < numberOfElements
      invariant 0 <= i && (i <= numberOfElements || i == 0)
      invariant sum == sum0 - Sum(s[..i]) && sumBefore == Sum(s[..i]) % WORD
      invariant forall j :: 0 <= j < i ==> !Matches(s, sum0, j)
    {
      SumStep(s, i);
      SumBound(s, i);
      assert elements[..i] == s[..i] && elements[..i + 1] == s[..i + 1];
      sum := sum - elements[i];
      assert IsLong(sum);
      UnsignedComparison(Sum(s[..i]), sum);
      if sumBefore == sum % WORD {
        return i;
      } else {
        sumBefore := AddUnsigned(sumBefore, elements[i], Sum(s[..i]));
      }
      i := i + 1;
    }
    return -1;
  }

  // unsigned += int
  method AddUnsigned(x: int, y: int, ghost exact: int) returns (z: int)
    requires x == exact % WORD
    ensures z == (exact + y) % WORD
  {
    z := (x + y) % WORD;
    var q, r := x + y - z, z;
    assert exact + y == (exact / WORD + (x + y) / WORD) * WORD + r;
    QuotientUnique(exact + y, WORD, exact / WORD + (x + y) / WORD, r);
  }

  // The reading loop of main.c; `input` is what scanf reads.
  method ReadIntegers(value: int, input: seq<int>) returns (integers: array<int>, sum: int)
    requires 0 <= value == |input| <= INT_MAX && AllInts(input)
    ensures fresh(integers) && integers[..] == input && sum == Sum(input)
  {
    integers := new int[value];
    sum := 0;
    var i := 0;
    while i < value
      invariant 0 <= i <= value && integers[..i] == input[..i]
      invariant sum == Sum(input[..i])
    {
      integers[i] := input[i];
      SumStep(input, i);
      SumBound(input, i + 1);
      sum := sum + integers[i];
      assert IsLong(sum);
      i := i + 1;
    }
    assert input[..value] == input;
  }

  // main.c: the exit code, and the index found when it is 0; `haveMemory` tells
  // whether malloc succeeds.
  method Run(value: int, input: seq<int>, haveMemory: bool) returns (exit: int, index: int)
    requires value <= INT_MAX
    requires value >= 1 ==> |input| == value && AllInts(input)
    ensures exit == if value < 1 then 1 else if !haveMemory then 2 else 0
    ensures exit == 0 ==> -1 <= index < |input|
    ensures exit == 0 && index >= 0 ==> Sum(input[..index]) == Sum(input[index + 1..])
    ensures exit == 0 ==> forall i :: 0 <= i < (if index == -1 then |input| else index) ==>
                            Sum(input[..i]) != Sum(input[i + 1..])
  {
    index := -1;
    if value < 1 {
      return 1, index;
    }
    if !haveMemory {
      return 2, index;
    }
    var integers, sum := ReadIntegers(value, input);
    assert integers[..] == input;
    RemaindersFit(input);
    index := FindIndex(integers, value, sum);
    ghost var limit := if index == -1 then value else index;
    assert integers[..] == input && sum == Sum(input);
    assert forall i :: 0 <= i < limit ==> !Matches(input, Sum(input), i);
    NoneBalanced(input, limit);
    if index >= 0 {
      MatchesIsBalanced(input, index);
    }
    exit := 0;
  }
}
