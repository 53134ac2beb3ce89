/** `Solution.removeDuplicates` (leetday3.py:2-12): the two-pointer pass that collapses
    each run of equal adjacent values of a list in place and returns the length of the
    collapsed prefix. */
module Dedup {

  /** `s` with every run of equal adjacent values collapsed to one element. */
  function Collapse(s: seq<int>): seq<int>
  {
    if |s| <= 1 then s
    else if s[|s| - 1] == s[|s| - 2] then Collapse(s[..|s| - 1])
    else Collapse(s[..|s| - 1]) + [s[|s| - 1]]
  }

  predicate NoAdjacentRepeats(s: seq<int>)
  {
    forall i :: 0 <= i < |s| - 1 ==> s[i] != s[i + 1]
  }

  predicate Sorted(s: seq<int>)
  {
    forall i, j :: 0 <= i < j < |s| ==> s[i] <= s[j]
  }

  predicate StrictlyIncreasing(s: seq<int>)
  {
    forall i, j :: 0 <= i < j < |s| ==> s[i] < s[j]
  }

  /** Collapsing keeps the first and the last element and never lengthens. */
  lemma {:induction false} CollapseShape(s: seq<int>)
    ensures |Collapse(s)| <= |s|
    ensures s == [] <==> Collapse(s) == []
    ensures s != [] ==> Collapse(s)[0] == s[0] && Collapse(s)[|Collapse(s)| - 1] == s[|s| - 1]
  {
    if |s| > 1 {
      var init := s[..|s| - 1];
      CollapseShape(init);
      assert init[0] == s[0] && init[|init| - 1] == s[|s| - 2];
    }
  }

  /** Collapsing a prefix one element longer: the new element is dropped exactly when it
      repeats the one before it. */
  lemma CollapseSnoc(s: seq<int>, i: nat)
    requires 1 <= i < |s|
    ensures Collapse(s[..i + 1]) == if s[i] == s[i - 1] then Collapse(s[..i]) else Collapse(s[..i]) + [s[i]]
  {
    assert s[..i + 1][..i] == s[..i];
  }

  /** No two adjacent elements of a collapsed sequence are equal. */
  lemma {:induction false} CollapseNoAdjacentRepeats(s: seq<int>)
    ensures NoAdjacentRepeats(Collapse(s))
  {
    if |s| > 1 {
      var init := s[..|s| - 1];
      CollapseNoAdjacentRepeats(init);
      CollapseShape(init);
    }
  }

  /** Collapsing keeps exactly the values that occur. */
  lemma {:induction false} CollapseSameValues(s: seq<int>)
    ensures forall x :: x in Collapse(s) <==> x in s
  {
    if |s| > 1 {
      var init := s[..|s| - 1];
      CollapseSameValues(init);
      CollapseShape(init);
      assert s == init + [s[|s| - 1]];
      assert init[|init| - 1] in init;
    }
  }

  /** A sequence without adjacent repeats is its own collapse. */
  lemma {:induction false} CollapseRepeatFree(s: seq<int>)
    requires NoAdjacentRepeats(s)
    ensures Collapse(s) == s
  {
    if |s| > 1 {
      var init := s[..|s| - 1];
      assert NoAdjacentRepeats(init);
      CollapseRepeatFree(init);
      assert init + [s[|s| - 1]] == s;
    }
  }

  /** Collapsing twice is collapsing once. */
  lemma CollapseIdempotent(s: seq<int>)
    ensures Collapse(Collapse(s)) == Collapse(s)
  {
    CollapseNoAdjacentRepeats(s);
    CollapseRepeatFree(Collapse(s));
  }

  /** For sorted input the collapse is strictly increasing: each distinct value once. */
  lemma {:induction false} CollapseSorted(s: seq<int>)
    requires Sorted(s)
    ensures StrictlyIncreasing(Collapse(s))
  {
    if |s| > 1 {
      var init := s[..|s| - 1];
      assert Sorted(init);
      CollapseSorted(init);
      CollapseShape(init);
      var c := Collapse(init);
      if s[|s| - 1] != s[|s| - 2] {
        var e := c + [s[|s| - 1]];
        forall i, j | 0 <= i < j < |e|
          ensures e[i] < e[j]
        {
          if j == |c| {
            assert c[i] <= c[|c| - 1];
          }
        }
      }
    }
  }

  /** One pass of the loop of `removeDuplicates` on the list `a` with write position `k`:
      when `a[i]` differs from `a[k]` it is copied to position k + 1, and either way the
      collapsed prefix and the untouched suffix now reach one element further. */
  lemma StepKeepsCollapse(a: seq<int>, original: seq<int>, k: nat, i: nat)
    requires |a| == |original| && k < i < |a|
    requires a[..k + 1] == Collapse(original[..i]) && a[k + 1..] == original[k + 1..]
    ensures a[i] == a[k] ==> a[..k + 1] == Collapse(original[..i + 1]) && a[k + 1..] == original[k + 1..]
    ensures a[i] != a[k] ==>
      var a' := a[k + 1 := a[i]];
      a'[..k + 2] == Collapse(original[..i + 1]) && a'[k + 2..] == original[k + 2..]
  {
    CollapseShape(original[..i]);
    CollapseSnoc(original, i);
    assert a[k] == a[..k + 1][k];
    assert a[i] == a[k + 1..][i - k - 1] == original[i];
    if a[i] != a[k] {
      var a' := a[k + 1 := a[i]];
      assert a'[..k + 2] == a[..k + 1] + [a[i]];
      assert a'[k + 2..] == a[k + 2..];
    }
  }

  /** `removeDuplicates(nums)`: for a non-empty list the first `r` elements become the
      collapsed list and the elements from `r` on are as they were; an empty list gives 0. */
  method RemoveDuplicates(nums: array<int>) returns (r: nat)
    modifies nums
    ensures r <= nums.Length
    ensures nums.Length == 0 ==> r == 0
    ensures nums.Length > 0 ==> 1 <= r && nums[0] == old(nums[0])
    ensures nums[..r] == Collapse(old(nums[..]))
    ensures nums[r..] == old(nums[r..])
  {
    if nums.Length == 0 {
      return 0;
    }
    ghost var original := nums[..];
    var k := 0;
    for i := 1 to nums.Length
      invariant 0 <= k < i
      invariant nums[..k + 1] == Collapse(original[..i])
      invariant nums[k + 1..] == original[k + 1..]
    {
      StepKeepsCollapse(nums[..], original, k, i);
      if nums[i] != nums[k] {
        k := k + 1;
        nums[k] := nums[i];
      }
    }
    assert original[..nums.Length] == original;
    CollapseShape(original);
    r := k + 1;
  }

  /** The worked example: [1, 1, 2] gives 2, and the first two elements are [1, 2]. */
  method RemoveDuplicatesExample() returns (r: nat, prefix: seq<int>)
    ensures r == 2 && prefix == [1, 2]
  {
    var nums := new int[] [1, 1, 2];
    assert nums[..] == [1, 1, 2];
    r := RemoveDuplicates(nums);
    assert Collapse([1, 1, 2]) == [1, 2] by {
      assert [1, 1, 2][..2] == [1, 1] && [1, 1][..1] == [1];
    }
    prefix := nums[..r];
  }
}
