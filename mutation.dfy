/** Adaptive mutation: with a probability equal to the share of positions where the two
    parents agree, an offspring has max(1, n / 10) pairs of its genes swapped in place.
    The random draw and the redraw attempts for every swap are inputs. */
module Mutations {
  import opened Genomes
  import opened Pairing

  /** The number of swaps performed: a tenth of the genome, at least one. */
  function SwapCount(n: nat): (c: nat)
    ensures c >= 1 && (n >= 20 ==> c == n / 10) && (n < 20 ==> c == 1)
  {
    if n / 10 > 1 then n / 10 else 1
  }

  /** The genome with the genes at i and j exchanged. */
  function Swap(s: seq<int>, i: int, j: int): (r: seq<int>)
    requires 0 <= i < |s| && 0 <= j < |s|
    ensures |r| == |s| && r[i] == s[j] && r[j] == s[i]
    ensures forall k :: 0 <= k < |s| && k != i && k != j ==> r[k] == s[k]
  {
    s[i := s[j]][j := s[i]]
  }

  /** A swap keeps the multiset of genes. */
  lemma SwapPermutation(s: seq<int>, i: int, j: int)
    requires 0 <= i < |s| && 0 <= j < |s|
    ensures multiset(Swap(s, i, j)) == multiset(s)
  {
  }

  /** Every swap's redraw attempts are indices below n and end. */
  predicate SwapDraws(swaps: seq<seq<(int, int)>>, n: nat) {
    forall t :: 0 <= t < |swaps| ==> InRange(swaps[t], n) && Terminates(swaps[t])
  }

  /** The genome after the swaps, in order; each swap exchanges the first two different
      indices its redraw loop draws. */
  function Swapped(s: seq<int>, swaps: seq<seq<(int, int)>>): (r: seq<int>)
    requires SwapDraws(swaps, |s|)
    ensures |r| == |s|
  {
    if swaps == [] then s
    else
      var pre := Swapped(s, swaps[..|swaps| - 1]);
      var last := swaps[|swaps| - 1];
      var a := last[FirstDistinct(last)];
      Swap(pre, a.0, a.1)
  }

  /** Swapping only rearranges: every node keeps its number of genes. */
  lemma {:induction false} SwappedPermutation(s: seq<int>, swaps: seq<seq<(int, int)>>)
    requires SwapDraws(swaps, |s|)
    ensures multiset(Swapped(s, swaps)) == multiset(s)
  {
    if swaps != [] {
      SwappedPermutation(s, swaps[..|swaps| - 1]);
      var last := swaps[|swaps| - 1];
      var a := last[FirstDistinct(last)];
      SwapPermutation(Swapped(s, swaps[..|swaps| - 1]), a.0, a.1);
    }
  }

  /** The mutation decision: the draw (a number below the genome length) is compared with
      the number of positions where the parents agree. */
  function Mutated(offspring: seq<int>, first: seq<int>, second: seq<int>, draw: int,
                   swaps: seq<seq<(int, int)>>): (r: seq<int>)
    requires |second| >= |first|
    requires draw < Matches(second, first) ==> SwapDraws(swaps, |offspring|)
    ensures |r| == |offspring|
  {
    if draw < Matches(second, first) then Swapped(offspring, swaps) else offspring
  }

  /** Mutation keeps the genome's length and the number of genes of every node, hence
      every gene range and capacity bound the offspring met before. */
  lemma MutatedPermutation(offspring: seq<int>, first: seq<int>, second: seq<int>, draw: int,
                           swaps: seq<seq<(int, int)>>)
    requires |second| >= |first|
    requires draw < Matches(second, first) ==> SwapDraws(swaps, |offspring|)
    ensures multiset(Mutated(offspring, first, second, draw, swaps)) == multiset(offspring)
    ensures draw >= Matches(second, first) ==> Mutated(offspring, first, second, draw, swaps) == offspring
  {
    if draw < Matches(second, first) {
      SwappedPermutation(offspring, swaps);
    }
  }

  /** The same multiset of genes has the same range of nodes. */
  lemma PermutationInNodes(a: seq<int>, b: seq<int>, k: int)
    requires multiset(a) == multiset(b) && InNodes(a, k)
    ensures InNodes(b, k)
  {
    forall i | 0 <= i < |b| ensures 1 <= b[i] <= k {
      assert b[i] in multiset(a);
    }
  }

  /** One more swap. */
  lemma SwappedStep(s: seq<int>, swaps: seq<seq<(int, int)>>, i: nat)
    requires i < |swaps| && SwapDraws(swaps, |s|)
    ensures SwapDraws(swaps[..i], |s|) && SwapDraws(swaps[..i + 1], |s|)
    ensures var a := swaps[i][FirstDistinct(swaps[i])];
      0 <= a.0 < |s| && 0 <= a.1 < |s| &&
      Swapped(s, swaps[..i + 1]) == Swap(Swapped(s, swaps[..i]), a.0, a.1)
  {
    SwapDrawsPrefix(swaps, i, |s|);
    SwapDrawsPrefix(swaps, i + 1, |s|);
    var p := swaps[..i + 1];
    assert p != [] && p[..|p| - 1] == swaps[..i] && p[|p| - 1] == swaps[i];
    assert InRange(swaps[i], |s|) && Terminates(swaps[i]);
  }

  lemma SwapDrawsPrefix(swaps: seq<seq<(int, int)>>, i: nat, n: nat)
    requires i <= |swaps| && SwapDraws(swaps, n)
    ensures SwapDraws(swaps[..i], n)
  {
    assert forall t :: 0 <= t < i ==> swaps[..i][t] == swaps[t];
  }

  /** The mutation of an offspring array in place; the array is returned. */
  method Mutation(offspring: array<int>, firstParent: array<int>, secondParent: array<int>,
                  draw: int, swaps: seq<seq<(int, int)>>) returns (r: array<int>)
    requires secondParent.Length >= firstParent.Length
    requires draw < Matches(secondParent[..], firstParent[..]) ==>
      |swaps| == SwapCount(offspring.Length) && SwapDraws(swaps, offspring.Length)
    modifies offspring
    ensures r == offspring
    ensures offspring[..] == Mutated(old(offspring[..]), old(firstParent[..]), old(secondParent[..]), draw, swaps)
  {
    ghost var initial := offspring[..];
    var sameGenesCount := CountSame(firstParent, secondParent);
    if draw < sameGenesCount {
      var count := SwapCount(offspring.Length);
      for i := 0 to count
        invariant SwapDraws(swaps[..i], |initial|)
        invariant offspring[..] == Swapped(initial, swaps[..i])
      {
        var firstGeneIndex, secondGeneIndex := Redraw(swaps[i]);
        ghost var before := offspring[..];
        offspring[firstGeneIndex], offspring[secondGeneIndex] := offspring[secondGeneIndex], offspring[firstGeneIndex];
        assert offspring[..] == Swap(before, firstGeneIndex, secondGeneIndex);
        SwappedStep(initial, swaps, i);
      }
      assert swaps[..count] == swaps;
    }
    r := offspring;
  }

  /** The number of positions below firstParent.Length where the parents agree. */
  method CountSame(firstParent: array<int>, secondParent: array<int>) returns (count: int)
    requires secondParent.Length >= firstParent.Length
    ensures count == Matches(secondParent[..], firstParent[..])
  {
    count := 0;
    for i := 0 to firstParent.Length
      invariant count == Matches(secondParent[..], firstParent[..i])
    {
      assert firstParent[..i + 1][..i] == firstParent[..i];
      if firstParent[i] == secondParent[i] {
        count := count + 1;
      }
    }
    assert firstParent[..firstParent.Length] == firstParent[..];
  }
}
