/** Parent selection: forming ceil(|population| / 2) parent pairs from a population.
    Random draws are inputs: an index draw is a number below the population size, and
    the redraw loop of panmixia receives its successive pairs of draws. Members are
    generic; `genomes[i]` is the genome of `population[i]`. */
module Pairing {
  import opened Ordering
  import opened Genomes

  /** The number of pairs formed: half the population, rounded up. */
  function PairsCount(p: nat): (c: nat)
    ensures 2 * c == p || 2 * c == p + 1
  {
    p / 2 + p % 2
  }

  /** Every drawn index is below n. */
  predicate InRange(attempts: seq<(int, int)>, n: int) {
    forall a :: 0 <= a < |attempts| ==> 0 <= attempts[a].0 < n && 0 <= attempts[a].1 < n
  }

  /** The draws eventually give two different indices, so the redraw loop ends. */
  predicate Terminates(attempts: seq<(int, int)>) {
    exists a :: 0 <= a < |attempts| && attempts[a].0 != attempts[a].1
  }

  /** The attempt the redraw loop stops at: the first whose two indices differ. */
  function FirstDistinct(attempts: seq<(int, int)>): (a: nat)
    requires Terminates(attempts)
    ensures a < |attempts| && attempts[a].0 != attempts[a].1
    ensures forall b :: 0 <= b < a ==> attempts[b].0 == attempts[b].1
  {
    if attempts[0].0 != attempts[0].1 then 0
    else
      assert Terminates(attempts[1..]) by {
        var a :| 0 <= a < |attempts| && attempts[a].0 != attempts[a].1;
        assert attempts[1..][a - 1] == attempts[a];
      }
      1 + FirstDistinct(attempts[1..])
  }

  /** The redraw loop: starting from two equal indices, both are drawn again until they
      differ. */
  method Redraw(attempts: seq<(int, int)>) returns (first: int, second: int)
    requires Terminates(attempts)
    ensures first != second
    ensures (first, second) == attempts[FirstDistinct(attempts)]
  {
    var stop := FirstDistinct(attempts);
    first, second := 0, 0;
    var a := 0;
    while first == second
      invariant 0 <= a <= stop + 1
      invariant first == second ==> a <= stop
      invariant a > 0 ==> (first, second) == attempts[a - 1]
      invariant first != second ==> a > 0
      decreases stop + 1 - a
    {
      first, second := attempts[a].0, attempts[a].1;
      a := a + 1;
    }
  }

  /** The pair of members at the indices the redraw loop stops at. */
  function Drawn<T>(population: seq<T>, attempts: seq<(int, int)>): (T, T)
    requires InRange(attempts, |population|) && Terminates(attempts)
  {
    var a := FirstDistinct(attempts);
    (population[attempts[a].0], population[attempts[a].1])
  }

  /** Panmixia: each pair is two members at different random indices. */
  method Panmixia<T>(population: seq<T>, attempts: seq<seq<(int, int)>>) returns (pairs: seq<(T, T)>)
    requires |attempts| == PairsCount(|population|)
    requires forall p :: 0 <= p < |attempts| ==> InRange(attempts[p], |population|) && Terminates(attempts[p])
    ensures |pairs| == PairsCount(|population|)
    ensures forall p :: 0 <= p < |pairs| ==> pairs[p] == Drawn(population, attempts[p])
  {
    pairs := [];
    for p := 0 to |attempts|
      invariant |pairs| == p
      invariant forall q :: 0 <= q < p ==> pairs[q] == Drawn(population, attempts[q])
    {
      var i, j := Redraw(attempts[p]);
      pairs := pairs + [(population[i], population[j])];
    }
  }

  /** All genomes have length n. */
  predicate Uniform(genomes: seq<seq<int>>, n: nat) {
    forall i :: 0 <= i < |genomes| ==> |genomes[i]| == n
  }

  /** Every index draw is below n. */
  predicate DrawsBelow(draws: seq<int>, n: nat) {
    forall p :: 0 <= p < |draws| ==> 0 <= draws[p] < n
  }

  /** For every member, the number of genes it shares with `first` position by position. */
  function MatchKeys(genomes: seq<seq<int>>, first: seq<int>): (keys: seq<int>)
    requires Uniform(genomes, |first|)
    ensures |keys| == |genomes|
    ensures forall i :: 0 <= i < |genomes| ==> keys[i] == Matches(first, genomes[i])
  {
    seq(|genomes|, i requires 0 <= i < |genomes| => Matches(first, genomes[i]))
  }

  /** For every member, the number of positions where it differs from `first`. */
  function DiffKeys(genomes: seq<seq<int>>, first: seq<int>): (keys: seq<int>)
    requires Uniform(genomes, |first|)
    ensures |keys| == |genomes|
    ensures forall i :: 0 <= i < |genomes| ==> keys[i] == Differs(first, genomes[i])
  {
    seq(|genomes|, i requires 0 <= i < |genomes| => Differs(first, genomes[i]))
  }

  /** The partner outbreeding picks for the member at index f: the first member, in
      population order, sharing the fewest genes with it. */
  function LeastAlike<T>(population: seq<T>, genomes: seq<seq<int>>, n: nat, f: nat): (mate: T)
    requires |genomes| == |population| && Uniform(genomes, n) && f < |population|
    ensures mate == population[FirstMinIndex(MatchKeys(genomes, genomes[f]))]
  {
    var keys := MatchKeys(genomes, genomes[f]);
    OrderByFirst(population, keys);
    assert keys[..|population|] == keys;
    OrderBy(population, keys)[0]
  }

  /** The partner inbreeding picks for the member at index f: the second member of the
      population ordered (stably) by the number of genes differing from it. */
  function SecondClosest<T>(population: seq<T>, genomes: seq<seq<int>>, n: nat, f: nat): (mate: T)
    requires |genomes| == |population| >= 2 && Uniform(genomes, n) && f < |population|
    ensures mate == population[SecondMinIndex(DiffKeys(genomes, genomes[f]))]
  {
    var keys := DiffKeys(genomes, genomes[f]);
    OrderBySecond(population, keys);
    assert keys[..|population|] == keys;
    OrderBy(population, keys)[1]
  }

  /** Outbreeding: the first parent is the member at a random index, the second the
      member sharing the fewest genes with it. */
  function Outbreeding<T>(population: seq<T>, genomes: seq<seq<int>>, n: nat, draws: seq<int>): (pairs: seq<(T, T)>)
    requires |genomes| == |population| && Uniform(genomes, n)
    requires |draws| == PairsCount(|population|) && DrawsBelow(draws, |population|)
    ensures |pairs| == PairsCount(|population|)
    ensures forall p :: 0 <= p < |pairs| ==>
      pairs[p] == (population[draws[p]], population[FirstMinIndex(MatchKeys(genomes, genomes[draws[p]]))])
  {
    seq(|draws|, p requires 0 <= p < |draws| =>
      (population[draws[p]], LeastAlike(population, genomes, n, draws[p])))
  }

  /** Inbreeding: the first parent is the member at a random index, the second the one
      at rank 1 when the population is ordered by differing genes. A population of one
      member cannot be paired (the source fails when skipping past its only member). */
  function Inbreeding<T>(population: seq<T>, genomes: seq<seq<int>>, n: nat, draws: seq<int>): (pairs: seq<(T, T)>)
    requires |genomes| == |population| != 1 && Uniform(genomes, n)
    requires |draws| == PairsCount(|population|) && DrawsBelow(draws, |population|)
    ensures |pairs| == PairsCount(|population|)
    ensures forall p :: 0 <= p < |pairs| ==>
      pairs[p] == (population[draws[p]], population[SecondMinIndex(DiffKeys(genomes, genomes[draws[p]]))])
  {
    seq(|draws|, p requires 0 <= p < |draws| =>
      (population[draws[p]], SecondClosest(population, genomes, n, draws[p])))
  }

  /** Outbreeding pairs a member with a clone of itself only when every member is such a
      clone: as soon as some member differs from the first parent somewhere, the partner
      differs from it too. */
  lemma OutbreedingPrefersStrangers(genomes: seq<seq<int>>, n: nat, f: nat, other: nat)
    requires Uniform(genomes, n) && f < |genomes| && other < |genomes|
    requires genomes[other] != genomes[f]
    ensures genomes[FirstMinIndex(MatchKeys(genomes, genomes[f]))] != genomes[f]
  {
    var keys := MatchKeys(genomes, genomes[f]);
    var m := FirstMinIndex(keys);
    MatchesSelf(genomes[f]);
    assert Matches(genomes[f], genomes[other]) < n by {
      MatchesDiffers(genomes[f], genomes[other]);
      if Differs(genomes[f], genomes[other]) == 0 {
        DiffersZero(genomes[f], genomes[other]);
      }
    }
    assert keys[m] <= keys[other];
  }

  /** Inbreeding skips the member most alike the first parent, which is always an exact
      copy of it (possibly the first parent itself), and takes the closest of the others. */
  lemma InbreedingSkipsClone(genomes: seq<seq<int>>, n: nat, f: nat)
    requires |genomes| >= 2 && Uniform(genomes, n) && f < |genomes|
    ensures genomes[FirstMinIndex(DiffKeys(genomes, genomes[f]))] == genomes[f]
    ensures forall i :: 0 <= i < |genomes| && i != FirstMinIndex(DiffKeys(genomes, genomes[f])) ==>
      Differs(genomes[f], genomes[SecondMinIndex(DiffKeys(genomes, genomes[f]))]) <= Differs(genomes[f], genomes[i])
  {
    var keys := DiffKeys(genomes, genomes[f]);
    var m := FirstMinIndex(keys);
    DiffersSelf(genomes[f]);
    assert keys[m] <= keys[f];
    DiffersZero(genomes[f], genomes[m]);
    assert genomes[f][..n] == genomes[f];
  }
}
