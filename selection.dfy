/** Survivor selection: keeping half the population (rounded down). Individuals are
    genome arrays and the fitness dictionary is keyed by reference; a lower fitness (fewer
    inter-node connections) is better. */
module Selection {
  import opened Seqs
  import opened Ordering
  import opened LayoutResults

  /** Every member has a fitness. */
  predicate Scored(population: seq<array<int>>, fitness: map<array<int>, int>) {
    forall i :: 0 <= i < |population| ==> population[i] in fitness
  }

  /** Elitism: the population ordered (stably) by fitness, first half kept. */
  function Elitism(population: seq<array<int>>, fitness: map<array<int>, int>): (survivors: seq<array<int>>)
    requires Scored(population, fitness)
    ensures |survivors| == |population| / 2
    ensures multiset(survivors) <= multiset(population)
    ensures forall x, y :: x in multiset(survivors) && y in multiset(population) - multiset(survivors) ==>
      x in fitness && y in fitness && fitness[x] <= fitness[y]
  {
    var keys := FitnessKeys(population, fitness);
    var ordered := OrderBy(population, keys);
    var h := |population| / 2;
    OrderByPermutation(population, keys);
    MultisetSplit(ordered, h);
    ElitismOrder(population, fitness, h, ordered);
    ordered[..h]
  }

  /** Removing a prefix's members leaves the suffix's. */
  lemma MultisetSplit<T>(xs: seq<T>, h: nat)
    requires h <= |xs|
    ensures multiset(xs) == multiset(xs[..h]) + multiset(xs[h..])
    ensures multiset(xs) - multiset(xs[..h]) == multiset(xs[h..])
  {
    assert xs == xs[..h] + xs[h..];
  }

  /** The kept prefix of the ordered population is no worse than the dropped rest. */
  lemma ElitismOrder(population: seq<array<int>>, fitness: map<array<int>, int>, h: nat, ordered: seq<array<int>>)
    requires Scored(population, fitness) && h <= |population|
    requires ordered == OrderBy(population, FitnessKeys(population, fitness))
    requires |ordered| == |population|
    ensures forall x, y :: x in multiset(ordered[..h]) && y in multiset(ordered[h..]) ==>
      x in fitness && y in fitness && fitness[x] <= fitness[y]
  {
    OrderedPairs(population, fitness, h, ordered);
    PrefixNoWorse(ordered, fitness, h);
  }

  /** Every position before h of the ordered population is no worse than every position
      from h on. */
  lemma OrderedPairs(population: seq<array<int>>, fitness: map<array<int>, int>, h: nat, ordered: seq<array<int>>)
    requires Scored(population, fitness) && h <= |population|
    requires ordered == OrderBy(population, FitnessKeys(population, fitness))
    requires |ordered| == |population|
    ensures forall p, q :: 0 <= p < h <= q < |ordered| ==> NoWorse(ordered, fitness, p, q)
  {
    forall p, q | 0 <= p < h <= q < |ordered|
      ensures NoWorse(ordered, fitness, p, q)
    {
      OrderedPair(population, fitness, h, p, q, ordered);
    }
  }

  /** The member at p has a fitness no greater than the member at q. */
  predicate NoWorse(xs: seq<array<int>>, fitness: map<array<int>, int>, p: int, q: int)
    requires 0 <= p < |xs| && 0 <= q < |xs|
  {
    xs[p] in fitness && xs[q] in fitness && fitness[xs[p]] <= fitness[xs[q]]
  }

  /** When every member before position h is no worse than every member from h on, so
      is every member of the prefix against every member of the rest. */
  lemma PrefixNoWorse(xs: seq<array<int>>, fitness: map<array<int>, int>, h: nat)
    requires h <= |xs|
    requires forall p, q :: 0 <= p < h <= q < |xs| ==> NoWorse(xs, fitness, p, q)
    ensures forall x, y :: x in multiset(xs[..h]) && y in multiset(xs[h..]) ==>
      x in fitness && y in fitness && fitness[x] <= fitness[y]
  {
    forall x, y | x in multiset(xs[..h]) && y in multiset(xs[h..])
      ensures x in fitness && y in fitness && fitness[x] <= fitness[y]
    {
      assert x in xs[..h] && y in xs[h..];
      var p :| 0 <= p < h && xs[..h][p] == x;
      var q :| 0 <= q < |xs| - h && xs[h..][q] == y;
      assert xs[p] == x && xs[h + q] == y && NoWorse(xs, fitness, p, h + q);
    }
  }

  /** A member placed before position h by the ordering is no worse than one placed at
      or after it. */
  lemma OrderedPair(population: seq<array<int>>, fitness: map<array<int>, int>, h: nat, p: nat, q: nat,
                    ordered: seq<array<int>>)
    requires Scored(population, fitness) && p < h <= q < |population|
    requires ordered == OrderBy(population, FitnessKeys(population, fitness))
    requires |ordered| == |population|
    ensures ordered[p] in fitness && ordered[q] in fitness && fitness[ordered[p]] <= fitness[ordered[q]]
  {
    var keys := FitnessKeys(population, fitness);
    RankedEntries(population, keys);
    OrderByTakeNotWorse(population, keys, h, p, q);
  }

  /** The tournament groups of a shuffled population: pairs of neighbours, the last pair
      joined by the remaining member when the population is odd. */
  function Group<T>(mixed: seq<T>, g: nat): (group: seq<T>)
    requires 2 * g + 1 < |mixed|
    ensures |group| == 2 || |group| == 3
    ensures |group| == 3 <==> 2 * g + 3 == |mixed|
    ensures forall k :: 0 <= k < |group| ==> 2 * g + k < |mixed| && group[k] == mixed[2 * g + k]
  {
    if 2 * (g + 1) + 1 == |mixed| then mixed[2 * g..2 * g + 3] else mixed[2 * g..2 * g + 2]
  }

  /** `w` is a member of `group` at least as fit as every member. */
  predicate BestOf(w: array<int>, group: seq<array<int>>, fitness: map<array<int>, int>) {
    w in group && w in fitness &&
    forall k :: 0 <= k < |group| ==> group[k] in fitness && fitness[w] <= fitness[group[k]]
  }

  /** The winner of a group: its first member of least fitness. */
  function Winner(group: seq<array<int>>, fitness: map<array<int>, int>): (w: array<int>)
    requires |group| > 0 && Scored(group, fitness)
    ensures w == group[FirstMinIndex(FitnessKeys(group, fitness))]
    ensures BestOf(w, group, fitness)
  {
    var keys := FitnessKeys(group, fitness);
    OrderByFirst(group, keys);
    assert keys[..|group|] == keys;
    OrderBy(group, keys)[0]
  }

  /** A shuffle keeps every member, so every member still has a fitness. */
  lemma ShuffledScored(population: seq<array<int>>, fitness: map<array<int>, int>, shuffle: seq<int>)
    requires Scored(population, fitness) && |shuffle| >= |population|
    ensures |OrderBy(population, shuffle)| == |population|
    ensures multiset(OrderBy(population, shuffle)) == multiset(population)
    ensures Scored(OrderBy(population, shuffle), fitness)
  {
    var mixed := OrderBy(population, shuffle);
    OrderByPermutation(population, shuffle);
    forall i | 0 <= i < |mixed| ensures mixed[i] in fitness {
      assert mixed[i] in multiset(population);
    }
  }

  /** Tournament: the population is shuffled by random keys and split into groups; each
      group sends its best member. */
  function Tournament(population: seq<array<int>>, fitness: map<array<int>, int>, shuffle: seq<int>): (survivors: seq<array<int>>)
    requires Scored(population, fitness) && |shuffle| >= |population|
    ensures |survivors| == |population| / 2
    ensures |OrderBy(population, shuffle)| == |population|
    ensures forall g :: 0 <= g < |survivors| ==> BestOf(survivors[g], Group(OrderBy(population, shuffle), g), fitness)
  {
    var mixed := OrderBy(population, shuffle);
    ShuffledScored(population, fitness, shuffle);
    seq(|population| / 2, g requires 0 <= g < |population| / 2 => Winner(Group(mixed, g), fitness))
  }

  /** The position in the shuffled population of the winner of group g. */
  function WinnerAt(mixed: seq<array<int>>, fitness: map<array<int>, int>, g: nat): (at: nat)
    requires 2 * g + 1 < |mixed| && Scored(mixed, fitness)
    ensures 2 * g <= at <= 2 * g + 2 && at < |mixed| && (at == 2 * g + 2 ==> 2 * (g + 1) + 1 == |mixed|)
    ensures mixed[at] == Winner(Group(mixed, g), fitness)
  {
    2 * g + FirstMinIndex(FitnessKeys(Group(mixed, g), fitness))
  }

  /** The members of `xs` at positions `at`, in that order. */
  function Picked<T>(xs: seq<T>, at: seq<int>): (r: seq<T>)
    requires forall g :: 0 <= g < |at| ==> 0 <= at[g] < |xs|
    ensures |r| == |at| && forall g :: 0 <= g < |at| ==> r[g] == xs[at[g]]
  {
    seq(|at|, g requires 0 <= g < |at| => xs[at[g]])
  }

  /** The positions of the group winners in the shuffled population. */
  function Positions(mixed: seq<array<int>>, fitness: map<array<int>, int>): (at: seq<int>)
    requires Scored(mixed, fitness)
    ensures |at| == |mixed| / 2
    ensures forall g :: 0 <= g < |at| ==> 0 <= at[g] < |mixed| && mixed[at[g]] == Winner(Group(mixed, g), fitness)
    ensures forall g, h :: 0 <= g < h < |at| ==> at[g] < at[h]
  {
    var at := seq(|mixed| / 2, g requires 0 <= g < |mixed| / 2 => WinnerAt(mixed, fitness, g) as int);
    IncreasingPositions(mixed, at);
    at
  }

  /** Survivors come from strictly increasing positions of the shuffled population, so
      they are a sub-multiset of the population, and a population without repeated
      members keeps none twice. */
  lemma TournamentSubset(population: seq<array<int>>, fitness: map<array<int>, int>, shuffle: seq<int>)
    requires Scored(population, fitness) && |shuffle| >= |population|
    ensures NoDuplicates(population) ==> NoDuplicates(Tournament(population, fitness, shuffle))
    ensures multiset(Tournament(population, fitness, shuffle)) <= multiset(population)
  {
    var mixed := OrderBy(population, shuffle);
    ShuffledScored(population, fitness, shuffle);
    var at := Positions(mixed, fitness);
    assert Tournament(population, fitness, shuffle) == Picked(mixed, at);
    if NoDuplicates(population) {
      NoDuplicatesMultiset(population);
      NoDuplicatesMultiset(mixed);
      PickedDistinct(mixed, at);
    }
    SubsequenceMultiset(mixed, at);
  }

  lemma PickedDistinct<T>(xs: seq<T>, at: seq<int>)
    requires forall g :: 0 <= g < |at| ==> 0 <= at[g] < |xs|
    requires forall g, h :: 0 <= g < h < |at| ==> at[g] < at[h]
    requires NoDuplicates(xs)
    ensures NoDuplicates(Picked(xs, at))
  {
  }

  lemma IncreasingPositions(mixed: seq<array<int>>, at: seq<int>)
    requires 2 * |at| <= |mixed|
    requires forall g :: 0 <= g < |at| ==>
      2 * g <= at[g] <= 2 * g + 2 && at[g] < |mixed| && (at[g] == 2 * g + 2 ==> 2 * (g + 1) + 1 == |mixed|)
    ensures forall g, h :: 0 <= g < h < |at| ==> at[g] < at[h]
  {
  }

  /** Picking members at strictly increasing positions takes a sub-multiset. */
  lemma {:induction false} SubsequenceMultiset<T>(xs: seq<T>, at: seq<int>)
    requires forall g :: 0 <= g < |at| ==> 0 <= at[g] < |xs|
    requires forall g, h :: 0 <= g < h < |at| ==> at[g] < at[h]
    ensures multiset(Picked(xs, at)) <= multiset(xs)
    decreases |at|
  {
    if at != [] {
      var last := at[|at| - 1];
      var pre := at[..|at| - 1];
      SubsequenceMultiset(xs[..last], pre);
      assert Picked(xs, at) == Picked(xs[..last], pre) + [xs[last]];
      assert xs == xs[..last] + [xs[last]] + xs[last + 1..];
    }
  }

  /** Elitism keeps a member at least as fit as any member of the population. */
  lemma ElitismKeepsBest(population: seq<array<int>>, fitness: map<array<int>, int>, x: array<int>)
    requires Scored(population, fitness) && |population| >= 2 && x in population
    ensures exists s :: s in Elitism(population, fitness) && s in fitness && x in fitness && fitness[s] <= fitness[x]
  {
    var survivors := Elitism(population, fitness);
    var i :| 0 <= i < |population| && population[i] == x;
    if x !in survivors {
      assert x in multiset(population) - multiset(survivors);
      assert survivors[0] in multiset(survivors);
    }
  }

  /** The tournament keeps a member at least as fit as any member of the population: the
      member's group is won by a member no worse than it. */
  lemma TournamentKeepsBest(population: seq<array<int>>, fitness: map<array<int>, int>, shuffle: seq<int>,
                            x: array<int>)
    requires Scored(population, fitness) && |shuffle| >= |population| && |population| >= 2 && x in population
    ensures exists s :: s in Tournament(population, fitness, shuffle) && s in fitness && x in fitness && fitness[s] <= fitness[x]
  {
    var mixed := OrderBy(population, shuffle);
    ShuffledScored(population, fitness, shuffle);
    assert x in multiset(mixed);
    var q :| 0 <= q < |mixed| && mixed[q] == x;
    var h := |mixed| / 2;
    var g := if q / 2 < h then q / 2 else h - 1;
    var group := Group(mixed, g);
    assert group[q - 2 * g] == x;
    var survivors := Tournament(population, fitness, shuffle);
    assert BestOf(survivors[g], group, fitness);
  }
}
