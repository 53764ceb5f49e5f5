/** What the layout algorithm reports about a generation: its number, the least and the
    greatest fitness (inter-node connection count) of the population, and the best
    individual's placement as a map from element to node. Individuals are genome arrays,
    identified by reference as the fitness dictionary keys them. */
module LayoutResults {
  import opened Seqs
  import opened Ordering
  import opened Elements

  datatype GeneticAlgorithmResult = GeneticAlgorithmResult(
    GenerationNumber: int,
    MinConnectionsCount: int,
    MaxConnectionsCount: int,
    Solution: map<Element, int>)

  predicate IsMin(m: int, s: set<int>) {
    m in s && forall y :: y in s ==> m <= y
  }

  predicate IsMax(m: int, s: set<int>) {
    m in s && forall y :: y in s ==> y <= m
  }

  /** A non-empty set has a member. */
  lemma Member(s: set<int>)
    requires s != {}
    ensures exists x :: x in s
  {
    if forall x :: x !in s {
      assert false;
    }
  }

  /** A non-empty finite set of integers has a least and a greatest member. */
  lemma {:induction false} Extremes(s: set<int>)
    requires s != {}
    ensures exists m :: IsMin(m, s)
    ensures exists m :: IsMax(m, s)
    decreases |s|
  {
    Member(s);
    var x :| x in s;
    if s == {x} {
      assert IsMin(x, s) && IsMax(x, s);
    } else {
      var rest := s - {x};
      Extremes(rest);
      var lo :| IsMin(lo, rest);
      var hi :| IsMax(hi, rest);
      var lo', hi' := if x < lo then x else lo, if x > hi then x else hi;
      forall y | y in s
        ensures lo' <= y <= hi'
      {
        if y != x {
          assert y in rest;
        }
      }
      assert IsMin(lo', s) && IsMax(hi', s);
    }
  }

  /** LINQ Min over the dictionary's values. */
  function SetMin(s: set<int>): (m: int)
    requires s != {}
    ensures m in s && forall y :: y in s ==> m <= y
  {
    Extremes(s);
    var m :| IsMin(m, s);
    m
  }

  /** LINQ Max over the dictionary's values. */
  function SetMax(s: set<int>): (m: int)
    requires s != {}
    ensures m in s && forall y :: y in s ==> y <= m
  {
    Extremes(s);
    var m :| IsMax(m, s);
    m
  }

  /** The fitness of every individual, in population order. */
  function FitnessKeys(population: seq<array<int>>, fitness: map<array<int>, int>): (keys: seq<int>)
    requires forall i :: 0 <= i < |population| ==> population[i] in fitness
    ensures |keys| == |population|
    ensures forall i :: 0 <= i < |population| ==> keys[i] == fitness[population[i]]
  {
    seq(|population|, i requires 0 <= i < |population| => fitness[population[i]])
  }

  /** `population.OrderBy(individual => fitness[individual]).First()`. */
  function Best(population: seq<array<int>>, fitness: map<array<int>, int>): array<int>
    requires |population| > 0
    requires forall i :: 0 <= i < |population| ==> population[i] in fitness
  {
    OrderByPermutation(population, FitnessKeys(population, fitness));
    OrderBy(population, FitnessKeys(population, fitness))[0]
  }

  /** The constructor. The fitness dictionary must be non-empty (Min and Max of no value
      fail), must know every individual, the best individual must have a gene for every
      element, and the elements must be distinct (ToDictionary refuses a repeated key). */
  function MakeResult(elements: seq<Element>, generationNumber: int,
                      population: seq<array<int>>, fitness: map<array<int>, int>): (r: GeneticAlgorithmResult)
    requires |population| > 0 && fitness != map[]
    requires forall i :: 0 <= i < |population| ==> population[i] in fitness
    requires forall i :: 0 <= i < |population| ==> population[i].Length >= |elements|
    requires NoDuplicates(elements)
    reads set i | 0 <= i < |population| :: population[i]
    ensures r.GenerationNumber == generationNumber
    ensures r.MinConnectionsCount in fitness.Values && r.MaxConnectionsCount in fitness.Values
    ensures forall x :: x in fitness ==> r.MinConnectionsCount <= fitness[x] <= r.MaxConnectionsCount
    ensures r.Solution.Keys == set i | 0 <= i < |elements| :: elements[i]
    ensures forall i :: 0 <= i < |elements| ==>
      r.Solution[elements[i]] == population[FirstMinIndex(FitnessKeys(population, fitness))][i]
  {
    var best := Best(population, fitness);
    BestIsFirstMinimum(population, fitness);
    var solution := map i | 0 <= i < |elements| :: elements[i] := best[i];
    assert forall x :: x in fitness ==> fitness[x] in fitness.Values;
    GeneticAlgorithmResult(generationNumber, SetMin(fitness.Values), SetMax(fitness.Values), solution)
  }

  /** The best individual is the first one, in population order, of least fitness. */
  lemma BestIsFirstMinimum(population: seq<array<int>>, fitness: map<array<int>, int>)
    requires |population| > 0
    requires forall i :: 0 <= i < |population| ==> population[i] in fitness
    ensures Best(population, fitness) == population[FirstMinIndex(FitnessKeys(population, fitness))]
  {
    var keys := FitnessKeys(population, fitness);
    OrderByFirst(population, keys);
    assert keys[..|population|] == keys;
  }

  /** When the dictionary holds exactly the population, the best individual's fitness is
      the reported minimum. */
  lemma BestHasMinimum(elements: seq<Element>, generationNumber: int,
                       population: seq<array<int>>, fitness: map<array<int>, int>)
    requires |population| > 0
    requires forall i :: 0 <= i < |population| ==> population[i].Length >= |elements|
    requires NoDuplicates(elements)
    requires fitness.Keys == set i | 0 <= i < |population| :: population[i]
    ensures fitness != map[] && Best(population, fitness) in fitness
    ensures fitness[Best(population, fitness)] == MakeResult(elements, generationNumber, population, fitness).MinConnectionsCount
  {
    assert population[0] in fitness;
    BestIsFirstMinimum(population, fitness);
    var keys := FitnessKeys(population, fitness);
    var m := FirstMinIndex(keys);
    var r := MakeResult(elements, generationNumber, population, fitness);
    var x :| x in fitness && fitness[x] == r.MinConnectionsCount;
    var j :| 0 <= j < |population| && population[j] == x;
    assert keys[m] <= keys[j];
  }
}
