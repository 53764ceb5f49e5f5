/** The layout algorithm itself: the initial population, the fitness of an individual,
    one generation (pairing, crossover, union, scoring, survivor selection, pruning) and
    the run over all generations with its events. Random numbers are inputs: the shuffle
    keys of the initial population and, per generation, the draws of every operator and
    whether cancellation has been requested by then. Individuals are genome arrays, and
    the fitness dictionary is keyed by reference, as in the source. */
module Layout {
  import opened Seqs
  import opened Ordering
  import opened Genomes
  import opened CrossCounts
  import opened Elements
  import opened Chains
  import opened LabeledMatrices
  import opened Schemas
  import opened Crossovers
  import opened LayoutArgs
  import opened LayoutResults
  import Pairing
  import Selection

  /** The random numbers one generation consumes. */
  datatype GenerationDraws = GenerationDraws(
    /** Panmixia: for every pair, the successive index pairs of its redraw loop. */
    attempts: seq<seq<(int, int)>>,
    /** Outbreeding and inbreeding: the first parent's index, for every pair. */
    firsts: seq<int>,
    /** Crossover and mutation, for every pair. */
    breeding: seq<PairDraws>,
    /** Tournament: the mixing keys. */
    shuffle: seq<int>,
    /** Whether the token reports a cancellation request once this generation is done. */
    cancellationRequested: bool)

  /** Enough random numbers, in range, for a generation over p individuals of n genes. */
  predicate DrawsFit(d: GenerationDraws, p: nat, n: nat) {
    |d.attempts| == Pairing.PairsCount(p) &&
    (forall q :: 0 <= q < |d.attempts| ==> Pairing.InRange(d.attempts[q], p) && Pairing.Terminates(d.attempts[q])) &&
    |d.firsts| == Pairing.PairsCount(p) && Pairing.DrawsBelow(d.firsts, p) &&
    |d.breeding| == Pairing.PairsCount(p) &&
    (forall q :: 0 <= q < |d.breeding| ==> DrawsFor(d.breeding[q], n)) &&
    |d.shuffle| >= p + 2 * Pairing.PairsCount(p)
  }

  /** The events the algorithm raises, each carrying the generation's result. */
  datatype LayoutEvent =
    | IterationCompleted(result: GeneticAlgorithmResult)
    | LayoutCanceled(result: GeneticAlgorithmResult)
    | LayoutCompleted(result: GeneticAlgorithmResult)

  /** The run stops after a generation when the arguments carry a token and the token
      reports a cancellation request. */
  predicate Stops(args: GeneticAlgorithmArgs, d: GenerationDraws) {
    args.Token.Some? && d.cancellationRequested
  }

  /** One individual of the initial population: the template ordered by random keys. */
  function Shuffled(n: nat, k: int, keys: seq<int>): seq<int>
    requires k > 0 && |keys| >= n
  {
    OrderBy(Template(n, k), keys)
  }

  /** A shuffled template places every element on one of the nodes 1..k and no node
      holds more than n / k elements, rounded up. */
  lemma ShuffledPlacement(n: nat, k: int, keys: seq<int>)
    requires k > 0 && |keys| >= n
    ensures |Shuffled(n, k, keys)| == n && InNodes(Shuffled(n, k, keys), k)
    ensures forall v :: multiset(Shuffled(n, k, keys))[v] <= Capacity(n, k)
  {
    var t := Template(n, k);
    OrderByPermutation(t, keys);
    forall v ensures multiset(Shuffled(n, k, keys))[v] <= Capacity(n, k) {
      TemplateBalanced(n, k, v);
    }
    Mutations.PermutationInNodes(t, Shuffled(n, k, keys), k);
  }

  /** InitialPopulation: PopulationSize new arrays, each the template shuffled by its own
      keys. */
  method InitialPopulation(args: GeneticAlgorithmArgs, shuffles: seq<seq<int>>) returns (population: seq<array<int>>)
    requires args.NodesCount > 0
    requires |shuffles| == args.PopulationSize
    requires forall i :: 0 <= i < |shuffles| ==> |shuffles[i]| >= |args.Schema.Elements|
    ensures |population| == args.PopulationSize && NoDuplicates(population)
    ensures forall i :: 0 <= i < |population| ==> fresh(population[i])
    ensures forall i :: 0 <= i < |population| ==>
      population[i][..] == Shuffled(|args.Schema.Elements|, args.NodesCount, shuffles[i])
  {
    var n, k := |args.Schema.Elements|, args.NodesCount;
    population := [];
    for i := 0 to |shuffles|
      invariant |population| == i && NoDuplicates(population)
      invariant forall j :: 0 <= j < i ==> fresh(population[j])
      invariant forall j :: 0 <= j < i ==> population[j][..] == Shuffled(n, k, shuffles[j])
    {
      var genome := Shuffled(n, k, shuffles[i]);
      ShuffledPlacement(n, k, shuffles[i]);
      var individual := new int[n](j requires 0 <= j < n => genome[j]);
      assert individual[..] == genome;
      NoDuplicatesAppend(population, individual);
      population := population + [individual];
    }
  }

  /** The connection table of the schema's elements, as the cached connection matrix
      holds it. */
  ghost function Table(m: LabeledMatrix<string, string>, elements: seq<Element>): (w: seq<seq<int>>)
    requires m.Valid() && m.RowLabels == Names(elements) && m.ColumnLabels == Names(elements)
    reads m
    ensures IsTable(w, |elements|)
  {
    Weights(m.entries, Names(elements))
  }

  /** Fitness: over every pair j < i of genes that differ, the connection count of
      elements i and j, summed; the inter-node connection count of the placement. */
  method Fitness(schema: Schema, individual: array<int>) returns (connectionsCount: int)
    requires schema.Valid() && individual.Length == |schema.Elements|
    modifies schema
    ensures schema.Valid() && schema.connections != null && schema.complexes == old(schema.complexes)
    ensures old(schema.connections) != null ==> schema.connections == old(schema.connections)
    ensures old(schema.connections) == null ==>
      Table(schema.connections, schema.Elements) == ConnectionTable(schema.Chains, Names(schema.Elements))
    ensures connectionsCount == CrossCount(individual[..], Table(schema.connections, schema.Elements))
  {
    ghost var empty := schema.connections == null;
    var matrixOfConnections := schema.MatrixOfConnections();
    if empty {
      WeightsAreConnections(matrixOfConnections.entries, schema.Chains, Names(schema.Elements));
    }
    connectionsCount := SumConnections(individual, schema.Elements, matrixOfConnections);
  }

  /** The double loop of Fitness, over the matrix the schema hands out. */
  method SumConnections(individual: array<int>, elements: seq<Element>, m: LabeledMatrix<string, string>)
    returns (connectionsCount: int)
    requires m.Valid() && m.RowLabels == Names(elements) && m.ColumnLabels == Names(elements)
    requires individual.Length == |elements|
    ensures connectionsCount == CrossCount(individual[..], Table(m, elements))
  {
    ghost var g := individual[..];
    ghost var w := Table(m, elements);
    connectionsCount := 0;
    for i := 0 to individual.Length
      invariant connectionsCount == PrefixCount(g, w, i)
    {
      for j := 0 to i
        invariant connectionsCount == PrefixCount(g, w, i) + RowCount(g, w, i, j)
      {
        if individual[i] != individual[j] {
          var v := m.Get(elements[i].Name, elements[j].Name);
          connectionsCount := connectionsCount + v.value;
        }
      }
    }
  }

  /** Every genome has n genes, each naming one of the nodes 1..k. */
  predicate Placed(genomes: seq<seq<int>>, n: nat, k: int) {
    forall i :: 0 <= i < |genomes| ==> |genomes[i]| == n && InNodes(genomes[i], k)
  }

  /** Every individual has n genes, each naming one of the nodes 1..k. */
  ghost predicate Placements(xs: seq<array<int>>, n: nat, k: int)
    reads xs
  {
    Placed(Contents(xs), n, k)
  }

  /** The fitness dictionary is keyed by exactly the individuals of xs, whose genes are
      `genomes`, each with its inter-node connection count under table w. */
  ghost predicate Evaluated(xs: seq<array<int>>, genomes: seq<seq<int>>, fitness: map<array<int>, int>, w: seq<seq<int>>) {
    |genomes| == |xs| && fitness.Keys == (set i | 0 <= i < |xs| :: xs[i]) &&
    forall i :: 0 <= i < |xs| ==> IsTable(w, |genomes[i]|) && fitness[xs[i]] == CrossCount(genomes[i], w)
  }

  /** The fitness dictionary is keyed by exactly the individuals of xs, each with its
      inter-node connection count under table w. */
  ghost predicate Scores(xs: seq<array<int>>, fitness: map<array<int>, int>, w: seq<seq<int>>)
    reads xs
  {
    Evaluated(xs, Contents(xs), fitness, w)
  }

  /** Scored under the chains' connection counts, no individual has a negative fitness. */
  lemma ScoresNonNegative(xs: seq<array<int>>, fitness: map<array<int>, int>, chains: seq<Chain>, names: seq<string>)
    requires Scores(xs, fitness, ConnectionTable(chains, names))
    ensures forall i :: 0 <= i < |xs| ==> fitness[xs[i]] >= 0
  {
    forall i | 0 <= i < |xs| ensures fitness[xs[i]] >= 0 {
      assert IsTable(ConnectionTable(chains, names), xs[i].Length);
      ConnectionTableSpec(chains, names, xs[i][..]);
    }
  }

  /** The schema's connection matrix holds the chains' connection counts. */
  ghost predicate CountsChains(schema: Schema)
    reads schema, schema.complexes, schema.connections
  {
    schema.Valid() && schema.connections != null &&
    Table(schema.connections, schema.Elements) == ConnectionTable(schema.Chains, Names(schema.Elements))
  }

  /** The dictionary m with keys[i] added under values[i], one after the other. */
  ghost function AddAll<K, V>(m: map<K, V>, keys: seq<K>, values: seq<V>): map<K, V>
    requires |keys| == |values|
    decreases |keys|
  {
    if keys == [] then m
    else AddAll(m, keys[..|keys| - 1], values[..|values| - 1])[keys[|keys| - 1] := values[|values| - 1]]
  }

  /** Adding distinct new keys one after the other: the dictionary gains exactly those
      keys, each holding its own value, and keeps every entry it had. */
  lemma {:induction false} AddAllSpec<K, V>(m: map<K, V>, keys: seq<K>, values: seq<V>)
    requires |keys| == |values| && NoDuplicates(keys)
    requires forall i :: 0 <= i < |keys| ==> keys[i] !in m
    ensures AddAll(m, keys, values).Keys == m.Keys + (set i | 0 <= i < |keys| :: keys[i])
    ensures forall x :: x in m ==> AddAll(m, keys, values)[x] == m[x]
    ensures forall i :: 0 <= i < |keys| ==> AddAll(m, keys, values)[keys[i]] == values[i]
  {
    if keys != [] {
      var n := |keys| - 1;
      var ks, vs := keys[..n], values[..n];
      AddAllSpec(m, ks, vs);
      var before := AddAll(m, ks, vs);
      assert AddAll(m, keys, values) == before[keys[n] := values[n]];
      assert (set i | 0 <= i < |keys| :: keys[i]) == (set i | 0 <= i < n :: ks[i]) + {keys[n]};
      forall i | 0 <= i < n ensures before[keys[n] := values[n]][keys[i]] == values[i] {
        assert keys[i] == ks[i] != keys[n];
      }
    }
  }

  /** The inter-node connection count of every genome under table w. */
  ghost function Counts(genomes: seq<seq<int>>, w: seq<seq<int>>): (counts: seq<int>)
    requires IsTable(w, |w|) && forall i :: 0 <= i < |genomes| ==> |genomes[i]| == |w|
    ensures |counts| == |genomes|
    ensures forall i :: 0 <= i < |genomes| ==> counts[i] == CrossCount(genomes[i], w)
    decreases |genomes|
  {
    if genomes == [] then [] else Counts(genomes[..|genomes| - 1], w) + [CrossCount(genomes[|genomes| - 1], w)]
  }

  /** One more individual scored and added: the next prefix of AddAll over Counts. */
  lemma AddAllStep(fitness: map<array<int>, int>, individuals: seq<array<int>>, genomes: seq<seq<int>>,
                   q: nat, w: seq<seq<int>>)
    requires q < |individuals| == |genomes|
    requires IsTable(w, |w|) && forall i :: 0 <= i < |genomes| ==> |genomes[i]| == |w|
    ensures AddAll(fitness, individuals[..q + 1], Counts(genomes[..q + 1], w)) ==
            AddAll(fitness, individuals[..q], Counts(genomes[..q], w))[individuals[q] := CrossCount(genomes[q], w)]
  {
    assert individuals[..q + 1][..q] == individuals[..q];
    assert genomes[..q + 1][..q] == genomes[..q];
    var c := Counts(genomes[..q], w);
    assert (c + [CrossCount(genomes[q], w)])[..q] == c;
  }

  /** Adds every individual with its fitness to the dictionary (ToDictionary on the
      initial population, Add for each offspring); no individual may be a key already. */
  method AddFitness(schema: Schema, fitness: map<array<int>, int>, individuals: seq<array<int>>)
    returns (fitness': map<array<int>, int>)
    requires schema.Valid()
    requires NoDuplicates(individuals)
    requires forall i :: 0 <= i < |individuals| ==> individuals[i] !in fitness && individuals[i].Length == |schema.Elements|
    modifies schema
    ensures schema.Valid() && schema.complexes == old(schema.complexes)
    ensures old(schema.connections) != null ==> schema.connections == old(schema.connections)
    ensures individuals != [] ==> schema.connections != null
    ensures individuals != [] && old(schema.connections) == null ==> CountsChains(schema)
    ensures fitness'.Keys == fitness.Keys + (set i | 0 <= i < |individuals| :: individuals[i])
    ensures forall x :: x in fitness ==> fitness'[x] == fitness[x]
    ensures forall i :: 0 <= i < |individuals| ==>
      schema.connections != null && fitness'[individuals[i]] == CrossCount(individuals[i][..], Table(schema.connections, schema.Elements))
  {
    fitness' := fitness;
    ghost var w := if schema.connections != null then Table(schema.connections, schema.Elements)
                   else ConnectionTable(schema.Chains, Names(schema.Elements));
    ghost var genomes := Contents(individuals);
    assert IsTable(w, |w|) && forall i :: 0 <= i < |genomes| ==> |genomes[i]| == |w|;
    for q := 0 to |individuals|
      invariant schema.Valid() && schema.complexes == old(schema.complexes)
      invariant old(schema.connections) != null ==> schema.connections == old(schema.connections)
      invariant q > 0 ==> schema.connections != null
      invariant if schema.connections != null then w == Table(schema.connections, schema.Elements)
                else w == ConnectionTable(schema.Chains, Names(schema.Elements))
      invariant Contents(individuals) == genomes
      invariant fitness' == AddAll(fitness, individuals[..q], Counts(genomes[..q], w))
    {
      var f := FitnessUnder(schema, individuals, q, genomes, w);
      AddAllStep(fitness, individuals, genomes, q, w);
      fitness' := fitness'[individuals[q] := f];
    }
    AddedEvery(fitness, individuals, genomes, w);
  }

  /** Fitness of individual q, whose genes are genomes[q], where w is the table the
      schema's connection matrix holds, or will hold once built. */
  method FitnessUnder(schema: Schema, individuals: seq<array<int>>, q: nat, ghost genomes: seq<seq<int>>,
                      ghost w: seq<seq<int>>)
    returns (connectionsCount: int)
    requires schema.Valid() && q < |individuals| && individuals[q].Length == |schema.Elements|
    requires Contents(individuals) == genomes
    requires if schema.connections != null then w == Table(schema.connections, schema.Elements)
             else w == ConnectionTable(schema.Chains, Names(schema.Elements))
    modifies schema
    ensures schema.Valid() && schema.complexes == old(schema.complexes) && schema.connections != null
    ensures old(schema.connections) != null ==> schema.connections == old(schema.connections)
    ensures w == Table(schema.connections, schema.Elements)
    ensures Contents(individuals) == genomes
    ensures connectionsCount == CrossCount(genomes[q], w)
  {
    assert forall i :: 0 <= i < |individuals| ==> individuals[i] as object != schema;
    connectionsCount := Fitness(schema, individuals[q]);
  }

  /** Once every individual is scored: AddAll over the whole population. */
  lemma AddedEvery(fitness: map<array<int>, int>, individuals: seq<array<int>>, genomes: seq<seq<int>>,
                   w: seq<seq<int>>)
    requires |individuals| == |genomes| && NoDuplicates(individuals)
    requires forall i :: 0 <= i < |individuals| ==> individuals[i] !in fitness
    requires IsTable(w, |w|) && forall i :: 0 <= i < |genomes| ==> |genomes[i]| == |w|
    ensures var m := AddAll(fitness, individuals[..|individuals|], Counts(genomes[..|genomes|], w));
      && m.Keys == fitness.Keys + (set i | 0 <= i < |individuals| :: individuals[i])
      && (forall x :: x in fitness ==> m[x] == fitness[x])
      && forall i :: 0 <= i < |individuals| ==> m[individuals[i]] == CrossCount(genomes[i], w)
  {
    assert individuals[..|individuals|] == individuals && genomes[..|genomes|] == genomes;
    AddAllSpec(fitness, individuals, Counts(genomes, w));
  }

  /** The genes of every individual. */
  function Contents(population: seq<array<int>>): (genomes: seq<seq<int>>)
    reads population
    ensures |genomes| == |population|
    ensures forall i :: 0 <= i < |population| ==> genomes[i] == population[i][..]
  {
    seq(|population|, i requires 0 <= i < |population| reads if 0 <= i < |population| then {population[i]} else {} =>
          population[i][..])
  }

  /** The parent pairs of a generation, by the configured pairing operator. */
  method SelectParents(args: GeneticAlgorithmArgs, population: seq<array<int>>, d: GenerationDraws)
    returns (pairs: seq<(array<int>, array<int>)>)
    requires |population| >= 2 && DrawsFit(d, |population|, |args.Schema.Elements|)
    requires forall i :: 0 <= i < |population| ==> population[i].Length == |args.Schema.Elements|
    ensures |pairs| == Pairing.PairsCount(|population|)
    ensures forall p :: 0 <= p < |pairs| ==> pairs[p].0 in population && pairs[p].1 in population
    ensures args.ParentSelection == Panmixia ==>
      forall p :: 0 <= p < |pairs| ==> pairs[p] == Pairing.Drawn(population, d.attempts[p])
    ensures args.ParentSelection == Outbreeding ==>
      pairs == Pairing.Outbreeding(population, Contents(population), |args.Schema.Elements|, d.firsts)
    ensures args.ParentSelection == Inbreeding ==>
      pairs == Pairing.Inbreeding(population, Contents(population), |args.Schema.Elements|, d.firsts)
  {
    var n := |args.Schema.Elements|;
    match args.ParentSelection {
      case Panmixia =>
        pairs := Pairing.Panmixia(population, d.attempts);
        forall p | 0 <= p < |pairs| ensures pairs[p].0 in population && pairs[p].1 in population {
          var a := Pairing.FirstDistinct(d.attempts[p]);
          assert pairs[p] == (population[d.attempts[p][a].0], population[d.attempts[p][a].1]);
        }
      case Outbreeding =>
        pairs := Pairing.Outbreeding(population, Contents(population), n, d.firsts);
      case Inbreeding =>
        pairs := Pairing.Inbreeding(population, Contents(population), n, d.firsts);
    }
  }

  /** A member of a placed population is placed. */
  lemma MemberPlaced(xs: seq<array<int>>, x: array<int>, n: nat, k: int)
    requires Placements(xs, n, k) && x in xs
    ensures x.Length == n && InNodes(x[..], k)
  {
    var i :| 0 <= i < |xs| && xs[i] == x;
  }

  /** Parents drawn from a placed population meet the crossover's demands: equal lengths
      and a first parent whose greatest gene is a node 1..k. */
  lemma ParentsPlaced(pairs: seq<(array<int>, array<int>)>, population: seq<array<int>>, n: nat, k: int)
    requires Placements(population, n, k) && n > 0 && |pairs| > 0
    requires forall p :: 0 <= p < |pairs| ==> pairs[p].0 in population && pairs[p].1 in population
    ensures forall p :: 0 <= p < |pairs| ==>
      pairs[p].0.Length == n && pairs[p].1.Length == n && InNodes(pairs[p].0[..], k) && InNodes(pairs[p].1[..], k)
    ensures 0 < Max(pairs[0].0[..]) <= k
  {
    forall p | 0 <= p < |pairs|
      ensures pairs[p].0.Length == n && pairs[p].1.Length == n && InNodes(pairs[p].0[..], k) && InNodes(pairs[p].1[..], k)
    {
      MemberPlaced(population, pairs[p].0, n, k);
      MemberPlaced(population, pairs[p].1, n, k);
    }
    var first := pairs[0].0[..];
    assert first[0] <= Max(first);
  }

  /** The offspring of parents on the nodes 1..k are placements on the nodes 1..k. */
  lemma OffspringPlaced(pairs: seq<(array<int>, array<int>)>, draws: seq<PairDraws>, offspring: seq<array<int>>,
                        n: nat, k: int, kk: int)
    requires |draws| == |pairs| && |offspring| == 2 * |pairs| && kk <= k
    requires forall p :: 0 <= p < |pairs| ==> pairs[p].0.Length == n && InNodes(pairs[p].0[..], k) && InNodes(pairs[p].1[..], k)
    requires forall p :: 0 <= p < |pairs| ==>
      BredPair(offspring[2 * p][..], offspring[2 * p + 1][..], pairs[p].0[..], pairs[p].1[..], kk, draws[p])
    ensures Placements(offspring, n, k)
  {
    forall q | 0 <= q < |offspring| ensures offspring[q].Length == n && InNodes(offspring[q][..], k) {
      var p := q / 2;
      assert q == 2 * p || q == 2 * p + 1;
      PairPlaced(offspring[2 * p][..], offspring[2 * p + 1][..], pairs[p].0[..], pairs[p].1[..], kk, draws[p], k);
    }
  }

  /** The two offspring of parents on the nodes 1..k are placements on the nodes 1..k. */
  lemma PairPlaced(c1: seq<int>, c2: seq<int>, a: seq<int>, b: seq<int>, kk: int, d: PairDraws, k: int)
    requires BredPair(c1, c2, a, b, kk, d) && kk <= k && InNodes(a, k) && InNodes(b, k)
    ensures |c1| == |a| && |c2| == |a| && InNodes(c1, k) && InNodes(c2, k)
  {
    BredPairPlacement(a, b, kk, d, k);
    assert c1 == FirstBred(a, b, kk, d);
    assert c2 == SecondBred(a, b, kk, d);
  }

  /** Two sequences without duplicates and without common members concatenate to one. */
  lemma NoDuplicatesConcat<T>(xs: seq<T>, ys: seq<T>)
    requires NoDuplicates(xs) && NoDuplicates(ys)
    requires forall j :: 0 <= j < |ys| ==> ys[j] !in xs
    ensures NoDuplicates(xs + ys)
  {
    var zs := xs + ys;
    forall i, j | 0 <= i < j < |zs| ensures zs[i] != zs[j] {
      if j < |xs| {
        assert zs[i] == xs[i] && zs[j] == xs[j];
      } else if i < |xs| {
        assert zs[i] == xs[i] && zs[j] == ys[j - |xs|];
      } else {
        assert zs[i] == ys[i - |xs|] && zs[j] == ys[j - |xs|];
      }
    }
  }

  /** LINQ Union: the members of both sequences, each once, in order of first occurrence. */
  function Union<T(==)>(xs: seq<T>, ys: seq<T>): seq<T> {
    Distinct(xs + ys)
  }

  /** After the offspring have been added, the dictionary scores the united population. */
  lemma EvaluatedUnion(population: seq<array<int>>, offsprings: seq<array<int>>, genomes: seq<seq<int>>,
                       bred: seq<seq<int>>, fitness: map<array<int>, int>, fitness': map<array<int>, int>,
                       w: seq<seq<int>>)
    requires Evaluated(population, genomes, fitness, w)
    requires |bred| == |offsprings| && forall i :: 0 <= i < |bred| ==> IsTable(w, |bred[i]|)
    requires fitness'.Keys == fitness.Keys + (set i | 0 <= i < |offsprings| :: offsprings[i])
    requires forall x :: x in fitness ==> fitness'[x] == fitness[x]
    requires forall i :: 0 <= i < |offsprings| ==> fitness'[offsprings[i]] == CrossCount(bred[i], w)
    ensures Evaluated(population + offsprings, genomes + bred, fitness', w)
  {
    var u, g := population + offsprings, genomes + bred;
    SetOfConcat(population, offsprings);
    forall i | 0 <= i < |u| ensures IsTable(w, |g[i]|) && fitness'[u[i]] == CrossCount(g[i], w) {
      if i >= |population| {
        assert u[i] == offsprings[i - |population|] && g[i] == bred[i - |population|];
      }
    }
  }

  /** The dictionary after pruning: the entries of the given individuals only. */
  function Pruned(fitness: map<array<int>, int>, population: seq<array<int>>): (pruned: map<array<int>, int>)
    ensures forall x :: x in fitness ==> (x in pruned <==> x in population)
    ensures forall x :: x in pruned ==> x in fitness && pruned[x] == fitness[x]
  {
    map x | x in fitness && x in population :: fitness[x]
  }

  /** Survivors taken from a scored population without repeats are a scored population
      without repeats once the dictionary is pruned to them. */
  lemma SurvivorsScored(union: seq<array<int>>, survivors: seq<array<int>>, fitness: map<array<int>, int>,
                        n: nat, k: int, w: seq<seq<int>>)
    requires multiset(survivors) <= multiset(union) && NoDuplicates(union)
    requires Placements(union, n, k) && Scores(union, fitness, w)
    ensures forall x :: x in survivors ==> x in union
    ensures NoDuplicates(survivors)
    ensures Placements(survivors, n, k) && Scores(survivors, Pruned(fitness, survivors), w)
  {
    forall x | x in survivors ensures x in union {
      assert x in multiset(survivors);
    }
    NoDuplicatesMultiset(union);
    NoDuplicatesMultiset(survivors);
    forall i | 0 <= i < |survivors| ensures survivors[i].Length == n && InNodes(survivors[i][..], k) {
      MemberPlaced(union, survivors[i], n, k);
    }
    var pruned := Pruned(fitness, survivors);
    forall i | 0 <= i < |survivors|
      ensures survivors[i] in pruned && IsTable(w, survivors[i].Length) && pruned[survivors[i]] == CrossCount(survivors[i][..], w)
    {
      assert survivors[i] in union;
      var j :| 0 <= j < |union| && union[j] == survivors[i];
    }
  }

  /** Union with offspring, then selection of half, leaves the population size as it was:
      2 * ceil(p / 2) offspring are added and half the total is kept. */
  lemma SizeKept(p: nat)
    ensures (p + 2 * Pairing.PairsCount(p)) / 2 == p
  {
  }

  /** The members of a concatenation are the members of its parts. */
  lemma SetOfConcat<T>(xs: seq<T>, ys: seq<T>)
    ensures (set i | 0 <= i < |xs + ys| :: (xs + ys)[i]) ==
            (set i | 0 <= i < |xs| :: xs[i]) + (set i | 0 <= i < |ys| :: ys[i])
  {
    var zs := xs + ys;
    var a, b := set i | 0 <= i < |xs| :: xs[i], set i | 0 <= i < |ys| :: ys[i];
    forall i | 0 <= i < |zs| ensures zs[i] in a + b {
      if i < |xs| {
        assert zs[i] == xs[i];
      } else {
        assert zs[i] == ys[i - |xs|];
      }
    }
    forall i | 0 <= i < |xs| ensures xs[i] in (set j | 0 <= j < |zs| :: zs[j]) {
      assert zs[i] == xs[i];
    }
    forall i | 0 <= i < |ys| ensures ys[i] in (set j | 0 <= j < |zs| :: zs[j]) {
      assert zs[|xs| + i] == ys[i];
    }
  }

  /** `pairs` are the parent pairs the configured operator forms from the population,
      whose genes are `genomes`, with the draws d. */
  ghost predicate Paired(args: GeneticAlgorithmArgs, population: seq<array<int>>, genomes: seq<seq<int>>,
                         d: GenerationDraws, pairs: seq<(array<int>, array<int>)>)
  {
    var n := |args.Schema.Elements|;
    |population| >= 2 && DrawsFit(d, |population|, n) &&
    |genomes| == |population| && (forall i :: 0 <= i < |genomes| ==> |genomes[i]| == n) &&
    |pairs| == Pairing.PairsCount(|population|) &&
    (forall p :: 0 <= p < |pairs| ==> pairs[p].0 in population && pairs[p].1 in population) &&
    (args.ParentSelection == Panmixia ==>
      forall p :: 0 <= p < |pairs| ==> pairs[p] == Pairing.Drawn(population, d.attempts[p])) &&
    (args.ParentSelection == Outbreeding ==> pairs == Pairing.Outbreeding(population, genomes, n, d.firsts)) &&
    (args.ParentSelection == Inbreeding ==> pairs == Pairing.Inbreeding(population, genomes, n, d.firsts))
  }

  /** The genes of both parents of every pair. */
  function ParentGenomes(pairs: seq<(array<int>, array<int>)>): (parents: seq<(seq<int>, seq<int>)>)
    reads set p | 0 <= p < |pairs| :: pairs[p].0, set p | 0 <= p < |pairs| :: pairs[p].1
    ensures |parents| == |pairs|
    ensures forall p :: 0 <= p < |pairs| ==> parents[p] == (pairs[p].0[..], pairs[p].1[..])
  {
    seq(|pairs|, p requires 0 <= p < |pairs|
                   reads if 0 <= p < |pairs| then {pairs[p].0, pairs[p].1} else {} =>
          (pairs[p].0[..], pairs[p].1[..]))
  }

  /** `kids` are the genes of the two offspring of every pair of parents' genes, in pair
      order, bred with the pair's draws. */
  ghost predicate BredFrom(parents: seq<(seq<int>, seq<int>)>, kids: seq<seq<int>>, d: GenerationDraws) {
    0 < |parents| <= |d.breeding| && |kids| == 2 * |parents| && |parents[0].0| > 0 &&
    forall p :: 0 <= p < |parents| ==>
      BredPair(kids[2 * p], kids[2 * p + 1], parents[p].0, parents[p].1, Max(parents[0].0), d.breeding[p])
  }

  /** Offspring bred pair by pair from the genes of the pairs are bred from the pairs'
      genomes. */
  lemma BredPairs(pairs: seq<(array<int>, array<int>)>, d: GenerationDraws, offsprings: seq<array<int>>)
    requires 0 < |pairs| <= |d.breeding| && |offsprings| == 2 * |pairs| && pairs[0].0.Length > 0
    requires forall p :: 0 <= p < |pairs| ==>
      BredPair(offsprings[2 * p][..], offsprings[2 * p + 1][..], pairs[p].0[..], pairs[p].1[..],
               Max(pairs[0].0[..]), d.breeding[p])
    ensures BredFrom(ParentGenomes(pairs), Contents(offsprings), d)
  {
  }

  /** The offspring of a generation: the parent pairs the configured operator forms,
      bred pair by pair. Parents on the nodes 1..NodesCount give offspring there too. */
  method Breeding(args: GeneticAlgorithmArgs, population: seq<array<int>>, d: GenerationDraws)
    returns (pairs: seq<(array<int>, array<int>)>, offsprings: seq<array<int>>)
    requires ValidArgs(args) && |population| == args.PopulationSize
    requires Placements(population, |args.Schema.Elements|, args.NodesCount)
    requires DrawsFit(d, args.PopulationSize, |args.Schema.Elements|)
    ensures Paired(args, population, Contents(population), d, pairs) && |pairs[0].0[..]| > 0
    ensures |offsprings| == 2 * |pairs| && NoDuplicates(offsprings)
    ensures forall j :: 0 <= j < |offsprings| ==> fresh(offsprings[j]) && offsprings[j] !in population
    ensures BredFrom(ParentGenomes(pairs), Contents(offsprings), d)
    ensures Placements(offsprings, |args.Schema.Elements|, args.NodesCount)
  {
    var n, k := |args.Schema.Elements|, args.NodesCount;
    pairs := SelectParents(args, population, d);
    ParentsPlaced(pairs, population, n, k);
    offsprings := Crossover(pairs, d.breeding);
    OffspringPlaced(pairs, d.breeding, offsprings, n, k, Max(pairs[0].0[..]));
    BredPairs(pairs, d, offsprings);
    forall j | 0 <= j < |offsprings| ensures fresh(offsprings[j]) && offsprings[j] !in population {
      assert offsprings[j] in offsprings;
    }
  }

  /** The survivors, by the configured selection: half the population, taken from it. */
  function Survivors(selection: SelectionType, population: seq<array<int>>, fitness: map<array<int>, int>,
                     shuffle: seq<int>): (survivors: seq<array<int>>)
    requires Selection.Scored(population, fitness) && |shuffle| >= |population|
    ensures |survivors| == |population| / 2
    ensures multiset(survivors) <= multiset(population)
    ensures selection == Elitism ==> survivors == Selection.Elitism(population, fitness)
    ensures selection == Tournament ==> survivors == Selection.Tournament(population, fitness, shuffle)
  {
    match selection
    case Elitism => Selection.Elitism(population, fitness)
    case Tournament =>
      Selection.TournamentSubset(population, fitness, shuffle);
      Selection.Tournament(population, fitness, shuffle)
  }

  /** The first half of a generation, GeneticAlgorithm.cs:337-342, turns the population
      and its dictionary into round r: the configured operator pairs the parents with
      the draws d, each pair is bred with its draws, the offspring are united with the
      population, and the union is scored under table w, the old entries kept. */
  ghost predicate Reproduced(args: GeneticAlgorithmArgs, population: seq<array<int>>, fitness: map<array<int>, int>,
                             d: GenerationDraws, r: Round, w: seq<seq<int>>)
    reads population, r.offsprings, set p | 0 <= p < |r.pairs| :: r.pairs[p].0,
          set p | 0 <= p < |r.pairs| :: r.pairs[p].1
  {
    Paired(args, population, Contents(population), d, r.pairs) &&
    BredFrom(ParentGenomes(r.pairs), Contents(r.offsprings), d) &&
    r.union == population + r.offsprings &&
    Scores(r.union, r.scores, w) &&
    forall x :: x in fitness ==> x in r.scores && r.scores[x] == fitness[x]
  }

  /** The first half of a generation: the offspring are bred, united with the
      population and scored. */
  method Reproduce(args: GeneticAlgorithmArgs, population: seq<array<int>>, fitness: map<array<int>, int>,
                   d: GenerationDraws, ghost m: LabeledMatrix<string, string>)
    returns (union: seq<array<int>>, fitness': map<array<int>, int>, ghost r: Round)
    requires ValidArgs(args) && args.Schema.Valid() && args.Schema.connections == m
    requires |population| == args.PopulationSize && NoDuplicates(population)
    requires Placements(population, |args.Schema.Elements|, args.NodesCount)
    requires Scores(population, fitness, Table(m, args.Schema.Elements))
    requires DrawsFit(d, args.PopulationSize, |args.Schema.Elements|)
    modifies args.Schema
    ensures args.Schema.Valid() && args.Schema.connections == m
    ensures Reproduced(args, population, fitness, d, r, Table(m, args.Schema.Elements))
    ensures r.union == union && r.scores == fitness'
    ensures |union| == |population| + 2 * Pairing.PairsCount(|population|) && NoDuplicates(union)
    ensures forall x :: x in union ==> x in population || fresh(x)
    ensures Placements(union, |args.Schema.Elements|, args.NodesCount)
  {
    var bred, children := Breeding(args, population, d);
    union, fitness' := Admit(args.Schema, population, fitness, bred, children, args.NodesCount, m);
    r := Round(bred, children, union, fitness');
    forall x | x in union ensures x in population || fresh(x) {
      if x !in population {
        assert x in children;
      }
    }
  }

  /** The offspring join the population and their fitness joins the dictionary; no
      individual's genes change, nor those of any pair of parents from the population. */
  method Admit(schema: Schema, population: seq<array<int>>, fitness: map<array<int>, int>,
               ghost pairs: seq<(array<int>, array<int>)>, offsprings: seq<array<int>>, k: int,
               ghost m: LabeledMatrix<string, string>)
    returns (union: seq<array<int>>, fitness': map<array<int>, int>)
    requires schema.Valid() && schema.connections == m && NoDuplicates(population)
    requires NoDuplicates(offsprings) && forall j :: 0 <= j < |offsprings| ==> offsprings[j] !in population
    requires Placements(population, |schema.Elements|, k) && Placements(offsprings, |schema.Elements|, k)
    requires Scores(population, fitness, Table(m, schema.Elements))
    requires forall p :: 0 <= p < |pairs| ==> pairs[p].0 in population && pairs[p].1 in population
    modifies schema
    ensures schema.Valid() && schema.connections == m
    ensures union == population + offsprings && NoDuplicates(union)
    ensures Placements(union, |schema.Elements|, k)
    ensures Scores(union, fitness', Table(m, schema.Elements))
    ensures forall x :: x in fitness ==> x in fitness' && fitness'[x] == fitness[x]
    ensures Contents(population) == old(Contents(population)) && Contents(offsprings) == old(Contents(offsprings))
    ensures ParentGenomes(pairs) == old(ParentGenomes(pairs))
  {
    union := Union(population, offsprings);
    UnionPlaced(population, offsprings, |schema.Elements|, k);
    fitness' := ScoreOffspring(schema, population, fitness, offsprings, k, m);
    forall p | 0 <= p < |pairs| ensures pairs[p].0[..] == old(pairs[p].0[..]) && pairs[p].1[..] == old(pairs[p].1[..]) {
      var i :| 0 <= i < |population| && population[i] == pairs[p].0;
      var j :| 0 <= j < |population| && population[j] == pairs[p].1;
      assert Contents(population)[i] == old(Contents(population))[i];
      assert Contents(population)[j] == old(Contents(population))[j];
    }
  }

  /** The offspring's fitness is added to the dictionary, which then scores the
      population and the offspring together. */
  method ScoreOffspring(schema: Schema, population: seq<array<int>>, fitness: map<array<int>, int>,
                        offsprings: seq<array<int>>, k: int, ghost m: LabeledMatrix<string, string>)
    returns (fitness': map<array<int>, int>)
    requires schema.Valid() && schema.connections == m
    requires NoDuplicates(offsprings) && forall j :: 0 <= j < |offsprings| ==> offsprings[j] !in population
    requires Placements(population + offsprings, |schema.Elements|, k)
    requires Scores(population, fitness, Table(m, schema.Elements))
    modifies schema
    ensures schema.Valid() && schema.connections == m
    ensures Placements(population + offsprings, |schema.Elements|, k)
    ensures Scores(population + offsprings, fitness', Table(m, schema.Elements))
    ensures forall x :: x in fitness ==> x in fitness' && fitness'[x] == fitness[x]
    ensures Contents(population) == old(Contents(population)) && Contents(offsprings) == old(Contents(offsprings))
  {
    ghost var w := Table(m, schema.Elements);
    ghost var genomes, bred := Contents(population), Contents(offsprings);
    OffspringUnscored(population, offsprings, fitness, |schema.Elements|, k, w);
    fitness' := AddFitness(schema, fitness, offsprings);
    assert Contents(offsprings) == bred && Contents(population) == genomes;
    EvaluatedUnion(population, offsprings, genomes, bred, fitness, fitness', w);
    ContentsConcat(population, offsprings);
  }

  /** The genes of a concatenation are the concatenated genes. */
  lemma ContentsConcat(xs: seq<array<int>>, ys: seq<array<int>>)
    ensures Contents(xs + ys) == Contents(xs) + Contents(ys)
  {
    var u := xs + ys;
    forall i | 0 <= i < |u| ensures Contents(u)[i] == (Contents(xs) + Contents(ys))[i] {
      if i >= |xs| {
        assert u[i] == ys[i - |xs|];
      }
    }
  }

  /** Offspring that are not members of a scored population have no fitness yet, and
      placed offspring have one gene per element. */
  lemma OffspringUnscored(population: seq<array<int>>, offsprings: seq<array<int>>,
                          fitness: map<array<int>, int>, n: nat, k: int, w: seq<seq<int>>)
    requires forall j :: 0 <= j < |offsprings| ==> offsprings[j] !in population
    requires Placements(population + offsprings, n, k)
    requires Scores(population, fitness, w)
    ensures forall j :: 0 <= j < |offsprings| ==> offsprings[j] !in fitness && offsprings[j].Length == n
    ensures Placements(population, n, k)
  {
    var u := population + offsprings;
    forall j | 0 <= j < |offsprings| ensures offsprings[j] !in fitness && offsprings[j].Length == n {
      assert offsprings[j] == u[|population| + j];
    }
    forall i | 0 <= i < |population| ensures population[i].Length == n && InNodes(population[i][..], k) {
      assert population[i] == u[i];
    }
  }

  /** The union of a population and offspring disjoint from it, both without duplicates
      and placed, is their concatenation, without duplicates and placed. */
  lemma UnionPlaced(xs: seq<array<int>>, ys: seq<array<int>>, n: nat, k: int)
    requires NoDuplicates(xs) && NoDuplicates(ys)
    requires forall j :: 0 <= j < |ys| ==> ys[j] !in xs
    requires Placements(xs, n, k) && Placements(ys, n, k)
    ensures Union(xs, ys) == xs + ys && NoDuplicates(xs + ys)
    ensures Placements(xs + ys, n, k)
  {
    NoDuplicatesConcat(xs, ys);
    DistinctNoDuplicates(xs + ys);
    ContentsConcat(xs, ys);
    PlacedConcat(Contents(xs), Contents(ys), n, k);
  }

  lemma PlacedConcat(a: seq<seq<int>>, b: seq<seq<int>>, n: nat, k: int)
    requires Placed(a, n, k) && Placed(b, n, k)
    ensures Placed(a + b, n, k)
  {
  }

  /** The intermediate values of one generation: the parent pairs, their offspring, the
      union of population and offspring, and the union's fitness dictionary. */
  datatype Round = Round(pairs: seq<(array<int>, array<int>)>, offsprings: seq<array<int>>,
                         union: seq<array<int>>, scores: map<array<int>, int>)

  /** One generation of Layout's loop body, GeneticAlgorithm.cs:335-357, turns the
      population and its dictionary into `survivors` and `fitness'`: round r reproduces
      the population, the configured selection picks the survivors from the round's
      union, and the round's dictionary is pruned to them. */
  ghost predicate Evolved(args: GeneticAlgorithmArgs, population: seq<array<int>>, fitness: map<array<int>, int>,
                          d: GenerationDraws, r: Round, survivors: seq<array<int>>, fitness': map<array<int>, int>,
                          w: seq<seq<int>>)
    reads population, r.offsprings, set p | 0 <= p < |r.pairs| :: r.pairs[p].0,
          set p | 0 <= p < |r.pairs| :: r.pairs[p].1
  {
    Reproduced(args, population, fitness, d, r, w) &&
    Selection.Scored(r.union, r.scores) && |d.shuffle| >= |r.union| &&
    survivors == Survivors(args.Selection, r.union, r.scores, d.shuffle) &&
    fitness' == Pruned(r.scores, survivors)
  }

  /** The selection half of a generation: from a reproduced round, the configured
      selection keeps half of the union, PopulationSize distinct placed individuals
      taken from it, scored by the pruned dictionary. */
  lemma Selected(args: GeneticAlgorithmArgs, population: seq<array<int>>, fitness: map<array<int>, int>,
                 d: GenerationDraws, r: Round, w: seq<seq<int>>)
    requires Reproduced(args, population, fitness, d, r, w) && NoDuplicates(r.union)
    requires |population| == args.PopulationSize && |r.union| == |population| + 2 * Pairing.PairsCount(|population|)
    requires Placements(r.union, |args.Schema.Elements|, args.NodesCount)
    requires DrawsFit(d, args.PopulationSize, |args.Schema.Elements|)
    ensures Selection.Scored(r.union, r.scores) && |d.shuffle| >= |r.union|
    ensures var survivors := Survivors(args.Selection, r.union, r.scores, d.shuffle);
      Evolved(args, population, fitness, d, r, survivors, Pruned(r.scores, survivors), w) &&
      |survivors| == args.PopulationSize && NoDuplicates(survivors) &&
      Placements(survivors, |args.Schema.Elements|, args.NodesCount) &&
      Scores(survivors, Pruned(r.scores, survivors), w) &&
      forall x :: x in survivors ==> x in r.union
  {
    SizeKept(|population|);
    var survivors := Survivors(args.Selection, r.union, r.scores, d.shuffle);
    SurvivorsScored(r.union, survivors, r.scores, |args.Schema.Elements|, args.NodesCount, w);
  }

  /** Whichever selection is configured, every individual of the union is matched or
      beaten by some survivor. */
  lemma SurvivorNoWorse(selection: SelectionType, union: seq<array<int>>, scores: map<array<int>, int>,
                        shuffle: seq<int>, x: array<int>)
    requires Selection.Scored(union, scores) && |shuffle| >= |union| && |union| >= 2 && x in union
    ensures exists s :: s in Survivors(selection, union, scores, shuffle) && s in scores && x in scores &&
                        scores[s] <= scores[x]
  {
    match selection
    case Elitism => Selection.ElitismKeepsBest(union, scores, x);
    case Tournament => Selection.TournamentKeepsBest(union, scores, shuffle, x);
  }

  /** A generation loses no ground: every individual scored before it is matched or
      beaten by some individual of the next population, with the same fitness. */
  lemma EvolvedNoWorse(args: GeneticAlgorithmArgs, population: seq<array<int>>, fitness: map<array<int>, int>,
                       d: GenerationDraws, r: Round, survivors: seq<array<int>>, fitness': map<array<int>, int>,
                       w: seq<seq<int>>, x: array<int>)
    requires Evolved(args, population, fitness, d, r, survivors, fitness', w) && x in fitness
    ensures exists s :: s in fitness' && fitness'[s] <= fitness[x]
  {
    assert x in r.scores;
    var i :| 0 <= i < |r.union| && r.union[i] == x;
    SurvivorNoWorse(args.Selection, r.union, r.scores, d.shuffle, x);
    var s :| s in survivors && s in r.scores && r.scores[s] <= r.scores[x];
    assert s in fitness' && fitness'[s] == r.scores[s];
  }

  /** One generation: the offspring, the union of population and offspring, the
      offspring's fitness, the survivors, and the dictionary pruned to them. A population
      of PopulationSize distinct placed individuals, scored under the schema's connection
      table, stays one. */
  method NextGeneration(args: GeneticAlgorithmArgs, population: seq<array<int>>, fitness: map<array<int>, int>,
                        d: GenerationDraws, ghost m: LabeledMatrix<string, string>)
    returns (survivors: seq<array<int>>, fitness': map<array<int>, int>, ghost r: Round)
    requires ValidArgs(args) && args.Schema.Valid() && args.Schema.connections == m
    requires |population| == args.PopulationSize && NoDuplicates(population)
    requires Placements(population, |args.Schema.Elements|, args.NodesCount)
    requires Scores(population, fitness, Table(m, args.Schema.Elements))
    requires DrawsFit(d, args.PopulationSize, |args.Schema.Elements|)
    modifies args.Schema
    ensures args.Schema.Valid() && args.Schema.connections == m
    ensures Evolved(args, population, fitness, d, r, survivors, fitness', Table(m, args.Schema.Elements))
    ensures |survivors| == args.PopulationSize && NoDuplicates(survivors)
    ensures Placements(survivors, |args.Schema.Elements|, args.NodesCount)
    ensures Scores(survivors, fitness', Table(m, args.Schema.Elements))
    ensures forall x :: x in survivors ==> x in population || fresh(x)
  {
    var union, scores;
    union, scores, r := Reproduce(args, population, fitness, d, m);
    SizeKept(|population|);
    survivors := Survivors(args.Selection, union, scores, d.shuffle);
    fitness' := Pruned(scores, survivors);
    Selected(args, population, fitness, d, r, Table(m, args.Schema.Elements));
  }

  /** The number of generations a run lasts from generation i on: up to and including
      the first whose draws stop it, or all of them. */
  function GenerationsRun(args: GeneticAlgorithmArgs, draws: seq<GenerationDraws>, i: nat): nat
    requires i <= |draws|
    decreases |draws| - i
  {
    if i == |draws| then i
    else if Stops(args, draws[i]) then i + 1
    else GenerationsRun(args, draws, i + 1)
  }

  /** A run of at least one generation lasts g generations, 1 <= g <= |draws|: none of the
      first g - 1 generations stops it, and it ends early only when the g-th does; it is
      cancelled exactly when some generation observes a cancellation request. */
  lemma {:induction false} GenerationsRunSpec(args: GeneticAlgorithmArgs, draws: seq<GenerationDraws>, i: nat)
    requires i < |draws|
    requires forall j :: 0 <= j < i ==> !Stops(args, draws[j])
    ensures i < GenerationsRun(args, draws, i) <= |draws|
    ensures forall j :: 0 <= j < GenerationsRun(args, draws, i) - 1 ==> !Stops(args, draws[j])
    ensures GenerationsRun(args, draws, i) < |draws| ==> Stops(args, draws[GenerationsRun(args, draws, i) - 1])
    ensures (exists j :: 0 <= j < |draws| && Stops(args, draws[j])) <==>
            Stops(args, draws[GenerationsRun(args, draws, i) - 1])
    decreases |draws| - i
  {
    if !Stops(args, draws[i]) && i + 1 < |draws| {
      GenerationsRunSpec(args, draws, i + 1);
    }
  }

  /** What every generation's result says: its number, a solution with one entry per
      element, each on one of the nodes 1..NodesCount, and a least fitness not above the
      greatest. */
  ghost predicate Reported(r: GeneticAlgorithmResult, args: GeneticAlgorithmArgs, generation: int) {
    r.GenerationNumber == generation &&
    r.MinConnectionsCount <= r.MaxConnectionsCount &&
    r.Solution.Keys == (set i | 0 <= i < |args.Schema.Elements| :: args.Schema.Elements[i]) &&
    forall e :: e in r.Solution ==> 1 <= r.Solution[e] <= args.NodesCount
  }

  /** The elements of a schema are distinct objects, since their names are distinct. */
  lemma ElementsDistinct(elements: seq<Element>)
    requires NoDuplicates(Names(elements))
    ensures NoDuplicates(elements)
  {
    forall i, j | 0 <= i < j < |elements| ensures elements[i] != elements[j] {
      assert Names(elements)[i] != Names(elements)[j];
    }
  }

  /** The result of a generation over a placed population scored by a dictionary keyed by
      exactly that population is reported as Reported describes. */
  lemma ResultReported(args: GeneticAlgorithmArgs, generation: int, population: seq<array<int>>,
                       fitness: map<array<int>, int>, w: seq<seq<int>>)
    requires |population| > 0 && NoDuplicates(args.Schema.Elements)
    requires Placements(population, |args.Schema.Elements|, args.NodesCount)
    requires Scores(population, fitness, w)
    ensures forall i :: 0 <= i < |population| ==> population[i] in fitness
    ensures fitness != map[]
    ensures Reported(MakeResult(args.Schema.Elements, generation, population, fitness), args, generation)
  {
    assert population[0] in fitness;
    var es := args.Schema.Elements;
    var r := MakeResult(es, generation, population, fitness);
    var best := population[FirstMinIndex(FitnessKeys(population, fitness))];
    MemberPlaced(population, best, |es|, args.NodesCount);
    forall e | e in r.Solution ensures 1 <= r.Solution[e] <= args.NodesCount {
      var i :| 0 <= i < |es| && es[i] == e;
      assert r.Solution[e] == best[i];
    }
    assert r.MinConnectionsCount <= fitness[population[0]] <= r.MaxConnectionsCount;
  }

  /** The state a run keeps between generations: PopulationSize distinct individuals,
      each a placement of the schema's elements on the nodes 1..NodesCount, and the
      fitness dictionary keyed by exactly them with their counts under table w. */
  ghost predicate Running(args: GeneticAlgorithmArgs, population: seq<array<int>>, fitness: map<array<int>, int>,
                          w: seq<seq<int>>)
    reads population
  {
    |population| == args.PopulationSize && NoDuplicates(population) &&
    Placements(population, |args.Schema.Elements|, args.NodesCount) && Scores(population, fitness, w)
  }

  /** The start of Layout: the initial population and its fitness dictionary
      (ToDictionary over the population). */
  method Start(args: GeneticAlgorithmArgs, shuffles: seq<seq<int>>)
    returns (population: seq<array<int>>, fitness: map<array<int>, int>)
    requires ValidArgs(args) && args.Schema.Valid()
    requires |shuffles| == args.PopulationSize
    requires forall i :: 0 <= i < |shuffles| ==> |shuffles[i]| >= |args.Schema.Elements|
    modifies args.Schema
    ensures args.Schema.Valid() && args.Schema.connections != null
    ensures old(args.Schema.connections) != null ==> args.Schema.connections == old(args.Schema.connections)
    ensures old(args.Schema.connections) == null ==> CountsChains(args.Schema)
    ensures Running(args, population, fitness, Table(args.Schema.connections, args.Schema.Elements))
    ensures forall i :: 0 <= i < |population| ==>
      population[i][..] == Shuffled(|args.Schema.Elements|, args.NodesCount, shuffles[i])
  {
    var n, k := |args.Schema.Elements|, args.NodesCount;
    population := InitialPopulation(args, shuffles);
    forall i | 0 <= i < |population| ensures population[i].Length == n && InNodes(population[i][..], k) {
      ShuffledPlacement(n, k, shuffles[i]);
    }
    ghost var genomes := Contents(population);
    assert Placed(genomes, n, k);
    fitness := AddFitness(args.Schema, map[], population);
    assert Contents(population) == genomes;
    Started(population, genomes, fitness, Table(args.Schema.connections, args.Schema.Elements), n, k);
  }

  /** The dictionary AddFitness builds from an empty one scores the population. */
  lemma Started(population: seq<array<int>>, genomes: seq<seq<int>>, fitness: map<array<int>, int>, w: seq<seq<int>>,
                n: nat, k: int)
    requires genomes == Contents(population) && Placed(genomes, n, k) && IsTable(w, n)
    requires fitness.Keys == (set i | 0 <= i < |population| :: population[i])
    requires forall i :: 0 <= i < |population| ==> fitness[population[i]] == CrossCount(genomes[i], w)
    ensures Placements(population, n, k) && Scores(population, fitness, w)
  {
  }

  /** `result` is what the result constructor makes of the population and its dictionary
      for the given generation. */
  ghost predicate Summarizes(args: GeneticAlgorithmArgs, population: seq<array<int>>, fitness: map<array<int>, int>,
                             result: GeneticAlgorithmResult, generation: int)
    reads population
  {
    |population| > 0 && fitness != map[] &&
    (forall i :: 0 <= i < |population| ==> population[i] in fitness) &&
    (forall i :: 0 <= i < |population| ==> population[i].Length >= |args.Schema.Elements|) &&
    NoDuplicates(args.Schema.Elements) &&
    result == MakeResult(args.Schema.Elements, generation, population, fitness)
  }

  /** One pass of Layout's loop body up to the event: the next population, its pruned
      dictionary and the generation's result. */
  method Generation(args: GeneticAlgorithmArgs, population: seq<array<int>>, fitness: map<array<int>, int>,
                    d: GenerationDraws, generation: int, ghost m: LabeledMatrix<string, string>)
    returns (population': seq<array<int>>, fitness': map<array<int>, int>, result: GeneticAlgorithmResult,
             ghost r: Round)
    requires ValidArgs(args) && args.Schema.Valid() && args.Schema.connections == m
    requires Running(args, population, fitness, Table(m, args.Schema.Elements))
    requires DrawsFit(d, args.PopulationSize, |args.Schema.Elements|)
    modifies args.Schema
    ensures args.Schema.Valid() && args.Schema.connections == m
    ensures Evolved(args, population, fitness, d, r, population', fitness', Table(m, args.Schema.Elements))
    ensures Running(args, population', fitness', Table(m, args.Schema.Elements))
    ensures Summarizes(args, population', fitness', result, generation)
    ensures Reported(result, args, generation)
    ensures forall x :: x in fitness ==> result.MinConnectionsCount <= fitness[x]
  {
    ElementsUnique(args.Schema.Chains);
    ElementsDistinct(args.Schema.Elements);
    population', fitness', r := NextGeneration(args, population, fitness, d, m);
    ResultReported(args, generation, population', fitness', Table(m, args.Schema.Elements));
    result := MakeResult(args.Schema.Elements, generation, population', fitness');
    forall x | x in fitness
      ensures result.MinConnectionsCount <= fitness[x]
    {
      EvolvedNoWorse(args, population, fitness, d, r, population', fitness', Table(m, args.Schema.Elements), x);
    }
  }

  /** Every event announces the completion of a generation, the j-th that of generation
      j + 1, with a result as Reported describes. */
  ghost predicate Announced(events: seq<LayoutEvent>, args: GeneticAlgorithmArgs) {
    forall j :: 0 <= j < |events| ==> events[j].IterationCompleted? && Reported(events[j].result, args, j + 1)
  }

  /** Announcing the next generation. */
  lemma AnnouncedAppend(events: seq<LayoutEvent>, args: GeneticAlgorithmArgs, r: GeneticAlgorithmResult)
    requires Announced(events, args) && Reported(r, args, |events| + 1)
    ensures Announced(events + [IterationCompleted(r)], args)
  {
  }

  /** The least fitness announced never rises from one event to the next. */
  predicate Improving(events: seq<LayoutEvent>) {
    forall j :: 0 < j < |events| ==> events[j].result.MinConnectionsCount <= events[j - 1].result.MinConnectionsCount
  }

  /** A generation whose least fitness is no greater than any fitness of the population
      the last event summarized keeps the announced least fitness from rising, and so
      does repeating its result in a terminal event. */
  lemma ImprovingAppend(events: seq<LayoutEvent>, fitness: map<array<int>, int>, r: GeneticAlgorithmResult,
                        last: LayoutEvent)
    requires Improving(events) && last.result == r
    requires |events| > 0 ==> events[|events| - 1].result.MinConnectionsCount in fitness.Values
    requires forall x :: x in fitness ==> r.MinConnectionsCount <= fitness[x]
    ensures Improving(events + [IterationCompleted(r)])
    ensures Improving(events + [IterationCompleted(r)] + [last])
  {
    if |events| > 0 {
      var x :| x in fitness && fitness[x] == events[|events| - 1].result.MinConnectionsCount;
    }
  }

  /** None of the first i generations observes a cancellation request. */
  predicate Continued(args: GeneticAlgorithmArgs, draws: seq<GenerationDraws>, i: nat)
    requires i <= |draws|
  {
    forall j :: 0 <= j < i ==> !Stops(args, draws[j])
  }

  /** A generation that does not stop the run extends the uninterrupted prefix. */
  lemma ContinuedStep(args: GeneticAlgorithmArgs, draws: seq<GenerationDraws>, i: nat)
    requires i < |draws| && Continued(args, draws, i) && !Stops(args, draws[i])
    ensures Continued(args, draws, i + 1)
  {
  }

  /** The event stream of a finished run over the given draws: one IterationCompleted per
      generation run, numbered from 1, then one terminal event carrying the last result
      again, LayoutCanceled exactly when some generation observed a cancellation request
      and LayoutCompleted otherwise. */
  ghost predicate Ended(args: GeneticAlgorithmArgs, draws: seq<GenerationDraws>, events: seq<LayoutEvent>,
                        result: GeneticAlgorithmResult)
    requires 0 < |draws|
  {
    |events| >= 2 && |events| == GenerationsRun(args, draws, 0) + 1 &&
    Announced(events[..|events| - 1], args) &&
    (events[|events| - 1].LayoutCanceled? <==> exists j :: 0 <= j < |draws| && Stops(args, draws[j])) &&
    (events[|events| - 1].LayoutCanceled? || events[|events| - 1].LayoutCompleted?) &&
    result == events[|events| - 1].result == events[|events| - 2].result
  }

  /** A run that observes a cancellation request after generation i + 1 has ended. */
  lemma EndedCanceled(args: GeneticAlgorithmArgs, draws: seq<GenerationDraws>, events: seq<LayoutEvent>,
                      result: GeneticAlgorithmResult, i: nat)
    requires i < |draws| && |events| == i + 1 && Announced(events, args) && events[i].result == result
    requires GenerationsRun(args, draws, 0) == GenerationsRun(args, draws, i) && Stops(args, draws[i])
    ensures Ended(args, draws, events + [LayoutCanceled(result)], result)
  {
    var all := events + [LayoutCanceled(result)];
    assert all[..|all| - 1] == events;
  }

  /** A run through all generations without a cancellation request has ended. */
  lemma EndedCompleted(args: GeneticAlgorithmArgs, draws: seq<GenerationDraws>, events: seq<LayoutEvent>,
                       result: GeneticAlgorithmResult)
    requires 0 < |draws| && |events| == |draws| && Announced(events, args) && events[|draws| - 1].result == result
    requires GenerationsRun(args, draws, 0) == |draws| && Continued(args, draws, |draws|)
    ensures Ended(args, draws, events + [LayoutCompleted(result)], result)
  {
    var all := events + [LayoutCompleted(result)];
    assert all[..|all| - 1] == events;
  }

  /** The state of Layout's loop before generation i + 1: the schema's connection matrix
      is built, none of the first i generations stopped the run, each announced its
      result, and the population and dictionary are those of the last result. */
  ghost predicate Looping(args: GeneticAlgorithmArgs, draws: seq<GenerationDraws>, i: nat, events: seq<LayoutEvent>,
                          population: seq<array<int>>, fitness: map<array<int>, int>, m: LabeledMatrix<string, string>)
    reads args.Schema, args.Schema.complexes, args.Schema.connections, m, population
  {
    i <= |draws| && |events| == i &&
    args.Schema.Valid() && args.Schema.connections == m &&
    Continued(args, draws, i) && GenerationsRun(args, draws, 0) == GenerationsRun(args, draws, i) &&
    Running(args, population, fitness, Table(m, args.Schema.Elements)) &&
    Announced(events, args) && Improving(events) &&
    (i > 0 ==> Summarizes(args, population, fitness, events[i - 1].result, i))
  }

  /** The state at the end of Layout: the event stream has ended, and the population and
      dictionary are those the last result summarizes. */
  ghost predicate Finished(args: GeneticAlgorithmArgs, draws: seq<GenerationDraws>, events: seq<LayoutEvent>,
                           result: GeneticAlgorithmResult, population: seq<array<int>>, fitness: map<array<int>, int>)
    requires 0 < |draws|
    reads args.Schema, args.Schema.complexes, args.Schema.connections, population
  {
    args.Schema.Valid() && args.Schema.connections != null &&
    Ended(args, draws, events, result) && Improving(events) &&
    Running(args, population, fitness, Table(args.Schema.connections, args.Schema.Elements)) &&
    Summarizes(args, population, fitness, result, |events| - 1)
  }

  /** The facts about the first i generations that a generation leaves as they were:
      none stopped the run, each announced its result, the least fitness never rose, and
      the last announced least fitness is one of the dictionary's values. */
  ghost predicate Record(args: GeneticAlgorithmArgs, draws: seq<GenerationDraws>, i: nat, events: seq<LayoutEvent>,
                         fitness: map<array<int>, int>)
  {
    i < |draws| && |events| == i &&
    Continued(args, draws, i) && GenerationsRun(args, draws, 0) == GenerationsRun(args, draws, i) &&
    Announced(events, args) && Improving(events) &&
    (i > 0 ==> events[i - 1].result.MinConnectionsCount in fitness.Values)
  }

  /** Before generation i + 1, its record holds. */
  lemma LoopingRecord(args: GeneticAlgorithmArgs, draws: seq<GenerationDraws>, i: nat, events: seq<LayoutEvent>,
                      population: seq<array<int>>, fitness: map<array<int>, int>, m: LabeledMatrix<string, string>)
    requires i < |draws| && Looping(args, draws, i, events, population, fitness, m)
    ensures Record(args, draws, i, events, fitness)
  {
  }

  /** A generation that does not stop the run, whose result is no worse than the
      population before it, leads to the state before the next one. */
  lemma Continues(args: GeneticAlgorithmArgs, draws: seq<GenerationDraws>, i: nat, events: seq<LayoutEvent>,
                  fitness: map<array<int>, int>, population': seq<array<int>>, fitness': map<array<int>, int>,
                  result: GeneticAlgorithmResult, m: LabeledMatrix<string, string>)
    requires Record(args, draws, i, events, fitness) && !Stops(args, draws[i])
    requires forall x :: x in fitness ==> result.MinConnectionsCount <= fitness[x]
    requires args.Schema.Valid() && args.Schema.connections == m
    requires Running(args, population', fitness', Table(m, args.Schema.Elements))
    requires Summarizes(args, population', fitness', result, i + 1) && Reported(result, args, i + 1)
    ensures Looping(args, draws, i + 1, events + [IterationCompleted(result)], population', fitness', m)
  {
    AnnouncedAppend(events, args, result);
    ImprovingAppend(events, fitness, result, LayoutCanceled(result));
    ContinuedStep(args, draws, i);
  }

  /** A generation that observes a cancellation request, whose result is no worse than
      the population before it, ends the run with LayoutCanceled. */
  lemma Cancels(args: GeneticAlgorithmArgs, draws: seq<GenerationDraws>, i: nat, events: seq<LayoutEvent>,
                fitness: map<array<int>, int>, population': seq<array<int>>, fitness': map<array<int>, int>,
                result: GeneticAlgorithmResult, m: LabeledMatrix<string, string>)
    requires Record(args, draws, i, events, fitness) && Stops(args, draws[i])
    requires forall x :: x in fitness ==> result.MinConnectionsCount <= fitness[x]
    requires args.Schema.Valid() && args.Schema.connections == m
    requires Running(args, population', fitness', Table(m, args.Schema.Elements))
    requires Summarizes(args, population', fitness', result, i + 1) && Reported(result, args, i + 1)
    ensures Finished(args, draws, events + [IterationCompleted(result)] + [LayoutCanceled(result)], result,
                     population', fitness')
  {
    AnnouncedAppend(events, args, result);
    ImprovingAppend(events, fitness, result, LayoutCanceled(result));
    EndedCanceled(args, draws, events + [IterationCompleted(result)], result, i);
  }

  /** One pass of Layout's loop: the next generation and its IterationCompleted event;
      when a cancellation request is observed, the LayoutCanceled event too. */
  method Step(args: GeneticAlgorithmArgs, draws: seq<GenerationDraws>, i: nat, population: seq<array<int>>,
              fitness: map<array<int>, int>, events: seq<LayoutEvent>, ghost m: LabeledMatrix<string, string>)
    returns (population': seq<array<int>>, fitness': map<array<int>, int>, events': seq<LayoutEvent>,
             result: GeneticAlgorithmResult, stop: bool, ghost r: Round)
    requires ValidArgs(args) && i < |draws| && DrawsFit(draws[i], args.PopulationSize, |args.Schema.Elements|)
    requires Looping(args, draws, i, events, population, fitness, m)
    modifies args.Schema
    ensures Evolved(args, population, fitness, draws[i], r, population', fitness', Table(m, args.Schema.Elements))
    ensures stop == Stops(args, draws[i])
    ensures stop ==> Finished(args, draws, events', result, population', fitness')
    ensures !stop ==> Looping(args, draws, i + 1, events', population', fitness', m)
    ensures old(CountsChains(args.Schema)) ==> CountsChains(args.Schema)
  {
    LoopingRecord(args, draws, i, events, population, fitness, m);
    population', fitness', result, r := Generation(args, population, fitness, draws[i], i + 1, m);
    stop := args.Token.Some? && draws[i].cancellationRequested;
    if stop {
      Cancels(args, draws, i, events, fitness, population', fitness', result, m);
      events' := events + [IterationCompleted(result)] + [LayoutCanceled(result)];
    } else {
      Continues(args, draws, i, events, fitness, population', fitness', result, m);
      events' := events + [IterationCompleted(result)];
    }
  }

  /** A loop through all generations ends with LayoutCompleted. */
  lemma Completed(args: GeneticAlgorithmArgs, draws: seq<GenerationDraws>, events: seq<LayoutEvent>,
                  population: seq<array<int>>, fitness: map<array<int>, int>, m: LabeledMatrix<string, string>)
    requires 0 < |draws| && Looping(args, draws, |draws|, events, population, fitness, m)
    ensures Finished(args, draws, events + [LayoutCompleted(events[|draws| - 1].result)],
                     events[|draws| - 1].result, population, fitness)
  {
    GenerationsRunSpec(args, draws, 0);
    EndedCompleted(args, draws, events, events[|draws| - 1].result);
  }

  /** Run (its local function Layout): the initial population and its fitness dictionary,
      then generation after generation the next population and its pruned dictionary,
      whose result is announced by IterationCompleted; a cancellation request observed
      after a generation ends the run with LayoutCanceled, and a run that goes through
      all generations ends with LayoutCompleted. The population keeps PopulationSize
      distinct placed individuals, and the dictionary is keyed by exactly them. */
  method Run(args: GeneticAlgorithmArgs, shuffles: seq<seq<int>>, draws: seq<GenerationDraws>)
    returns (result: GeneticAlgorithmResult, events: seq<LayoutEvent>,
             ghost population: seq<array<int>>, ghost fitness: map<array<int>, int>)
    requires ValidArgs(args) && args.Schema.Valid()
    requires |shuffles| == args.PopulationSize
    requires forall i :: 0 <= i < |shuffles| ==> |shuffles[i]| >= |args.Schema.Elements|
    requires |draws| == args.GenerationsCount
    requires forall i :: 0 <= i < |draws| ==> DrawsFit(draws[i], args.PopulationSize, |args.Schema.Elements|)
    modifies args.Schema
    ensures Finished(args, draws, events, result, population, fitness)
    ensures old(args.Schema.connections) == null ==> CountsChains(args.Schema)
  {
    ghost var empty := args.Schema.connections == null;
    var individuals, scores := Start(args, shuffles);
    ghost var m := args.Schema.connections;
    events := [];
    var i := 0;
    while i < |draws|
      invariant Looping(args, draws, i, events, individuals, scores, m)
      invariant empty ==> CountsChains(args.Schema)
    {
      var stop;
      ghost var round;
      individuals, scores, events, result, stop, round := Step(args, draws, i, individuals, scores, events, m);
      if stop {
        population, fitness := individuals, scores;
        return;
      }
      i := i + 1;
    }
    Completed(args, draws, events, individuals, scores, m);
    result := events[i - 1].result;
    events := events + [LayoutCompleted(result)];
    population, fitness := individuals, scores;
  }
}
