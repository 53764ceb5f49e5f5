/** Crossover: each parent pair yields two offspring. The genes of both parents, as
    (element index, node) pairs, are pooled without repeats and shuffled; an offspring is
    filled gene by gene, a node taking at most `cap` elements, and the elements left over
    go to the first node 1..k with room. */
module Crossovers {
  import opened Seqs
  import opened Ordering
  import opened Genomes
  import opened Mutations

  /** The genes of a genome: each element index with its node. */
  function Genes(g: seq<int>): (r: seq<(int, int)>)
    ensures |r| == |g|
    ensures forall i :: 0 <= i < |g| ==> r[i] == (i, g[i])
  {
    seq(|g|, i requires 0 <= i < |g| => (i, g[i]))
  }

  /** The gene pool: the set union of both parents' genes, so a position where the
      parents agree contributes a single gene. */
  function Pool(a: seq<int>, b: seq<int>): seq<(int, int)> {
    Distinct(Genes(a) + Genes(b))
  }

  /** The pool holds every gene of either parent once, and nothing else. */
  lemma PoolSpec(a: seq<int>, b: seq<int>)
    ensures NoDuplicates(Pool(a, b))
    ensures |Pool(a, b)| <= |a| + |b|
    ensures forall gene :: gene in Pool(a, b) <==>
      (0 <= gene.0 < |a| && gene.1 == a[gene.0]) || (0 <= gene.0 < |b| && gene.1 == b[gene.0])
  {
    DistinctSpec(Genes(a) + Genes(b));
    forall gene ensures gene in Genes(a) + Genes(b) <==>
      (0 <= gene.0 < |a| && gene.1 == a[gene.0]) || (0 <= gene.0 < |b| && gene.1 == b[gene.0])
    {
      if 0 <= gene.0 < |a| && gene.1 == a[gene.0] {
        assert Genes(a)[gene.0] == gene;
      }
      if 0 <= gene.0 < |b| && gene.1 == b[gene.0] {
        assert (Genes(a) + Genes(b))[|a| + gene.0] == gene;
      }
    }
  }

  /** The state of the fill: how many elements each node holds, and the node chosen for
      each element index so far. */
  datatype Fill = Fill(distribution: map<int, int>, offspring: map<int, int>)

  /** The elements held by a node; a node not yet in the distribution holds none. */
  function Load(f: Fill, node: int): int {
    if node in f.distribution then f.distribution[node] else 0
  }

  /** The element indices placed in a node. */
  function Placed(offspring: map<int, int>, node: int): set<nat> {
    set id: nat | id in offspring && offspring[id] == node
  }

  /** The distribution counts exactly the placed elements of every node, no node holds
      more than cap, and only indices below n are placed. */
  ghost predicate Consistent(f: Fill, n: nat, cap: int) {
    (forall node :: Load(f, node) == |Placed(f.offspring, node)|) &&
    (forall node :: Load(f, node) <= cap) &&
    (forall id :: id in f.offspring ==> 0 <= id < n)
  }

  /** The first pass for one gene: an element not yet placed, while fewer than n are
      placed, goes to the gene's node if that node has room. */
  function Place(f: Fill, gene: (int, int), n: nat, cap: int): Fill {
    if |f.offspring| < n && gene.0 !in f.offspring then
      var d := if gene.1 in f.distribution then f.distribution else f.distribution[gene.1 := 0];
      if d[gene.1] < cap then Fill(d[gene.1 := d[gene.1] + 1], f.offspring[gene.0 := gene.1])
      else Fill(d, f.offspring)
    else f
  }

  /** The first pass over the shuffled pool. */
  function FirstPass(genes: seq<(int, int)>, n: nat, cap: int): Fill {
    if genes == [] then Fill(map[], map[])
    else Place(FirstPass(genes[..|genes| - 1], n, cap), genes[|genes| - 1], n, cap)
  }

  /** The second pass for an element left over: the first node from i to k with room. */
  function Fallback(f: Fill, id: int, k: int, cap: int, i: int): Fill
    decreases k - i + 1
  {
    if i > k then f
    else
      var d := if i in f.distribution then f.distribution else f.distribution[i := 0];
      if d[i] < cap then Fill(d[i := d[i] + 1], f.offspring[id := i])
      else Fallback(Fill(d, f.offspring), id, k, cap, i + 1)
  }

  /** The second pass over the pool, starting from the first pass's fill. */
  function SecondPass(f: Fill, genes: seq<(int, int)>, k: int, cap: int): Fill {
    if genes == [] then f
    else
      var g := SecondPass(f, genes[..|genes| - 1], k, cap);
      var id := genes[|genes| - 1].0;
      if id in g.offspring then g else Fallback(g, id, k, cap, 1)
  }

  /** Placing element id in node v adds it to that node only. */
  lemma PlacedAdd(offspring: map<int, int>, id: nat, v: int)
    requires id !in offspring
    ensures Placed(offspring[id := v], v) == Placed(offspring, v) + {id}
    ensures forall node :: node != v ==> Placed(offspring[id := v], node) == Placed(offspring, node)
  {
  }

  /** Recording a node with no element changes no load. */
  lemma LoadTouch(f: Fill, v: int)
    ensures forall node :: Load(Fill(if v in f.distribution then f.distribution else f.distribution[v := 0], f.offspring), node) == Load(f, node)
  {
  }

  /** Placing a new element in a node with room keeps the fill consistent. */
  lemma AddKeeps(f: Fill, id: int, v: int, n: nat, cap: int)
    requires Consistent(f, n, cap) && id !in f.offspring && 0 <= id < n
    requires v in f.distribution && f.distribution[v] < cap
    ensures Consistent(Fill(f.distribution[v := f.distribution[v] + 1], f.offspring[id := v]), n, cap)
  {
    PlacedAdd(f.offspring, id, v);
    var f' := Fill(f.distribution[v := f.distribution[v] + 1], f.offspring[id := v]);
    forall node ensures Load(f', node) == |Placed(f'.offspring, node)| && Load(f', node) <= cap {
      if node == v {
        assert Load(f, node) == |Placed(f.offspring, node)|;
      } else {
        assert Load(f', node) == Load(f, node);
      }
    }
  }

  lemma PlaceKeeps(f: Fill, gene: (int, int), n: nat, cap: int)
    requires Consistent(f, n, cap) && 0 <= gene.0 < n
    ensures Consistent(Place(f, gene, n, cap), n, cap)
    ensures forall id :: id in f.offspring ==>
      id in Place(f, gene, n, cap).offspring && Place(f, gene, n, cap).offspring[id] == f.offspring[id]
    ensures forall id :: id in Place(f, gene, n, cap).offspring ==> id in f.offspring || id == gene.0
    ensures gene.0 in Place(f, gene, n, cap).offspring && gene.0 !in f.offspring ==>
      Place(f, gene, n, cap).offspring[gene.0] == gene.1
  {
    if |f.offspring| < n && gene.0 !in f.offspring {
      LoadTouch(f, gene.1);
      var d := if gene.1 in f.distribution then f.distribution else f.distribution[gene.1 := 0];
      if d[gene.1] < cap {
        AddKeeps(Fill(d, f.offspring), gene.0, gene.1, n, cap);
      }
    }
  }

  /** Every gene's element index is below n. */
  predicate IdsBelow(genes: seq<(int, int)>, n: nat) {
    forall g :: 0 <= g < |genes| ==> 0 <= genes[g].0 < n
  }

  /** The first pass is consistent, and places every element at the node of one of its
      pooled genes. */
  lemma {:induction false} FirstPassSpec(genes: seq<(int, int)>, n: nat, cap: int)
    requires IdsBelow(genes, n) && cap >= 0
    ensures Consistent(FirstPass(genes, n, cap), n, cap)
    ensures forall id :: id in FirstPass(genes, n, cap).offspring ==> (id, FirstPass(genes, n, cap).offspring[id]) in genes
    decreases |genes|
  {
    if genes != [] {
      var pre := genes[..|genes| - 1];
      assert IdsBelow(pre, n);
      FirstPassSpec(pre, n, cap);
      PlaceKeeps(FirstPass(pre, n, cap), genes[|genes| - 1], n, cap);
      var f := FirstPass(genes, n, cap);
      forall id | id in f.offspring ensures (id, f.offspring[id]) in genes {
        if id in FirstPass(pre, n, cap).offspring {
          assert (id, f.offspring[id]) in pre;
        }
      }
    } else {
      assert forall node :: Placed(map[], node) == {};
    }
  }

  /** Leaving the distribution and offspring as they are, but with node v recorded, keeps
      the fill consistent. */
  lemma TouchKeeps(f: Fill, v: int, n: nat, cap: int)
    requires Consistent(f, n, cap)
    ensures Consistent(Fill(if v in f.distribution then f.distribution else f.distribution[v := 0], f.offspring), n, cap)
  {
    var f' := Fill(if v in f.distribution then f.distribution else f.distribution[v := 0], f.offspring);
    forall node ensures Load(f', node) == |Placed(f'.offspring, node)| && Load(f', node) <= cap {
      assert Load(f', node) == Load(f, node);
    }
  }

  /** Some node among i..k has room. */
  ghost predicate HasRoom(f: Fill, i: int, k: int, cap: int) {
    exists v :: i <= v <= k && Load(f, v) < cap
  }

  /** The fallback places the element in the first node from i on with room, and changes
      nothing else about the placement. */
  lemma {:induction false} FallbackSpec(f: Fill, id: nat, k: int, cap: int, i: int, n: nat)
    requires Consistent(f, n, cap) && id < n && id !in f.offspring
    requires HasRoom(f, i, k, cap)
    ensures Consistent(Fallback(f, id, k, cap, i), n, cap)
    ensures id in Fallback(f, id, k, cap, i).offspring
    ensures i <= Fallback(f, id, k, cap, i).offspring[id] <= k
    ensures Load(f, Fallback(f, id, k, cap, i).offspring[id]) < cap
    ensures forall v :: i <= v < Fallback(f, id, k, cap, i).offspring[id] ==> Load(f, v) >= cap
    ensures Fallback(f, id, k, cap, i).offspring == f.offspring[id := Fallback(f, id, k, cap, i).offspring[id]]
    decreases k - i + 1
  {
    var v :| i <= v <= k && Load(f, v) < cap;
    TouchKeeps(f, i, n, cap);
    LoadTouch(f, i);
    var d := if i in f.distribution then f.distribution else f.distribution[i := 0];
    if d[i] < cap {
      AddKeeps(Fill(d, f.offspring), id, i, n, cap);
    } else {
      assert v != i;
      assert HasRoom(Fill(d, f.offspring), i + 1, k, cap);
      FallbackSpec(Fill(d, f.offspring), id, k, cap, i + 1, n);
    }
  }

  /** The element indices 0..n-1. */
  function Range(n: nat): (r: set<nat>)
    ensures forall i :: i in r <==> 0 <= i < n
    ensures |r| == n
  {
    if n == 0 then {} else Range(n - 1) + {n - 1}
  }

  /** The elements placed in the nodes 1..k. */
  function InFirstNodes(offspring: map<int, int>, k: int): set<nat> {
    set id: nat | id in offspring && 1 <= offspring[id] <= k
  }

  /** Nodes 1..k, each holding cap elements, hold k * cap elements together. */
  lemma {:induction false} FullNodes(offspring: map<int, int>, cap: int, k: nat)
    requires forall v :: 1 <= v <= k ==> |Placed(offspring, v)| >= cap
    ensures |InFirstNodes(offspring, k)| >= k * cap
  {
    if k > 0 {
      FullNodes(offspring, cap, k - 1);
      InFirstNodesStep(offspring, k);
      assert |Placed(offspring, k)| >= cap;
    }
  }

  /** The elements in nodes 1..k are those in nodes 1..k-1 and, apart from them, those in k. */
  lemma InFirstNodesStep(offspring: map<int, int>, k: int)
    requires k >= 1
    ensures |InFirstNodes(offspring, k)| == |InFirstNodes(offspring, k - 1)| + |Placed(offspring, k)|
  {
    assert InFirstNodes(offspring, k) == InFirstNodes(offspring, k - 1) + Placed(offspring, k);
    assert InFirstNodes(offspring, k - 1) * Placed(offspring, k) == {};
  }

  /** The pigeonhole argument: while an element is still unplaced, k nodes of capacity
      cap, with k * cap >= n, cannot all be full. */
  lemma Room(f: Fill, n: nat, cap: int, k: nat, id: nat)
    requires Consistent(f, n, cap) && k * cap >= n && id < n && id !in f.offspring
    ensures HasRoom(f, 1, k, cap)
  {
    if forall v :: 1 <= v <= k ==> Load(f, v) >= cap {
      FullNodes(f.offspring, cap, k);
      assert InFirstNodes(f.offspring, k) <= Range(n) - {id};
      SubsetCard(InFirstNodes(f.offspring, k), Range(n) - {id});
      assert false;
    }
  }

  /** The second pass keeps every placement already made, places every pooled element,
      and uses only the nodes 1..k for the elements it adds. */
  lemma {:induction false} SecondPassSpec(f: Fill, genes: seq<(int, int)>, n: nat, k: int, cap: int)
    requires Consistent(f, n, cap) && IdsBelow(genes, n) && k >= 1 && k * cap >= n
    ensures Consistent(SecondPass(f, genes, k, cap), n, cap)
    ensures forall id :: id in f.offspring ==>
      id in SecondPass(f, genes, k, cap).offspring && SecondPass(f, genes, k, cap).offspring[id] == f.offspring[id]
    ensures forall id :: id in SecondPass(f, genes, k, cap).offspring && id !in f.offspring ==>
      1 <= SecondPass(f, genes, k, cap).offspring[id] <= k
    ensures forall g :: 0 <= g < |genes| ==> genes[g].0 in SecondPass(f, genes, k, cap).offspring
    decreases |genes|
  {
    if genes != [] {
      var pre := genes[..|genes| - 1];
      assert IdsBelow(pre, n);
      SecondPassSpec(f, pre, n, k, cap);
      var g := SecondPass(f, pre, k, cap);
      var id := genes[|genes| - 1].0;
      if id !in g.offspring {
        Room(g, n, cap, k, id);
        FallbackSpec(g, id, k, cap, 1, n);
      }
      forall j | 0 <= j < |genes| ensures genes[j].0 in SecondPass(f, genes, k, cap).offspring {
        if j < |genes| - 1 {
          assert genes[j] == pre[j];
        }
      }
    }
  }

  /** Every element index below n has a gene in the pool. */
  ghost predicate Covers(genes: seq<(int, int)>, n: nat) {
    forall i :: 0 <= i < n ==> i in Ids(genes)
  }

  /** The element indices of the genes, in order. */
  function Ids(genes: seq<(int, int)>): (ids: seq<int>)
    ensures |ids| == |genes|
    ensures forall g :: 0 <= g < |genes| ==> ids[g] == genes[g].0
  {
    seq(|genes|, g requires 0 <= g < |genes| => genes[g].0)
  }

  /** The fill after both passes. */
  function Filled(genes: seq<(int, int)>, n: nat, k: int, cap: nat): Fill {
    SecondPass(FirstPass(genes, n, cap), genes, k, cap)
  }

  /** After both passes the fill is consistent and places exactly the elements 0..n-1;
      the second pass adds only elements the first one left out, in nodes 1..k. */
  lemma FilledSpec(genes: seq<(int, int)>, n: nat, k: int, cap: nat)
    requires IdsBelow(genes, n) && Covers(genes, n) && k >= 1 && k * cap >= n
    ensures Consistent(Filled(genes, n, k, cap), n, cap)
    ensures forall i :: i in Filled(genes, n, k, cap).offspring <==> 0 <= i < n
    ensures forall i :: i in FirstPass(genes, n, cap).offspring ==>
      i in Filled(genes, n, k, cap).offspring &&
      Filled(genes, n, k, cap).offspring[i] == FirstPass(genes, n, cap).offspring[i] &&
      (i, FirstPass(genes, n, cap).offspring[i]) in genes
    ensures forall i :: i in Filled(genes, n, k, cap).offspring && i !in FirstPass(genes, n, cap).offspring ==>
      1 <= Filled(genes, n, k, cap).offspring[i] <= k
  {
    FirstPassSpec(genes, n, cap);
    SecondPassSpec(FirstPass(genes, n, cap), genes, n, k, cap);
    forall i | 0 <= i < n ensures i in Filled(genes, n, k, cap).offspring {
      assert i in Ids(genes);
      var g :| 0 <= g < |genes| && Ids(genes)[g] == i;
    }
  }

  /** GenerateOffspring's result: the placed nodes ordered by element index. Both passes
      together place every element 0..n-1, so ordering by index is indexing. */
  function Child(genes: seq<(int, int)>, n: nat, k: int, cap: nat): (child: seq<int>)
    requires IdsBelow(genes, n) && Covers(genes, n) && k >= 1 && k * cap >= n
    ensures |child| == n
  {
    FilledSpec(genes, n, k, cap);
    var f := Filled(genes, n, k, cap);
    seq(n, i requires 0 <= i < n => f.offspring[i])
  }

  /** An offspring gives no node more than cap elements, and takes every gene either from
      the pool, as placed by the first pass, or from the nodes 1..k. */
  lemma ChildSpec(genes: seq<(int, int)>, n: nat, k: int, cap: nat)
    requires IdsBelow(genes, n) && Covers(genes, n) && k >= 1 && k * cap >= n
    ensures forall v :: multiset(Child(genes, n, k, cap))[v] <= cap
    ensures forall i :: 0 <= i < n ==>
      (i in FirstPass(genes, n, cap).offspring && Child(genes, n, k, cap)[i] == FirstPass(genes, n, cap).offspring[i] &&
       (i, Child(genes, n, k, cap)[i]) in genes) ||
      (i !in FirstPass(genes, n, cap).offspring && 1 <= Child(genes, n, k, cap)[i] <= k)
  {
    FilledSpec(genes, n, k, cap);
    var f := Filled(genes, n, k, cap);
    var child := Child(genes, n, k, cap);
    forall v ensures multiset(child)[v] <= cap {
      PositionsOfCount(child, v);
      assert PositionsOf(child, v) == Placed(f.offspring, v);
      assert Load(f, v) <= cap;
    }
  }

  /** With every pooled gene naming a node 1..K and k <= K, the offspring's genes do too. */
  lemma ChildInNodes(genes: seq<(int, int)>, n: nat, k: int, cap: nat, nodes: int)
    requires IdsBelow(genes, n) && Covers(genes, n) && k >= 1 && k * cap >= n
    requires forall g :: 0 <= g < |genes| ==> 1 <= genes[g].1 <= nodes
    requires k <= nodes
    ensures InNodes(Child(genes, n, k, cap), nodes)
  {
    ChildSpec(genes, n, k, cap);
    var child := Child(genes, n, k, cap);
    forall i | 0 <= i < n ensures 1 <= child[i] <= nodes {
      if (i, child[i]) in genes {
        var g :| 0 <= g < |genes| && genes[g] == (i, child[i]);
      }
    }
  }

  /** GenerateOffspring: the two passes over the shuffled pool, then the offspring's
      nodes in element order. */
  method GenerateOffspring(genes: seq<(int, int)>, n: nat, k: int, cap: nat) returns (child: array<int>)
    requires IdsBelow(genes, n) && Covers(genes, n) && k >= 1 && k * cap >= n
    ensures fresh(child)
    ensures child[..] == Child(genes, n, k, cap)
  {
    var distribution, offspring := PlaceFromPool(genes, n, cap);
    distribution, offspring := PlaceLeftovers(genes, k, cap, distribution, offspring);
    ChildEntries(genes, n, k, cap, offspring);
    ghost var expected := Child(genes, n, k, cap);
    child := new int[n];
    for i := 0 to n
      invariant forall j :: 0 <= j < i ==> child[j] == expected[j]
    {
      child[i] := offspring[i];
    }
  }

  /** The offspring dictionary left by both passes holds the child's genes by index. */
  lemma ChildEntries(genes: seq<(int, int)>, n: nat, k: int, cap: nat, offspring: map<int, int>)
    requires IdsBelow(genes, n) && Covers(genes, n) && k >= 1 && k * cap >= n
    requires offspring == Filled(genes, n, k, cap).offspring
    ensures forall i :: 0 <= i < n ==> i in offspring && Child(genes, n, k, cap)[i] == offspring[i]
  {
    FilledSpec(genes, n, k, cap);
  }

  /** The first pass, with the distribution and the offspring as dictionaries. */
  method PlaceFromPool(genes: seq<(int, int)>, n: nat, cap: nat) returns (distribution: map<int, int>, offspring: map<int, int>)
    ensures Fill(distribution, offspring) == FirstPass(genes, n, cap)
  {
    distribution, offspring := map[], map[];
    for g := 0 to |genes|
      invariant Fill(distribution, offspring) == FirstPass(genes[..g], n, cap)
    {
      assert genes[..g + 1][..g] == genes[..g];
      var gene := genes[g];
      if |offspring| < n && gene.0 !in offspring {
        if gene.1 !in distribution {
          distribution := distribution[gene.1 := 0];
        }
        if distribution[gene.1] < cap {
          distribution := distribution[gene.1 := distribution[gene.1] + 1];
          offspring := offspring[gene.0 := gene.1];
        }
      }
    }
    assert genes[..|genes|] == genes;
  }

  /** The second pass: every pooled element still unplaced goes to the first node 1..k
      with room. */
  method PlaceLeftovers(genes: seq<(int, int)>, k: int, cap: nat, distribution0: map<int, int>, offspring0: map<int, int>)
    returns (distribution: map<int, int>, offspring: map<int, int>)
    ensures Fill(distribution, offspring) == SecondPass(Fill(distribution0, offspring0), genes, k, cap)
  {
    distribution, offspring := distribution0, offspring0;
    for g := 0 to |genes|
      invariant Fill(distribution, offspring) == SecondPass(Fill(distribution0, offspring0), genes[..g], k, cap)
    {
      assert genes[..g + 1][..g] == genes[..g];
      var id := genes[g].0;
      if id !in offspring {
        ghost var target := Fallback(Fill(distribution, offspring), id, k, cap, 1);
        var i := 1;
        while i <= k
          invariant Fallback(Fill(distribution, offspring), id, k, cap, i) == target
          invariant id !in offspring
          decreases k - i + 1
        {
          if i !in distribution {
            distribution := distribution[i := 0];
          }
          if distribution[i] < cap {
            offspring := offspring[id := i];
            distribution := distribution[i := distribution[i] + 1];
            break;
          }
          i := i + 1;
        }
        assert Fill(distribution, offspring) == target;
      }
    }
    assert genes[..|genes|] == genes;
  }

  /** LINQ Reverse. */
  function Reversed<T>(s: seq<T>): (r: seq<T>)
    ensures |r| == |s|
    ensures forall i :: 0 <= i < |s| ==> r[i] == s[|s| - 1 - i]
  {
    seq(|s|, i requires 0 <= i < |s| => s[|s| - 1 - i])
  }

  /** Reversing keeps the items and their counts, and reversing twice gives the input back. */
  lemma ReversedInvolution<T>(s: seq<T>)
    ensures multiset(Reversed(s)) == multiset(s)
    ensures Reversed(Reversed(s)) == s
  {
    ReversedMultiset(s);
    var rr := Reversed(Reversed(s));
    assert forall i :: 0 <= i < |s| ==> rr[i] == s[i];
  }

  lemma {:induction false} ReversedMultiset<T>(s: seq<T>)
    ensures multiset(Reversed(s)) == multiset(s)
  {
    if s != [] {
      var t := s[1..];
      ReversedMultiset(t);
      ReversedCons(s);
      assert s == [s[0]] + t;
    }
  }

  lemma ReversedCons<T>(s: seq<T>)
    requires s != []
    ensures Reversed(s) == Reversed(s[1..]) + [s[0]]
  {
    var r, r' := Reversed(s), Reversed(s[1..]) + [s[0]];
    forall i | 0 <= i < |s| ensures r[i] == r'[i] {
      if i < |s| - 1 {
        assert r'[i] == s[1..][|s| - 2 - i];
      }
    }
  }

  /** Shuffling the pool, and reversing the shuffle, keeps its genes. */
  lemma ShuffledGenes(pool: seq<(int, int)>, keys: seq<int>)
    requires |keys| >= |pool|
    ensures forall gene :: gene in OrderBy(pool, keys) <==> gene in pool
    ensures forall gene :: gene in Reversed(OrderBy(pool, keys)) <==> gene in pool
  {
    OrderByPermutation(pool, keys);
    var ordered := OrderBy(pool, keys);
    forall gene ensures gene in ordered <==> gene in Reversed(ordered) {
      if gene in ordered {
        var i :| 0 <= i < |ordered| && ordered[i] == gene;
        assert Reversed(ordered)[|ordered| - 1 - i] == gene;
      }
      if gene in Reversed(ordered) {
        var i :| 0 <= i < |ordered| && Reversed(ordered)[i] == gene;
        assert ordered[|ordered| - 1 - i] == gene;
      }
    }
    forall gene ensures gene in ordered <==> gene in pool {
      assert gene in ordered <==> gene in multiset(ordered);
      assert gene in pool <==> gene in multiset(pool);
    }
  }

  /** A sequence holding exactly the pooled genes of two genomes of length n has element
      indices below n and covers them all. */
  lemma PooledIds(a: seq<int>, b: seq<int>, genes: seq<(int, int)>)
    requires |a| == |b|
    requires forall gene :: gene in genes <==> gene in Pool(a, b)
    ensures IdsBelow(genes, |a|) && Covers(genes, |a|)
  {
    PoolSpec(a, b);
    forall g | 0 <= g < |genes| ensures 0 <= genes[g].0 < |a| {
      assert genes[g] in Pool(a, b);
    }
    forall i | 0 <= i < |a| ensures i in Ids(genes) {
      assert (i, a[i]) in Pool(a, b);
      var g :| 0 <= g < |genes| && genes[g] == (i, a[i]);
      assert Ids(genes)[g] == i;
    }
  }

  /** The random numbers one mutation consumes. */
  datatype MutationDraws = MutationDraws(draw: int, swaps: seq<seq<(int, int)>>)

  /** The random numbers one parent pair consumes: the shuffle keys of the pool for each
      offspring (the shuffle is a deferred query, enumerated once per offspring) and the
      two mutations. */
  datatype PairDraws = PairDraws(order1: seq<int>, order2: seq<int>, mutation1: MutationDraws, mutation2: MutationDraws)

  /** A value `Random.Next(n)` can return: 0 <= x < n, or 0 when n is 0. */
  predicate NextBelow(x: int, n: nat) {
    0 <= x && (x < n || x == 0)
  }

  /** Enough random numbers for a pair of parents of length n. */
  predicate DrawsFor(d: PairDraws, n: nat) {
    |d.order1| >= 2 * n && |d.order2| >= 2 * n &&
    NextBelow(d.mutation1.draw, n) && NextBelow(d.mutation2.draw, n) &&
    |d.mutation1.swaps| == SwapCount(n) && SwapDraws(d.mutation1.swaps, n) &&
    |d.mutation2.swaps| == SwapCount(n) && SwapDraws(d.mutation2.swaps, n)
  }

  /** One offspring of parents a and b: the fill of the given arrangement of their pooled
      genes over nodes 1..k, then mutated. */
  function Bred(a: seq<int>, b: seq<int>, k: int, genes: seq<(int, int)>, m: MutationDraws): (child: seq<int>)
    requires |a| == |b| && k >= 1
    requires forall gene :: gene in genes <==> gene in Pool(a, b)
    requires SwapDraws(m.swaps, |a|)
    ensures |child| == |a|
  {
    PooledIds(a, b, genes);
    Mutated(Child(genes, |a|, k, Capacity(|a|, k)), a, b, m.draw, m.swaps)
  }

  /** The two offspring of a pair: the first fills the shuffled pool front to back, the
      second fills a fresh shuffle back to front. */
  function FirstBred(a: seq<int>, b: seq<int>, k: int, d: PairDraws): seq<int>
    requires |a| == |b| && k >= 1 && DrawsFor(d, |a|)
  {
    PoolSpec(a, b);
    ShuffledGenes(Pool(a, b), d.order1);
    Bred(a, b, k, OrderBy(Pool(a, b), d.order1), d.mutation1)
  }

  function SecondBred(a: seq<int>, b: seq<int>, k: int, d: PairDraws): seq<int>
    requires |a| == |b| && k >= 1 && DrawsFor(d, |a|)
  {
    PoolSpec(a, b);
    ShuffledGenes(Pool(a, b), d.order2);
    Bred(a, b, k, Reversed(OrderBy(Pool(a, b), d.order2)), d.mutation2)
  }

  /** Crossover of all parent pairs, two offspring per pair in pair order. The node count
      is the greatest gene of the first pair's first parent, and a node takes at most
      n / k elements, rounded up. */
  method Crossover(pairs: seq<(array<int>, array<int>)>, draws: seq<PairDraws>) returns (offspring: seq<array<int>>)
    requires |pairs| > 0 && pairs[0].0.Length > 0 && Max(pairs[0].0[..]) > 0
    requires forall p :: 0 <= p < |pairs| ==>
      pairs[p].0.Length == pairs[0].0.Length && pairs[p].1.Length == pairs[0].0.Length
    requires |draws| == |pairs|
    requires forall p :: 0 <= p < |draws| ==> DrawsFor(draws[p], pairs[0].0.Length)
    ensures |offspring| == 2 * |pairs|
    ensures forall o :: o in offspring ==> fresh(o)
    ensures NoDuplicates(offspring)
    ensures forall p :: 0 <= p < |pairs| ==>
      BredPair(offspring[2 * p][..], offspring[2 * p + 1][..], old(pairs[p].0[..]), old(pairs[p].1[..]),
               old(Max(pairs[0].0[..])), draws[p])
  {
    var nodesCount := Max(pairs[0].0[..]);
    var elementsCount := pairs[0].0.Length;
    var maxElementsInNodeCount := elementsCount / nodesCount;
    if elementsCount % nodesCount > 0 {
      maxElementsInNodeCount := maxElementsInNodeCount + 1;
    }
    assert maxElementsInNodeCount == Capacity(elementsCount, nodesCount);
    ghost var parents := Parents(pairs);
    ghost var contents: seq<seq<int>> := [];
    offspring := [];
    for p := 0 to |pairs|
      invariant |offspring| == |contents| == 2 * p
      invariant forall o :: o in offspring ==> fresh(o)
      invariant NoDuplicates(offspring)
      invariant forall j :: 0 <= j < |offspring| ==> offspring[j][..] == contents[j]
      invariant forall q :: 0 <= q < p ==> Brood(contents, parents, nodesCount, draws, q)
    {
      ghost var a, b := pairs[p].0[..], pairs[p].1[..];
      assert parents[p] == (a, b);
      var first, second := Breed(pairs[p].0, pairs[p].1, nodesCount, maxElementsInNodeCount, draws[p]);
      assert a == pairs[p].0[..] && b == pairs[p].1[..];
      assert first !in offspring && second !in offspring;
      NoDuplicatesAppend(offspring, first);
      NoDuplicatesAppend(offspring + [first], second);
      BroodAppend(contents, first[..], second[..], parents, nodesCount, draws, p);
      offspring := offspring + [first] + [second];
      contents := contents + [first[..]] + [second[..]];
    }
    forall p | 0 <= p < |pairs|
      ensures BredPair(offspring[2 * p][..], offspring[2 * p + 1][..], old(pairs[p].0[..]), old(pairs[p].1[..]),
                       old(Max(pairs[0].0[..])), draws[p])
    {
      assert Brood(contents, parents, nodesCount, draws, p);
    }
  }

  /** Appending the children of pair p to those of the pairs before it. */
  lemma BroodAppend(contents: seq<seq<int>>, c1: seq<int>, c2: seq<int>, parents: seq<(seq<int>, seq<int>)>,
                    k: int, draws: seq<PairDraws>, p: nat)
    requires |contents| == 2 * p && p < |parents| && p < |draws|
    requires forall q :: 0 <= q < p ==> Brood(contents, parents, k, draws, q)
    requires BredPair(c1, c2, parents[p].0, parents[p].1, k, draws[p])
    ensures forall q :: 0 <= q < p + 1 ==> Brood(contents + [c1] + [c2], parents, k, draws, q)
  {
    var after := contents + [c1] + [c2];
    forall q | 0 <= q < p + 1
      ensures Brood(after, parents, k, draws, q)
    {
      if q < p {
        assert after[2 * q] == contents[2 * q] && after[2 * q + 1] == contents[2 * q + 1];
        assert Brood(contents, parents, k, draws, q);
      } else {
        assert after[2 * q] == c1 && after[2 * q + 1] == c2;
      }
    }
  }

  /** The contents of every parent pair. */
  ghost function Parents(pairs: seq<(array<int>, array<int>)>): (parents: seq<(seq<int>, seq<int>)>)
    reads set p | 0 <= p < |pairs| :: pairs[p].0
    reads set p | 0 <= p < |pairs| :: pairs[p].1
    ensures |parents| == |pairs|
    ensures forall p :: 0 <= p < |pairs| ==> parents[p] == (pairs[p].0[..], pairs[p].1[..])
  {
    seq(|pairs|, p requires 0 <= p < |pairs| reads if 0 <= p < |pairs| then {pairs[p].0, pairs[p].1} else {} =>
          (pairs[p].0[..], pairs[p].1[..]))
  }

  /** Offspring 2q and 2q + 1 are the children of parent pair q. */
  ghost predicate Brood(contents: seq<seq<int>>, parents: seq<(seq<int>, seq<int>)>, k: int, draws: seq<PairDraws>, q: int)
  {
    0 <= q && 2 * q + 1 < |contents| && q < |parents| && q < |draws| &&
    BredPair(contents[2 * q], contents[2 * q + 1], parents[q].0, parents[q].1, k, draws[q])
  }

  /** c1 and c2 are the two offspring of parents a and b. */
  ghost predicate BredPair(c1: seq<int>, c2: seq<int>, a: seq<int>, b: seq<int>, k: int, d: PairDraws) {
    |a| == |b| && k >= 1 && DrawsFor(d, |a|) && |c1| == |a| && |c2| == |a| &&
    (forall i :: 0 <= i < |c1| ==> c1[i] == FirstBred(a, b, k, d)[i]) &&
    (forall i :: 0 <= i < |c2| ==> c2[i] == SecondBred(a, b, k, d)[i])
  }

  /** The two offspring of one pair. */
  method Breed(a: array<int>, b: array<int>, nodesCount: int, maxElementsInNodeCount: nat, d: PairDraws)
    returns (first: array<int>, second: array<int>)
    requires a.Length == b.Length && nodesCount >= 1 && maxElementsInNodeCount == Capacity(a.Length, nodesCount)
    requires DrawsFor(d, a.Length)
    ensures fresh(first) && fresh(second) && first != second
    ensures BredPair(first[..], second[..], a[..], b[..], nodesCount, d)
  {
    var mixedGenome := Pool(a[..], b[..]);
    PoolSpec(a[..], b[..]);
    ShuffledGenes(mixedGenome, d.order1);
    ShuffledGenes(mixedGenome, d.order2);
    first := Offspring(a, b, nodesCount, maxElementsInNodeCount, OrderBy(mixedGenome, d.order1), d.mutation1);
    second := Offspring(a, b, nodesCount, maxElementsInNodeCount, Reversed(OrderBy(mixedGenome, d.order2)), d.mutation2);
  }

  /** One offspring: GenerateOffspring over the given arrangement of the pooled genes,
      then Mutation. */
  method Offspring(a: array<int>, b: array<int>, nodesCount: int, maxElementsInNodeCount: nat,
                   genes: seq<(int, int)>, m: MutationDraws)
    returns (child: array<int>)
    requires a.Length == b.Length && nodesCount >= 1 && maxElementsInNodeCount == Capacity(a.Length, nodesCount)
    requires forall gene :: gene in genes <==> gene in Pool(a[..], b[..])
    requires |m.swaps| == SwapCount(a.Length) && SwapDraws(m.swaps, a.Length)
    ensures fresh(child)
    ensures child[..] == Bred(a[..], b[..], nodesCount, genes, m)
  {
    PooledIds(a[..], b[..], genes);
    child := GenerateOffspring(genes, a.Length, nodesCount, maxElementsInNodeCount);
    child := Mutation(child, a, b, m.draw, m.swaps);
  }

  /** One offspring of parents on the nodes 1..K, bred over k <= K nodes: its genes stay
      on the nodes 1..K and no node receives more than n / k of them, rounded up. */
  lemma BredPlacement(a: seq<int>, b: seq<int>, k: int, genes: seq<(int, int)>, m: MutationDraws, nodes: int)
    requires |a| == |b| && 1 <= k <= nodes
    requires forall gene :: gene in genes <==> gene in Pool(a, b)
    requires SwapDraws(m.swaps, |a|)
    requires InNodes(a, nodes) && InNodes(b, nodes)
    ensures InNodes(Bred(a, b, k, genes, m), nodes)
    ensures forall v :: multiset(Bred(a, b, k, genes, m))[v] <= Capacity(|a|, k)
  {
    PoolSpec(a, b);
    PooledIds(a, b, genes);
    var cap := Capacity(|a|, k);
    forall g | 0 <= g < |genes| ensures 1 <= genes[g].1 <= nodes {
      assert genes[g] in Pool(a, b);
    }
    ChildInNodes(genes, |a|, k, cap, nodes);
    ChildSpec(genes, |a|, k, cap);
    var child := Child(genes, |a|, k, cap);
    MutatedPermutation(child, a, b, m.draw, m.swaps);
    PermutationInNodes(child, Bred(a, b, k, genes, m), nodes);
  }

  /** Both offspring of a pair are complete placements on the parents' nodes that respect
      the crossover's node capacity. */
  lemma BredPairPlacement(a: seq<int>, b: seq<int>, k: int, d: PairDraws, nodes: int)
    requires |a| == |b| && 1 <= k <= nodes && DrawsFor(d, |a|)
    requires InNodes(a, nodes) && InNodes(b, nodes)
    ensures |FirstBred(a, b, k, d)| == |a| && InNodes(FirstBred(a, b, k, d), nodes)
    ensures |SecondBred(a, b, k, d)| == |a| && InNodes(SecondBred(a, b, k, d), nodes)
    ensures forall v :: multiset(FirstBred(a, b, k, d))[v] <= Capacity(|a|, k)
    ensures forall v :: multiset(SecondBred(a, b, k, d))[v] <= Capacity(|a|, k)
  {
    PoolSpec(a, b);
    ShuffledGenes(Pool(a, b), d.order1);
    ShuffledGenes(Pool(a, b), d.order2);
    BredPlacement(a, b, k, OrderBy(Pool(a, b), d.order1), d.mutation1, nodes);
    BredPlacement(a, b, k, Reversed(OrderBy(Pool(a, b), d.order2)), d.mutation2, nodes);
  }
}
