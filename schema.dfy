/** A connection schema: a list of chains over elements. The schema knows its distinct
    elements and builds, on first request, two labeled matrices that it then keeps: the
    element-by-chain incidence matrix ("matrix of complexes") and the element-by-element
    matrix counting the chains two elements share ("matrix of connections"). Both matrices
    are labeled by names, since elements and chains compare by name. */
module Schemas {
  import opened Wrappers
  import opened Seqs
  import opened Text
  import opened Elements
  import opened Chains
  import opened LabeledMatrices
  import opened CrossCounts

  datatype SchemaError = NoChains | DuplicateChains

  /** The elements of all chains, chain by chain (SelectMany). */
  function AllElements(chains: seq<Chain>): seq<Element> {
    if chains == [] then []
    else AllElements(chains[..|chains| - 1]) + chains[|chains| - 1].Elements
  }

  /** The schema's elements: every element of every chain, without repeating a name, in
      the order names first occur. */
  function DistinctElements(chains: seq<Chain>): seq<Element> {
    DistinctBy(AllElements(chains), NameOf)
  }

  /** The number of chains that contain both `a` and `b`, for two different names. */
  function CommonChains(chains: seq<Chain>, a: string, b: string): nat {
    if chains == [] then 0
    else
      var last := chains[|chains| - 1];
      CommonChains(chains[..|chains| - 1], a, b) + (if a != b && a in Members(last) && b in Members(last) then 1 else 0)
  }

  /** The connection counts of the schema's elements, by element position. */
  function ConnectionTable(chains: seq<Chain>, names: seq<string>): (w: seq<seq<int>>)
    ensures IsTable(w, |names|)
  {
    seq(|names|, i requires 0 <= i < |names| =>
      seq(|names|, j requires 0 <= j < |names| => CommonChains(chains, names[i], names[j]) as int))
  }

  /** Every chain of the schema is a chain the Chain constructor accepts. */
  predicate ValidChains(chains: seq<Chain>) {
    forall j :: 0 <= j < |chains| ==> ValidChain(chains[j])
  }

  /** The line of the text form describing one chain. */
  function ChainLine(c: Chain): string {
    "Цепь " + c.Name + ": " + Join(", ", Members(c))
  }

  /** The current node of every element, in order. */
  function NodeIds(es: seq<Element>): (ids: seq<int>)
    reads set i | 0 <= i < |es| :: es[i]
    ensures |ids| == |es|
    ensures forall i :: 0 <= i < |es| ==> ids[i] == es[i].NodeId
  {
    seq(|es|, i reads set i | 0 <= i < |es| :: es[i] requires 0 <= i < |es| => es[i].NodeId)
  }

  class Schema {
    const Chains: seq<Chain>
    const Elements: seq<Element>
    /** The cached matrices; null until first requested. */
    var complexes: LabeledMatrix?<string, string>
    var connections: LabeledMatrix?<string, string>

    ghost predicate Valid()
      reads this, complexes, connections
    {
      Chains != [] && NoDuplicates(ChainNames(Chains)) && ValidChains(Chains) &&
      Elements == DistinctElements(Chains) &&
      (complexes != null ==>
        complexes.Valid() && complexes.RowLabels == Names(Elements) && complexes.ColumnLabels == ChainNames(Chains)) &&
      (connections != null ==>
        connections.Valid() && connections.RowLabels == Names(Elements) && connections.ColumnLabels == Names(Elements))
    }

    constructor (chains: seq<Chain>)
      requires chains != [] && NoDuplicates(ChainNames(chains)) && ValidChains(chains)
      ensures Chains == chains && Elements == DistinctElements(chains)
      ensures complexes == null && connections == null
      ensures Valid()
    {
      Chains := chains;
      Elements := DistinctElements(chains);
      complexes := null;
      connections := null;
    }

    /** The element-by-chain incidence matrix. The first call builds it (every entry 0,
        then 1 for each element of each chain) and keeps it; later calls return the kept
        matrix, whatever has been written to it since. */
    method MatrixOfComplexes() returns (m: LabeledMatrix<string, string>)
      requires Valid()
      modifies this
      ensures Valid() && complexes == m && connections == old(connections)
      ensures old(complexes) != null ==> m == old(complexes) && m.entries == old(m.entries)
      ensures old(complexes) == null ==> fresh(m)
      ensures old(complexes) == null ==> forall k :: k in m.entries <==> k.0 in Names(Elements) && k.1 in ChainNames(Chains)
      ensures old(complexes) == null ==> forall i, j :: 0 <= i < |Elements| && 0 <= j < |Chains| ==>
        m.entries[(Elements[i].Name, Chains[j].Name)] == if Elements[i].Name in Members(Chains[j]) then 1 else 0
    {
      if complexes != null {
        return complexes;
      }
      m := ComplexesOf(Chains, Elements);
      complexes := m;
    }

    /** The element-by-element connection matrix. The first call builds it (every entry 0,
        then +1 at [x, y] for every ordered pair of different positions of every chain)
        and keeps it; later calls return the kept matrix. A freshly built entry [a, b] is
        the number of chains containing both a and b, 0 on the diagonal. */
    method MatrixOfConnections() returns (m: LabeledMatrix<string, string>)
      requires Valid()
      modifies this
      ensures Valid() && connections == m && complexes == old(complexes)
      ensures old(connections) != null ==> m == old(connections) && m.entries == old(m.entries)
      ensures old(connections) == null ==> fresh(m)
      ensures old(connections) == null ==> forall k :: k in m.entries <==> k.0 in Names(Elements) && k.1 in Names(Elements)
      ensures old(connections) == null ==> forall k :: k in m.entries ==> m.entries[k] == CommonChains(Chains, k.0, k.1)
    {
      if connections != null {
        return connections;
      }
      m := ConnectionsOf(Chains, Elements);
      connections := m;
    }

    /** The number of inter-node connections of the current placement: the connection
        counts of the pairs of elements sitting in different nodes, summed. */
    method InternodeConnectionsCount() returns (count: int)
      requires Valid()
      modifies this
      ensures Valid() && connections != null && complexes == old(complexes)
      ensures old(connections) != null ==> connections == old(connections)
      ensures old(connections) == null ==> Weights(connections.entries, Names(Elements)) == ConnectionTable(Chains, Names(Elements))
      ensures count == CrossCount(NodeIds(Elements), Weights(connections.entries, Names(Elements)))
    {
      ghost var empty := connections == null;
      var m := MatrixOfConnections();
      if empty {
        WeightsAreConnections(m.entries, Chains, Names(Elements));
      }
      count := SumCrossings(Elements, m);
    }

    /** The text form: one line "Цепь <name>: <e1>, <e2>, ..." per chain, in chain order,
        joined by line feeds. */
    function ToString(): string {
      Join("\n", seq(|Chains|, i requires 0 <= i < |Chains| => ChainLine(Chains[i])))
    }
  }

  /** The incidence entry [e, ch] once the first `c` chains, and the first `k` elements
      of chain `c`, have been entered. */
  function Incident(chains: seq<Chain>, c: nat, k: nat, e: string, ch: string): int
    requires c <= |chains|
  {
    if ch in ChainNames(chains) then
      var j := FirstIndex(ChainNames(chains), ch);
      if (j < c && e in Members(chains[j])) || (j == c && e in Members(chains[j])[..Min(k, |Members(chains[j])|)]) then 1 else 0
    else 0
  }

  function Min(a: int, b: int): int {
    if a <= b then a else b
  }

  lemma IncidentStep(chains: seq<Chain>, c: nat, k: nat)
    requires NoDuplicates(ChainNames(chains)) && c < |chains| && k < |chains[c].Elements|
    ensures Incident(chains, c, k + 1, chains[c].Elements[k].Name, chains[c].Name) == 1
    ensures forall e, ch :: !(e == chains[c].Elements[k].Name && ch == chains[c].Name) ==>
      Incident(chains, c, k + 1, e, ch) == Incident(chains, c, k, e, ch)
  {
    forall e, ch ensures
      Incident(chains, c, k + 1, e, ch) ==
        if e == chains[c].Elements[k].Name && ch == chains[c].Name then 1 else Incident(chains, c, k, e, ch)
    {
      IncidentStepAt(chains, c, k, e, ch);
    }
  }

  lemma IncidentStepAt(chains: seq<Chain>, c: nat, k: nat, e: string, ch: string)
    requires NoDuplicates(ChainNames(chains)) && c < |chains| && k < |chains[c].Elements|
    ensures Incident(chains, c, k + 1, e, ch) ==
      if e == chains[c].Elements[k].Name && ch == chains[c].Name then 1 else Incident(chains, c, k, e, ch)
  {
    var members := Members(chains[c]);
    assert members[..k + 1] == members[..k] + [members[k]];
    FirstIndexOfDistinct(ChainNames(chains), c);
    if ch in ChainNames(chains) && FirstIndex(ChainNames(chains), ch) == c {
      assert Min(k + 1, |members|) == k + 1 && Min(k, |members|) == k;
      assert members[k] == chains[c].Elements[k].Name;
      assert e in members[..k + 1] <==> e in members[..k] || e == members[k];
    }
  }

  lemma IncidentNext(chains: seq<Chain>, c: nat)
    requires c < |chains|
    ensures forall e, ch :: Incident(chains, c, |chains[c].Elements|, e, ch) == Incident(chains, c + 1, 0, e, ch)
  {
    assert Members(chains[c])[..|chains[c].Elements|] == Members(chains[c]);
  }

  /** The incidence matrix of `chains` over the names of their distinct elements. */
  method ComplexesOf(chains: seq<Chain>, elements: seq<Element>) returns (m: LabeledMatrix<string, string>)
    requires NoDuplicates(ChainNames(chains)) && elements == DistinctElements(chains)
    ensures fresh(m) && m.Valid() && m.RowLabels == Names(elements) && m.ColumnLabels == ChainNames(chains)
    ensures forall key :: key in m.entries <==> key.0 in Names(elements) && key.1 in ChainNames(chains)
    ensures forall i, j :: 0 <= i < |elements| && 0 <= j < |chains| ==>
      m.entries[(elements[i].Name, chains[j].Name)] == if elements[i].Name in Members(chains[j]) then 1 else 0
  {
    ElementsUnique(chains);
    MembersAreElements(chains);
    m := BuildComplexes(chains, Names(elements));
  }

  /** The connection matrix of `chains` over the names of their distinct elements. */
  method ConnectionsOf(chains: seq<Chain>, elements: seq<Element>) returns (m: LabeledMatrix<string, string>)
    requires ValidChains(chains) && elements == DistinctElements(chains)
    ensures fresh(m) && m.Valid() && m.RowLabels == Names(elements) && m.ColumnLabels == Names(elements)
    ensures forall key :: key in m.entries <==> key.0 in Names(elements) && key.1 in Names(elements)
    ensures forall key :: key in m.entries ==> m.entries[key] == CommonChains(chains, key.0, key.1)
  {
    ElementsUnique(chains);
    MembersAreElements(chains);
    m := BuildConnections(chains, Names(elements));
  }

  /** Builds the incidence matrix of `chains` over the element names `names`. */
  method BuildComplexes(chains: seq<Chain>, names: seq<string>) returns (m: LabeledMatrix<string, string>)
    requires NoDuplicates(names) && NoDuplicates(ChainNames(chains))
    requires forall c, k :: 0 <= c < |chains| && 0 <= k < |chains[c].Elements| ==> chains[c].Elements[k].Name in names
    ensures fresh(m) && m.Valid() && m.RowLabels == names && m.ColumnLabels == ChainNames(chains)
    ensures forall key :: key in m.entries <==> key.0 in names && key.1 in ChainNames(chains)
    ensures forall i, j :: 0 <= i < |names| && 0 <= j < |chains| ==>
      m.entries[(names[i], chains[j].Name)] == if names[i] in Members(chains[j]) then 1 else 0
  {
    var chainNames := ChainNames(chains);
    m := new LabeledMatrix(names, chainNames);
    for c := 0 to |chains|
      invariant fresh(m) && m.RowLabels == names && m.ColumnLabels == chainNames
      invariant forall key :: key in m.entries <==> key.0 in names && key.1 in chainNames
      invariant forall key :: key in m.entries ==> m.entries[key] == Incident(chains, c, 0, key.0, key.1)
    {
      for k := 0 to |chains[c].Elements|
        invariant fresh(m) && m.RowLabels == names && m.ColumnLabels == chainNames
        invariant forall key :: key in m.entries <==> key.0 in names && key.1 in chainNames
        invariant forall key :: key in m.entries ==> m.entries[key] == Incident(chains, c, k, key.0, key.1)
      {
        IncidentStep(chains, c, k);
        m.Set(chains[c].Elements[k].Name, chains[c].Name, 1);
      }
      IncidentNext(chains, c);
    }
    forall i, j | 0 <= i < |names| && 0 <= j < |chains|
      ensures m.entries[(names[i], chains[j].Name)] == if names[i] in Members(chains[j]) then 1 else 0
    {
      FirstIndexOfDistinct(chainNames, j);
    }
  }

  /** Builds the connection matrix of `chains` over the element names `names`. */
  method BuildConnections(chains: seq<Chain>, names: seq<string>) returns (m: LabeledMatrix<string, string>)
    requires NoDuplicates(names) && ValidChains(chains)
    requires forall c, k :: 0 <= c < |chains| && 0 <= k < |chains[c].Elements| ==> chains[c].Elements[k].Name in names
    ensures fresh(m) && m.Valid() && m.RowLabels == names && m.ColumnLabels == names
    ensures forall key :: key in m.entries <==> key.0 in names && key.1 in names
    ensures forall key :: key in m.entries ==> m.entries[key] == CommonChains(chains, key.0, key.1)
  {
    m := new LabeledMatrix(names, names);
    for c := 0 to |chains|
      invariant fresh(m) && m.RowLabels == names && m.ColumnLabels == names
      invariant forall key :: key in m.entries <==> key.0 in names && key.1 in names
      invariant forall key :: key in m.entries ==> m.entries[key] == CommonChains(chains[..c], key.0, key.1)
    {
      assert ValidChain(chains[c]);
      AddChainPairs(m, Members(chains[c]), names);
      PairsDoneChain(chains, c);
    }
    assert chains[..|chains|] == chains;
  }

  lemma WeightsAreConnections(entries: map<(string, string), int>, chains: seq<Chain>, names: seq<string>)
    requires forall key :: key in entries <==> key.0 in names && key.1 in names
    requires forall key :: key in entries ==> entries[key] == CommonChains(chains, key.0, key.1)
    ensures Weights(entries, names) == ConnectionTable(chains, names)
  {
    var w, t := Weights(entries, names), ConnectionTable(chains, names);
    forall i | 0 <= i < |names| ensures w[i] == t[i] {
      assert forall j :: 0 <= j < |names| ==> (names[i], names[j]) in entries;
    }
  }

  /** One chain's share of the connection matrix: +1 at [x, y] for every ordered pair of
      different positions x, y of the chain. */
  method AddChainPairs(m: LabeledMatrix<string, string>, members: seq<string>, names: seq<string>)
    requires NoDuplicates(members)
    requires forall k :: 0 <= k < |members| ==> members[k] in names
    requires forall key :: key in m.entries <==> key.0 in names && key.1 in names
    modifies m
    ensures forall key :: key in m.entries <==> key.0 in names && key.1 in names
    ensures forall key :: key in m.entries ==>
      m.entries[key] == old(m.entries[key]) + PairsDone(members, |members|, 0, key.0, key.1)
  {
    for i := 0 to |members|
      invariant forall key :: key in m.entries <==> key.0 in names && key.1 in names
      invariant forall key :: key in m.entries ==>
        m.entries[key] == old(m.entries[key]) + PairsDone(members, i, 0, key.0, key.1)
    {
      for j := 0 to |members|
        invariant forall key :: key in m.entries <==> key.0 in names && key.1 in names
        invariant forall key :: key in m.entries ==>
          m.entries[key] == old(m.entries[key]) + PairsDone(members, i, j, key.0, key.1)
      {
        if i != j {
          var v := m.Get(members[i], members[j]);
          m.Set(members[i], members[j], v.value + 1);
          PairsDoneStep(members, i, j);
        } else {
          PairsDoneSkip(members, i, j);
        }
      }
      PairsDoneRow(members, i);
    }
  }

  /** The inter-node connection sum over `elements` with connection counts from `m`. */
  method SumCrossings(elements: seq<Element>, m: LabeledMatrix<string, string>) returns (count: int)
    requires m.Valid() && m.RowLabels == Names(elements) && m.ColumnLabels == Names(elements)
    ensures count == CrossCount(NodeIds(elements), Weights(m.entries, Names(elements)))
  {
    var names := Names(elements);
    var g := NodeIds(elements);
    var w := Weights(m.entries, names);
    count := 0;
    for i := 0 to |elements|
      invariant count == PrefixCount(g, w, i)
    {
      for j := 0 to i
        invariant count == PrefixCount(g, w, i) + RowCount(g, w, i, j)
      {
        if elements[i].NodeId != elements[j].NodeId {
          var v := m.Get(names[i], names[j]);
          count := count + v.value;
        }
      }
    }
  }

  /** The pairs (x, y) of positions of `members`, x != y, visited before position (i, j)
      of the row-by-row double loop, that name (a, b): 1 if that pair was visited, else 0. */
  function PairsDone(members: seq<string>, i: nat, j: nat, a: string, b: string): nat {
    if a != b && a in members && b in members &&
      (FirstIndex(members, a) < i || (FirstIndex(members, a) == i && FirstIndex(members, b) < j))
    then 1 else 0
  }

  lemma PairsDoneStep(members: seq<string>, i: nat, j: nat)
    requires NoDuplicates(members) && i < |members| && j < |members| && i != j
    ensures forall a, b ::
      PairsDone(members, i, j + 1, a, b) == PairsDone(members, i, j, a, b) + (if a == members[i] && b == members[j] then 1 else 0)
  {
    forall a, b
      ensures PairsDone(members, i, j + 1, a, b) ==
        PairsDone(members, i, j, a, b) + (if a == members[i] && b == members[j] then 1 else 0)
    {
      if a in members && FirstIndex(members, a) == i {
        assert a == members[i];
      }
      if b in members && FirstIndex(members, b) == j {
        assert b == members[j];
      }
      if a == members[i] {
        FirstIndexOfDistinct(members, i);
      }
      if b == members[j] {
        FirstIndexOfDistinct(members, j);
      }
    }
  }

  lemma PairsDoneSkip(members: seq<string>, i: nat, j: nat)
    requires NoDuplicates(members) && i < |members| && j == i
    ensures forall a, b :: PairsDone(members, i, j + 1, a, b) == PairsDone(members, i, j, a, b)
  {
    forall a, b ensures PairsDone(members, i, j + 1, a, b) == PairsDone(members, i, j, a, b) {
      if a in members && b in members && FirstIndex(members, a) == i && FirstIndex(members, b) == j {
        assert a == members[i] && b == members[j];
      }
    }
  }

  lemma PairsDoneRow(members: seq<string>, i: nat)
    ensures forall a, b :: PairsDone(members, i, |members|, a, b) == PairsDone(members, i + 1, 0, a, b)
  {
  }

  lemma FirstIndexOfDistinct(s: seq<string>, i: nat)
    requires NoDuplicates(s) && i < |s|
    ensures s[i] in s && FirstIndex(s, s[i]) == i
  {
  }

  /** After the last row of a chain, the visited pairs are exactly the chain's pairs. */
  lemma PairsDoneChain(chains: seq<Chain>, c: nat)
    requires c < |chains|
    ensures forall a, b ::
      CommonChains(chains[..c + 1], a, b) == CommonChains(chains[..c], a, b) + PairsDone(Members(chains[c]), |Members(chains[c])|, 0, a, b)
  {
    assert chains[..c + 1][..c] == chains[..c];
  }

  lemma MembersAreElements(chains: seq<Chain>)
    ensures forall c, k :: 0 <= c < |chains| && 0 <= k < |chains[c].Elements| ==>
      chains[c].Elements[k].Name in Names(DistinctElements(chains))
  {
    forall c, k | 0 <= c < |chains| && 0 <= k < |chains[c].Elements|
      ensures chains[c].Elements[k].Name in Names(DistinctElements(chains))
    {
      MemberIsElement(chains, c, k);
    }
  }

  /** Every member of every chain is one of the schema's elements. */
  lemma MemberIsElement(chains: seq<Chain>, c: nat, k: nat)
    requires c < |chains| && k < |chains[c].Elements|
    ensures chains[c].Elements[k].Name in Names(DistinctElements(chains))
  {
    AllElementsNames(chains, chains[c].Elements[k].Name);
    DistinctByKeys(AllElements(chains), NameOf, chains[c].Elements[k].Name);
  }

  lemma ElementsUnique(chains: seq<Chain>)
    ensures NoDuplicates(Names(DistinctElements(chains)))
  {
    DistinctByUnique(AllElements(chains), NameOf);
  }

  /** A name belongs to the flattened element list exactly when some chain contains it. */
  lemma {:induction false} AllElementsNames(chains: seq<Chain>, name: string)
    ensures name in Names(AllElements(chains)) <==> exists j :: 0 <= j < |chains| && name in Members(chains[j])
    decreases |chains|
  {
    if chains != [] {
      var pre, last := chains[..|chains| - 1], chains[|chains| - 1];
      AllElementsNames(pre, name);
      var xs, ys := AllElements(pre), last.Elements;
      assert Names(xs + ys) == Names(xs) + Names(ys);
      if name in Names(AllElements(chains)) && name !in Names(xs) {
        assert name in Members(chains[|chains| - 1]);
      }
      if exists j :: 0 <= j < |chains| && name in Members(chains[j]) {
        var j :| 0 <= j < |chains| && name in Members(chains[j]);
        if j < |pre| {
          assert chains[j] == pre[j];
        }
      }
    }
  }

  /** The schema's elements are the duplicate-free flattening of the chains' elements: no
      name twice, exactly the names some chain contains, each element the first one of
      its name in chain order, and the names in the order they first occur. */
  lemma ElementsSpec(chains: seq<Chain>)
    ensures NoDuplicates(Names(DistinctElements(chains)))
    ensures forall name :: name in Names(DistinctElements(chains)) <==>
      exists j :: 0 <= j < |chains| && name in Members(chains[j])
    ensures forall p :: 0 <= p < |DistinctElements(chains)| ==>
      NameOf(DistinctElements(chains)[p]) in KeysOf(AllElements(chains), NameOf) &&
      DistinctElements(chains)[p] ==
        AllElements(chains)[FirstIndex(KeysOf(AllElements(chains), NameOf), NameOf(DistinctElements(chains)[p]))]
    ensures forall p, q :: 0 <= p < q < |DistinctElements(chains)| ==>
      NameOf(DistinctElements(chains)[p]) in KeysOf(AllElements(chains), NameOf) &&
      NameOf(DistinctElements(chains)[q]) in KeysOf(AllElements(chains), NameOf) &&
      FirstIndex(KeysOf(AllElements(chains), NameOf), NameOf(DistinctElements(chains)[p])) <
      FirstIndex(KeysOf(AllElements(chains), NameOf), NameOf(DistinctElements(chains)[q]))
  {
    ElementsUnique(chains);
    forall name {
      ElementName(chains, name);
    }
    DistinctByFirstOccurrence(AllElements(chains), NameOf);
    DistinctByOrder(AllElements(chains), NameOf);
  }

  /** A name is the name of one of the schema's elements exactly when some chain contains it. */
  lemma ElementName(chains: seq<Chain>, name: string)
    ensures name in Names(DistinctElements(chains)) <==> exists j :: 0 <= j < |chains| && name in Members(chains[j])
  {
    AllElementsNames(chains, name);
    DistinctByKeys(AllElements(chains), NameOf, name);
  }

  /** `new Schema(chains)`: an empty chain list is refused, then a list naming some chain
      twice (detected, as in the source, by counting the distinct chains). */
  method NewSchema(chains: seq<Chain>) returns (r: Result<Schema, SchemaError>)
    requires ValidChains(chains)
    ensures r.Ok? <==> chains != [] && NoDuplicates(ChainNames(chains))
    ensures chains == [] ==> r == Err(NoChains)
    ensures chains != [] && !NoDuplicates(ChainNames(chains)) ==> r == Err(DuplicateChains)
    ensures r.Ok? ==> fresh(r.value) && r.value.Valid() && r.value.Chains == chains
    ensures r.Ok? ==> r.value.complexes == null && r.value.connections == null
  {
    if chains == [] {
      return Err(NoChains);
    }
    DistinctByLength(chains, ChainName);
    if |DistinctBy(chains, ChainName)| != |chains| {
      return Err(DuplicateChains);
    }
    var s := new Schema(chains);
    return Ok(s);
  }

  /** A pair shares a chain with itself never, and in either order equally often. */
  lemma {:induction false} CommonChainsSymmetric(chains: seq<Chain>, a: string, b: string)
    ensures CommonChains(chains, a, b) == CommonChains(chains, b, a)
    ensures CommonChains(chains, a, a) == 0
    decreases |chains|
  {
    if chains != [] {
      CommonChainsSymmetric(chains[..|chains| - 1], a, b);
    }
  }

  /** The connection table is symmetric with a zero diagonal and no negative count, so the
      inter-node connection count of any placement is non-negative, and 0 when every
      element sits in one node. */
  lemma ConnectionTableSpec(chains: seq<Chain>, names: seq<string>, g: seq<int>)
    requires |g| == |names|
    ensures forall i, j :: 0 <= i < |names| && 0 <= j < |names| ==>
      ConnectionTable(chains, names)[i][j] == ConnectionTable(chains, names)[j][i]
    ensures forall i :: 0 <= i < |names| ==> ConnectionTable(chains, names)[i][i] == 0
    ensures CrossCount(g, ConnectionTable(chains, names)) >= 0
    ensures (forall i :: 0 <= i < |g| ==> g[i] == g[0]) ==> CrossCount(g, ConnectionTable(chains, names)) == 0
  {
    var w := ConnectionTable(chains, names);
    forall i, j | 0 <= i < |names| && 0 <= j < |names| ensures w[i][j] == w[j][i] && w[i][i] == 0 {
      CommonChainsSymmetric(chains, names[i], names[j]);
      CommonChainsSymmetric(chains, names[i], names[i]);
    }
    CrossCountNonNegative(g, w);
    if forall i :: 0 <= i < |g| ==> g[i] == g[0] {
      CrossCountSingleNode(g, w);
    }
  }

  /** The text form has one line per chain, in chain order, provided no name contains a
      line feed. */
  lemma ToStringLines(s: Schema)
    requires s.Chains != []
    requires forall c :: 0 <= c < |s.Chains| ==> '\n' !in s.Chains[c].Name
    requires forall c, k :: 0 <= c < |s.Chains| && 0 <= k < |Members(s.Chains[c])| ==> '\n' !in Members(s.Chains[c])[k]
    ensures |SplitOn(s.ToString(), '\n')| == |s.Chains|
    ensures forall c :: 0 <= c < |s.Chains| ==> SplitOn(s.ToString(), '\n')[c] == ChainLine(s.Chains[c])
  {
    var lines := seq(|s.Chains|, i requires 0 <= i < |s.Chains| => ChainLine(s.Chains[i]));
    forall c | 0 <= c < |lines| ensures '\n' !in lines[c] {
      var ms := Members(s.Chains[c]);
      JoinExcludes(", ", ms, '\n');
    }
    JoinSplitOn(lines, '\n');
  }
}
