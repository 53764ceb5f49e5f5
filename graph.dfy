/** The weighted graph of a schema: a vertex per element that shares a chain with another
    element, grouped by the element's node, and an edge per pair of such elements weighted
    by the number of chains they share. */
module Graphs {
  import opened Wrappers
  import opened Seqs
  import opened Elements
  import opened LabeledMatrices
  import opened CrossCounts
  import opened Chains
  import opened Schemas

  datatype VertexError = EmptyLabel

  /** A vertex of the graph: a name and the group (node) it is drawn in. */
  class Vertex {
    const Label: string
    var GroupId: int

    constructor (name: string)
      requires name != []
      ensures Label == name && GroupId == 1
    {
      Label := name;
      GroupId := 1;
    }
  }

  /** `new Vertex(name)`: an empty name is refused. */
  method NewVertex(name: string) returns (r: Result<Vertex, VertexError>)
    ensures r.Ok? <==> name != []
    ensures r.Err? ==> r.error == EmptyLabel
    ensures r.Ok? ==> fresh(r.value) && r.value.Label == name && r.value.GroupId == 1
  {
    if name == [] {
      return Err(EmptyLabel);
    }
    var v := new Vertex(name);
    return Ok(v);
  }

  datatype EdgeError = Loop | NonPositiveCount

  /** An edge between two vertices carrying the count of chains they share. Over a class
      type, `==` on the endpoints is reference equality, as the source's `!=` is. */
  datatype Edge<V> = Edge(First: V, Second: V, CommonChainsCount: int)

  /** `new Edge(first, second, count)`: loops are refused first, then a count that is not
      positive. */
  function NewEdge<V(==)>(first: V, second: V, count: int): (r: Result<Edge<V>, EdgeError>)
    ensures r.Ok? <==> first != second && count > 0
    ensures r.Ok? ==> r.value.First == first && r.value.Second == second && r.value.CommonChainsCount == count
    ensures first == second ==> r == Err(Loop)
    ensures first != second && count <= 0 ==> r == Err(NonPositiveCount)
  {
    if first == second then Err(Loop)
    else if count <= 0 then Err(NonPositiveCount)
    else Ok(Edge(first, second, count))
  }

  /** A pair of element positions, row above column, with a positive connection count. */
  datatype Link = Link(Row: nat, Column: nat, Weight: int)

  /** Row-major order of the lower triangle. */
  predicate Before(a: Link, b: Link) {
    a.Row < b.Row || (a.Row == b.Row && a.Column < b.Column)
  }

  /** The links of the pairs met before pair (i, j) when the lower triangle is walked row
      by row, each row from column 0: the order in which the graph's constructor meets
      them. */
  function LinksBefore(w: seq<seq<int>>, i: nat, j: nat): seq<Link>
    requires IsTable(w, |w|) && i <= |w| && j <= i && (i == |w| ==> j == 0)
    decreases i, j
  {
    if j > 0 then LinksBefore(w, i, j - 1) + (if w[i][j - 1] > 0 then [Link(i, j - 1, w[i][j - 1])] else [])
    else if i == 0 then []
    else LinksBefore(w, i - 1, i - 1)
  }

  /** Every link lies below the diagonal and before pair (i, j) in row-major order. */
  predicate Below(r: seq<Link>, i: nat, j: nat) {
    forall k :: 0 <= k < |r| ==> r[k].Column < r[k].Row && (r[k].Row < i || (r[k].Row == i && r[k].Column < j))
  }

  /** The links met before pair (i, j) lie below the diagonal and before (i, j). */
  lemma {:induction false} LinksBeforeBounds(w: seq<seq<int>>, i: nat, j: nat)
    requires IsTable(w, |w|) && i <= |w| && j <= i && (i == |w| ==> j == 0)
    ensures Below(LinksBefore(w, i, j), i, j)
    decreases i, j
  {
    if j > 0 {
      LinksBeforeBounds(w, i, j - 1);
      var pre := LinksBefore(w, i, j - 1);
      var r := pre + (if w[i][j - 1] > 0 then [Link(i, j - 1, w[i][j - 1])] else []);
      assert LinksBefore(w, i, j) == r;
      forall k | 0 <= k < |r|
        ensures r[k].Column < r[k].Row && (r[k].Row < i || (r[k].Row == i && r[k].Column < j))
      {
        if k < |pre| {
          assert r[k] == pre[k];
        } else {
          assert r[k] == Link(i, j - 1, w[i][j - 1]);
        }
      }
    } else if i > 0 {
      LinksBeforeBounds(w, i - 1, i - 1);
      LinksBeforeRow(w, i);
    }
  }

  lemma LinksBeforeNext(w: seq<seq<int>>, i: nat, j: nat)
    requires IsTable(w, |w|) && j < i < |w|
    ensures LinksBefore(w, i, j + 1) == LinksBefore(w, i, j) + (if w[i][j] > 0 then [Link(i, j, w[i][j])] else [])
  {
  }

  /** Row i starts where row i - 1 ends. */
  lemma LinksBeforeRow(w: seq<seq<int>>, i: nat)
    requires IsTable(w, |w|) && 0 < i <= |w|
    ensures LinksBefore(w, i, 0) == LinksBefore(w, i - 1, i - 1)
  {
  }

  /** All links of the table. */
  function Links(w: seq<seq<int>>): seq<Link>
    requires IsTable(w, |w|)
  {
    LinksBefore(w, |w|, 0)
  }

  /** The endpoint labels of the links, first then second, link by link. */
  function Endpoints(links: seq<Link>, names: seq<string>): (r: seq<string>)
    requires forall k :: 0 <= k < |links| ==> links[k].Row < |names| && links[k].Column < |names|
    ensures |r| == 2 * |links|
  {
    if links == [] then []
    else
      var last := links[|links| - 1];
      Endpoints(links[..|links| - 1], names) + [names[last.Row], names[last.Column]]
  }

  function LabelOf(v: Vertex): string {
    v.Label
  }

  function Labels(vs: seq<Vertex>): (ls: seq<string>)
    ensures |ls| == |vs|
    ensures forall k :: 0 <= k < |vs| ==> ls[k] == vs[k].Label
  {
    KeysOf(vs, LabelOf)
  }

  /** The dictionary of the constructor: every vertex is filed under its name, and every
      name filed belongs to a vertex. */
  predicate Filed(byName: map<string, Vertex>, vertices: seq<Vertex>) {
    (forall k :: 0 <= k < |vertices| ==> vertices[k].Label in byName && byName[vertices[k].Label] == vertices[k]) &&
    (forall l :: l in byName ==> l in Labels(vertices))
  }

  /** Every vertex stands for an element of the schema and sits in that element's node. */
  ghost predicate Grouped(vertices: seq<Vertex>, elements: seq<Element>)
    reads set k | 0 <= k < |vertices| :: vertices[k]
    reads set i | 0 <= i < |elements| :: elements[i]
  {
    (forall k :: 0 <= k < |vertices| ==> vertices[k].Label in Names(elements)) &&
    forall k, i :: 0 <= k < |vertices| && 0 <= i < |elements| && vertices[k].Label == elements[i].Name ==>
      vertices[k].GroupId == elements[i].NodeId
  }

  /** Edge k joins the vertices of the elements of link k and carries its weight. */
  predicate EdgesOf(edges: seq<Edge<Vertex>>, vertices: seq<Vertex>, links: seq<Link>, names: seq<string>) {
    |edges| == |links| &&
    (forall k :: 0 <= k < |links| ==> links[k].Row < |names| && links[k].Column < |names|) &&
    forall k :: 0 <= k < |edges| ==>
      edges[k].First in vertices && edges[k].Second in vertices &&
      edges[k].First.Label == names[links[k].Row] && edges[k].Second.Label == names[links[k].Column] &&
      edges[k].CommonChainsCount == links[k].Weight
  }

  /** The local AddVertex of the constructor: a vertex for the element unless its name is
      already filed, placed in the element's node. */
  method AddVertex(byName: map<string, Vertex>, vertices: seq<Vertex>, elements: seq<Element>, i: nat)
    returns (byName': map<string, Vertex>, vertices': seq<Vertex>)
    requires i < |elements| && elements[i].Name != [] && NoDuplicates(Names(elements))
    requires Filed(byName, vertices) && Grouped(vertices, elements)
    ensures Filed(byName', vertices') && Grouped(vertices', elements)
    ensures Labels(vertices') == Labels(vertices) + (if elements[i].Name in Labels(vertices) then [] else [elements[i].Name])
    ensures |vertices| <= |vertices'| && vertices'[..|vertices|] == vertices
    ensures forall k :: |vertices| <= k < |vertices'| ==> fresh(vertices'[k])
    ensures elements[i].Name in byName'
  {
    var e := elements[i];
    if e.Name in byName {
      return byName, vertices;
    }
    var v := VertexOf(e);
    byName' := byName[e.Name := v];
    vertices' := vertices + [v];
    FiledAppend(byName, vertices, v);
    GroupedAppend(vertices, elements, i, v);
  }

  /** `new Vertex(element.Name) { GroupId = element.NodeId }`. */
  method VertexOf(e: Element) returns (v: Vertex)
    requires e.Name != []
    ensures fresh(v) && v.Label == e.Name && v.GroupId == e.NodeId
  {
    v := new Vertex(e.Name);
    v.GroupId := e.NodeId;
  }

  lemma GroupedAppend(vertices: seq<Vertex>, elements: seq<Element>, i: nat, v: Vertex)
    requires i < |elements| && NoDuplicates(Names(elements)) && Grouped(vertices, elements)
    requires v.Label == elements[i].Name && v.GroupId == elements[i].NodeId
    ensures Grouped(vertices + [v], elements)
  {
    assert Names(elements)[i] == v.Label;
    var vs := vertices + [v];
    forall k | 0 <= k < |vs|
      ensures vs[k].Label in Names(elements)
    {
      if k < |vertices| {
        assert vs[k] == vertices[k];
      }
    }
    forall k, i' | 0 <= k < |vs| && 0 <= i' < |elements| && vs[k].Label == elements[i'].Name
      ensures vs[k].GroupId == elements[i'].NodeId
    {
      if k < |vertices| {
        assert vs[k] == vertices[k];
      } else {
        assert Names(elements)[i'] == Names(elements)[i];
      }
    }
  }

  lemma FiledAppend(byName: map<string, Vertex>, vertices: seq<Vertex>, v: Vertex)
    requires Filed(byName, vertices) && v.Label !in byName
    ensures Filed(byName[v.Label := v], vertices + [v])
    ensures Labels(vertices + [v]) == Labels(vertices) + [v.Label]
    ensures v.Label !in Labels(vertices)
  {
    KeysOfAppend(vertices, v, LabelOf);
    var m := byName[v.Label := v];
    var vs := vertices + [v];
    forall k | 0 <= k < |vs|
      ensures vs[k].Label in m && m[vs[k].Label] == vs[k]
    {
      if k < |vertices| {
        assert vs[k] == vertices[k];
      }
    }
    forall l | l in m
      ensures l in Labels(vs)
    {
      if l != v.Label {
        assert l in Labels(vertices);
      }
    }
  }

  /** The graph built from `elements` and the links of their connection table: edge k for
      link k, the vertices those edges meet in order of first appearance, and each vertex
      in the node of its element. */
  ghost predicate GraphOf(vertices: seq<Vertex>, edges: seq<Edge<Vertex>>, elements: seq<Element>, links: seq<Link>)
    reads set k | 0 <= k < |vertices| :: vertices[k]
    reads set i | 0 <= i < |elements| :: elements[i]
  {
    EdgesOf(edges, vertices, links, Names(elements)) &&
    Labels(vertices) == Distinct(Endpoints(links, Names(elements))) &&
    Grouped(vertices, elements)
  }

  lemma FiledLookup(byName: map<string, Vertex>, vertices: seq<Vertex>, l: string)
    requires Filed(byName, vertices) && l in byName
    ensures byName[l] in vertices && byName[l].Label == l
  {
    var k :| 0 <= k < |vertices| && Labels(vertices)[k] == l;
    assert vertices[k].Label == l;
  }

  lemma EndpointsAppend(links: seq<Link>, link: Link, names: seq<string>)
    requires forall k :: 0 <= k < |links| ==> links[k].Row < |names| && links[k].Column < |names|
    requires link.Row < |names| && link.Column < |names|
    ensures Endpoints(links + [link], names) == Endpoints(links, names) + [names[link.Row], names[link.Column]]
  {
    assert (links + [link])[..|links|] == links;
  }

  /** Adding the two endpoint labels of a new link, one after the other, keeps the vertex
      labels the distinct endpoints. */
  lemma LabelsStep(before: seq<string>, mid: seq<string>, after: seq<string>, ends: seq<string>, a: string, b: string)
    requires before == Distinct(ends)
    requires mid == before + (if a in before then [] else [a])
    requires after == mid + (if b in mid then [] else [b])
    ensures after == Distinct(ends + [a, b])
  {
    var ends' := ends + [a];
    DistinctMember(ends, a);
    DistinctAppend(ends, a);
    assert mid == Distinct(ends');
    DistinctMember(ends', b);
    DistinctAppend(ends', b);
    assert ends' + [b] == ends + [a, b];
  }

  lemma EdgesStep(edges: seq<Edge<Vertex>>, vertices: seq<Vertex>, vertices': seq<Vertex>, links: seq<Link>,
                  names: seq<string>, edge: Edge<Vertex>, link: Link)
    requires EdgesOf(edges, vertices, links, names)
    requires |vertices| <= |vertices'| && vertices'[..|vertices|] == vertices
    requires link.Row < |names| && link.Column < |names|
    requires edge.First in vertices' && edge.Second in vertices'
    requires edge.First.Label == names[link.Row] && edge.Second.Label == names[link.Column]
    requires edge.CommonChainsCount == link.Weight
    ensures EdgesOf(edges + [edge], vertices', links + [link], names)
  {
    var es, ls := edges + [edge], links + [link];
    forall k | 0 <= k < |es|
      ensures es[k].First in vertices' && es[k].Second in vertices'
    {
      if k < |edges| {
        assert es[k] == edges[k];
        assert edges[k].First in vertices'[..|vertices|];
        assert edges[k].Second in vertices'[..|vertices|];
      }
    }
    forall k | 0 <= k < |ls|
      ensures ls[k].Row < |names| && ls[k].Column < |names|
    {
      if k < |links| {
        assert ls[k] == links[k];
      }
    }
    forall k | 0 <= k < |es|
      ensures es[k].First.Label == names[ls[k].Row] && es[k].Second.Label == names[ls[k].Column] &&
        es[k].CommonChainsCount == ls[k].Weight
    {
      if k < |edges| {
        assert es[k] == edges[k] && ls[k] == links[k];
      }
    }
  }

  /** One pair (i, j) of the constructor's loops, with connection count `count`: when
      the count is positive, file both elements' vertices and add the edge between them. */
  method AddPair(byName: map<string, Vertex>, vertices: seq<Vertex>, edges: seq<Edge<Vertex>>,
                 elements: seq<Element>, ghost links: seq<Link>, i: nat, j: nat, count: int)
    returns (byName': map<string, Vertex>, vertices': seq<Vertex>, edges': seq<Edge<Vertex>>)
    requires j < i < |elements| && NoDuplicates(Names(elements))
    requires forall k :: 0 <= k < |elements| ==> elements[k].Name != []
    requires Filed(byName, vertices) && GraphOf(vertices, edges, elements, links)
    ensures Filed(byName', vertices')
    ensures GraphOf(vertices', edges', elements, links + (if count > 0 then [Link(i, j, count)] else []))
  {
    if count <= 0 {
      assert links + [] == links;
      return byName, vertices, edges;
    }
    var names := Names(elements);
    ghost var labels := Labels(vertices);
    assert EdgesOf(edges, vertices, links, names) && labels == Distinct(Endpoints(links, names));
    var mid;
    byName', mid := AddVertex(byName, vertices, elements, i);
    byName', vertices' := AddVertex(byName', mid, elements, j);
    FiledLookup(byName', vertices', names[i]);
    FiledLookup(byName', vertices', names[j]);
    var edge := NewEdge(byName'[names[i]], byName'[names[j]], count);
    edges' := edges + [edge.value];
    GraphStep(vertices, mid, vertices', edges, edge.value, elements, links, Link(i, j, count));
  }

  /** The graph grows by one link: its edge, and the labels of its two endpoints added in
      turn. */
  lemma GraphStep(vertices: seq<Vertex>, mid: seq<Vertex>, vertices': seq<Vertex>, edges: seq<Edge<Vertex>>,
                  edge: Edge<Vertex>, elements: seq<Element>, links: seq<Link>, link: Link)
    requires EdgesOf(edges, vertices, links, Names(elements))
    requires Labels(vertices) == Distinct(Endpoints(links, Names(elements)))
    requires Grouped(vertices', elements)
    requires link.Row < |elements| && link.Column < |elements|
    requires |vertices| <= |mid| && mid[..|vertices|] == vertices
    requires |mid| <= |vertices'| && vertices'[..|mid|] == mid
    requires Labels(mid) == Labels(vertices) +
      (if elements[link.Row].Name in Labels(vertices) then [] else [elements[link.Row].Name])
    requires Labels(vertices') == Labels(mid) +
      (if elements[link.Column].Name in Labels(mid) then [] else [elements[link.Column].Name])
    requires edge.First in vertices' && edge.Second in vertices'
    requires edge.First.Label == elements[link.Row].Name && edge.Second.Label == elements[link.Column].Name
    requires edge.CommonChainsCount == link.Weight
    ensures GraphOf(vertices', edges + [edge], elements, links + [link])
  {
    var names := Names(elements);
    assert vertices'[..|vertices|] == vertices by {
      assert vertices'[..|mid|][..|vertices|] == vertices'[..|vertices|];
    }
    EdgesStep(edges, vertices, vertices', links, names, edge, link);
    EndpointsAppend(links, link, names);
    LabelsStep(Labels(vertices), Labels(mid), Labels(vertices'), Endpoints(links, names), names[link.Row], names[link.Column]);
  }

  /** The constructor's loops: every pair (i, j) with j < i in row order, over the
      entries of the matrix of connections. */
  method BuildGraph(elements: seq<Element>, entries: map<(string, string), int>)
    returns (vertices: seq<Vertex>, edges: seq<Edge<Vertex>>)
    requires NoDuplicates(Names(elements))
    requires forall k :: 0 <= k < |elements| ==> elements[k].Name != []
    requires forall a, b :: 0 <= a < |elements| && 0 <= b < |elements| ==> (Names(elements)[a], Names(elements)[b]) in entries
    ensures GraphOf(vertices, edges, elements, Links(Weights(entries, Names(elements))))
  {
    var names := Names(elements);
    ghost var w := Weights(entries, names);
    ghost var links: seq<Link> := [];
    var byName: map<string, Vertex> := map[];
    vertices, edges := [], [];
    assert Labels([]) == Distinct(Endpoints([], names)) == [];
    for i := 0 to |elements|
      invariant links == LinksBefore(w, i, 0)
      invariant Filed(byName, vertices) && GraphOf(vertices, edges, elements, links)
    {
      byName, vertices, edges, links := BuildRow(byName, vertices, edges, elements, names, entries, w, links, i);
    }
    assert links == Links(w);
  }

  /** The inner loop of the constructor: the pairs (i, j) of row i, j < i. */
  method BuildRow(byName: map<string, Vertex>, vertices: seq<Vertex>, edges: seq<Edge<Vertex>>,
                  elements: seq<Element>, names: seq<string>, entries: map<(string, string), int>,
                  ghost w: seq<seq<int>>, ghost links: seq<Link>, i: nat)
    returns (byName': map<string, Vertex>, vertices': seq<Vertex>, edges': seq<Edge<Vertex>>, ghost links': seq<Link>)
    requires i < |elements| && names == Names(elements) && NoDuplicates(names)
    requires forall k :: 0 <= k < |elements| ==> elements[k].Name != []
    requires forall a, b :: 0 <= a < |names| && 0 <= b < |names| ==> (names[a], names[b]) in entries
    requires w == Weights(entries, names)
    requires links == LinksBefore(w, i, 0)
    requires Filed(byName, vertices) && GraphOf(vertices, edges, elements, links)
    ensures links' == LinksBefore(w, i + 1, 0)
    ensures Filed(byName', vertices') && GraphOf(vertices', edges', elements, links')
  {
    byName', vertices', edges', links' := byName, vertices, edges, links;
    for j := 0 to i
      invariant links' == LinksBefore(w, i, j)
      invariant Filed(byName', vertices') && GraphOf(vertices', edges', elements, links')
    {
      var count := entries[(names[i], names[j])];
      LinksBeforeNext(w, i, j);
      byName', vertices', edges' := AddPair(byName', vertices', edges', elements, links', i, j, count);
      links' := links' + (if count > 0 then [Link(i, j, count)] else []);
    }
  }

  /** The graph of a schema: its vertices and its weighted edges. Once built it is only
      read, so it is a value holding the vertex objects. */
  datatype WeightedSchemaGraph = WeightedSchemaGraph(Vertices: seq<Vertex>, Edges: seq<Edge<Vertex>>)

  /** The parameterless constructor: a graph with no vertex and no edge. */
  function EmptyGraph(): (g: WeightedSchemaGraph)
    ensures |g.Vertices| == 0 && |g.Edges| == 0
  {
    WeightedSchemaGraph([], [])
  }

  /** The graph of `s`: an edge for every pair of elements j < i of the matrix of
      connections with a positive count, in row order, between vertices made once per
      element name and placed in the element's node. Reading the matrix fills the
      schema's cache when it is empty and leaves a filled cache as it is. */
  method SchemaGraph(s: Schema) returns (g: WeightedSchemaGraph)
    requires s.Valid()
    requires forall k :: 0 <= k < |s.Elements| ==> s.Elements[k].Name != []
    modifies s
    ensures s.Valid() && s.connections != null && s.complexes == old(s.complexes)
    ensures old(s.connections) != null ==> s.connections == old(s.connections)
    ensures old(s.connections) == null ==>
      Weights(s.connections.entries, Names(s.Elements)) == ConnectionTable(s.Chains, Names(s.Elements))
    ensures GraphOf(g.Vertices, g.Edges, s.Elements, Links(Weights(s.connections.entries, Names(s.Elements))))
  {
    ghost var empty := s.connections == null;
    var m := s.MatrixOfConnections();
    if empty {
      WeightsAreConnections(m.entries, s.Chains, Names(s.Elements));
    }
    var vertices, edges := BuildFromMatrix(s.Elements, m);
    g := WeightedSchemaGraph(vertices, edges);
  }

  /** Builds the graph of the connection matrix `m` of `elements`. */
  method BuildFromMatrix(elements: seq<Element>, m: LabeledMatrix<string, string>)
    returns (vertices: seq<Vertex>, edges: seq<Edge<Vertex>>)
    requires m.Valid() && m.RowLabels == Names(elements) && m.ColumnLabels == Names(elements)
    requires forall k :: 0 <= k < |elements| ==> elements[k].Name != []
    ensures GraphOf(vertices, edges, elements, Links(Weights(m.entries, Names(elements))))
  {
    MatrixCovers(m, Names(elements));
    vertices, edges := BuildGraph(elements, m.entries);
  }

  /** A valid matrix labelled by `names` on both axes has distinct labels and an entry for
      every pair of them. */
  lemma MatrixCovers(m: LabeledMatrix<string, string>, names: seq<string>)
    requires m.Valid() && m.RowLabels == names && m.ColumnLabels == names
    ensures NoDuplicates(names)
    ensures forall a, b :: 0 <= a < |names| && 0 <= b < |names| ==> (names[a], names[b]) in m.entries
  {
  }

  /** The weight of the links whose two elements sit in different nodes of placement g (a
      link outside g counts nothing; none of the table's links is). */
  function CutWeight(links: seq<Link>, g: seq<int>): int {
    if links == [] then 0
    else CutWeight(links[..|links| - 1], g) + Crossing(links[|links| - 1], g)
  }

  function Crossing(link: Link, g: seq<int>): int {
    if link.Row < |g| && link.Column < |g| && g[link.Row] != g[link.Column] then link.Weight else 0
  }

  lemma CutWeightAppend(links: seq<Link>, link: Link, g: seq<int>)
    ensures CutWeight(links + [link], g) == CutWeight(links, g) + Crossing(link, g)
  {
    assert (links + [link])[..|links|] == links;
  }

  /** The part of the inter-node connection count collected before pair (i, j): the rows
      above row i and the first j pairs of row i. */
  function CountBefore(g: seq<int>, w: seq<seq<int>>, i: nat, j: nat): int
    requires IsTable(w, |g|) && j <= i <= |g|
  {
    PrefixCount(g, w, i) + (if i < |g| then RowCount(g, w, i, j) else 0)
  }

  /** One pair further along a row. */
  lemma CutWeightStep(w: seq<seq<int>>, g: seq<int>, i: nat, j: nat)
    requires IsTable(w, |g|) && j < i < |g| && w[i][j] >= 0
    requires CutWeight(LinksBefore(w, i, j), g) == CountBefore(g, w, i, j)
    ensures CutWeight(LinksBefore(w, i, j + 1), g) == CountBefore(g, w, i, j + 1)
  {
    LinksBeforeNext(w, i, j);
    if w[i][j] > 0 {
      CutWeightAppend(LinksBefore(w, i, j), Link(i, j, w[i][j]), g);
    } else {
      assert LinksBefore(w, i, j) + [] == LinksBefore(w, i, j);
    }
  }

  /** From the end of row i - 1 to the start of row i. */
  lemma CutWeightRow(w: seq<seq<int>>, g: seq<int>, i: nat)
    requires IsTable(w, |g|) && 0 < i <= |g|
    requires CutWeight(LinksBefore(w, i - 1, i - 1), g) == CountBefore(g, w, i - 1, i - 1)
    ensures CutWeight(LinksBefore(w, i, 0), g) == CountBefore(g, w, i, 0)
  {
    LinksBeforeRow(w, i);
  }

  /** The links met before pair (i, j) weigh, across the nodes of g, what the rows above
      row i and the first j pairs of row i add to the inter-node connection count. */
  lemma {:induction false} WalkCut(w: seq<seq<int>>, g: seq<int>, i: nat, j: nat)
    requires IsTable(w, |g|) && NonNegative(w) && j <= i <= |g| && (i == |g| ==> j == 0)
    ensures CutWeight(LinksBefore(w, i, j), g) == CountBefore(g, w, i, j)
    decreases i, j
  {
    if j > 0 {
      WalkCut(w, g, i, j - 1);
      assert w[i][j - 1] >= 0;
      CutWeightStep(w, g, i, j - 1);
    } else if i > 0 {
      WalkCut(w, g, i - 1, i - 1);
      CutWeightRow(w, g, i);
    }
  }

  /** Summing the weights of the links across nodes gives the inter-node connection count:
      the graph carries exactly the connections the layout's fitness counts. */
  lemma CutWeightIsCrossCount(w: seq<seq<int>>, g: seq<int>)
    requires IsTable(w, |g|) && NonNegative(w)
    ensures CutWeight(Links(w), g) == CrossCount(g, w)
  {
    WalkCut(w, g, |g|, 0);
  }

  /** What the walk up to pair (i, j) has collected: the links carry their pair's count,
      come in row-major order, and a pair met so far has a link exactly when it is
      connected. */
  predicate WalkSpec(w: seq<seq<int>>, i: nat, j: nat)
    requires IsTable(w, |w|) && i <= |w| && j <= i && (i == |w| ==> j == 0)
  {
    var r := LinksBefore(w, i, j);
    WeightsOf(w, r) && Ordered(r) && Complete(w, i, j, r)
  }

  predicate WeightsOf(w: seq<seq<int>>, r: seq<Link>) {
    forall k :: 0 <= k < |r| ==> r[k].Row < |w| && r[k].Column < |w[r[k].Row]| && r[k].Weight == w[r[k].Row][r[k].Column] > 0
  }

  predicate Ordered(r: seq<Link>) {
    forall k, k' :: 0 <= k < k' < |r| ==> Before(r[k], r[k'])
  }

  predicate Complete(w: seq<seq<int>>, i: nat, j: nat, r: seq<Link>)
    requires IsTable(w, |w|)
  {
    forall a, b :: 0 <= b < a < |w| && (a < i || (a == i && b < j)) ==> (w[a][b] > 0 <==> Link(a, b, w[a][b]) in r)
  }

  lemma {:induction false} RowWalk(w: seq<seq<int>>, i: nat, j: nat)
    requires IsTable(w, |w|) && j <= i < |w|
    ensures WalkSpec(w, i, j)
    decreases i, j, 1
  {
    if j > 0 {
      RowWalk(w, i, j - 1);
      LinksBeforeBounds(w, i, j - 1);
      var r := LinksBefore(w, i, j - 1);
      LinksBeforeNext(w, i, j - 1);
      var extra := if w[i][j - 1] > 0 then [Link(i, j - 1, w[i][j - 1])] else [];
      assert LinksBefore(w, i, j) == r + extra;
      WeightsStep(w, r, extra);
      OrderedStep(r, extra, i, j - 1);
      CompleteStep(w, i, j - 1, r, extra);
    } else {
      PrefixWalk(w, i);
    }
  }

  lemma WeightsStep(w: seq<seq<int>>, r: seq<Link>, extra: seq<Link>)
    requires WeightsOf(w, r) && WeightsOf(w, extra)
    ensures WeightsOf(w, r + extra)
  {
    forall k | 0 <= k < |r + extra|
      ensures (r + extra)[k].Row < |w| && (r + extra)[k].Column < |w[(r + extra)[k].Row]|
      ensures (r + extra)[k].Weight == w[(r + extra)[k].Row][(r + extra)[k].Column] > 0
    {
      if k < |r| {
        assert (r + extra)[k] == r[k];
      } else {
        assert (r + extra)[k] == extra[k - |r|];
      }
    }
  }

  lemma OrderedStep(r: seq<Link>, extra: seq<Link>, i: nat, j: nat)
    requires Ordered(r) && |extra| <= 1
    requires Below(r, i, j)
    requires forall k :: 0 <= k < |extra| ==> extra[k].Row == i && extra[k].Column == j
    ensures Ordered(r + extra)
  {
    var t := r + extra;
    forall k, k' | 0 <= k < k' < |t|
      ensures Before(t[k], t[k'])
    {
      assert t[k] == r[k];
      if k' < |r| {
        assert t[k'] == r[k'];
      } else {
        assert t[k'] == extra[0];
      }
    }
  }

  lemma CompleteStep(w: seq<seq<int>>, i: nat, j: nat, r: seq<Link>, extra: seq<Link>)
    requires IsTable(w, |w|) && j < i < |w|
    requires Complete(w, i, j, r)
    requires Below(r, i, j)
    requires extra == if w[i][j] > 0 then [Link(i, j, w[i][j])] else []
    ensures Complete(w, i, j + 1, r + extra)
  {
    var t := r + extra;
    forall a, b | 0 <= b < a < |w| && (a < i || (a == i && b < j + 1))
      ensures w[a][b] > 0 <==> Link(a, b, w[a][b]) in t
    {
      assert Link(a, b, w[a][b]) in t <==> Link(a, b, w[a][b]) in r || Link(a, b, w[a][b]) in extra;
      if a == i && b == j {
        assert forall k :: 0 <= k < |r| ==> r[k] != Link(a, b, w[a][b]);
      } else {
        assert forall k :: 0 <= k < |extra| ==> extra[k] != Link(a, b, w[a][b]);
      }
    }
  }

  lemma {:induction false} PrefixWalk(w: seq<seq<int>>, i: nat)
    requires IsTable(w, |w|) && i <= |w|
    ensures WalkSpec(w, i, 0)
    decreases i, 0, 0
  {
    if i > 0 {
      LinksBeforeRow(w, i);
      RowWalk(w, i - 1, i - 1);
    }
  }

  /** Every connected pair of the lower triangle has exactly one link, in row-major order,
      and no other pair has one. */
  lemma LinksSpec(w: seq<seq<int>>)
    requires IsTable(w, |w|)
    ensures forall a, b :: 0 <= b < a < |w| ==> (w[a][b] > 0 <==> Link(a, b, w[a][b]) in Links(w))
    ensures forall k :: 0 <= k < |Links(w)| ==>
      Links(w)[k].Column < Links(w)[k].Row < |w| && Links(w)[k].Weight == w[Links(w)[k].Row][Links(w)[k].Column] > 0
    ensures forall k, k' :: 0 <= k < k' < |Links(w)| ==> Before(Links(w)[k], Links(w)[k'])
    ensures NoDuplicates(Links(w))
  {
    PrefixWalk(w, |w|);
    LinksBeforeBounds(w, |w|, 0);
    var r := Links(w);
    assert r == LinksBefore(w, |w|, 0);
    forall k | 0 <= k < |r|
      ensures r[k].Column < r[k].Row < |w| && r[k].Weight == w[r[k].Row][r[k].Column] > 0
    {
      assert WeightsOf(w, r);
    }
  }

  /** The weight of the edges whose endpoints are in different groups. */
  function EdgeCut(edges: seq<Edge<Vertex>>): int
    reads set k | 0 <= k < |edges| :: edges[k].First
    reads set k | 0 <= k < |edges| :: edges[k].Second
  {
    if edges == [] then 0
    else
      var last := edges[|edges| - 1];
      EdgeCut(edges[..|edges| - 1]) + (if last.First.GroupId != last.Second.GroupId then last.CommonChainsCount else 0)
  }

  lemma {:induction false} EdgeCutIsCutWeight(vertices: seq<Vertex>, edges: seq<Edge<Vertex>>, elements: seq<Element>, links: seq<Link>)
    requires EdgesOf(edges, vertices, links, Names(elements)) && Grouped(vertices, elements)
    ensures EdgeCut(edges) == CutWeight(links, NodeIds(elements))
    decreases |edges|
  {
    if edges != [] {
      var n := |edges| - 1;
      assert EdgesOf(edges[..n], vertices, links[..n], Names(elements));
      EdgeCutIsCutWeight(vertices, edges[..n], elements, links[..n]);
      EdgeCrossing(vertices, edges[n], elements, links[n]);
    }
  }

  /** An edge crosses between groups exactly when its link crosses between the nodes of
      the elements, and then weighs the same. */
  lemma EdgeCrossing(vertices: seq<Vertex>, e: Edge<Vertex>, elements: seq<Element>, l: Link)
    requires Grouped(vertices, elements) && e.First in vertices && e.Second in vertices
    requires l.Row < |elements| && l.Column < |elements|
    requires e.First.Label == Names(elements)[l.Row] && e.Second.Label == Names(elements)[l.Column]
    requires e.CommonChainsCount == l.Weight
    ensures (if e.First.GroupId != e.Second.GroupId then e.CommonChainsCount else 0) == Crossing(l, NodeIds(elements))
  {
    var a :| 0 <= a < |vertices| && vertices[a] == e.First;
    var b :| 0 <= b < |vertices| && vertices[b] == e.Second;
    assert vertices[a].Label == elements[l.Row].Name;
    assert vertices[b].Label == elements[l.Column].Name;
  }

  /** In the graph of a schema whose matrix of connections was built afresh, the edges
      between different groups weigh exactly the schema's inter-node connection count. */
  lemma GraphCutIsInternodeCount(vertices: seq<Vertex>, edges: seq<Edge<Vertex>>, elements: seq<Element>, chains: seq<Chain>)
    requires GraphOf(vertices, edges, elements, Links(ConnectionTable(chains, Names(elements))))
    ensures EdgeCut(edges) == CrossCount(NodeIds(elements), ConnectionTable(chains, Names(elements)))
  {
    var w := ConnectionTable(chains, Names(elements));
    EdgeCutIsCutWeight(vertices, edges, elements, Links(w));
    CutWeightIsCrossCount(w, NodeIds(elements));
  }
}
