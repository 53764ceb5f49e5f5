# KRONMAG/CAD circuit partitioning — a Dafny model of the domain layer

KRONMAG/CAD reads a connection schema (a netlist) and spreads its elements over a given
number of nodes so that as few connections as possible run between different nodes.
This project models, in Dafny, the domain layer that does this work:

- **the schema model.**
  - An `Element` is a named part placed in a node; its node id is mutable.
  - A `Chain` (net) is a named list of at least two distinct elements.
  - A `LabeledMatrix` is a dictionary addressed by row and column labels.
  - A `Schema` holds the chains, the distinct elements, and two cached matrices. The
    matrix of complexes records which element is in which chain. The matrix of
    connections counts the chains two elements share.
  - The schema also reports its inter-node connection count and its text form.
- **the netlist reader.** `SchemaParser` reads the Allegro and Calay dialects.
- **the weighted schema graph.** It has a vertex per connected element and an edge per
  connected pair, weighted by the number of chains the pair shares.
- **the genetic layout algorithm.**
  - The initial population is a balanced template shuffled at random.
  - The fitness of an individual is its inter-node connection count.
  - Three parent-pairing operators: panmixia, outbreeding and inbreeding.
  - Crossover fills a shuffled pool of both parents' genes into capacity-limited nodes.
  - Adaptive mutation swaps genes.
  - Two selection operators: elitism and tournament.
  - The run loop reports every generation, and may be ended by a cancellation request.
  - The run's arguments and its per-generation result are modelled as well.

Genomes are `array<int>`, so the fitness dictionary keyed by genome references and
LINQ `Union` (reference equality on arrays) keep their meaning. Every random number the
C# code draws is an input instead:
- `random.Next()` shuffle keys;
- index draws;
- the redraw attempts of the loops that repeat until two indices differ.

Whether the cancellation token reports a request after each generation is also an input.
LINQ `OrderBy` is a stable sort on (key, input position).

Each C# exception raised by a `Requires` check is a `Result`/`Outcome` error value. The
error values keep the order in which the checks run.

Modules follow the source's classes:

| Module | File(s) |
|---|---|
| `Elements` | `element.dfy` |
| `Chains` | `chain.dfy` |
| `LabeledMatrices` | `labeled_matrix.dfy` |
| `Schemas` | `schema.dfy` |
| `SchemaParsers` | `schema_parser.dfy` |
| `Graphs` | `graph.dfy` |
| `LayoutArgs` | `ga_args.dfy` |
| `LayoutResults` | `ga_result.dfy` |
| `Layout` (GeneticAlgorithm.Run) | `engine.dfy` |
| GeneticAlgorithm's operators | `genome.dfy`, `pairing.dfy`, `mutation.dfy`, `crossover.dfy`, `selection.dfy` |
| Shared helpers | `cross_count.dfy`, `ordering.dfy`, `seqs.dfy`, `text.dfy`, `wrappers.dfy` |

Some helpers specify other members:
- `CrossCount` is the inter-node connection sum over a placement.
- `OrderBy` and `FirstMinIndex` specify LINQ ordering.
- `Distinct`, `Trim` and `Split` specify the .NET operations the source uses.

## Model

| member | source | states |
|---|---|---|
| `Elements.Element.constructor` | CAD.DomainModel/Schema/Element.cs:43-50 | a new element carries the given non-empty name and sits in node 1 |
| `Elements.Element.SetNodeId` | CAD.DomainModel/Schema/Element.cs:23-37 | a positive id is stored; a non-positive id is refused with `NonPositiveNodeId` and leaves the node id unchanged; validity is kept |
| `Elements.NewElement` | CAD.DomainModel/Schema/Element.cs:43-50 | construction fails with `EmptyName` exactly when the name is empty; otherwise a fresh element with that name in node 1 |
| `Chains.NewChain` | CAD.DomainModel/Schema/Chain.cs:27-41 | a chain is made exactly when the name is not blank, there are more than one element and no two share a name; otherwise the first failing check in source order (`BlankName`, `TooFewElements`, `DuplicateElements`) |
| `Seqs.DistinctByLength` | CAD.DomainModel/Schema/Chain.cs:33-37 | the source's duplicate test `xs.Distinct().Count() == xs.Count` holds exactly when no two members share a key |
| `Seqs.DistinctSpec` | CAD.DomainModel/Schema/Schema.cs:111-114 | `Distinct` keeps every value of its input exactly once and adds nothing |
| `LabeledMatrices.LabeledMatrix.constructor` | CAD.DomainModel/Schema/LabeledMatrix.cs:47-71 | the labels are stored as given; there is an entry for exactly every (row, column) label pair, each 0 |
| `LabeledMatrices.NewMatrix` | CAD.DomainModel/Schema/LabeledMatrix.cs:47-71 | construction succeeds exactly when both label lists are duplicate-free, duplicate row labels reported before duplicate column labels; a new matrix has entries, all 0, for exactly the (row, column) label pairs |
| `LabeledMatrices.LabeledMatrix.Get` | CAD.DomainModel/Schema/LabeledMatrix.cs:36-38 | the indexer returns the entry exactly when the label pair has one, and `KeyNotFound` otherwise |
| `LabeledMatrices.LabeledMatrix.Set` | CAD.DomainModel/Schema/LabeledMatrix.cs:39 | the entry at the pair is replaced and reads back as set; no other entry changes; validity is kept |
| `LabeledMatrices.LabeledMatrix.ToArray` | CAD.DomainModel/Schema/LabeledMatrix.cs:77-87 | a fresh rows-by-columns array whose [i, j] is the entry of the i-th row label and the j-th column label |
| `Schemas.Schema.constructor` | CAD.DomainModel/Schema/Schema.cs:96-115 | the schema keeps its chains, its elements are the distinct elements of the chains in order, and neither matrix is built yet |
| `Schemas.NewSchema` | CAD.DomainModel/Schema/Schema.cs:96-115 | a schema is made exactly when there is a chain and no two chains share a name; otherwise `NoChains`, then `DuplicateChains` |
| `Schemas.ElementsSpec` | CAD.DomainModel/Schema/Schema.cs:111-114 | the schema's elements have distinct names, a name is an element's exactly when some chain contains it, each element is the first occurrence of its name, and they follow first-occurrence order |
| `Schemas.Schema.MatrixOfComplexes` | CAD.DomainModel/Schema/Schema.cs:36-51 | the first call builds and caches a matrix over elements and chains whose entry is 1 exactly when the element is in the chain and 0 otherwise; later calls return the cached matrix unchanged |
| `Schemas.BuildComplexes` | CAD.DomainModel/Schema/Schema.cs:42-46 | the double loop yields entry 1 exactly for the (member, chain) pairs |
| `Schemas.Schema.MatrixOfConnections` | CAD.DomainModel/Schema/Schema.cs:56-72 | the first call builds and caches a matrix over element names whose entry is the number of chains holding both elements; later calls return the cached matrix unchanged |
| `Schemas.BuildConnections` | CAD.DomainModel/Schema/Schema.cs:62-68 | the triple loop over chains and ordered member pairs yields, for every pair of names, the number of chains the two share |
| `Schemas.AddChainPairs` | CAD.DomainModel/Schema/Schema.cs:65-68 | one chain's pass adds 1 at exactly the ordered pairs of distinct members and leaves every other entry unchanged |
| `Schemas.WeightsAreConnections` | CAD.DomainModel/Schema/Schema.cs:56-72 | the connection matrix read by element positions is the connection table of the chains |
| `Schemas.CommonChainsSymmetric` | CAD.DomainModel/Schema/Schema.cs:64-68 | two elements share as many chains in either order, and an element shares none with itself |
| `Schemas.ConnectionTableSpec` | CAD.DomainModel/Schema/Schema.cs:77-90 | the connection table is symmetric with a zero diagonal; every placement has a non-negative inter-node count; a placement on one node has count 0 |
| `Schemas.Schema.InternodeConnectionsCount` | CAD.DomainModel/Schema/Schema.cs:77-90 | the count is the sum, over pairs of elements in different nodes, of their connection counts; the connection matrix is built if it was not, and a matrix built by this call holds the number of chains shared by each pair of elements |
| `Schemas.SumCrossings` | CAD.DomainModel/Schema/Schema.cs:81-88 | the double loop computes the inter-node connection sum of the elements' current nodes |
| `Schemas.ToStringLines` | CAD.DomainModel/Schema/Schema.cs:121-134 | the text form splits on newlines into exactly one line per chain, in chain order, each giving the chain's name and its members |
| `CrossCounts.CrossCountNonNegative` | CAD.DomainModel/LayoutAlgorithm/GeneticAlgorithm.cs:57-62 | with non-negative connection counts the inter-node count is never negative |
| `CrossCounts.CrossCountPartition` | CAD.DomainModel/LayoutAlgorithm/GeneticAlgorithm.cs:58-61 | the count depends only on which elements share a node, not on the node numbers |
| `CrossCounts.CrossCountSingleNode` | CAD.DomainModel/LayoutAlgorithm/GeneticAlgorithm.cs:58-61 | with all elements in one node there is no inter-node connection |
| `Text.TrimSpec` | CAD.DomainModel/Schema/SchemaParser.cs:28 | `Trim` strips exactly the leading and trailing runs of the trimmed characters |
| `Text.TakeUntil` | CAD.DomainModel/Schema/SchemaParser.cs:68 | the element name is the longest prefix of the item without the stop character |
| `SchemaParsers.CleanSpec` | CAD.DomainModel/Schema/SchemaParser.cs:26-29 | the clean-up drops exactly the blank lines and leaves every other line trimmed and non-blank |
| `SchemaParsers.CleanAppend` | CAD.DomainModel/Schema/SchemaParser.cs:26-29 | the clean-up keeps the lines' order: cleaning a concatenation cleans each part |
| `SchemaParsers.CleanOne` | CAD.DomainModel/Schema/SchemaParser.cs:26-29 | a single line is dropped when blank and kept trimmed otherwise |
| `SchemaParsers.FromNets` | CAD.DomainModel/Schema/SchemaParser.cs:46 | `SkipWhile` keeps the suffix from the first `$NETS` line, and every skipped line differs from `$NETS` |
| `SchemaParsers.DropMarkers` | CAD.DomainModel/Schema/SchemaParser.cs:47 | every line other than `$NETS` and `$END` is kept as often as it occurs, and the markers are dropped |
| `SchemaParsers.DropMarkersAppend` | CAD.DomainModel/Schema/SchemaParser.cs:47 | the filter keeps the lines' order: filtering a concatenation is the concatenation of the filtered parts |
| `SchemaParsers.JoinFrom` | CAD.DomainModel/Schema/SchemaParser.cs:53-57 | a joined statement ends at a line that does not continue it; running past the last line is the `LineIndexOutOfRange` error |
| `SchemaParsers.JoinLines` | CAD.DomainModel/Schema/SchemaParser.cs:93-97 | the continuation loop computes exactly the joined statement, or the out-of-range error |
| `SchemaParsers.AnyStartsWith` | CAD.DomainModel/Schema/SchemaParser.cs:63 | true exactly when some item starts with the ground element's prefix |
| `SchemaParsers.MakeElements` | CAD.DomainModel/Schema/SchemaParser.cs:105-110 | fails with `EmptyName` exactly when some name is empty; otherwise the element names are the distinct names in first-occurrence order |
| `SchemaParsers.ReadNet` | CAD.DomainModel/Schema/SchemaParser.cs:98-113 | one statement gives no chain when an item after the first has the e0 prefix or fewer than two distinct elements remain; otherwise a valid chain of its name and distinct elements; errors as the element and chain constructors raise them |
| `SchemaParsers.NetOfWellFormed` | CAD.DomainModel/Schema/SchemaParser.cs:103-112 | every net read has a non-blank name and at least two distinct, non-empty member names, none with a separator, a pin mark or the e0 prefix |
| `SchemaParsers.ReadStatement` | CAD.DomainModel/Schema/SchemaParser.cs:90-115 | one loop pass adds at most one valid chain and advances the index; it agrees with the reading of the remaining lines |
| `SchemaParsers.ReadChains` | CAD.DomainModel/Schema/SchemaParser.cs:88-115 | the reading loop yields valid chains describing exactly the nets of the lines, or the first error met |
| `SchemaParsers.NetsFromWellFormed` | CAD.DomainModel/Schema/SchemaParser.cs:50-75 | every net read from any line sequence is well formed |
| `SchemaParsers.ReadSchema` | CAD.DomainModel/Schema/SchemaParser.cs:88-116 | the chains read become a fresh valid schema, or the schema's own error when there are no chains or two share a name |
| `SchemaParsers.ParseAllegro` | CAD.DomainModel/Schema/SchemaParser.cs:42-78 | the Allegro reader works on the lines from `$NETS` on, without marker lines, and yields the schema of their nets or the first error |
| `SchemaParsers.ParseCalay` | CAD.DomainModel/Schema/SchemaParser.cs:86-117 | the Calay reader yields the schema of the nets of all lines or the first error |
| `SchemaParsers.ParsedAfterChecks` | CAD.DomainModel/Schema/SchemaParser.cs:21-33 | with a non-empty description and a non-blank prefix, the result is the chosen dialect's reading of the cleaned lines |
| `SchemaParsers.Parse` | CAD.DomainModel/Schema/SchemaParser.cs:19-34 | fails exactly as `Parsed` does: `EmptyDescription`, `BlankPrefix`, then the reader's and schema's errors; on success a fresh valid schema whose chains are exactly the parsed nets |
| `SchemaParsers.ParseCleaned` | CAD.DomainModel/Schema/SchemaParser.cs:31-33 | the cleaned lines go to the Allegro reader when one of them is `$NETS` and to the Calay reader otherwise; the result is the schema of the chosen dialect's nets or its first error |
| `SchemaParsers.ParsedSpec` | CAD.DomainModel/Schema/SchemaParser.cs:19-34 | a successful parse has at least one net, no two nets share a name, and every net is well formed |
| `Graphs.Vertex.constructor` | CAD.DomainModel/Graph/Vertex.cs:20-29 | a new vertex carries the label and group 1 |
| `Graphs.NewVertex` | CAD.DomainModel/Graph/Vertex.cs:20-29 | construction fails with `EmptyLabel` exactly when the label is empty |
| `Graphs.NewEdge` | CAD.DomainModel/Graph/Edge.cs:32-47 | an edge is made exactly when its ends differ and the count is positive; a loop is reported before a non-positive count |
| `Graphs.EmptyGraph` | CAD.DomainModel/Graph/WeightedSchemaGraph.cs:16-19 | the parameterless graph has no vertex and no edge |
| `Graphs.VertexOf` | CAD.DomainModel/Graph/WeightedSchemaGraph.cs:38-41 | the vertex of an element has its name as label and its node as group |
| `Graphs.AddVertex` | CAD.DomainModel/Graph/WeightedSchemaGraph.cs:32-43 | a vertex is added exactly when the element's name is not yet filed; existing vertices stay, and the dictionary maps every label to its vertex |
| `Graphs.AddPair` | CAD.DomainModel/Graph/WeightedSchemaGraph.cs:50-66 | a pair with a positive count adds its two vertices and one edge of that weight; any other pair changes nothing |
| `Graphs.BuildRow` | CAD.DomainModel/Graph/WeightedSchemaGraph.cs:48-67 | the inner loop adds exactly the links of row i |
| `Graphs.BuildGraph` | CAD.DomainModel/Graph/WeightedSchemaGraph.cs:47-67 | the double loop yields an edge for every connected pair j < i, in row order, between the vertices of the two elements; each vertex is the first one made for its name and sits in the element's node |
| `Graphs.BuildFromMatrix` | CAD.DomainModel/Graph/WeightedSchemaGraph.cs:45-69 | the graph built over a valid connection matrix is the graph of its links |
| `Graphs.SchemaGraph` | CAD.DomainModel/Graph/WeightedSchemaGraph.cs:25-70 | the graph of a schema is the graph of the links of its connection matrix; the matrix is built and cached if it was not |
| `Graphs.LinksSpec` | CAD.DomainModel/Graph/WeightedSchemaGraph.cs:47-53 | every pair below the diagonal with a positive count has exactly one link carrying that count; links are in row-major order without repeats |
| `Graphs.CutWeightIsCrossCount` | CAD.DomainModel/Graph/WeightedSchemaGraph.cs:47-67 | the links that cross between nodes weigh exactly the inter-node connection count |
| `Graphs.EdgeCutIsCutWeight` | CAD.DomainModel/Graph/WeightedSchemaGraph.cs:57-65 | the edges between vertices of different groups weigh what their links weigh across the elements' nodes |
| `Graphs.GraphCutIsInternodeCount` | CAD.DomainModel/Graph/WeightedSchemaGraph.cs:25-70 | in a schema's graph, the weight of the edges between groups is the schema's inter-node connection count |
| `LayoutArgs.NewArgs` | CAD.DomainModel/LayoutAlgorithm/GeneticAlgorithmArgs.cs:62-103 | arguments are made exactly when nodes > 0, generations > 0, population >= 2 and nodes <= elements; otherwise the first failing check in source order; the fields are stored as given |
| `LayoutArgs.NewArgsWithDefaults` | CAD.DomainModel/LayoutAlgorithm/GeneticAlgorithmArgs.cs:69-70 | the optional arguments default to a synchronous run without a cancellation token |
| `Genomes.TemplateBalanced` | CAD.DomainModel/LayoutAlgorithm/GeneticAlgorithm.cs:37-39 | the template puts no more than n / k, rounded up, elements in any node |
| `Layout.ShuffledPlacement` | CAD.DomainModel/LayoutAlgorithm/GeneticAlgorithm.cs:40-43 | a shuffled template places all n elements on nodes 1..k, none holding more than n / k rounded up |
| `Layout.InitialPopulation` | CAD.DomainModel/LayoutAlgorithm/GeneticAlgorithm.cs:34-44 | PopulationSize distinct fresh arrays, each the template ordered by its own random keys |
| `Ordering.OrderByPermutation` | CAD.DomainModel/LayoutAlgorithm/GeneticAlgorithm.cs:42 | `OrderBy` only reorders: same length, same multiset of items |
| `Ordering.RankedSpec` | CAD.DomainModel/LayoutAlgorithm/GeneticAlgorithm.cs:286 | `OrderBy` ranks every input position exactly once, ascending by key, ties kept in input order |
| `Layout.Fitness` | CAD.DomainModel/LayoutAlgorithm/GeneticAlgorithm.cs:53-63 | the fitness is the inter-node connection count of the individual under the schema's connection matrix; the matrix is built and cached if it was not, and a matrix built by this call holds the number of chains shared by each pair of elements |
| `Layout.SumConnections` | CAD.DomainModel/LayoutAlgorithm/GeneticAlgorithm.cs:57-62 | the double loop over pairs j < i of differing genes sums exactly the inter-node connection count |
| `Pairing.PairsCount` | CAD.DomainModel/LayoutAlgorithm/GeneticAlgorithm.cs:76 | half the population, rounded up |
| `Pairing.FirstDistinct` | CAD.DomainModel/LayoutAlgorithm/GeneticAlgorithm.cs:83-87 | the redraw loop stops at the first attempt whose two indices differ; every earlier attempt drew equal indices |
| `Pairing.Redraw` | CAD.DomainModel/LayoutAlgorithm/GeneticAlgorithm.cs:81-87 | the loop ends with two different indices, those of the first differing attempt |
| `Pairing.Panmixia` | CAD.DomainModel/LayoutAlgorithm/GeneticAlgorithm.cs:72-96 | half the population (rounded up) pairs, each of two members at the different indices its redraw loop stops at |
| `Genomes.MatchesDiffers` | CAD.DomainModel/LayoutAlgorithm/GeneticAlgorithm.cs:120-122 | at every position two genomes either match or differ |
| `Ordering.OrderByFirst` | CAD.DomainModel/LayoutAlgorithm/GeneticAlgorithm.cs:117-124 | `OrderBy(...).First()` is the first item, in input order, of least key |
| `Pairing.Outbreeding` | CAD.DomainModel/LayoutAlgorithm/GeneticAlgorithm.cs:107-128 | each pair is the member at the drawn index and the first member with the fewest genes matching it |
| `Pairing.OutbreedingPrefersStrangers` | CAD.DomainModel/LayoutAlgorithm/GeneticAlgorithm.cs:117-124 | when the population holds a genome different from the first parent, outbreeding does not mate it with a copy of itself |
| `Ordering.OrderBySecond` | CAD.DomainModel/LayoutAlgorithm/GeneticAlgorithm.cs:149-157 | `OrderBy(...).Skip(1).First()` is the item a stable sort ranks second |
| `Pairing.Inbreeding` | CAD.DomainModel/LayoutAlgorithm/GeneticAlgorithm.cs:139-161 | each pair is the member at the drawn index and the member ranked second by the number of genes differing from it |
| `Pairing.InbreedingSkipsClone` | CAD.DomainModel/LayoutAlgorithm/GeneticAlgorithm.cs:149-157 | the member inbreeding skips is an exact copy of the first parent; any other member is at least as far away |
| `Mutations.CountSame` | CAD.DomainModel/LayoutAlgorithm/GeneticAlgorithm.cs:174-176 | the loop counts the positions where the parents agree |
| `Mutations.SwapCount` | CAD.DomainModel/LayoutAlgorithm/GeneticAlgorithm.cs:178 | a tenth of the genome length, at least one |
| `Mutations.Swap` | CAD.DomainModel/LayoutAlgorithm/GeneticAlgorithm.cs:187-189 | the genes at the two positions are exchanged; all others are unchanged |
| `Mutations.SwapPermutation` | CAD.DomainModel/LayoutAlgorithm/GeneticAlgorithm.cs:187-189 | a swap keeps the multiset of genes |
| `Mutations.SwappedPermutation` | CAD.DomainModel/LayoutAlgorithm/GeneticAlgorithm.cs:178-190 | any number of swaps keeps every node's number of genes |
| `Mutations.MutatedPermutation` | CAD.DomainModel/LayoutAlgorithm/GeneticAlgorithm.cs:177-190 | mutation keeps every node's number of genes; when the draw is not below the number of agreeing positions the offspring is unchanged |
| `Mutations.Mutation` | CAD.DomainModel/LayoutAlgorithm/GeneticAlgorithm.cs:171-192 | the offspring array is mutated in place to the specified mutation and returned |
| `Genomes.Capacity` | CAD.DomainModel/LayoutAlgorithm/GeneticAlgorithm.cs:204-207 | the node capacity is n / k rounded up: the least c with c * k >= n |
| `Crossovers.PoolSpec` | CAD.DomainModel/LayoutAlgorithm/GeneticAlgorithm.cs:255-263 | the pool holds every gene of either parent exactly once and nothing else |
| `Crossovers.ShuffledGenes` | CAD.DomainModel/LayoutAlgorithm/GeneticAlgorithm.cs:264-269 | shuffling the pool, and reversing the shuffled pool, keep its genes |
| `Crossovers.ReversedInvolution` | CAD.DomainModel/LayoutAlgorithm/GeneticAlgorithm.cs:269 | LINQ `Reverse` keeps every item with its count, and reversing twice gives the input back |
| `Crossovers.PooledIds` | CAD.DomainModel/LayoutAlgorithm/GeneticAlgorithm.cs:255-263 | every pooled gene names an element below n, and every element below n has a pooled gene |
| `Crossovers.FirstPassSpec` | CAD.DomainModel/LayoutAlgorithm/GeneticAlgorithm.cs:213-230 | the first pass places every element at most once, at one of its pooled genes' nodes, never beyond capacity, with the distribution counting the placements |
| `Crossovers.PlaceFromPool` | CAD.DomainModel/LayoutAlgorithm/GeneticAlgorithm.cs:211-230 | the loop with its two dictionaries computes exactly the first pass |
| `Crossovers.FallbackSpec` | CAD.DomainModel/LayoutAlgorithm/GeneticAlgorithm.cs:233-242 | a leftover element goes to the first node from 1 with room; all earlier nodes are full and nothing else changes |
| `Crossovers.Room` | CAD.DomainModel/LayoutAlgorithm/GeneticAlgorithm.cs:231-243 | while some element is unplaced, some node among 1..k has room, so the fallback always places it |
| `Crossovers.SecondPassSpec` | CAD.DomainModel/LayoutAlgorithm/GeneticAlgorithm.cs:231-243 | the second pass keeps every earlier placement, respects capacity and places every pooled element |
| `Crossovers.PlaceLeftovers` | CAD.DomainModel/LayoutAlgorithm/GeneticAlgorithm.cs:231-243 | the loop computes exactly the second pass |
| `Crossovers.FilledSpec` | CAD.DomainModel/LayoutAlgorithm/GeneticAlgorithm.cs:209-243 | after both passes exactly the elements 0..n-1 are placed, first-pass placements come from the pool, and no node is over capacity |
| `Crossovers.ChildSpec` | CAD.DomainModel/LayoutAlgorithm/GeneticAlgorithm.cs:209-247 | no node receives more than the capacity, and every gene of the child is a pooled gene or a fallback node 1..k |
| `Crossovers.ChildInNodes` | CAD.DomainModel/LayoutAlgorithm/GeneticAlgorithm.cs:209-247 | with pooled genes on nodes 1..K and k <= K, the child's genes stay on nodes 1..K |
| `Crossovers.GenerateOffspring` | CAD.DomainModel/LayoutAlgorithm/GeneticAlgorithm.cs:209-248 | a fresh array holding the placed nodes ordered by element index |
| `Crossovers.Breed` | CAD.DomainModel/LayoutAlgorithm/GeneticAlgorithm.cs:266-270 | two distinct fresh offspring, each then mutated: the first fills the shuffled pool front to back; the second fills, back to front, a new shuffle of the pool, because the deferred LINQ query is enumerated again |
| `Crossovers.Crossover` | CAD.DomainModel/LayoutAlgorithm/GeneticAlgorithm.cs:200-274 | two distinct fresh offspring per pair, in pair order, bred with the node count of the first pair's first parent and capacity n / k rounded up |
| `Crossovers.BredPlacement` | CAD.DomainModel/LayoutAlgorithm/GeneticAlgorithm.cs:266-270 | a mutated offspring of parents on nodes 1..K stays on nodes 1..K within capacity |
| `Crossovers.BredPairPlacement` | CAD.DomainModel/LayoutAlgorithm/GeneticAlgorithm.cs:252-273 | both offspring of a pair are complete placements on the parents' nodes that respect capacity |
| `Selection.Elitism` | CAD.DomainModel/LayoutAlgorithm/GeneticAlgorithm.cs:284-288 | half the population, rounded down, taken from it; no survivor has greater fitness than any dropped member |
| `Ordering.OrderByTakeNotWorse` | CAD.DomainModel/LayoutAlgorithm/GeneticAlgorithm.cs:285-287 | the first h items of an ordering never have a greater key than the rest |
| `Selection.ShuffledScored` | CAD.DomainModel/LayoutAlgorithm/GeneticAlgorithm.cs:301 | the shuffled population keeps every member, so every member still has a fitness |
| `Selection.Group` | CAD.DomainModel/LayoutAlgorithm/GeneticAlgorithm.cs:306-312 | group g is members 2g and 2g + 1 of the shuffled population; a third member, 2g + 2, joins exactly when it is the last member of an odd population |
| `Selection.Winner` | CAD.DomainModel/LayoutAlgorithm/GeneticAlgorithm.cs:313 | the group's first member of least fitness, which is at least as fit as every member |
| `Selection.Tournament` | CAD.DomainModel/LayoutAlgorithm/GeneticAlgorithm.cs:298-316 | half the population, rounded down; survivor g is the best of group g |
| `Selection.TournamentSubset` | CAD.DomainModel/LayoutAlgorithm/GeneticAlgorithm.cs:298-316 | survivors are taken from the population, and a duplicate-free population yields duplicate-free survivors |
| `LayoutResults.SetMin` | CAD.DomainModel/LayoutAlgorithm/GeneticAlgorithmResult.cs:51 | the least value: a member of the set, at most every member |
| `LayoutResults.SetMax` | CAD.DomainModel/LayoutAlgorithm/GeneticAlgorithmResult.cs:53 | the greatest value: a member of the set, at least every member |
| `LayoutResults.MakeResult` | CAD.DomainModel/LayoutAlgorithm/GeneticAlgorithmResult.cs:44-58 | keeps the generation number; Min and Max are dictionary values bounding all of them; the solution maps exactly the schema's elements to the genes of the best individual |
| `LayoutResults.BestIsFirstMinimum` | CAD.DomainModel/LayoutAlgorithm/GeneticAlgorithmResult.cs:54 | the best individual is the first one, in population order, of least fitness |
| `LayoutResults.BestHasMinimum` | CAD.DomainModel/LayoutAlgorithm/GeneticAlgorithmResult.cs:51-54 | when the dictionary is keyed by exactly the population, the best individual's fitness is the reported minimum |
| `Layout.AddFitness` | CAD.DomainModel/LayoutAlgorithm/GeneticAlgorithm.cs:346-347 | the dictionary gains exactly the given individuals, each with its inter-node count; old entries are kept; a connection matrix built on the way holds the chains' connection counts |
| `Layout.Start` | CAD.DomainModel/LayoutAlgorithm/GeneticAlgorithm.cs:329-330 | individual i is the balanced template ordered by its own shuffle keys; the PopulationSize individuals are distinct placements on nodes 1..NodesCount, with a dictionary keyed by exactly them with their fitness; on a schema whose matrix was not yet built, that fitness is taken under the chains' connection counts |
| `Layout.ScoresNonNegative` | CAD.DomainModel/LayoutAlgorithm/GeneticAlgorithm.cs:53-63 | a population scored under the chains' connection counts has no negative fitness |
| `Layout.SelectParents` | CAD.DomainModel/LayoutAlgorithm/GeneticAlgorithm.cs:335-340 | the configured operator's pairs: panmixia, outbreeding or inbreeding, drawn from the population |
| `Layout.ParentsPlaced` | CAD.DomainModel/LayoutAlgorithm/GeneticAlgorithm.cs:202-207 | parents drawn from a placed population have the schema's length and a greatest node between 1 and NodesCount |
| `Layout.OffspringPlaced` | CAD.DomainModel/LayoutAlgorithm/GeneticAlgorithm.cs:342 | the offspring of placed parents are placements on nodes 1..NodesCount |
| `Layout.Breeding` | CAD.DomainModel/LayoutAlgorithm/GeneticAlgorithm.cs:335-342 | the pairs are those the configured operator forms from the population with the generation's draws; the offspring's genes are, pair by pair, the two children bred from the pair's genes with its draws; they are distinct fresh arrays, none a member of the population, each a placement on nodes 1..NodesCount |
| `Layout.UnionPlaced` | CAD.DomainModel/LayoutAlgorithm/GeneticAlgorithm.cs:344 | the union of the population with fresh offspring is their concatenation, without duplicates |
| `Layout.ScoreOffspring` | CAD.DomainModel/LayoutAlgorithm/GeneticAlgorithm.cs:346-347 | after the offspring's fitness is added, the dictionary is keyed by exactly the united population, each with its inter-node count |
| `Layout.Reproduce` | CAD.DomainModel/LayoutAlgorithm/GeneticAlgorithm.cs:335-347 | the round: the configured operator's pairs, the offspring bred from them, the union equal to the population followed by the offspring, without duplicates, and a dictionary that keeps every old entry and scores exactly the union |
| `Layout.Survivors` | CAD.DomainModel/LayoutAlgorithm/GeneticAlgorithm.cs:349-353 | the configured selection keeps half the united population, taken from it |
| `Layout.SizeKept` | CAD.DomainModel/LayoutAlgorithm/GeneticAlgorithm.cs:344-353 | uniting p members with two offspring per pair and keeping half leaves p members |
| `Layout.SurvivorsScored` | CAD.DomainModel/LayoutAlgorithm/GeneticAlgorithm.cs:349-357 | survivors taken without repeats from a scored union are scored by the pruned dictionary |
| `Layout.NextGeneration` | CAD.DomainModel/LayoutAlgorithm/GeneticAlgorithm.cs:335-357 | the next population is the configured selection's survivors of the reproduced round's union and the dictionary is the round's dictionary pruned to them; PopulationSize distinct placements on nodes 1..NodesCount, each from the old population or fresh |
| `Layout.Selected` | CAD.DomainModel/LayoutAlgorithm/GeneticAlgorithm.cs:349-357 | from a reproduced round, the configured selection keeps PopulationSize distinct placed members of the union, scored by the pruned dictionary |
| `Selection.ElitismKeepsBest` | CAD.DomainModel/LayoutAlgorithm/GeneticAlgorithm.cs:284-288 | every member of the population is matched or beaten in fitness by some elitism survivor |
| `Selection.TournamentKeepsBest` | CAD.DomainModel/LayoutAlgorithm/GeneticAlgorithm.cs:298-316 | every member of the population is matched or beaten in fitness by some tournament survivor |
| `Layout.SurvivorNoWorse` | CAD.DomainModel/LayoutAlgorithm/GeneticAlgorithm.cs:349-353 | whichever selection is configured, every member of the union is matched or beaten by some survivor |
| `Layout.EvolvedNoWorse` | CAD.DomainModel/LayoutAlgorithm/GeneticAlgorithm.cs:335-357 | every individual scored before a generation is matched or beaten by some individual scored after it |
| `Layout.ImprovingAppend` | CAD.DomainModel/LayoutAlgorithm/GeneticAlgorithm.cs:359-367 | a result whose least fitness bounds the previous dictionary from below keeps the announced least fitness from rising |
| `Layout.ResultReported` | CAD.DomainModel/LayoutAlgorithm/GeneticAlgorithm.cs:359-365 | the result of a scored generation carries its number, Min <= Max, and a solution mapping every element to a node 1..NodesCount |
| `Layout.Generation` | CAD.DomainModel/LayoutAlgorithm/GeneticAlgorithm.cs:335-367 | one loop pass evolves the population as `NextGeneration` does and keeps the run's invariant; its result is what the constructor makes of the new population and dictionary, and its least fitness is no greater than any fitness of the previous dictionary |
| `Layout.GenerationsRunSpec` | CAD.DomainModel/LayoutAlgorithm/GeneticAlgorithm.cs:333-377 | a run lasts between 1 and GenerationsCount generations; it ends early only at a generation that observes a cancellation request; it is cancelled exactly when some generation observes one |
| `Layout.Step` | CAD.DomainModel/LayoutAlgorithm/GeneticAlgorithm.cs:335-374 | one loop pass evolves the population by one generation and announces it, the announced least fitness never rising; the run stops exactly when a token is present and reports a request, and then ends with `LayoutCanceled` |
| `Layout.Run` | CAD.DomainModel/LayoutAlgorithm/GeneticAlgorithm.cs:327-380 | see below |

`Layout.Run` ensures:
- one `IterationCompleted` per generation run, numbered from 1;
- then exactly one final event carrying the last result: `LayoutCanceled` when a generation observed a cancellation request, `LayoutCompleted` otherwise;
- the returned result is that last result;
- every result has Min <= Max and a solution mapping every element to a node 1..NodesCount;
- the least fitness announced never rises from one `IterationCompleted` to the next;
- the final population has PopulationSize distinct placements, and the dictionary scores exactly them;
- on a schema whose matrix was not yet built, the scores are taken under the chains' connection counts, so by `Layout.ScoresNonNegative` none is negative.

## Left out

- Asynchronous execution is not modelled: `Task.Run`, `Task.FromResult` and the `RunAsynchronously` switch (GeneticAlgorithm.cs:382-385). `Layout.Run` models the local `Layout` function.
- `System.Random` and the state of the `CancellationToken` become inputs.
  - `GenerationDraws` holds the redraw attempts, first-parent indices, shuffle keys, mutation draws, tournament keys, and whether a request is seen after the generation.
  - `DrawsFit` requires that every drawn index is in range and that every redraw stream ends. A real random source ends such loops only with probability 1.
- The result call in `Run` is modelled by the result constructor's signature.
  - At GeneticAlgorithm.cs:359-365 the call passes the best individual and the dictionary's values.
  - The constructor at GeneticAlgorithmResult.cs:44-48 takes the population and the dictionary.
  - The model passes the pruned population and dictionary, which the constructor's body reads.
- `AverageConnectionsCount` (GeneticAlgorithmResult.cs:52) is a floating-point mean and is not modelled.
- Edge.cs takes `Element` endpoints, but WeightedSchemaGraph.cs passes `Vertex` objects. `Edge` is generic over its endpoint type, and the graph uses vertex endpoints.
- `Requires.NotNull` checks and null elements are left out: Dafny values are never null.
- `GetHashCode`, `ToString` of `Element`/`Chain`, and the QuickGraph base class `BidirectionalGraph` are not modelled. Element and chain equality by name is modelled by keying matrices and duplicate tests on names.
- The source's comments and the code disagree on which pairing operator mates similar genomes. The model follows the code:
  - outbreeding picks the member with the fewest matching genes;
  - inbreeding picks the second-closest member.
- `Layout.Fitness` and `Schemas.Schema.InternodeConnectionsCount` sum unbounded integers. The 32-bit overflow of the C# `int` sums is not modelled; it needs more than 2^31 shared chains.
- `Schemas.ToStringLines` is stated only for chain and element names without a newline, since a name with a newline makes the lines of the text form ambiguous.
- `Text.IsWhiteSpace` lists the characters `char.IsWhiteSpace` accepts. There is no Unicode normalisation or case folding.
- `Text.StartsWith` and `SchemaParsers.LastIs` compare characters ordinally, one code point at a time. The source calls the culture-sensitive `string.StartsWith` and `string.EndsWith` (SchemaParser.cs:53, 63, 93, 103), under which ignorable code points such as a soft hyphen still match; the model does not capture that.
- `Layout.Run` keeps no ghost record of every intermediate population: it states the events, the non-increasing least fitness and the final population and dictionary, while each generation's relation to the one before it is stated by `Layout.Step` and `Layout.Generation`.
- The user interface, the presenters, the console program and file reading are not part of this model.
