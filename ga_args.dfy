/** The parameters of a layout run: the schema, the number of nodes to spread its
    elements over, the number of generations, the population size, the two operator
    choices, whether to run on a background task and an optional cancellation token. */
module LayoutArgs {
  import opened Wrappers
  import opened Schemas

  /** How parent pairs are formed. */
  datatype ParentSelectionType = Panmixia | Outbreeding | Inbreeding

  /** How the survivors of a generation are chosen. */
  datatype SelectionType = Elitism | Tournament

  /** A cancellation token; whether cancellation has been requested is observed by the
      algorithm once per generation and is an input there. */
  datatype CancellationToken = CancellationToken(Id: nat)

  datatype ArgsError =
    | NonPositiveNodesCount
    | NonPositiveGenerationsCount
    | PopulationTooSmall
    | TooManyNodes

  datatype GeneticAlgorithmArgs = GeneticAlgorithmArgs(
    Schema: Schema,
    NodesCount: int,
    GenerationsCount: int,
    PopulationSize: int,
    ParentSelection: ParentSelectionType,
    Selection: SelectionType,
    RunAsynchronously: bool,
    Token: Option<CancellationToken>)

  /** What a successful construction guarantees about the numbers. */
  predicate ValidArgs(a: GeneticAlgorithmArgs) {
    0 < a.NodesCount <= |a.Schema.Elements| && a.GenerationsCount > 0 && a.PopulationSize >= 2
  }

  /** The constructor: the node count, the generation count, the population size and the
      node count against the element count are checked in that order; the arguments are
      then stored as given. */
  function NewArgs(schema: Schema, nodesCount: int, generationsCount: int, populationSize: int,
                   parentSelection: ParentSelectionType, selection: SelectionType,
                   runAsynchronously: bool, token: Option<CancellationToken>): (r: Result<GeneticAlgorithmArgs, ArgsError>)
    ensures r.Ok? <==> nodesCount > 0 && generationsCount > 0 && populationSize >= 2 && nodesCount <= |schema.Elements|
    ensures nodesCount <= 0 ==> r == Err(NonPositiveNodesCount)
    ensures nodesCount > 0 && generationsCount <= 0 ==> r == Err(NonPositiveGenerationsCount)
    ensures nodesCount > 0 && generationsCount > 0 && populationSize < 2 ==> r == Err(PopulationTooSmall)
    ensures nodesCount > 0 && generationsCount > 0 && populationSize >= 2 && nodesCount > |schema.Elements| ==>
      r == Err(TooManyNodes)
    ensures r.Ok? ==> ValidArgs(r.value)
    ensures r.Ok? ==> r.value == GeneticAlgorithmArgs(schema, nodesCount, generationsCount, populationSize,
                                                      parentSelection, selection, runAsynchronously, token)
  {
    if nodesCount <= 0 then Err(NonPositiveNodesCount)
    else if generationsCount <= 0 then Err(NonPositiveGenerationsCount)
    else if populationSize < 2 then Err(PopulationTooSmall)
    else if nodesCount > |schema.Elements| then Err(TooManyNodes)
    else Ok(GeneticAlgorithmArgs(schema, nodesCount, generationsCount, populationSize,
                                 parentSelection, selection, runAsynchronously, token))
  }

  /** The constructor called without its two optional arguments: synchronous, with no
      cancellation token. */
  function NewArgsWithDefaults(schema: Schema, nodesCount: int, generationsCount: int, populationSize: int,
                               parentSelection: ParentSelectionType, selection: SelectionType): (r: Result<GeneticAlgorithmArgs, ArgsError>)
    ensures r.Ok? ==> !r.value.RunAsynchronously && r.value.Token == None
    ensures r.Ok? <==> nodesCount > 0 && generationsCount > 0 && populationSize >= 2 && nodesCount <= |schema.Elements|
  {
    NewArgs(schema, nodesCount, generationsCount, populationSize, parentSelection, selection, false, None)
  }
}
