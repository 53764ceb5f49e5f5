/** A chain (net) of a connection schema: a named list of at least two different elements.
    Two chains are the same chain when their names are equal, whatever their elements. */
module Chains {
  import opened Wrappers
  import opened Seqs
  import opened Text
  import opened Elements

  datatype ChainError = BlankName | TooFewElements | DuplicateElements

  datatype Chain = Chain(Name: string, Elements: seq<Element>)

  /** What the Chain constructor guarantees of every chain. */
  predicate ValidChain(c: Chain) {
    !IsBlank(c.Name) && |c.Elements| > 1 && NoDuplicates(Names(c.Elements))
  }

  /** `new Chain(name, elements)`: the checks run in the constructor's order and the
      arguments are stored unchanged. Duplicates are detected, as in the source, by
      comparing the count of distinct elements (by name) with the count of elements. */
  function NewChain(name: string, elements: seq<Element>): (r: Result<Chain, ChainError>)
    ensures r.Ok? <==> !IsBlank(name) && |elements| > 1 && NoDuplicates(Names(elements))
    ensures r.Ok? ==> r.value == Chain(name, elements) && ValidChain(r.value)
    ensures IsBlank(name) ==> r == Err(BlankName)
    ensures !IsBlank(name) && |elements| <= 1 ==> r == Err(TooFewElements)
    ensures !IsBlank(name) && |elements| > 1 && !NoDuplicates(Names(elements)) ==> r == Err(DuplicateElements)
  {
    DistinctByLength(elements, NameOf);
    if IsBlank(name) then Err(BlankName)
    else if |elements| <= 1 then Err(TooFewElements)
    else if |DistinctBy(elements, NameOf)| != |elements| then Err(DuplicateElements)
    else Ok(Chain(name, elements))
  }

  /** The equality key of a chain. */
  function ChainName(c: Chain): string {
    c.Name
  }

  function ChainNames(cs: seq<Chain>): (ns: seq<string>)
    ensures |ns| == |cs|
    ensures forall i :: 0 <= i < |cs| ==> ns[i] == cs[i].Name
  {
    seq(|cs|, i requires 0 <= i < |cs| => cs[i].Name)
  }

  /** The element names of a chain. */
  function Members(c: Chain): seq<string> {
    Names(c.Elements)
  }
}
