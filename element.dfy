/** An element of a connection schema: a named part placed in some node. Two elements are
    the same element when their names are equal, whatever their nodes; every collection
    keyed by elements is therefore keyed by the element's name in this model. */
module Elements {
  import opened Wrappers
  import opened Seqs

  datatype ElementError = EmptyName | NonPositiveNodeId

  class Element {
    const Name: string
    /** The node the element is placed in; only positive ids are ever stored. */
    var NodeId: int

    ghost predicate Valid()
      reads this
    {
      Name != [] && NodeId > 0
    }

    /** A new element sits in node 1. */
    constructor (name: string)
      requires name != []
      ensures Name == name && NodeId == 1
      ensures Valid()
    {
      Name := name;
      NodeId := 1;
    }

    /** The NodeId setter: a non-positive id is refused and leaves the element as it was. */
    method SetNodeId(value: int) returns (r: Outcome<ElementError>)
      modifies this
      ensures value > 0 ==> r == Pass && NodeId == value
      ensures value <= 0 ==> r == Fail(NonPositiveNodeId) && NodeId == old(NodeId)
      ensures old(Valid()) ==> Valid()
    {
      if value <= 0 {
        return Fail(NonPositiveNodeId);
      }
      NodeId := value;
      return Pass;
    }
  }

  /** `new Element(name)`: the empty name is refused. */
  method NewElement(name: string) returns (r: Result<Element, ElementError>)
    ensures r.Err? <==> name == []
    ensures r.Err? ==> r.error == EmptyName
    ensures r.Ok? ==> fresh(r.value) && r.value.Name == name && r.value.NodeId == 1 && r.value.Valid()
  {
    if name == [] {
      return Err(EmptyName);
    }
    var e := new Element(name);
    return Ok(e);
  }

  /** The equality key of an element (Equals and GetHashCode look only at the name). */
  function NameOf(e: Element): string {
    e.Name
  }

  /** The names of a list of elements, in order. */
  function Names(es: seq<Element>): (ns: seq<string>)
    ensures |ns| == |es|
    ensures forall i :: 0 <= i < |es| ==> ns[i] == es[i].Name
  {
    seq(|es|, i requires 0 <= i < |es| => es[i].Name)
  }
}
