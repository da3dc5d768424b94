/**
 * PartitionParameters: the persistent list of split indices built by the
 * segmentation. A Cons cell keeps its predecessor, the appended index and its own
 * size, fixed when the cell is built, so that appending and asking the size take
 * constant time. Values are immutable, so a shared prefix is never changed by
 * extending it.
 */
module Partitions {
  datatype PartitionParameters =
    | Empty
    | Cons(init: PartitionParameters, last: int, cachedSize: int)

  /** PartitionParameters.empty() */
  function EmptyParameters(): (p: PartitionParameters)
    ensures Size(p) == 0 && ParameterList(p) == []
  {
    Empty
  }

  /** PartitionParameters.add(init, last): a new cell whose size is one more than init's. */
  function Add(init: PartitionParameters, last: int): (p: PartitionParameters)
    ensures Size(p) == Size(init) + 1
    ensures ParameterList(p) == ParameterList(init) + [last]
  {
    Cons(init, last, Size(init) + 1)
  }

  /** size(): 0 for the empty list, the stored size of a cell. */
  function Size(p: PartitionParameters): int
  {
    match p
    case Empty => 0
    case Cons(_, _, size) => size
  }

  /** getPartitionParameterList(): the predecessor's list with the last index appended. */
  function ParameterList(p: PartitionParameters): (l: seq<int>)
  {
    match p
    case Empty => []
    case Cons(init, last, _) => ParameterList(init) + [last]
  }

  /** Every cell's stored size is its predecessor's plus one, as the Cons constructor sets it. */
  predicate Built(p: PartitionParameters)
  {
    match p
    case Empty => true
    case Cons(init, _, size) => Built(init) && size == Size(init) + 1
  }

  /** The lists made by empty() and add are built. */
  lemma AddBuilt(init: PartitionParameters, last: int)
    requires Built(init)
    ensures Built(EmptyParameters()) && Built(Add(init, last))
  {
  }

  /** For built lists the stored size is the length of the list. */
  lemma {:induction false} SizeIsLength(p: PartitionParameters)
    requires Built(p)
    ensures Size(p) == |ParameterList(p)|
  {
    match p
    case Empty =>
    case Cons(init, _, _) =>
      SizeIsLength(init);
  }
}
