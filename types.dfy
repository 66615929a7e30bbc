/** The records the packing list is made of (src/types.ts). */
module Types {

  datatype Option<T> = None | Some(value: T)

  /** One line of a packing list. `quantity` is a JavaScript number; the model
      keeps it an unbounded integer, which may be zero or negative in stored
      data, and negative (never zero) when it comes from an import. */
  datatype Item = Item(id: string, name: string, icon: string, quantity: int, packed: bool)

  /** The five kinds of bag the user can add. */
  datatype BaggageType = CarryOn | MediumChecked | LargeChecked | Backpack | Other

  /** A bag and its items. The source types the bag's `type` as one of the five
      names, but an import stores whatever non-empty text the table holds
      there, so the model keeps it as a string, `kind`. */
  datatype Baggage = Baggage(id: string, kind: string, nickname: string, items: seq<Item>)

  /** The name under which a bag type is stored and shown. */
  function TypeName(t: BaggageType): (s: string)
    ensures s != ""
  {
    match t
    case CarryOn => "carry-on"
    case MediumChecked => "medium-checked"
    case LargeChecked => "large-checked"
    case Backpack => "backpack"
    case Other => "other"
  }

  /** The ids of a collection, in collection order. */
  function Ids(bs: seq<Baggage>): (r: seq<string>)
    ensures |r| == |bs|
    ensures forall k :: 0 <= k < |bs| ==> r[k] == bs[k].id
  {
    if bs == [] then [] else Ids(bs[..|bs| - 1]) + [bs[|bs| - 1].id]
  }

  /** No two bags of the collection share an id. */
  predicate DistinctIds(bs: seq<Baggage>)
  {
    forall i, j :: 0 <= i < j < |bs| ==> bs[i].id != bs[j].id
  }

  /** The number of items over all bags of a collection. */
  function TotalItems(bs: seq<Baggage>): nat
  {
    if bs == [] then 0 else TotalItems(bs[..|bs| - 1]) + |bs[|bs| - 1].items|
  }
}
