/** The edits one item's card hands to its bag (src/components/ItemCard.tsx).
    Each handler builds a new record and passes it to the bag's `onUpdate`;
    here the handler returns that record, and None when it passes nothing. */
module ItemCard {
  import opened Types

  /** `updateQuantity(q)`: the item with quantity `q`, emitted only when `q` is
      positive. */
  function UpdateQuantity(item: Item, q: int): (r: Option<Item>)
    ensures r.Some? <==> q > 0
    ensures r.Some? ==> r.value.quantity == q && r.value.(quantity := item.quantity) == item
  {
    if q > 0 then Some(item.(quantity := q)) else None
  }

  /** The minus button: asks for one less, so nothing is emitted at quantity 1
      or below, and an emitted item keeps a quantity of at least 1. */
  function Decrement(item: Item): (r: Option<Item>)
    ensures r.Some? <==> item.quantity > 1
    ensures r.Some? ==> r.value.quantity == item.quantity - 1 >= 1
    ensures r.Some? ==> r.value.(quantity := item.quantity) == item
  {
    UpdateQuantity(item, item.quantity - 1)
  }

  /** The plus button: asks for one more, which is emitted whenever the current
      quantity is not negative. */
  function Increment(item: Item): (r: Option<Item>)
    ensures r.Some? <==> item.quantity >= 0
    ensures r.Some? ==> r.value.quantity == item.quantity + 1 >= 1
    ensures r.Some? ==> r.value.(quantity := item.quantity) == item
  {
    UpdateQuantity(item, item.quantity + 1)
  }

  /** `togglePacked`: the item with its packed flag negated, everything else
      kept. */
  function TogglePacked(item: Item): (r: Item)
    ensures r.packed == !item.packed
    ensures r.(packed := item.packed) == item
  {
    item.(packed := !item.packed)
  }

  /** Toggling twice gives the item back. */
  lemma TogglePackedTwice(item: Item)
    ensures TogglePacked(TogglePacked(item)) == item
  {
  }

  /** Starting from a quantity of at least 1, no sequence of button presses
      (true for plus, false for minus) that is applied where something is
      emitted can bring the quantity below 1, and each press moves it by at
      most one. */
  function Press(item: Item, presses: seq<bool>): (r: Item)
    requires item.quantity >= 1
    ensures r.quantity >= 1
    ensures r.(quantity := item.quantity) == item
    ensures r.quantity <= item.quantity + |presses|
    ensures r.quantity >= item.quantity - |presses|
    decreases presses
  {
    if presses == [] then item
    else
      var step := if presses[0] then Increment(item) else Decrement(item);
      var next := if step.Some? then step.value else item;
      Press(next, presses[1..])
  }
}
