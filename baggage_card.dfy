/** The item-list operations of one bag's card (src/components/BaggageCard.tsx).
    Each builds the bag's new value and hands it to `onUpdate`; here the
    operation returns it. The operations that raise a notification also return
    an `Effect` naming it. */
module BaggageCard {
  import opened Types
  import JsText

  /** The notification an item operation raises (the `customToast` calls). */
  datatype Effect =
    | NoEffect
    | IncreasedQuantity(name: string, icon: string)
    | AddedItem(name: string, icon: string)
    | RemovedItem(name: string)

  predicate HasName(items: seq<Item>, name: string)
  {
    exists j :: 0 <= j < |items| && items[j].name == name
  }

  /** `k` is the index of the first item called `name`. */
  predicate IsFirstNamed(items: seq<Item>, name: string, k: int)
  {
    0 <= k < |items| && items[k].name == name
    && forall j :: 0 <= j < k ==> items[j].name != name
  }

  /** `items.findIndex(item => item.name === name)`: the first index whose item
      is called `name`, packed or not, and -1 when there is none. */
  function FindIndexByName(items: seq<Item>, name: string): (k: int)
    ensures k == -1 <==> !HasName(items, name)
    ensures k != -1 ==> IsFirstNamed(items, name, k)
  {
    if items == [] then -1
    else if items[0].name == name then 0
    else
      var k := FindIndexByName(items[1..], name);
      if k == -1 then -1 else k + 1
  }

  /** There is only one first index. */
  lemma FirstNamedUnique(items: seq<Item>, name: string, k: int, k': int)
    requires IsFirstNamed(items, name, k) && IsFirstNamed(items, name, k')
    ensures k == k'
  {
  }

  /** `addItem(name, icon)`. When some item is already called `name` — packed or
      not — the first such item gets one more in quantity and nothing else in
      the list changes; otherwise a fresh unpacked item of quantity 1 goes at
      the end. The icon the caller passes goes into the notification in both
      cases; an existing item keeps its own icon. */
  function AddItem(b: Baggage, name: string, icon: string, freshId: string): (r: (Baggage, Effect))
    ensures r.0 == b.(items := r.0.items)
    ensures !HasName(b.items, name) ==>
      r.0.items == b.items + [Item(freshId, name, icon, 1, false)] && r.1 == AddedItem(name, icon)
    ensures HasName(b.items, name) ==>
      |r.0.items| == |b.items| && r.1 == IncreasedQuantity(name, icon)
    ensures forall k :: IsFirstNamed(b.items, name, k) ==>
      r.0.items == b.items[k := b.items[k].(quantity := b.items[k].quantity + 1)]
  {
    var k := FindIndexByName(b.items, name);
    if k != -1 then
      var updatedItems := b.items[k := b.items[k].(quantity := b.items[k].quantity + 1)];
      (b.(items := updatedItems), IncreasedQuantity(name, icon))
    else
      (b.(items := b.items + [Item(freshId, name, icon, 1, false)]), AddedItem(name, icon))
  }

  predicate DistinctNames(items: seq<Item>)
  {
    forall i, j :: 0 <= i < j < |items| ==> items[i].name != items[j].name
  }

  /** Adding by name never creates a second item with the same name. */
  lemma AddItemKeepsNamesDistinct(b: Baggage, name: string, icon: string, freshId: string)
    requires DistinctNames(b.items)
    ensures DistinctNames(AddItem(b, name, icon, freshId).0.items)
  {
    var r := AddItem(b, name, icon, freshId).0.items;
    if HasName(b.items, name) {
      var k := FindIndexByName(b.items, name);
      assert forall i :: 0 <= i < |r| ==> r[i].name == b.items[i].name;
    } else {
      assert forall i :: 0 <= i < |b.items| ==> r[i].name == b.items[i].name;
    }
  }

  /** `baggage.items.map(item => item.id === updated.id ? updated : item)`. */
  function ReplaceItem(items: seq<Item>, updated: Item): (r: seq<Item>)
    ensures |r| == |items|
    ensures forall j :: 0 <= j < |items| ==>
      r[j] == if items[j].id == updated.id then updated else items[j]
  {
    if items == [] then []
    else [if items[0].id == updated.id then updated else items[0]] + ReplaceItem(items[1..], updated)
  }

  /** `updateItem(updated)`: every item with the updated item's id is replaced
      by it verbatim, the others stay where they are, and the list keeps its
      length. No two items are ever merged, whatever the packed flags. */
  function UpdateItem(b: Baggage, updated: Item): (r: Baggage)
    ensures r == b.(items := r.items)
    ensures |r.items| == |b.items|
    ensures forall j :: 0 <= j < |b.items| && b.items[j].id != updated.id ==> r.items[j] == b.items[j]
    ensures forall j :: 0 <= j < |b.items| && b.items[j].id == updated.id ==> r.items[j] == updated
  {
    b.(items := ReplaceItem(b.items, updated))
  }

  /** The number of items with the given id. */
  function CountId(items: seq<Item>, id: string): nat
  {
    if items == [] then 0 else (if items[0].id == id then 1 else 0) + CountId(items[1..], id)
  }

  /** `items.filter(item => item.id !== id)`: exactly the items with another id,
      in their order. */
  function RemoveItem(items: seq<Item>, id: string): (r: seq<Item>)
    ensures |r| == |items| - CountId(items, id)
    ensures CountId(items, id) == 0 ==> r == items
  {
    if items == [] then []
    else if items[0].id == id then RemoveItem(items[1..], id)
    else [items[0]] + RemoveItem(items[1..], id)
  }

  /** What stays is exactly the items with another id. */
  lemma {:induction false} RemoveItemMembers(items: seq<Item>, id: string)
    ensures forall x :: x in RemoveItem(items, id) <==> x in items && x.id != id
  {
    if items != [] {
      RemoveItemMembers(items[1..], id);
      assert forall x :: x in items <==> x == items[0] || x in items[1..];
    }
  }

  /** Filtering keeps relative order: it distributes over concatenation. */
  lemma {:induction false} RemoveItemAppend(a: seq<Item>, c: seq<Item>, id: string)
    ensures RemoveItem(a + c, id) == RemoveItem(a, id) + RemoveItem(c, id)
  {
    if a == [] {
      assert a + c == c;
    } else {
      var ac := a + c;
      assert ac[0] == a[0] && ac[1..] == a[1..] + c;
      RemoveItemAppend(a[1..], c, id);
      if a[0].id != id {
        assert RemoveItem(ac, id) == [a[0]] + RemoveItem(a[1..] + c, id);
        assert RemoveItem(a, id) == [a[0]] + RemoveItem(a[1..], id);
      }
    }
  }

  predicate HasId(items: seq<Item>, id: string)
  {
    exists j :: 0 <= j < |items| && items[j].id == id
  }

  /** `k` is the index of the first item with the given id. */
  predicate IsFirstWithId(items: seq<Item>, id: string, k: int)
  {
    0 <= k < |items| && items[k].id == id
    && forall j :: 0 <= j < k ==> items[j].id != id
  }

  /** `items.find(item => item.id === id)`. */
  function FindItem(items: seq<Item>, id: string): (r: Option<Item>)
    ensures r.None? <==> !HasId(items, id)
    ensures forall k :: IsFirstWithId(items, id, k) ==> r == Some(items[k])
  {
    if items == [] then None
    else if items[0].id == id then Some(items[0])
    else
      var r := FindItem(items[1..], id);
      assert forall k :: IsFirstWithId(items, id, k) ==> IsFirstWithId(items[1..], id, k - 1);
      r
  }

  /** `deleteItem(id)`: every item with that id goes, the others stay in order,
      and the removal is announced with the name of the first such item exactly
      when there was one. */
  function DeleteItem(b: Baggage, id: string): (r: (Baggage, Effect))
    ensures r.0 == b.(items := RemoveItem(b.items, id))
    ensures r.1.RemovedItem? <==> HasId(b.items, id)
    ensures !HasId(b.items, id) ==> r.0 == b && r.1 == NoEffect
    ensures forall k :: IsFirstWithId(b.items, id, k) ==> r.1 == RemovedItem(b.items[k].name)
  {
    CountIdZeroIffAbsent(b.items, id);
    var found := FindItem(b.items, id);
    var updated := b.(items := RemoveItem(b.items, id));
    if found.Some? then (updated, RemovedItem(found.value.name)) else (updated, NoEffect)
  }

  /** An id is counted zero times exactly when no item carries it. */
  lemma {:induction false} CountIdZeroIffAbsent(items: seq<Item>, id: string)
    ensures CountId(items, id) == 0 <==> !HasId(items, id)
  {
    if items != [] {
      CountIdZeroIffAbsent(items[1..], id);
      if HasId(items[1..], id) {
        var j :| 0 <= j < |items[1..]| && items[1..][j].id == id;
        assert items[j + 1].id == id;
      }
      if HasId(items, id) && items[0].id != id {
        var j :| 0 <= j < |items| && items[j].id == id;
        assert items[1..][j - 1].id == id;
      }
    }
  }

  /** `updateNickname(nickname)`: only the nickname changes. */
  function UpdateNickname(b: Baggage, nickname: string): (r: Baggage)
    ensures r.nickname == nickname
    ensures r.(nickname := b.nickname) == b
  {
    b.(nickname := nickname)
  }

  /** `items.every(item => item.packed)`; true of an empty list. */
  predicate AllPacked(items: seq<Item>)
  {
    forall j :: 0 <= j < |items| ==> items[j].packed
  }

  /** `items.map(item => ({...item, packed}))`. */
  function SetPacked(items: seq<Item>, packed: bool): (r: seq<Item>)
    ensures |r| == |items|
    ensures forall j :: 0 <= j < |items| ==> r[j] == items[j].(packed := packed)
  {
    if items == [] then [] else [items[0].(packed := packed)] + SetPacked(items[1..], packed)
  }

  /** `togglePackAllItems`: all or nothing. Every item gets the flag
      `!(all were packed)`, so an all-packed list is unpacked and a list with any
      unpacked item is packed; ids, names, icons, quantities, order and length
      stay. Same-name items are not merged. */
  function TogglePackAll(b: Baggage): (r: Baggage)
    ensures r == b.(items := r.items)
    ensures |r.items| == |b.items|
    ensures forall j :: 0 <= j < |b.items| ==> r.items[j] == b.items[j].(packed := !AllPacked(b.items))
    ensures AllPacked(b.items) ==> forall j :: 0 <= j < |r.items| ==> !r.items[j].packed
    ensures !AllPacked(b.items) ==> AllPacked(r.items)
  {
    b.(items := SetPacked(b.items, !AllPacked(b.items)))
  }

  /** On a non-empty list the toggle flips whether everything is packed (the
      button is shown only for a non-empty list). */
  lemma TogglePackAllFlips(b: Baggage)
    requires b.items != []
    ensures AllPacked(TogglePackAll(b).items) == !AllPacked(b.items)
  {
    var r := TogglePackAll(b).items;
    if AllPacked(b.items) {
      assert !r[0].packed;
    }
  }

  /** `addCustomItem`: nothing happens when the typed name is blank after
      trimming; otherwise the trimmed name is added with the chosen icon. */
  function AddCustomItem(b: Baggage, typed: string, icon: string, freshId: string): (r: Option<(Baggage, Effect)>)
    ensures r.None? <==> JsText.AllSpace(typed)
    ensures r.Some? ==> r.value == AddItem(b, JsText.Trim(typed), icon, freshId)
  {
    JsText.TrimIsCore(typed);
    var name := JsText.Trim(typed);
    if name != "" then Some(AddItem(b, name, icon, freshId)) else None
  }

  /** The item card's packed toggle, routed through `updateItem`: when ids are
      unique, exactly the toggled item changes, in its packed flag only, and the
      list keeps its length even if a packed item of the same name exists. */
  lemma ToggleOneItem(b: Baggage, k: int)
    requires 0 <= k < |b.items|
    requires forall i, j :: 0 <= i < j < |b.items| ==> b.items[i].id != b.items[j].id
    ensures |UpdateItem(b, b.items[k].(packed := !b.items[k].packed)).items| == |b.items|
    ensures UpdateItem(b, b.items[k].(packed := !b.items[k].packed)).items
      == b.items[k := b.items[k].(packed := !b.items[k].packed)]
  {
    var r := UpdateItem(b, b.items[k].(packed := !b.items[k].packed)).items;
    var e := b.items[k := b.items[k].(packed := !b.items[k].packed)];
    assert forall j :: 0 <= j < |b.items| && j != k ==> b.items[j].id != b.items[k].id;
    assert forall j :: 0 <= j < |r| ==> r[j] == e[j];
  }

  /** A bag holding five packed socks and one unpacked sock: packing the
      unpacked one leaves two entries, and adding socks again counts them into
      the first entry, the packed one. */
  lemma SocksExample()
    ensures var b := Baggage("b", "carry-on", "", [Item("1", "Socks", "PiSock", 5, true), Item("2", "Socks", "PiSock", 1, false)]);
      && UpdateItem(b, Item("2", "Socks", "PiSock", 1, true)).items
         == [Item("1", "Socks", "PiSock", 5, true), Item("2", "Socks", "PiSock", 1, true)]
      && AddItem(b, "Socks", "PiSock", "3").0.items
         == [Item("1", "Socks", "PiSock", 6, true), Item("2", "Socks", "PiSock", 1, false)]
  {
    var b := Baggage("b", "carry-on", "", [Item("1", "Socks", "PiSock", 5, true), Item("2", "Socks", "PiSock", 1, false)]);
    assert IsFirstNamed(b.items, "Socks", 0);
  }
}
