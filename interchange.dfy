/** Export of the collection to table rows and import of table rows back into
    a collection (src/App.tsx:165-257). The CSV text itself is written and read
    by a foreign codec; the model starts from the rows it is given and from
    the rows it hands back, each a map from column name to cell text. */
module Interchange {
  import opened Types
  import JsText

  /** One exported row, before the CSV codec writes it out. */
  datatype ExportRow = ExportRow(
    baggageId: string, itemIcon: string, baggageType: string, baggageNickname: string,
    itemName: string, quantity: int, packed: bool)

  /** The row pushed for item `i` of bag `b`. */
  function ItemRow(b: Baggage, i: Item): (r: ExportRow)
  {
    ExportRow(b.id, i.icon, b.kind, b.nickname, i.name, i.quantity, i.packed)
  }

  /** The rows for the given items of bag `b`, in item order. */
  function ItemRows(b: Baggage, items: seq<Item>): (r: seq<ExportRow>)
    ensures |r| == |items|
  {
    if items == [] then [] else ItemRows(b, items[..|items| - 1]) + [ItemRow(b, items[|items| - 1])]
  }

  /** The rows of a collection: bag order, then item order within each bag. */
  function Flatten(bs: seq<Baggage>): (rows: seq<ExportRow>)
    ensures |rows| == TotalItems(bs)
  {
    if bs == [] then [] else Flatten(bs[..|bs| - 1]) + ItemRows(bs[|bs| - 1], bs[|bs| - 1].items)
  }

  /** The rows of two collections side by side are the rows of each, in order. */
  lemma {:induction false} FlattenAppend(a: seq<Baggage>, c: seq<Baggage>)
    ensures Flatten(a + c) == Flatten(a) + Flatten(c)
  {
    if c == [] {
      assert a + c == a;
    } else {
      assert (a + c)[..|a + c| - 1] == a + c[..|c| - 1];
      FlattenAppend(a, c[..|c| - 1]);
    }
  }

  /** A bag without items contributes no rows. */
  lemma EmptyBagExportsNothing(a: seq<Baggage>, b: Baggage, c: seq<Baggage>)
    requires b.items == []
    ensures Flatten(a + [b] + c) == Flatten(a + c)
  {
    FlattenAppend(a + [b], c);
    FlattenAppend(a, [b]);
    FlattenAppend(a, c);
    assert Flatten([b]) == Flatten([]) + ItemRows(b, []);
  }

  /** `exportToCSV`'s nested `forEach` loops that push one row per item. */
  method ExportRows(bs: seq<Baggage>) returns (rows: seq<ExportRow>)
    ensures rows == Flatten(bs)
    ensures |rows| == TotalItems(bs)
  {
    rows := [];
    var k := 0;
    while k < |bs|
      invariant 0 <= k <= |bs|
      invariant rows == Flatten(bs[..k])
    {
      var b := bs[k];
      var j := 0;
      while j < |b.items|
        invariant 0 <= j <= |b.items|
        invariant rows == Flatten(bs[..k]) + ItemRows(b, b.items[..j])
      {
        assert b.items[..j + 1][..j] == b.items[..j];
        rows := rows + [ItemRow(b, b.items[j])];
        j := j + 1;
      }
      assert b.items[..j] == b.items;
      assert bs[..k + 1][..k] == bs[..k];
      k := k + 1;
    }
    assert bs[..k] == bs;
  }

  /** The columns the export writes and the import reads, in header order;
      each one's header text is the field name of the exported row
      (`baggageId`, `itemIcon`, `baggageType`, `baggageNickname`, `itemName`,
      `quantity`, `packed`). */
  datatype Column =
    | BaggageIdColumn | ItemIconColumn | BaggageTypeColumn | BaggageNicknameColumn
    | ItemNameColumn | QuantityColumn | PackedColumn

  /** A row as the CSV parser hands it over with a header line: column to cell
      text. A short line lacks some columns; columns the import does not read
      are not kept. */
  type Record = map<Column, string>

  /** A cell read where only its truthiness decides: a missing column and an
      empty cell both read as "". */
  function Cell(r: Record, column: Column): string
  {
    if column in r then r[column] else ""
  }

  /** The cells the CSV codec carries for an exported row: numbers in decimal
      and booleans as "true" or "false". */
  function ToRecord(row: ExportRow): Record
  {
    map[
      BaggageIdColumn := row.baggageId, ItemIconColumn := row.itemIcon,
      BaggageTypeColumn := row.baggageType, BaggageNicknameColumn := row.baggageNickname,
      ItemNameColumn := row.itemName, QuantityColumn := JsText.IntToString(row.quantity),
      PackedColumn := if row.packed then "true" else "false"]
  }

  function ToRecords(rows: seq<ExportRow>): (r: seq<Record>)
    ensures |r| == |rows|
  {
    if rows == [] then [] else ToRecords(rows[..|rows| - 1]) + [ToRecord(rows[|rows| - 1])]
  }

  lemma {:induction false} ToRecordsAppend(a: seq<ExportRow>, c: seq<ExportRow>)
    ensures ToRecords(a + c) == ToRecords(a) + ToRecords(c)
  {
    if c == [] {
      assert a + c == a;
    } else {
      assert (a + c)[..|a + c| - 1] == a + c[..|c| - 1];
      ToRecordsAppend(a, c[..|c| - 1]);
    }
  }

  /** The type a bag gets when its first row has none. */
  const DefaultType: string := "other"
  /** The icon an item gets when its row has none. */
  const DefaultIcon: string := "cube"

  /** `parseInt(quantity || "1") || 1`: an empty cell reads as 1, and so does
      anything that parses to 0 or to NaN; every other value, negative ones
      included, is kept. */
  function ImportQuantity(cell: string): (q: int)
    ensures q != 0
    ensures cell == "" ==> q == 1
    ensures JsText.ParseInt(cell).None? ==> q == 1
    ensures JsText.ParseInt(cell) == Some(0) ==> q == 1
    ensures JsText.ParseInt(cell).Some? && JsText.ParseInt(cell).value != 0 ==> q == JsText.ParseInt(cell).value
  {
    var parsed := JsText.ParseInt(if cell == "" then "1" else cell);
    ParseIntOne();
    if parsed.Some? && parsed.value != 0 then parsed.value else 1
  }

  lemma ParseIntOne()
    ensures JsText.ParseInt("1") == Some(1)
  {
    JsText.ParseIntOfIntToString(1);
    assert JsText.IntToString(1) == "1";
  }

  /** The item a row with a non-empty item name adds (src/App.tsx:239-245),
      before it is given its fresh id. */
  function RowItem(r: Record): (i: Item)
  {
    Item("", Cell(r, ItemNameColumn),
      if Cell(r, ItemIconColumn) == "" then DefaultIcon else Cell(r, ItemIconColumn),
      ImportQuantity(Cell(r, QuantityColumn)),
      Cell(r, PackedColumn) == "true")
  }

  /** That item with the id it gets. */
  function ImportedItem(r: Record, id: string): (i: Item)
  {
    RowItem(r).(id := id)
  }

  /** The item each row would add, the i-th row's getting the i-th id. */
  function RowItems(rows: seq<Record>, ids: seq<string>): (items: seq<Item>)
    requires |ids| == |rows|
    ensures |items| == |rows|
  {
    if rows == [] then []
    else RowItems(rows[..|rows| - 1], ids[..|ids| - 1]) + [ImportedItem(rows[|rows| - 1], ids[|ids| - 1])]
  }

  lemma {:induction false} RowItemsAt(rows: seq<Record>, ids: seq<string>, i: int)
    requires |ids| == |rows| && 0 <= i < |rows|
    ensures RowItems(rows, ids)[i] == ImportedItem(rows[i], ids[i])
  {
    if i < |rows| - 1 {
      RowItemsAt(rows[..|rows| - 1], ids[..|ids| - 1], i);
    }
  }

  /** The bag the first row of an id creates (src/App.tsx:230-235); the type
      text is kept unchecked. */
  function NewBag(r: Record): (b: Baggage)
  {
    Baggage(Cell(r, BaggageIdColumn),
      if Cell(r, BaggageTypeColumn) == "" then DefaultType else Cell(r, BaggageTypeColumn),
      Cell(r, BaggageNicknameColumn), [])
  }

  /** The dictionary `importedBaggages`, with the order in which its keys were
      first set. */
  datatype Groups = Groups(order: seq<string>, bags: map<string, Baggage>)

  /** The empty dictionary the import starts from. */
  const NoGroups: Groups := Groups([], map[])

  /** The keys in `order` are exactly the dictionary's keys, each once, and
      each bag is filed under its own id. */
  predicate GroupsValid(g: Groups)
  {
    && (forall k :: 0 <= k < |g.order| ==> g.order[k] in g.bags && g.bags[g.order[k]].id == g.order[k])
    && (forall key :: key in g.bags ==> key in g.order)
    && (forall i, j :: 0 <= i < j < |g.order| ==> g.order[i] != g.order[j])
  }

  /** The body of the `forEach` over the parsed rows, for one row and the item
      it would add: a row without a bag id is skipped, the first row of an id
      files a new bag under it, and a row with an item name appends the item
      to that bag. */
  function ImportRow(g: Groups, r: Record, item: Item): (h: Groups)
  {
    var key := Cell(r, BaggageIdColumn);
    if key == "" then g
    else
      var g1 := if key in g.bags then g else Groups(g.order + [key], g.bags[key := NewBag(r)]);
      if Cell(r, ItemNameColumn) == "" then g1
      else
        var bag := g1.bags[key];
        g1.(bags := g1.bags[key := bag.(items := bag.items + [item])])
  }

  /** Every row keeps the dictionary well formed. */
  lemma ImportRowKeepsValid(g: Groups, r: Record, item: Item)
    requires GroupsValid(g)
    ensures GroupsValid(ImportRow(g, r, item))
  {
    var key := Cell(r, BaggageIdColumn);
    if key != "" && key !in g.bags {
      var g1 := Groups(g.order + [key], g.bags[key := NewBag(r)]);
      assert key !in g.order;
      assert GroupsValid(g1);
    }
  }

  /** The dictionary after the rows, the i-th row adding the i-th item. */
  function ImportAll(g: Groups, rows: seq<Record>, items: seq<Item>): Groups
    requires |items| == |rows|
  {
    if rows == [] then g
    else ImportRow(ImportAll(g, rows[..|rows| - 1], items[..|items| - 1]), rows[|rows| - 1], items[|items| - 1])
  }

  lemma {:induction false} ImportAllKeepsValid(g: Groups, rows: seq<Record>, items: seq<Item>)
    requires GroupsValid(g) && |items| == |rows|
    ensures GroupsValid(ImportAll(g, rows, items))
  {
    if rows != [] {
      var n := |rows|;
      ImportAllKeepsValid(g, rows[..n - 1], items[..n - 1]);
      ImportRowKeepsValid(ImportAll(g, rows[..n - 1], items[..n - 1]), rows[n - 1], items[n - 1]);
    }
  }

  /** `Object.values(importedBaggages)`, taken in order of first appearance. */
  function Values(g: Groups): (bs: seq<Baggage>)
    requires GroupsValid(g)
    ensures |bs| == |g.order|
    ensures forall k :: 0 <= k < |bs| ==> bs[k] == g.bags[g.order[k]] && bs[k].id == g.order[k]
  {
    seq(|g.order|, k requires 0 <= k < |g.order| => g.bags[g.order[k]])
  }

  /** The collection an import of these rows produces, `ids` being the fresh
      item ids, one per row: one bag per distinct non-empty id, in order of
      first appearance. */
  function Import(rows: seq<Record>, ids: seq<string>): (bs: seq<Baggage>)
    requires |ids| == |rows|
    ensures |bs| == |FirstAppearance(rows)|
    ensures forall k :: 0 <= k < |bs| ==> bs[k].id == FirstAppearance(rows)[k] != ""
    ensures forall i, j :: 0 <= i < j < |bs| ==> bs[i].id != bs[j].id
  {
    var items := RowItems(rows, ids);
    ImportAllKeepsValid(NoGroups, rows, items);
    ImportAllOrder(rows, items);
    Values(ImportAll(NoGroups, rows, items))
  }

  /** `importFromCSV`'s `complete` callback: the `forEach` that fills the
      dictionary, then `Object.values`. */
  method ImportRows(rows: seq<Record>, ids: seq<string>) returns (bs: seq<Baggage>)
    requires |ids| == |rows|
    ensures bs == Import(rows, ids)
  {
    var items := RowItems(rows, ids);
    var order: seq<string> := [];
    var imported: map<string, Baggage> := map[];
    var i := 0;
    while i < |rows|
      invariant 0 <= i <= |rows|
      invariant Groups(order, imported) == ImportAll(NoGroups, rows[..i], items[..i])
    {
      ghost var before := Groups(order, imported);
      var row := rows[i];
      var item := items[i];
      var key := Cell(row, BaggageIdColumn);
      if key != "" {
        if key !in imported {
          imported := imported[key := NewBag(row)];
          order := order + [key];
        }
        if Cell(row, ItemNameColumn) != "" {
          imported := imported[key := imported[key].(items := imported[key].items + [item])];
        }
      }
      assert Groups(order, imported) == ImportAll(NoGroups, rows[..i + 1], items[..i + 1]) by {
        assert Groups(order, imported) == ImportRow(before, row, item);
        ImportAllStep(NoGroups, rows, items, i);
      }
      i := i + 1;
    }
    assert Groups(order, imported) == ImportAll(NoGroups, rows, items) && GroupsValid(Groups(order, imported)) by {
      assert rows[..i] == rows && items[..i] == items;
      ImportAllKeepsValid(NoGroups, rows, items);
    }
    bs := Values(Groups(order, imported));
  }

  /* ---------- What an import produces, stated row by row ---------- */

  /** The non-empty bag ids of the rows, each once, at its first appearance. */
  function FirstAppearance(rows: seq<Record>): (o: seq<string>)
    ensures forall k :: 0 <= k < |o| ==> o[k] != ""
    ensures forall i, j :: 0 <= i < j < |o| ==> o[i] != o[j]
  {
    if rows == [] then []
    else
      var p := FirstAppearance(rows[..|rows| - 1]);
      var key := Cell(rows[|rows| - 1], BaggageIdColumn);
      if key == "" || key in p then p else p + [key]
  }

  /** The index of the first row that carries the bag id, -1 when none does. */
  function FirstRowOf(rows: seq<Record>, key: string): (k: int)
    ensures -1 <= k < |rows|
    ensures k >= 0 ==> Cell(rows[k], BaggageIdColumn) == key
    ensures forall j :: 0 <= j < |rows| && (k == -1 || j < k) ==> Cell(rows[j], BaggageIdColumn) != key
  {
    if rows == [] then -1
    else
      var k := FirstRowOf(rows[..|rows| - 1], key);
      if k >= 0 then k
      else if Cell(rows[|rows| - 1], BaggageIdColumn) == key then |rows| - 1
      else -1
  }

  /** An id is among the first appearances exactly when it is non-empty and
      some row carries it. */
  lemma {:induction false} FirstAppearanceMember(rows: seq<Record>, key: string)
    ensures key in FirstAppearance(rows) <==> key != "" && FirstRowOf(rows, key) >= 0
  {
    if rows != [] {
      FirstAppearanceMember(rows[..|rows| - 1], key);
    }
  }

  /** The ids are listed in the order of the rows that first carry them. */
  lemma {:induction false} FirstAppearanceOrder(rows: seq<Record>, i: int, j: int)
    requires 0 <= i < j < |FirstAppearance(rows)|
    ensures FirstRowOf(rows, FirstAppearance(rows)[i]) < FirstRowOf(rows, FirstAppearance(rows)[j])
  {
    var o := FirstAppearance(rows);
    var n := |rows|;
    var front := rows[..n - 1];
    var p := FirstAppearance(front);
    FirstAppearanceMember(front, o[i]);
    if j < |p| {
      FirstAppearanceMember(front, o[j]);
      FirstAppearanceOrder(front, i, j);
    } else {
      FirstAppearanceMember(front, o[j]);
      assert FirstRowOf(rows, o[j]) == n - 1;
    }
  }

  /** The items the rows of one bag id add, in row order: the item of each row
      of that id with a non-empty item name. */
  function ItemsFor(rows: seq<Record>, items: seq<Item>, key: string): seq<Item>
    requires |items| == |rows|
  {
    if rows == [] then []
    else
      var r := rows[|rows| - 1];
      ItemsFor(rows[..|rows| - 1], items[..|items| - 1], key)
      + (if Cell(r, BaggageIdColumn) == key && Cell(r, ItemNameColumn) != "" then [items[|items| - 1]] else [])
  }

  lemma {:induction false} ItemsForAbsent(rows: seq<Record>, items: seq<Item>, key: string)
    requires |items| == |rows| && FirstRowOf(rows, key) == -1
    ensures ItemsFor(rows, items, key) == []
  {
    if rows != [] {
      ItemsForAbsent(rows[..|rows| - 1], items[..|items| - 1], key);
    }
  }

  /** The bag `key` groups: the id, type and nickname of its first row, and the
      items of all its rows. */
  function GroupFor(rows: seq<Record>, items: seq<Item>, key: string): Baggage
    requires |items| == |rows| && FirstRowOf(rows, key) >= 0
  {
    NewBag(rows[FirstRowOf(rows, key)]).(items := ItemsFor(rows, items, key))
  }

  /** The keys are set in order of first appearance. */
  lemma {:induction false} ImportAllOrder(rows: seq<Record>, items: seq<Item>)
    requires |items| == |rows|
    ensures ImportAll(NoGroups, rows, items).order == FirstAppearance(rows)
    ensures forall key :: key in ImportAll(NoGroups, rows, items).bags <==> key in FirstAppearance(rows)
  {
    if rows != [] {
      var n := |rows|;
      ImportAllOrder(rows[..n - 1], items[..n - 1]);
    }
  }

  /** One row's effect on the bag filed under one id: a row of another id
      leaves it alone, and a row of that id creates it when missing and
      appends its item when it names one. */
  lemma ImportRowBag(g: Groups, r: Record, item: Item, key: string)
    requires key != ""
    ensures key in ImportRow(g, r, item).bags <==> key in g.bags || Cell(r, BaggageIdColumn) == key
    ensures key in ImportRow(g, r, item).bags ==> (ImportRow(g, r, item).bags[key] ==
      if Cell(r, BaggageIdColumn) != key then g.bags[key]
      else
        var base := if key in g.bags then g.bags[key] else NewBag(r);
        base.(items := base.items + if Cell(r, ItemNameColumn) != "" then [item] else []))
  {
  }

  /** The bag filed under an id that appears in the rows. */
  lemma {:induction false} ImportAllBag(rows: seq<Record>, items: seq<Item>, key: string)
    requires |items| == |rows| && key in FirstAppearance(rows)
    ensures FirstRowOf(rows, key) >= 0
    ensures key in ImportAll(NoGroups, rows, items).bags
    ensures ImportAll(NoGroups, rows, items).bags[key] == GroupFor(rows, items, key)
  {
    var n := |rows|;
    var p, pitems := rows[..n - 1], items[..n - 1];
    var before := ImportAll(NoGroups, p, pitems);
    FirstAppearanceMember(rows, key);
    FirstAppearanceMember(p, key);
    ImportAllOrder(p, pitems);
    ImportRowBag(before, rows[n - 1], items[n - 1], key);
    if key in FirstAppearance(p) {
      ImportAllBag(p, pitems, key);
      assert FirstRowOf(rows, key) == FirstRowOf(p, key);
    } else {
      assert FirstRowOf(p, key) == -1;
      ItemsForAbsent(p, pitems, key);
    }
  }

  /** The import, described without the dictionary: one bag per distinct
      non-empty id, in order of first appearance; the first row of the id
      fixes the bag's type (DefaultType when blank, any other text kept) and
      nickname; the bag holds the item of each row of that id with a non-empty
      item name, in row order. Rows without an id count for nothing, and a row
      without an item name still creates its bag. */
  lemma ImportDescribed(rows: seq<Record>, ids: seq<string>)
    requires |ids| == |rows|
    ensures |Import(rows, ids)| == |FirstAppearance(rows)|
    ensures forall k :: 0 <= k < |Import(rows, ids)| ==>
      FirstRowOf(rows, FirstAppearance(rows)[k]) >= 0
      && Import(rows, ids)[k] == GroupFor(rows, RowItems(rows, ids), FirstAppearance(rows)[k])
  {
    var o := FirstAppearance(rows);
    var items := RowItems(rows, ids);
    forall k | 0 <= k < |o|
      ensures FirstRowOf(rows, o[k]) >= 0 && Import(rows, ids)[k] == GroupFor(rows, items, o[k])
    {
      ImportAllBag(rows, items, o[k]);
    }
  }

  /* ---------- Export, then import ---------- */

  predicate ExportableItem(i: Item)
  {
    i.name != "" && i.icon != "" && i.quantity != 0
  }

  predicate ExportableBag(b: Baggage)
  {
    b.id != "" && b.kind != "" && b.items != []
    && forall j :: 0 <= j < |b.items| ==> ExportableItem(b.items[j])
  }

  /** What a collection needs to come back from an export: distinct non-empty
      ids, non-empty types, at least one item per bag, and items with a name,
      an icon and a non-zero quantity. */
  predicate Exportable(bs: seq<Baggage>)
  {
    && (forall k :: 0 <= k < |bs| ==> ExportableBag(bs[k]))
    && DistinctIds(bs)
  }

  function ItemIds(items: seq<Item>): (r: seq<string>)
    ensures |r| == |items|
  {
    if items == [] then [] else ItemIds(items[..|items| - 1]) + [items[|items| - 1].id]
  }

  /** The items of a collection in export order. */
  function AllItems(bs: seq<Baggage>): (r: seq<Item>)
    ensures |r| == TotalItems(bs)
  {
    if bs == [] then [] else AllItems(bs[..|bs| - 1]) + bs[|bs| - 1].items
  }

  /** The item ids of a collection in export order. */
  function AllItemIds(bs: seq<Baggage>): (r: seq<string>)
    ensures |r| == TotalItems(bs)
  {
    if bs == [] then [] else AllItemIds(bs[..|bs| - 1]) + ItemIds(bs[|bs| - 1].items)
  }

  /** The dictionary that holds exactly the given bags, in their order. */
  function GroupsOf(bs: seq<Baggage>): (g: Groups)
    requires DistinctIds(bs)
    ensures g.order == Ids(bs)
    ensures forall key :: key in g.bags <==> key in g.order
    ensures forall k :: 0 <= k < |bs| ==> g.bags[g.order[k]] == bs[k]
  {
    if bs == [] then NoGroups
    else
      var n := |bs|;
      var p, b := bs[..n - 1], bs[n - 1];
      var g := GroupsOf(p);
      assert b.id !in g.order;
      var h := Groups(g.order + [b.id], g.bags[b.id := b]);
      assert forall k :: 0 <= k < n - 1 ==> h.order[k] == g.order[k] != b.id;
      h
  }

  /** The dictionary of a collection with distinct ids is well formed, and its
      values are the collection again. */
  lemma GroupsOfValues(bs: seq<Baggage>)
    requires DistinctIds(bs)
    ensures GroupsValid(GroupsOf(bs)) && Values(GroupsOf(bs)) == bs
  {
    var g := GroupsOf(bs);
    assert GroupsValid(g);
    var vs := Values(g);
    forall k | 0 <= k < |bs| ensures vs[k] == bs[k] {
      assert vs[k] == g.bags[g.order[k]];
    }
  }

  lemma {:induction false} ImportAllAppend(g: Groups, r1: seq<Record>, i1: seq<Item>, r2: seq<Record>, i2: seq<Item>)
    requires |i1| == |r1| && |i2| == |r2|
    ensures ImportAll(g, r1 + r2, i1 + i2) == ImportAll(ImportAll(g, r1, i1), r2, i2)
  {
    if r2 == [] {
      assert r1 + r2 == r1 && i1 + i2 == i1;
    } else {
      var n := |r2|;
      assert (r1 + r2)[..|r1 + r2| - 1] == r1 + r2[..n - 1];
      assert (i1 + i2)[..|i1 + i2| - 1] == i1 + i2[..n - 1];
      assert (r1 + r2)[|r1 + r2| - 1] == r2[n - 1] && (i1 + i2)[|i1 + i2| - 1] == i2[n - 1];
      ImportAllAppend(g, r1, i1, r2[..n - 1], i2[..n - 1]);
    }
  }

  lemma {:induction false} RowItemsAppend(r1: seq<Record>, i1: seq<string>, r2: seq<Record>, i2: seq<string>)
    requires |i1| == |r1| && |i2| == |r2|
    ensures RowItems(r1 + r2, i1 + i2) == RowItems(r1, i1) + RowItems(r2, i2)
  {
    if r2 == [] {
      assert r1 + r2 == r1 && i1 + i2 == i1;
    } else {
      var n := |r2|;
      assert (r1 + r2)[..|r1 + r2| - 1] == r1 + r2[..n - 1];
      assert (i1 + i2)[..|i1 + i2| - 1] == i1 + i2[..n - 1];
      assert (r1 + r2)[|r1 + r2| - 1] == r2[n - 1] && (i1 + i2)[|i1 + i2| - 1] == i2[n - 1];
      RowItemsAppend(r1, i1, r2[..n - 1], i2[..n - 1]);
    }
  }

  /** The decimal text of a non-zero quantity reads back as that quantity. */
  lemma QuantityReadsBack(q: int)
    requires q != 0
    ensures ImportQuantity(JsText.IntToString(q)) == q
  {
    JsText.ParseIntOfIntToString(q);
  }

  /** The row of an exportable item reads back as that item, given its id. */
  lemma ItemRowReadsBack(b: Baggage, i: Item)
    requires ExportableItem(i)
    ensures ImportedItem(ToRecord(ItemRow(b, i)), i.id) == i
  {
    var r := ToRecord(ItemRow(b, i));
    assert Cell(r, ItemNameColumn) == i.name;
    assert Cell(r, ItemIconColumn) == i.icon;
    assert Cell(r, QuantityColumn) == JsText.IntToString(i.quantity);
    assert Cell(r, PackedColumn) == if i.packed then "true" else "false";
    QuantityReadsBack(i.quantity);
  }

  /** The rows of a bag's exportable items read back as those items. */
  lemma {:induction false} BagItemsReadBack(b: Baggage, items: seq<Item>)
    requires forall j :: 0 <= j < |items| ==> ExportableItem(items[j])
    ensures RowItems(ToRecords(ItemRows(b, items)), ItemIds(items)) == items
  {
    if items != [] {
      var n := |items|;
      var rows := ToRecords(ItemRows(b, items));
      assert ItemRows(b, items)[..n - 1] == ItemRows(b, items[..n - 1]);
      assert rows[..n - 1] == ToRecords(ItemRows(b, items[..n - 1]));
      assert rows[n - 1] == ToRecord(ItemRow(b, items[n - 1]));
      BagItemsReadBack(b, items[..n - 1]);
      ItemRowReadsBack(b, items[n - 1]);
      PrefixSnoc(items, n);
    }
  }

  /** The rows of an exportable collection, with the original item ids, read
      back as its items. */
  lemma {:induction false} CollectionItemsReadBack(bs: seq<Baggage>)
    requires Exportable(bs)
    ensures RowItems(ToRecords(Flatten(bs)), AllItemIds(bs)) == AllItems(bs)
  {
    if bs != [] {
      var n := |bs|;
      var p, b := bs[..n - 1], bs[n - 1];
      assert Exportable(p) && ExportableBag(b);
      CollectionItemsReadBack(p);
      ToRecordsAppend(Flatten(p), ItemRows(b, b.items));
      RowItemsAppend(ToRecords(Flatten(p)), AllItemIds(p), ToRecords(ItemRows(b, b.items)), ItemIds(b.items));
      BagItemsReadBack(b, b.items);
    }
  }

  lemma MapUpdateTwice<K, V>(m: map<K, V>, k: K, x: V, y: V)
    ensures m[k := x][k := y] == m[k := y]
  {
  }

  lemma PrefixSnoc<T>(s: seq<T>, m: nat)
    requires 1 <= m <= |s|
    ensures s[..m] == s[..m - 1] + [s[m - 1]]
  {
  }

  /** Reading one more row is one more step of the `forEach`. */
  lemma ImportAllSnoc(g: Groups, rows: seq<Record>, items: seq<Item>, r: Record, item: Item)
    requires |items| == |rows|
    ensures ImportAll(g, rows + [r], items + [item]) == ImportRow(ImportAll(g, rows, items), r, item)
  {
    assert (rows + [r])[..|rows|] == rows && (items + [item])[..|items|] == items;
  }

  /** Reading the rows up to and including row `i` is one more step of the
      `forEach` than reading those before it. */
  lemma ImportAllStep(g: Groups, rows: seq<Record>, items: seq<Item>, i: nat)
    requires |items| == |rows| && i < |rows|
    ensures ImportAll(g, rows[..i + 1], items[..i + 1]) == ImportRow(ImportAll(g, rows[..i], items[..i]), rows[i], items[i])
  {
    PrefixSnoc(rows, i + 1);
    PrefixSnoc(items, i + 1);
    ImportAllSnoc(g, rows[..i], items[..i], rows[i], items[i]);
  }

  /** The row of each of the first `m` items of a bag, one item at a time. */
  lemma BagRowsSnoc(b: Baggage, m: nat)
    requires 1 <= m <= |b.items|
    ensures ToRecords(ItemRows(b, b.items[..m]))
      == ToRecords(ItemRows(b, b.items[..m - 1])) + [ToRecord(ItemRow(b, b.items[m - 1]))]
  {
    assert b.items[..m][..m - 1] == b.items[..m - 1];
  }

  /** A row with a bag id and an item name appends its item to the bag filed
      under the id, which it first creates when there is none. */
  lemma ImportRowAppends(g: Groups, r: Record, item: Item)
    requires Cell(r, BaggageIdColumn) != "" && Cell(r, ItemNameColumn) != ""
    ensures var key := Cell(r, BaggageIdColumn);
      var base := if key in g.bags then g.bags[key] else NewBag(r);
      ImportRow(g, r, item) == Groups(
        if key in g.bags then g.order else g.order + [key],
        g.bags[key := base.(items := base.items + [item])])
  {
    var key := Cell(r, BaggageIdColumn);
    if key !in g.bags {
      MapUpdateTwice(g.bags, key, NewBag(r), NewBag(r).(items := [item]));
    }
  }

  /** The row of an item of an exportable bag files the item under the bag's
      id, and the bag it would create is the bag without its items. */
  lemma ItemRowCells(b: Baggage, i: Item)
    requires ExportableBag(b) && ExportableItem(i)
    ensures Cell(ToRecord(ItemRow(b, i)), BaggageIdColumn) == b.id != ""
    ensures Cell(ToRecord(ItemRow(b, i)), ItemNameColumn) != ""
    ensures NewBag(ToRecord(ItemRow(b, i))) == b.(items := [])
  {
    var r := ToRecord(ItemRow(b, i));
    assert Cell(r, BaggageIdColumn) == b.id;
    assert Cell(r, BaggageTypeColumn) == b.kind;
    assert Cell(r, BaggageNicknameColumn) == b.nickname;
    assert Cell(r, ItemNameColumn) == i.name;
  }

  /** The first `m` rows of one exportable bag, read into a dictionary that
      does not hold its id yet, file the bag with its first `m` items. */
  lemma {:induction false} BagRowsReadBack(g: Groups, b: Baggage, m: nat)
    requires ExportableBag(b) && b.id !in g.bags && 1 <= m <= |b.items|
    ensures ImportAll(g, ToRecords(ItemRows(b, b.items[..m])), b.items[..m])
      == Groups(g.order + [b.id], g.bags[b.id := b.(items := b.items[..m])])
  {
    var item := b.items[m - 1];
    var rows := ToRecords(ItemRows(b, b.items[..m - 1]));
    var r := ToRecord(ItemRow(b, item));
    BagRowsSnoc(b, m);
    PrefixSnoc(b.items, m);
    ImportAllSnoc(g, rows, b.items[..m - 1], r, item);
    ItemRowCells(b, item);
    var before := ImportAll(g, rows, b.items[..m - 1]);
    ImportRowAppends(before, r, item);
    if m == 1 {
      assert rows == [] && b.items[..m - 1] == [];
      assert before == g;
    } else {
      BagRowsReadBack(g, b, m - 1);
      assert before.bags[b.id] == b.(items := b.items[..m - 1]);
      MapUpdateTwice(g.bags, b.id, b.(items := b.items[..m - 1]), b.(items := b.items[..m]));
    }
  }

  /** All rows of one exportable bag file the whole bag. */
  lemma BagReadsBack(g: Groups, b: Baggage)
    requires ExportableBag(b) && b.id !in g.bags
    ensures ImportAll(g, ToRecords(ItemRows(b, b.items)), b.items)
      == Groups(g.order + [b.id], g.bags[b.id := b])
  {
    BagRowsReadBack(g, b, |b.items|);
    assert b.items[..|b.items|] == b.items;
  }

  lemma LastIdIsNew(bs: seq<Baggage>)
    requires bs != [] && DistinctIds(bs)
    ensures DistinctIds(bs[..|bs| - 1]) && bs[|bs| - 1].id !in GroupsOf(bs[..|bs| - 1]).bags
  {
    assert bs[|bs| - 1].id !in Ids(bs[..|bs| - 1]);
  }

  lemma {:induction false} CollectionRowsReadBack(bs: seq<Baggage>)
    requires Exportable(bs)
    ensures ImportAll(NoGroups, ToRecords(Flatten(bs)), AllItems(bs)) == GroupsOf(bs)
  {
    if bs != [] {
      var n := |bs|;
      var p, b := bs[..n - 1], bs[n - 1];
      assert Exportable(p);
      CollectionRowsReadBack(p);
      ToRecordsAppend(Flatten(p), ItemRows(b, b.items));
      ImportAllAppend(NoGroups, ToRecords(Flatten(p)), AllItems(p), ToRecords(ItemRows(b, b.items)), b.items);
      LastIdIsNew(bs);
      BagReadsBack(GroupsOf(p), b);
    }
  }

  /** Importing the exported rows with the original item ids gives the
      collection back exactly. */
  lemma ExportImportExact(bs: seq<Baggage>)
    requires Exportable(bs)
    ensures Import(ToRecords(Flatten(bs)), AllItemIds(bs)) == bs
  {
    CollectionItemsReadBack(bs);
    CollectionRowsReadBack(bs);
    GroupsOfValues(bs);
  }

  /* ---------- Fresh item ids do not matter beyond the ids ---------- */

  /** The items with their ids blanked out. */
  function ClearIds(items: seq<Item>): (r: seq<Item>)
    ensures |r| == |items|
  {
    seq(|items|, j requires 0 <= j < |items| => items[j].(id := ""))
  }

  function WithoutItemIds(b: Baggage): Baggage
  {
    b.(items := ClearIds(b.items))
  }

  /** A collection with every item id blanked out. */
  function StripItemIds(bs: seq<Baggage>): (r: seq<Baggage>)
    ensures |r| == |bs|
  {
    seq(|bs|, k requires 0 <= k < |bs| => WithoutItemIds(bs[k]))
  }

  lemma ClearIdsAppend(a: seq<Item>, c: seq<Item>)
    ensures ClearIds(a + c) == ClearIds(a) + ClearIds(c)
  {
  }

  lemma ClearIdsPrefix(items: seq<Item>, m: nat)
    requires m <= |items|
    ensures ClearIds(items[..m]) == ClearIds(items)[..m]
  {
  }

  /** Two item lists that agree up to the ids. */
  predicate SameButIds(items: seq<Item>, items': seq<Item>)
  {
    |items| == |items'| && ClearIds(items) == ClearIds(items')
  }

  lemma SameButIdsSnoc(a: seq<Item>, b: seq<Item>, x: Item, y: Item)
    requires SameButIds(a, b) && x.(id := "") == y.(id := "")
    ensures SameButIds(a + [x], b + [y])
  {
    ClearIdsAppend(a, [x]);
    ClearIdsAppend(b, [y]);
  }

  /** The items two imports of the same rows build differ only in their ids. */
  lemma {:induction false} RowItemsIgnoreIds(rows: seq<Record>, ids: seq<string>, ids': seq<string>)
    requires |ids| == |rows| && |ids'| == |rows|
    ensures SameButIds(RowItems(rows, ids), RowItems(rows, ids'))
  {
    if rows != [] {
      var n := |rows|;
      RowItemsIgnoreIds(rows[..n - 1], ids[..n - 1], ids'[..n - 1]);
      SameButIdsSnoc(RowItems(rows[..n - 1], ids[..n - 1]), RowItems(rows[..n - 1], ids'[..n - 1]),
        ImportedItem(rows[n - 1], ids[n - 1]), ImportedItem(rows[n - 1], ids'[n - 1]));
    }
  }

  /** Items that agree up to their ids are grouped alike. */
  lemma {:induction false} ItemsForIgnoresIds(rows: seq<Record>, items: seq<Item>, items': seq<Item>, key: string)
    requires |items| == |rows| && SameButIds(items, items')
    ensures SameButIds(ItemsFor(rows, items, key), ItemsFor(rows, items', key))
  {
    if rows != [] {
      var n := |rows|;
      var r := rows[n - 1];
      var p, q := items[..n - 1], items'[..n - 1];
      ClearIdsPrefix(items, n - 1);
      ClearIdsPrefix(items', n - 1);
      assert ClearIds(items)[n - 1] == ClearIds(items')[n - 1];
      assert ClearIds([items[n - 1]]) == ClearIds([items'[n - 1]]);
      ItemsForIgnoresIds(rows[..n - 1], p, q, key);
      var a, a' := ItemsFor(rows[..n - 1], p, key), ItemsFor(rows[..n - 1], q, key);
      var adds := Cell(r, BaggageIdColumn) == key && Cell(r, ItemNameColumn) != "";
      var t := if adds then [items[n - 1]] else [];
      var t' := if adds then [items'[n - 1]] else [];
      assert ItemsFor(rows, items, key) == a + t;
      assert ItemsFor(rows, items', key) == a' + t';
      ClearIdsAppend(a, t);
      ClearIdsAppend(a', t');
    }
  }

  /** The round trip: for a collection in which every bag has items and every
      item a name, an icon and a non-zero quantity, exporting and importing
      again gives back every bag's id, type and nickname and every item's name,
      icon, quantity and packed flag, in order, whatever fresh ids the items
      get. */
  lemma ExportImportRoundTrip(bs: seq<Baggage>, freshIds: seq<string>)
    requires Exportable(bs) && |freshIds| == TotalItems(bs)
    ensures StripItemIds(Import(ToRecords(Flatten(bs)), freshIds)) == StripItemIds(bs)
  {
    var rows := ToRecords(Flatten(bs));
    var ids := AllItemIds(bs);
    ExportImportExact(bs);
    ImportDescribed(rows, freshIds);
    ImportDescribed(rows, ids);
    RowItemsIgnoreIds(rows, freshIds, ids);
    var o := FirstAppearance(rows);
    forall k | 0 <= k < |o|
      ensures WithoutItemIds(Import(rows, freshIds)[k]) == WithoutItemIds(bs[k])
    {
      ItemsForIgnoresIds(rows, RowItems(rows, freshIds), RowItems(rows, ids), o[k]);
    }
  }
}
