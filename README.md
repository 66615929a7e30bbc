# PackTracker packing-list model

A Dafny model of the packing-list state of PackTracker, a single-page app for
keeping a list of bags (baggages) and the items packed in each. The model
covers the collection controller in `src/App.tsx`, the item-list operations of
one bag's card in `src/components/BaggageCard.tsx` and the per-item edits of
`src/components/ItemCard.tsx`.

Modules, following the program's structure:

- `Types`: the records of `src/types.ts` (`Item`, `Baggage`, `BaggageType`),
  plus a few collection measures (`Ids`, `TotalItems`, `DistinctIds`).
- `JsText`: the JavaScript string built-ins the core relies on (`trim`,
  `parseInt` without a radix, the decimal text of an integer). It follows
  sections 22.1.3.32, 19.2.5 and 6.1.6.1.20 of ECMA-262.
- `ItemCard`: the quantity and packed handlers of one item card. Each returns
  the record it would hand to `onUpdate`, or None when it hands nothing on.
- `BaggageCard`: `addItem`, `updateItem`, `deleteItem`, `updateNickname`,
  `togglePackAllItems` and `addCustomItem`. Each is a function from the bag to
  its new value. The operations that raise a toast also return an `Effect` tag
  naming it.
- `Persistence`: the shape check `isValidBaggageArray`, the value the
  collection is saved as, and the start-up load decision. They work on parsed
  JSON values.
- `Interchange`: the export of the collection to rows and the grouping of
  imported rows back into bags. It includes the export-then-import round trip.
- `App`: the class `PackTracker`. Its fields are the React state
  (`baggages`, `collapsedMap`, `isLoaded`) and the two storage areas. Its
  methods are the handlers and effects.

Values the source takes from outside are parameters:

- the clock and `Math.random` ids;
- the answer of `window.confirm`;
- whether a storage write was accepted;
- the JSON text codec;
- the rows the CSV codec produced.

Points where the model keeps the code as written:

- `addItem` matches an existing item by name alone, whether it is packed or
  not.
- `updateItem` only replaces by id and never merges items of the same name.
- An import keeps any non-empty bag type text unchecked and defaults only an
  empty one to `other`.
- An imported quantity keeps negative values; only 0 and NaN become 1.

## Model

| member | source | states |
|---|---|---|
| Types.TypeName | src/types.ts:16-21 | each bag type has its non-empty stored name |
| Types.Ids | src/types.ts:9-14 | the ids of a collection, slot by slot |
| ItemCard.UpdateQuantity | src/components/ItemCard.tsx:24-28 | an update is emitted exactly when the new quantity is positive, and it differs from the item only in its quantity |
| ItemCard.Decrement | src/components/ItemCard.tsx:43 | the minus button emits exactly when the quantity is above 1, and then one less, never below 1 |
| ItemCard.Increment | src/components/ItemCard.tsx:47 | the plus button emits exactly when the quantity is not negative, and then one more |
| ItemCard.TogglePacked | src/components/ItemCard.tsx:30-32 | the packed flag is negated and every other field kept |
| ItemCard.TogglePackedTwice | src/components/ItemCard.tsx:30-32 | toggling twice restores the item |
| ItemCard.Press | src/components/ItemCard.tsx:24-28 | from a quantity of at least 1, no sequence of plus and minus presses brings it below 1; only the quantity changes, by at most one per press |
| BaggageCard.FindIndexByName | src/components/BaggageCard.tsx:42-44 | -1 exactly when no item has the name, otherwise the first index with that name, packed or not |
| BaggageCard.FirstNamedUnique | src/components/BaggageCard.tsx:42-44 | the first index with a name is unique |
| BaggageCard.AddItem | src/components/BaggageCard.tsx:40-76 | an existing name gets one more in quantity at its first index, with nothing else changed and an increased-quantity effect; a new name is appended as an unpacked item of quantity 1 with an added-item effect; only the items change |
| BaggageCard.AddItemKeepsNamesDistinct | src/components/BaggageCard.tsx:40-76 | pairwise distinct names stay pairwise distinct |
| BaggageCard.ReplaceItem | src/components/BaggageCard.tsx:81-83 | same length; each slot holds the update when its id matches and the old item otherwise |
| BaggageCard.UpdateItem | src/components/BaggageCard.tsx:78-86 | only the items change; the length is kept; items with the id become the update verbatim, the others stay in place; nothing is merged |
| BaggageCard.ToggleOneItem | src/components/BaggageCard.tsx:78-86 | with unique ids, toggling one item through the update changes exactly that slot's packed flag and keeps the length |
| BaggageCard.SocksExample | src/components/BaggageCard.tsx:40-86 | with five packed and one unpacked sock, packing the unpacked one keeps two entries, and adding socks increments the first, packed, entry |
| BaggageCard.RemoveItem | src/components/BaggageCard.tsx:92 | the length drops by the number of items with the id, and a list without the id is unchanged |
| BaggageCard.RemoveItemMembers | src/components/BaggageCard.tsx:92 | an item remains exactly when it was there and has another id |
| BaggageCard.RemoveItemAppend | src/components/BaggageCard.tsx:92 | filtering distributes over concatenation, so relative order is kept |
| BaggageCard.FindItem | src/components/BaggageCard.tsx:89 | None exactly when no item has the id, otherwise the first item with it |
| BaggageCard.CountIdZeroIffAbsent | src/components/BaggageCard.tsx:88-98 | the id is counted zero times exactly when no item has it |
| BaggageCard.DeleteItem | src/components/BaggageCard.tsx:88-98 | the items with the id go; a removed effect with the first such item's name is raised exactly when one existed; otherwise the bag is unchanged and there is no effect |
| BaggageCard.UpdateNickname | src/components/BaggageCard.tsx:100-102 | only the nickname changes |
| BaggageCard.SetPacked | src/components/BaggageCard.tsx:108 | same length; each item is kept with the given packed flag |
| BaggageCard.TogglePackAll | src/components/BaggageCard.tsx:104-111 | every item gets the negation of all-packed, with ids, names, icons, quantities, order and length kept; an all-packed list is all unpacked, and any other list is all packed |
| BaggageCard.TogglePackAllFlips | src/components/BaggageCard.tsx:104-111 | on a non-empty list the toggle flips whether everything is packed |
| BaggageCard.AddCustomItem | src/components/BaggageCard.tsx:113-119 | nothing happens exactly when the typed name is all white space; otherwise the trimmed name is added with the chosen icon |
| JsText.TrimStartShape | src/components/BaggageCard.tsx:114 | trimming the start keeps a suffix that does not begin with white space and drops only white space |
| JsText.TrimEndShape | src/components/BaggageCard.tsx:114 | trimming the end keeps a prefix that does not end with white space and drops only white space |
| JsText.TrimIsCore | src/components/BaggageCard.tsx:114-115 | the trimmed name is a slice of the input with no white space at either end, and it is empty exactly when the input is all white space |
| JsText.ReadDigitsSnoc | src/App.tsx:243 | reading one more digit multiplies by the radix and adds the digit |
| JsText.NatToStringValue | src/App.tsx:243 | the decimal digits of a number read back as that number |
| JsText.DigitsReadBack | src/App.tsx:243 | the unsigned part of parseInt reads the decimal digits of a number back as that number |
| JsText.ParseIntUnsigned | src/App.tsx:243 | text starting with a digit is read by the unsigned part alone |
| JsText.ParseIntNegative | src/App.tsx:243 | a minus sign followed by a digit reads as the negated unsigned part |
| JsText.ParseIntOfIntToString | src/App.tsx:243 | parseInt reads back the decimal text of every integer |
| Persistence.Every | src/App.tsx:21 | Accept exactly when every element passes; otherwise the verdict of the first element that does not pass |
| Persistence.ItemVerdictMeaning | src/App.tsx:27-34 | an item passes exactly when it has the five fields with the right types, and the check throws exactly on `null` |
| Persistence.BagVerdictMeaning | src/App.tsx:22-34 | a bag passes exactly when it has its shape and every item has the item shape; it throws only on a `null` bag or a `null` item |
| Persistence.IsValidBaggageArray | src/App.tsx:19-36 | a non-array is rejected and the empty array accepted; an array is accepted exactly when every bag and every nested item has its shape; it throws only on a `null` bag or item |
| Persistence.ItemReadsBack | src/App.tsx:89 | a saved item passes the item check and reads back as itself |
| Persistence.BagReadsBack | src/App.tsx:89 | a saved bag passes the bag check and reads back as itself |
| Persistence.SaveThenLoad | src/App.tsx:49-65 | what is saved passes the check and reads back as the same collection |
| Persistence.LoadCollection | src/App.tsx:49-65 | a collection is adopted exactly when there is a non-empty entry that parses and passes; nothing is stored exactly when the entry is missing or empty; the load fails exactly when parsing or the check throws |
| Persistence.GetItemAfterWrite | src/App.tsx:51 | reading a key returns the text last written under it, a removed key reads as absent, and writing or removing one key leaves every other key's reading unchanged |
| Persistence.ReloadAfterSave | src/App.tsx:49-94 | with a text codec that reads back what it prints, what the save effect writes is adopted by the next load |
| Interchange.Flatten | src/App.tsx:176-190 | one row per item: the row count is the total number of items |
| Interchange.FlattenAppend | src/App.tsx:178-190 | the rows of two collections side by side are the rows of each, in order |
| Interchange.EmptyBagExportsNothing | src/App.tsx:178-190 | a bag without items contributes no rows |
| Interchange.ExportRows | src/App.tsx:176-190 | the nested loops push exactly the flattened rows: bag order, then item order, one row per item |
| Interchange.ImportQuantity | src/App.tsx:243 | never 0; an empty cell, a cell parsing to 0 ("0", "-0") and NaN read as 1; any other non-zero parsed value, negative included, is kept |
| Interchange.QuantityReadsBack | src/App.tsx:243 | the decimal text of a non-zero quantity reads back as that quantity |
| Interchange.RowItemsAt | src/App.tsx:239-245 | the i-th row's item is built from that row and the i-th fresh id |
| Interchange.RowItemsAppend | src/App.tsx:226-247 | the items of two row runs side by side are the items of each |
| Interchange.ImportRowKeepsValid | src/App.tsx:226-247 | one row keeps the dictionary well formed: every key once, each bag filed under its own id |
| Interchange.ImportAllKeepsValid | src/App.tsx:226-247 | the whole `forEach` keeps the dictionary well formed |
| Interchange.Values | src/App.tsx:249 | the values in key order, each bag carrying its key as id |
| Interchange.Import | src/App.tsx:224-249 | one bag per distinct non-empty id among the rows, in order of first appearance, with pairwise distinct ids |
| Interchange.ImportRows | src/App.tsx:224-249 | the loop that fills the dictionary and then takes its values computes the import |
| Interchange.FirstAppearance | src/App.tsx:227-236 | the non-empty ids, each once |
| Interchange.FirstRowOf | src/App.tsx:229 | the first row carrying the id, -1 when none does |
| Interchange.FirstAppearanceMember | src/App.tsx:227-236 | an id is among the appearances exactly when it is non-empty and some row carries it |
| Interchange.FirstAppearanceOrder | src/App.tsx:227-236 | the ids are listed in the order of the rows that first carry them |
| Interchange.ItemsForAbsent | src/App.tsx:238-246 | an id no row carries gets no items |
| Interchange.ImportAllOrder | src/App.tsx:227-236 | the keys are set in order of first appearance, and they are exactly the appearing ids |
| Interchange.ImportRowBag | src/App.tsx:226-247 | one row leaves the bags of other ids alone; for its own id it creates the bag when missing and appends its item when it names one |
| Interchange.ImportAllBag | src/App.tsx:226-247 | the bag filed under an appearing id is that id's first row's bag holding the items of all rows of the id |
| Interchange.ImportDescribed | src/App.tsx:226-249 | the import, row by row: rows without an id are skipped; the first row of an id fixes id, type (`other` when blank) and nickname; every row of the id with an item name adds its item in row order; a row without an item name still creates its bag |
| Interchange.ItemRowReadsBack | src/App.tsx:180-245 | the row of an exportable item reads back as that item when given its id |
| Interchange.BagItemsReadBack | src/App.tsx:179-245 | the rows of a bag's exportable items read back as those items |
| Interchange.CollectionItemsReadBack | src/App.tsx:178-245 | the rows of an exportable collection read back as its items in export order |
| Interchange.ImportRowAppends | src/App.tsx:229-246 | a row with an id and an item name appends its item to the id's bag, creating it first when missing |
| Interchange.ItemRowCells | src/App.tsx:180-235 | an exported item row carries its bag's id, a non-empty item name, and the bag's type and nickname |
| Interchange.BagRowsReadBack | src/App.tsx:178-247 | the first rows of one bag file that bag with its first items |
| Interchange.BagReadsBack | src/App.tsx:178-247 | all rows of one exportable bag file the whole bag |
| Interchange.GroupsOf | src/App.tsx:224 | the dictionary holding exactly the given bags, keyed by id, in their order |
| Interchange.GroupsOfValues | src/App.tsx:249 | that dictionary is well formed and its values are the collection again |
| Interchange.CollectionRowsReadBack | src/App.tsx:176-247 | reading the exported rows with the original items fills exactly the collection's dictionary |
| Interchange.ExportImportExact | src/App.tsx:176-249 | importing the exported rows with the original item ids gives the collection back exactly |
| Interchange.RowItemsIgnoreIds | src/App.tsx:239-245 | the items two imports of the same rows build differ only in their ids |
| Interchange.ItemsForIgnoresIds | src/App.tsx:238-246 | items that agree up to their ids are grouped alike |
| Interchange.ExportImportRoundTrip | src/App.tsx:176-249 | for bags with distinct non-empty ids and types, at least one item each, and items with a name, an icon and a non-zero quantity, export then import gives back every bag's id, type and nickname and every item's name, icon, quantity and packed flag, in order, whatever fresh item ids are drawn |
| App.ReplaceBaggage | src/App.tsx:120-122 | same length; each slot holds the update when its id matches and the old bag otherwise |
| App.ReplaceBaggageAt | src/App.tsx:118-124 | with distinct ids, the update overwrites the matching slot and nothing else |
| App.ReplaceBaggageSlot | src/App.tsx:118-124 | with distinct ids, the update overwrites the matching slot, and an update of an absent id changes nothing |
| App.RemoveBaggage | src/App.tsx:136 | the length drops by the number of bags with the id; a collection without the id is unchanged; the id is gone afterwards |
| App.RemoveBaggageMembers | src/App.tsx:136 | a bag remains exactly when it was there and has another id |
| App.RemoveBaggageSlot | src/App.tsx:136 | with distinct ids, deleting the bag in one slot closes the gap |
| App.FindBaggage | src/App.tsx:127 | None exactly when no bag has the id; a found bag is in the collection and has the id |
| App.FindBaggageFirst | src/App.tsx:127 | the bag found is the first one with the id |
| App.PackTracker.constructor | src/App.tsx:39-41 | start with an empty collection and collapse map, not yet loaded |
| App.PackTracker.IsAnyCollapsed | src/App.tsx:43-46 | true exactly when some bag is shown collapsed |
| App.PackTracker.LoadCollection | src/App.tsx:49-65 | the outcome follows what the durable area holds; the collection changes only when data is adopted; the load flag is set on every path |
| App.PackTracker.SaveCollection | src/App.tsx:85-94 | the collection is written under its key only once loaded and when the write is accepted; otherwise the durable area is unchanged |
| App.PackTracker.SaveCollapsed | src/App.tsx:97-105 | the collapse map is written to the per-tab area under the same gate |
| App.PackTracker.AddBaggage | src/App.tsx:107-116 | exactly one empty, unnamed bag of the given type is appended, the others are unchanged, and it is marked expanded |
| App.PackTracker.UpdateBaggage | src/App.tsx:118-124 | the collection becomes the replaced collection |
| App.PackTracker.DeleteBaggage | src/App.tsx:126-143 | no question exactly when a bag with the id is found with no items; the question names the nickname or "this baggage"; on removal the id's bags and collapse entry go; declining changes nothing |
| App.PackTracker.ClearAllData | src/App.tsx:145-155 | the fixed clear question is always put; confirmed: empty collection, empty map, durable key removed; declined: nothing changes |
| App.PackTracker.SetAllCollapsed | src/App.tsx:157-163 | the new map's keys are exactly the current ids, all set to the flag, and something is collapsed exactly when the flag is set and there are bags |
| App.PackTracker.SetCollapsed | src/App.tsx:381-382 | one bag's collapse entry is set to the flag |
| App.PackTracker.ExportToCsv | src/App.tsx:176-190 | the exported rows are the flattened collection, one per item |
| App.PackTracker.ImportFromCsv | src/App.tsx:205-251 | no file changes nothing; otherwise the import replaces the whole collection |

## Left out

- Rendering, CSS, icon lookup and the UI-only state (the add-item panel, the custom name field) are presentation only.
- Toasts are calls into a notification library. Only the `Effect` tag an item operation returns is kept.
- The CSV text codec is a foreign library. The model starts from the rows as column-to-text maps and returns exported rows as records. Extra columns of an import are not kept.
- The JSON text codec is foreign. The class is handed a parser, with None for a throw, and a printer.
- The real storage areas are two string maps on the class. A write the browser refuses is the `accepted` flag, and the refusal is only logged.
- The session-map load and its `typeof === "object"` check are left out. That check also admits `null` and arrays.
- React effect scheduling and state batching are left out. Each handler and each effect is one method, run atomically.
- `clearAllData` removes the durable key, but the save effect that runs afterwards writes `[]` again. The model keeps the two as separate methods.
- Ids come from `Date.now()` and `Math.random()` in the source. Here they are parameters: `freshId`, and `ids` for an import. Collisions within one millisecond are not modelled.
- `window.confirm` is the `confirmed` parameter.
- `Object.values` enumerates integer-like keys in numeric order first. The model takes the dictionary's values in order of first appearance, so the round trip is stated in that order.
- Ids named after built-in object properties (`__proto__`, `constructor`) are not modelled. JavaScript treats such dictionary keys specially.
- Numbers are unbounded integers. Fractional quantities, precision loss beyond 2^53 and the exponent forms of `String(n)` are not modelled.
- Persistence.DecodeCollection: adopts only the checked fields. The source keeps the parsed value whole, extra fields included.
- App.PackTracker.LoadCollection: is stated against the collection the app had before the load. Started from the constructor, that is the empty collection.
