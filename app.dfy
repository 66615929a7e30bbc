/** The collection controller (src/App.tsx:38-257): the state the app holds,
    the handlers that change it, and the effects that load it from storage and
    save it back. React state and effects become a class whose methods update
    its fields; the browser's storage areas are two fields, the JSON text codec
    is handed in, and the values the source takes from the clock, from random
    numbers and from `window.confirm` are method parameters. */
module App {
  import opened Types
  import Persistence
  import Interchange

  /* ---------- The collection as a value ---------- */

  /** `baggages.map(bag => bag.id === updated.id ? updated : bag)`. */
  function ReplaceBaggage(bs: seq<Baggage>, updated: Baggage): (r: seq<Baggage>)
    ensures |r| == |bs|
    ensures forall k :: 0 <= k < |bs| ==> r[k] == if bs[k].id == updated.id then updated else bs[k]
  {
    if bs == [] then []
    else [if bs[0].id == updated.id then updated else bs[0]] + ReplaceBaggage(bs[1..], updated)
  }

  /** With distinct ids, updating a bag overwrites its slot and nothing else,
      and updating a bag that is not there changes nothing. */
  lemma ReplaceBaggageSlot(bs: seq<Baggage>, updated: Baggage)
    requires DistinctIds(bs)
    ensures forall k :: 0 <= k < |bs| && bs[k].id == updated.id ==> ReplaceBaggage(bs, updated) == bs[k := updated]
    ensures updated.id !in Ids(bs) ==> ReplaceBaggage(bs, updated) == bs
  {
    forall k | 0 <= k < |bs| && bs[k].id == updated.id
      ensures ReplaceBaggage(bs, updated) == bs[k := updated]
    {
      ReplaceBaggageAt(bs, updated, k);
    }
    if updated.id !in Ids(bs) {
      assert forall j :: 0 <= j < |bs| ==> bs[j].id != updated.id by {
        assert forall j :: 0 <= j < |bs| ==> Ids(bs)[j] == bs[j].id;
      }
    }
  }

  lemma ReplaceBaggageAt(bs: seq<Baggage>, updated: Baggage, k: int)
    requires DistinctIds(bs) && 0 <= k < |bs| && bs[k].id == updated.id
    ensures ReplaceBaggage(bs, updated) == bs[k := updated]
  {
    assert forall j :: 0 <= j < |bs| && j != k ==> bs[j].id != updated.id;
  }

  /** The ids of a collection, read from the front. */
  lemma IdsCons(bs: seq<Baggage>)
    requires bs != []
    ensures Ids(bs) == [bs[0].id] + Ids(bs[1..])
  {
    assert forall k :: 1 <= k < |bs| ==> bs[1..][k - 1] == bs[k];
  }

  /** The number of bags with the given id. */
  function CountId(bs: seq<Baggage>, id: string): nat
  {
    if bs == [] then 0 else (if bs[0].id == id then 1 else 0) + CountId(bs[1..], id)
  }

  /** `baggages.filter(bag => bag.id !== id)`: exactly the bags with another
      id, in their order. */
  function RemoveBaggage(bs: seq<Baggage>, id: string): (r: seq<Baggage>)
    ensures |r| == |bs| - CountId(bs, id)
    ensures id !in Ids(bs) ==> r == bs
    ensures id !in Ids(r)
  {
    if bs == [] then []
    else
      IdsCons(bs);
      var rest := RemoveBaggage(bs[1..], id);
      if bs[0].id == id then rest
      else
        IdsCons([bs[0]] + rest);
        assert ([bs[0]] + rest)[1..] == rest;
        [bs[0]] + rest
  }

  /** What stays is exactly the bags with another id. */
  lemma {:induction false} RemoveBaggageMembers(bs: seq<Baggage>, id: string)
    ensures forall b :: b in RemoveBaggage(bs, id) <==> b in bs && b.id != id
  {
    if bs != [] {
      RemoveBaggageMembers(bs[1..], id);
      assert forall b :: b in bs <==> b == bs[0] || b in bs[1..];
    }
  }

  /** With distinct ids, deleting the bag in slot `k` closes the gap. */
  lemma {:induction false} RemoveBaggageSlot(bs: seq<Baggage>, k: int)
    requires DistinctIds(bs) && 0 <= k < |bs|
    ensures RemoveBaggage(bs, bs[k].id) == bs[..k] + bs[k + 1..]
  {
    var id := bs[k].id;
    var tail := bs[1..];
    assert DistinctIds(tail);
    if k == 0 {
      assert forall j :: 0 <= j < |tail| ==> Ids(tail)[j] != id;
      assert bs[k + 1..] == tail;
    } else {
      RemoveBaggageSlot(tail, k - 1);
      assert tail[k - 1].id == id;
      SliceAround(bs, k);
    }
  }

  lemma SliceAround(bs: seq<Baggage>, k: int)
    requires 0 < k < |bs|
    ensures [bs[0]] + (bs[1..][..k - 1] + bs[1..][k..]) == bs[..k] + bs[k + 1..]
  {
    assert bs[1..][..k - 1] == bs[1..k] && bs[1..][k..] == bs[k + 1..];
    assert [bs[0]] + bs[1..k] == bs[..k];
  }

  /** `baggages.find(bag => bag.id === id)`. */
  function FindBaggage(bs: seq<Baggage>, id: string): (r: Option<Baggage>)
    ensures r.None? <==> id !in Ids(bs)
    ensures r.Some? ==> r.value in bs && r.value.id == id
  {
    if bs == [] then None
    else if bs[0].id == id then Some(bs[0])
    else
      IdsCons(bs);
      FindBaggage(bs[1..], id)
  }

  /** The bag found is the first one with the id. */
  lemma {:induction false} FindBaggageFirst(bs: seq<Baggage>, id: string, k: int)
    requires 0 <= k < |bs| && bs[k].id == id
    requires forall j :: 0 <= j < k ==> bs[j].id != id
    ensures FindBaggage(bs, id) == Some(bs[k])
  {
    if k > 0 {
      assert bs[0].id != id;
      FindBaggageFirst(bs[1..], id, k - 1);
    }
  }

  /** The question `deleteBaggage` puts before removing a bag, naming it by its
      nickname when it has one. */
  function DeletePrompt(found: Option<Baggage>): string
  {
    var subject := if found.Some? && found.value.nickname != "" then found.value.nickname else "this baggage";
    "Are you sure you want to delete " + subject + "? This action cannot be undone."
  }

  /** The question `clearAllData` puts. */
  const ClearPrompt: string := "Are you sure you want to clear all luggage data? This action cannot be undone."

  /* ---------- The app's state ---------- */

  class PackTracker {
    /** The collection on screen. */
    var baggages: seq<Baggage>
    /** Which bags are shown collapsed, by id. */
    var collapsedMap: map<string, bool>
    /** Set once the start-up load has run; the save effects wait for it. */
    var isLoaded: bool
    /** The durable storage area (`localStorage`). */
    var durable: map<string, string>
    /** The per-tab storage area (`sessionStorage`). */
    var session: map<string, string>
    /** The JSON text codec: `JSON.parse`, None when it throws, and
        `JSON.stringify`. */
    const parse: string -> Option<Persistence.Json>
    const stringify: Persistence.Json -> string

    /** First render: an empty collection and map, nothing loaded yet. */
    constructor (durable: map<string, string>, session: map<string, string>,
                 parse: string -> Option<Persistence.Json>, stringify: Persistence.Json -> string)
      ensures baggages == [] && collapsedMap == map[] && !isLoaded
      ensures this.durable == durable && this.session == session
      ensures this.parse == parse && this.stringify == stringify
    {
      baggages := [];
      collapsedMap := map[];
      isLoaded := false;
      this.durable := durable;
      this.session := session;
      this.parse := parse;
      this.stringify := stringify;
    }

    /** `!!collapsedMap[id]`: a bag missing from the map is shown expanded. */
    predicate IsCollapsed(id: string)
      reads this
    {
      id in collapsedMap && collapsedMap[id]
    }

    /** `Object.values(collapsedMap).some(v => v)`. */
    function IsAnyCollapsed(): (r: bool)
      reads this
      ensures r <==> exists id :: IsCollapsed(id)
    {
      var r := true in collapsedMap.Values;
      assert r ==> exists id :: IsCollapsed(id) by {
        if r {
          var id :| id in collapsedMap && collapsedMap[id] == true;
          assert IsCollapsed(id);
        }
      }
      assert (exists id :: IsCollapsed(id)) ==> r by {
        if exists id :: IsCollapsed(id) {
          var id :| IsCollapsed(id);
          assert collapsedMap[id] in collapsedMap.Values;
        }
      }
      r
    }

    /** The mount effect that loads the collection: the outcome is decided by
        what the durable area holds under the key, the collection changes only
        when that is adopted, and the save effects are armed in every case. */
    method LoadCollection() returns (outcome: Persistence.LoadOutcome)
      modifies this`baggages, this`isLoaded
      ensures outcome == Persistence.LoadCollection(Persistence.GetItem(durable, Persistence.StorageKey), parse)
      ensures baggages == if outcome.Adopted? then outcome.collection else old(baggages)
      ensures isLoaded
    {
      outcome := Persistence.LoadCollection(Persistence.GetItem(durable, Persistence.StorageKey), parse);
      if outcome.Adopted? {
        baggages := outcome.collection;
      }
      isLoaded := true;
    }

    /** The effect that saves the collection. `accepted` says whether the
        storage area took the write; a refused write is only logged. Nothing
        is written before the load has run. */
    method SaveCollection(accepted: bool)
      modifies this`durable
      ensures durable == if isLoaded && accepted
        then old(durable)[Persistence.StorageKey := stringify(Persistence.EncodeCollection(baggages))]
        else old(durable)
    {
      if isLoaded && accepted {
        durable := durable[Persistence.StorageKey := stringify(Persistence.EncodeCollection(baggages))];
      }
    }

    /** The effect that saves the collapse map to the per-tab area, under the
        same gate. */
    method SaveCollapsed(accepted: bool)
      modifies this`session
      ensures session == if isLoaded && accepted
        then old(session)[Persistence.SessionKey := stringify(Persistence.EncodeCollapsed(collapsedMap))]
        else old(session)
    {
      if isLoaded && accepted {
        session := session[Persistence.SessionKey := stringify(Persistence.EncodeCollapsed(collapsedMap))];
      }
    }

    /** `addBaggage(type)`: a new empty, unnamed bag of that type at the end,
        shown expanded. `freshId` is the clock reading the source uses as id. */
    method AddBaggage(t: BaggageType, freshId: string)
      modifies this`baggages, this`collapsedMap
      ensures baggages == old(baggages) + [Baggage(freshId, TypeName(t), "", [])]
      ensures collapsedMap == old(collapsedMap)[freshId := false]
      ensures !IsCollapsed(freshId)
    {
      baggages := baggages + [Baggage(freshId, TypeName(t), "", [])];
      collapsedMap := collapsedMap[freshId := false];
    }

    /** `updateBaggage(updated)`: the `onUpdate` a bag card calls. */
    method UpdateBaggage(updated: Baggage)
      modifies this`baggages
      ensures baggages == ReplaceBaggage(old(baggages), updated)
    {
      baggages := ReplaceBaggage(baggages, updated);
    }

    /** `deleteBaggage(id)`. A bag that is found and has no items goes without
        a question; otherwise the question is put (naming "this baggage" also
        when no bag has the id), `confirmed` is the answer, and declining
        changes nothing. Removal drops every bag with the id and the id's
        entry in the collapse map. */
    method DeleteBaggage(id: string, confirmed: bool) returns (prompt: Option<string>)
      modifies this`baggages, this`collapsedMap
      ensures prompt.None? <==> FindBaggage(old(baggages), id).Some? && FindBaggage(old(baggages), id).value.items == []
      ensures prompt.Some? ==> prompt.value == DeletePrompt(FindBaggage(old(baggages), id))
      ensures prompt.None? || confirmed ==>
        baggages == RemoveBaggage(old(baggages), id) && collapsedMap == old(collapsedMap) - {id}
      ensures prompt.Some? && !confirmed ==> baggages == old(baggages) && collapsedMap == old(collapsedMap)
      ensures prompt.None? || confirmed ==> id !in Ids(baggages) && id !in collapsedMap
    {
      var found := FindBaggage(baggages, id);
      if found.Some? && found.value.items == [] {
        prompt := None;
      } else {
        prompt := Some(DeletePrompt(found));
      }
      if prompt.None? || confirmed {
        baggages := RemoveBaggage(baggages, id);
        collapsedMap := collapsedMap - {id};
      }
    }

    /** `clearAllData()`: the question is always put; on confirmation the collection and the collapse map
        are emptied and the durable entry is removed; declining changes
        nothing. */
    method ClearAllData(confirmed: bool) returns (prompt: string)
      modifies this`baggages, this`collapsedMap, this`durable
      ensures prompt == ClearPrompt
      ensures confirmed ==>
        baggages == [] && collapsedMap == map[] && durable == old(durable) - {Persistence.StorageKey}
      ensures !confirmed ==>
        baggages == old(baggages) && collapsedMap == old(collapsedMap) && durable == old(durable)
    {
      prompt := ClearPrompt;
      if confirmed {
        baggages := [];
        collapsedMap := map[];
        durable := durable - {Persistence.StorageKey};
      }
    }

    /** `setAllCollapsed(collapsed)`: a fresh map with one entry per current
        bag, all set to `collapsed`; entries for ids no longer present are
        dropped. */
    method SetAllCollapsed(collapsed: bool)
      modifies this`collapsedMap
      ensures forall id :: id in collapsedMap <==> id in Ids(baggages)
      ensures forall id :: id in collapsedMap ==> collapsedMap[id] == collapsed
      ensures IsAnyCollapsed() <==> collapsed && baggages != []
    {
      var newMap: map<string, bool> := map[];
      var i := 0;
      while i < |baggages|
        invariant 0 <= i <= |baggages|
        invariant forall id :: id in newMap <==> id in Ids(baggages[..i])
        invariant forall id :: id in newMap ==> newMap[id] == collapsed
      {
        assert Ids(baggages[..i + 1]) == Ids(baggages[..i]) + [baggages[i].id] by {
          assert baggages[..i + 1][..i] == baggages[..i];
        }
        newMap := newMap[baggages[i].id := collapsed];
        i := i + 1;
      }
      assert baggages[..i] == baggages;
      collapsedMap := newMap;
      if baggages != [] {
        assert IsCollapsed(baggages[0].id) <==> collapsed by {
          assert Ids(baggages)[0] == baggages[0].id;
        }
      }
    }

    /** The collapse toggle of one bag card. */
    method SetCollapsed(id: string, collapsed: bool)
      modifies this`collapsedMap
      ensures collapsedMap == old(collapsedMap)[id := collapsed]
      ensures IsCollapsed(id) == collapsed
    {
      collapsedMap := collapsedMap[id := collapsed];
    }

    /** `exportToCSV()` up to the CSV codec and the download: one row per item,
        in bag order and then item order. */
    method ExportToCsv() returns (rows: seq<Interchange.ExportRow>)
      ensures rows == Interchange.Flatten(baggages)
      ensures |rows| == TotalItems(baggages)
    {
      rows := Interchange.ExportRows(baggages);
    }

    /** `importFromCSV(event)` from the parsed rows on: no file changes
        nothing, and otherwise the imported bags replace the whole collection.
        `ids` are the fresh item ids, one per row. */
    method ImportFromCsv(parsed: Option<seq<Interchange.Record>>, ids: seq<string>)
      requires parsed.Some? ==> |ids| == |parsed.value|
      modifies this`baggages
      ensures baggages == if parsed.Some? then Interchange.Import(parsed.value, ids) else old(baggages)
    {
      if parsed.Some? {
        baggages := Interchange.ImportRows(parsed.value, ids);
      }
    }
  }
}
