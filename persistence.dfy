/** Loading and saving the collection (src/App.tsx:16-105): the shape check run
    on what storage holds, the value the collection is saved as, and the rule
    that decides what the app starts with. JSON text is a foreign codec here:
    the model works on parsed values, and the class in module App is handed
    the text parser and printer. */
module Persistence {
  import opened Types

  /** A parsed JSON value. Numbers are integers in this model. */
  datatype Json =
    | JNull
    | JBool(b: bool)
    | JNumber(n: int)
    | JString(s: string)
    | JArray(elems: seq<Json>)
    | JObject(fields: map<string, Json>)

  /** How evaluating the shape check ends: it returns true, it returns false, or
      it throws, which reading a field of `null` does. */
  datatype Verdict = Accept | Reject | Throw

  /** The durable entry holding the collection. */
  const StorageKey: string := "luggage-tracker-data"
  /** The session entry holding the collapse map. */
  const SessionKey: string := "luggage-tracker-session-data"

  predicate HasString(f: map<string, Json>, key: string) { key in f && f[key].JString? }
  predicate HasNumber(f: map<string, Json>, key: string) { key in f && f[key].JNumber? }
  predicate HasBool(f: map<string, Json>, key: string) { key in f && f[key].JBool? }
  predicate HasArray(f: map<string, Json>, key: string) { key in f && f[key].JArray? }

  /** `xs.every(check)`: the verdict of the first element that does not pass,
      and Accept when all pass; elements after the first failure are not
      looked at. */
  function Every(xs: seq<Json>, check: Json -> Verdict): (r: Verdict)
    ensures r == Accept <==> forall i :: 0 <= i < |xs| ==> check(xs[i]) == Accept
    ensures r != Accept ==>
      exists i :: 0 <= i < |xs| && check(xs[i]) == r && forall j :: 0 <= j < i ==> check(xs[j]) == Accept
  {
    if xs == [] then Accept
    else if check(xs[0]) != Accept then check(xs[0])
    else
      var r := Every(xs[1..], check);
      assert r != Accept ==> exists i :: 1 <= i < |xs| && check(xs[i]) == r && forall j :: 0 <= j < i ==> check(xs[j]) == Accept by {
        if r != Accept {
          var i :| 0 <= i < |xs[1..]| && check(xs[1..][i]) == r && forall j :: 0 <= j < i ==> check(xs[1..][j]) == Accept;
          assert forall j :: 1 <= j < i + 1 ==> check(xs[j]) == check(xs[1..][j - 1]);
        }
      }
      r
  }

  /** The check on one item: five fields of the right JavaScript types. */
  function ItemVerdict(item: Json): Verdict
  {
    match item
    case JNull => Throw
    case JObject(f) =>
      if HasString(f, "id") && HasString(f, "name") && HasString(f, "icon")
         && HasNumber(f, "quantity") && HasBool(f, "packed")
      then Accept else Reject
    case _ => Reject
  }

  /** The check on one bag: string id, type and nickname, an items array, and
      every item passing. */
  function BagVerdict(bag: Json): Verdict
  {
    match bag
    case JNull => Throw
    case JObject(f) =>
      if HasString(f, "id") && HasString(f, "type") && HasString(f, "nickname") && HasArray(f, "items")
      then Every(f["items"].elems, ItemVerdict) else Reject
    case _ => Reject
  }

  /** The item shape, stated on its own. */
  predicate WellFormedItem(j: Json)
  {
    && j.JObject?
    && HasString(j.fields, "id") && HasString(j.fields, "name") && HasString(j.fields, "icon")
    && HasNumber(j.fields, "quantity") && HasBool(j.fields, "packed")
  }

  /** The bag shape, stated on its own: every nested item must have the item
      shape. */
  predicate WellFormedBag(j: Json)
  {
    && j.JObject?
    && HasString(j.fields, "id") && HasString(j.fields, "type") && HasString(j.fields, "nickname")
    && HasArray(j.fields, "items")
    && forall i :: 0 <= i < |j.fields["items"].elems| ==> WellFormedItem(j.fields["items"].elems[i])
  }

  /** A bag whose own fields are fine but one of whose items is `null`. */
  predicate HasNullItem(j: Json)
  {
    j.JObject? && HasArray(j.fields, "items") && JNull in j.fields["items"].elems
  }

  /** `isValidBaggageArray(data)`. Anything but an array is rejected and the
      empty array accepted; an array is accepted exactly when every bag and
      every item in it has its shape, so one bad nested field rejects the
      whole. The check throws only on a `null` bag or a `null` item. */
  function IsValidBaggageArray(data: Json): (r: Verdict)
    ensures !data.JArray? ==> r == Reject
    ensures data == JArray([]) ==> r == Accept
    ensures r == Accept <==> data.JArray? && forall k :: 0 <= k < |data.elems| ==> WellFormedBag(data.elems[k])
    ensures r == Throw ==> data.JArray? && exists k :: 0 <= k < |data.elems| && (data.elems[k] == JNull || HasNullItem(data.elems[k]))
  {
    if !data.JArray? then Reject
    else
      var r := Every(data.elems, BagVerdict);
      BagVerdictMeaning(data.elems);
      r
  }

  lemma ItemVerdictMeaning(item: Json)
    ensures ItemVerdict(item) == Accept <==> WellFormedItem(item)
    ensures ItemVerdict(item) == Throw <==> item == JNull
  {
  }

  lemma BagVerdictMeaning(bags: seq<Json>)
    ensures forall k :: 0 <= k < |bags| ==> (BagVerdict(bags[k]) == Accept <==> WellFormedBag(bags[k]))
    ensures forall k :: 0 <= k < |bags| && BagVerdict(bags[k]) == Throw ==> bags[k] == JNull || HasNullItem(bags[k])
  {
    forall k | 0 <= k < |bags|
      ensures BagVerdict(bags[k]) == Accept <==> WellFormedBag(bags[k])
      ensures BagVerdict(bags[k]) == Throw ==> bags[k] == JNull || HasNullItem(bags[k])
    {
      var bag := bags[k];
      if bag.JObject? && HasArray(bag.fields, "items") {
        var items := bag.fields["items"].elems;
        forall i | 0 <= i < |items| { ItemVerdictMeaning(items[i]); }
        if Every(items, ItemVerdict) == Throw {
          var i :| 0 <= i < |items| && ItemVerdict(items[i]) == Throw;
          assert items[i] == JNull;
        }
      }
    }
  }

  function EncodeItem(i: Item): Json
  {
    JObject(map[
      "id" := JString(i.id), "name" := JString(i.name), "icon" := JString(i.icon),
      "quantity" := JNumber(i.quantity), "packed" := JBool(i.packed)])
  }

  function EncodeBag(b: Baggage): Json
  {
    JObject(map[
      "id" := JString(b.id), "type" := JString(b.kind), "nickname" := JString(b.nickname),
      "items" := JArray(seq(|b.items|, i requires 0 <= i < |b.items| => EncodeItem(b.items[i])))])
  }

  /** The value `JSON.stringify(baggages)` prints. */
  function EncodeCollection(bs: seq<Baggage>): Json
  {
    JArray(seq(|bs|, k requires 0 <= k < |bs| => EncodeBag(bs[k])))
  }

  /** The value `JSON.stringify(collapsedMap)` prints. */
  function EncodeCollapsed(m: map<string, bool>): Json
  {
    JObject(map k | k in m :: JBool(m[k]))
  }

  function DecodeItem(j: Json): Item
    requires WellFormedItem(j)
  {
    var f := j.fields;
    Item(f["id"].s, f["name"].s, f["icon"].s, f["quantity"].n, f["packed"].b)
  }

  function DecodeBag(j: Json): Baggage
    requires WellFormedBag(j)
  {
    var f := j.fields;
    var items := f["items"].elems;
    Baggage(f["id"].s, f["type"].s, f["nickname"].s,
      seq(|items|, i requires 0 <= i < |items| => DecodeItem(items[i])))
  }

  /** The collection an accepted value stands for (the source adopts the parsed
      value as it is; fields beyond the checked ones are dropped here). */
  function DecodeCollection(data: Json): seq<Baggage>
    requires IsValidBaggageArray(data) == Accept
  {
    seq(|data.elems|, k requires 0 <= k < |data.elems| => DecodeBag(data.elems[k]))
  }

  lemma ItemReadsBack(i: Item)
    ensures WellFormedItem(EncodeItem(i)) && DecodeItem(EncodeItem(i)) == i
  {
  }

  lemma BagReadsBack(b: Baggage)
    ensures WellFormedBag(EncodeBag(b)) && DecodeBag(EncodeBag(b)) == b
  {
    var items := EncodeBag(b).fields["items"].elems;
    forall i | 0 <= i < |items| ensures WellFormedItem(items[i]) && DecodeItem(items[i]) == b.items[i] {
      ItemReadsBack(b.items[i]);
    }
    assert DecodeBag(EncodeBag(b)).items == b.items;
  }

  /** What is saved passes the check and reads back as the same collection. */
  lemma SaveThenLoad(bs: seq<Baggage>)
    ensures IsValidBaggageArray(EncodeCollection(bs)) == Accept
    ensures DecodeCollection(EncodeCollection(bs)) == bs
  {
    var data := EncodeCollection(bs);
    forall k | 0 <= k < |bs| ensures WellFormedBag(data.elems[k]) && DecodeBag(data.elems[k]) == bs[k] {
      BagReadsBack(bs[k]);
    }
  }

  /** How the start-up load of the collection ends. */
  datatype LoadOutcome =
    | NothingStored             // no entry, or an empty one
    | Adopted(collection: seq<Baggage>)
    | Ignored                   // parsed but rejected by the check: a warning
    | Failed                    // the parser or the check threw: an error

  /** The start-up load (src/App.tsx:49-65) on what storage returned for the durable
      key. Data is adopted only when it parses and passes the check; every
      other path leaves the collection as it was, and none escapes as an
      exception. */
  function LoadCollection(stored: Option<string>, parse: string -> Option<Json>): (r: LoadOutcome)
    ensures r.Adopted? <==>
      stored.Some? && stored.value != "" && parse(stored.value).Some?
      && IsValidBaggageArray(parse(stored.value).value) == Accept
    ensures r.Adopted? ==> r.collection == DecodeCollection(parse(stored.value).value)
    ensures r.NothingStored? <==> stored.None? || stored.value == ""
    ensures r.Failed? <==>
      stored.Some? && stored.value != ""
      && (parse(stored.value).None? || IsValidBaggageArray(parse(stored.value).value) == Throw)
  {
    if stored.None? || stored.value == "" then NothingStored
    else
      match parse(stored.value)
      case None => Failed
      case Some(data) =>
        match IsValidBaggageArray(data)
        case Accept => Adopted(DecodeCollection(data))
        case Reject => Ignored
        case Throw => Failed
  }

  /** `getItem(key)` on a storage area: None stands for `null`. */
  function GetItem(store: map<string, string>, key: string): Option<string>
  {
    if key in store then Some(store[key]) else None
  }

  /** The storage area reads back what was last written under a key, a removed
      key reads as absent, and other keys are not disturbed. */
  lemma GetItemAfterWrite(store: map<string, string>, key: string, other: string, text: string)
    ensures GetItem(store[key := text], key) == Some(text)
    ensures GetItem(store - {key}, key) == None
    ensures other != key ==> GetItem(store[key := text], other) == GetItem(store, other)
    ensures other != key ==> GetItem(store - {key}, other) == GetItem(store, other)
  {
  }

  /** What the save effect writes is adopted by the next start-up load, given a
      text codec that reads back what it prints (JSON text is never empty). */
  lemma ReloadAfterSave(bs: seq<Baggage>, store: map<string, string>,
                        parse: string -> Option<Json>, stringify: Json -> string)
    requires stringify(EncodeCollection(bs)) != ""
    requires parse(stringify(EncodeCollection(bs))) == Some(EncodeCollection(bs))
    ensures LoadCollection(GetItem(store[StorageKey := stringify(EncodeCollection(bs))], StorageKey), parse) == Adopted(bs)
  {
    SaveThenLoad(bs);
  }
}
