/** Deep merge of a manifest with a per-environment overlay, and when laying the same overlay
    over twice is the same as once. */
module Overlays {
  import opened Outcomes

  /** A JSON value. The order of an object's fields is not part of the value. */
  datatype Json =
    | JNull
    | JBool(b: bool)
    | JNumber(n: int)
    | JString(s: string)
    | JArray(items: seq<Json>)
    | JObject(fields: map<string, Json>)

  /** `_record_key`: the id of a record, or else its name, tagged with which of the two it is. */
  function RecordKey(item: Json): Option<string> {
    if !item.JObject? then None
    else if IsText(item.fields, "id") then Some("id:" + item.fields["id"].s)
    else if IsText(item.fields, "name") then Some("name:" + item.fields["name"].s)
    else None
  }

  predicate IsText(fields: map<string, Json>, name: string) {
    name in fields && fields[name].JString? && fields[name].s != ""
  }

  predicate AllKeyed(items: seq<Json>) {
    forall i | 0 <= i < |items| :: RecordKey(items[i]).Some?
  }

  function KeyOf(item: Json): string
    requires RecordKey(item).Some?
  {
    RecordKey(item).value
  }

  // --- The merge as a function --------------------------------------------------------------

  /** The loop state of `_merge_lists`: records by key, and the keys in order. */
  datatype Keyed = Keyed(byKey: map<string, Json>, order: seq<string>)

  function Merge(base: Json, overlay: Json): Json
    decreases overlay, 2, 0
  {
    match (base, overlay)
    case (JObject(b), JObject(o)) => JObject(MergeFields(b, o))
    case (JArray(b), JArray(o)) => JArray(MergeItems(b, o))
    case _ => overlay
  }

  function MergeFields(b: map<string, Json>, o: map<string, Json>): map<string, Json>
    decreases JObject(o), 1, 0
  {
    map k | k in b.Keys + o.Keys :: if k !in o then b[k] else if k in b then Merge(b[k], o[k]) else o[k]
  }

  function MergeItems(b: seq<Json>, o: seq<Json>): seq<Json>
    decreases JArray(o), 1, 0
  {
    if b == [] || o == [] then if o != [] then o else b
    else if !AllKeyed(b) || !AllKeyed(o) then o
    else Listed(LayOver(Collect(b), o, |o|))
  }

  /** The base records by key; of two with one key the later is kept, but both keep a place. */
  function Collect(items: seq<Json>): (s: Keyed)
    requires AllKeyed(items)
    ensures forall k | k in s.order :: k in s.byKey
  {
    if items == [] then Keyed(map[], [])
    else
      var front, last := items[..|items| - 1], items[|items| - 1];
      var s := Collect(front);
      Keyed(s.byKey[KeyOf(last) := last], s.order + [KeyOf(last)])
  }

  /** Lays the first `n` overlay records over. */
  function LayOver(start: Keyed, o: seq<Json>, n: nat): (s: Keyed)
    requires AllKeyed(o) && n <= |o| && forall k | k in start.order :: k in start.byKey
    ensures forall k | k in s.order :: k in s.byKey
    decreases JArray(o), 0, n
  {
    if n == 0 then start
    else LayOne(LayOver(start, o, n - 1), o, n - 1)
  }

  function LayOne(s: Keyed, o: seq<Json>, i: nat): (t: Keyed)
    requires AllKeyed(o) && i < |o| && forall k | k in s.order :: k in s.byKey
    ensures forall k | k in t.order :: k in t.byKey
    decreases JArray(o), 0, i
  {
    var key := KeyOf(o[i]);
    if key in s.byKey then s.(byKey := s.byKey[key := Merge(s.byKey[key], o[i])])
    else Keyed(s.byKey[key := o[i]], s.order + [key])
  }

  function Listed(s: Keyed): seq<Json>
    requires forall k | k in s.order :: k in s.byKey
  {
    seq(|s.order|, i requires 0 <= i < |s.order| => s.byKey[s.order[i]])
  }

  // --- The loops of the source ------------------------------------------------------------------

  method DeepMerge(base: map<string, Json>, overlay: map<string, Json>) returns (result: map<string, Json>)
    ensures result == MergeFields(base, overlay) && FieldsLaidOver(base, overlay, result)
    ensures forall k | k in base && k in overlay && base[k].JArray? && overlay[k] == JArray([]) :: result[k] == base[k]
    ensures forall k | k in base && k in overlay && overlay[k].JArray? && base[k] == JArray([]) :: result[k] == overlay[k]
    ensures forall k | k in base && k in overlay && ReplacedWhole(base[k], overlay[k]) :: result[k] == overlay[k]
    decreases JObject(overlay), 1, 0
  {
    hide FieldsLaidOver, ReplacedWhole;
    DeepMergeMeaning(base, overlay);
    result := base;
    var todo := overlay.Keys;
    while todo != {}
      invariant todo <= overlay.Keys
      invariant result.Keys == base.Keys + (overlay.Keys - todo)
      invariant forall k | k in result && (k !in overlay || k in todo) :: result[k] == base[k]
      invariant forall k | k in result && k in overlay && k !in todo ::
        result[k] == if k in base then Merge(base[k], overlay[k]) else overlay[k]
      decreases todo
    {
      var key :| key in todo;
      todo := todo - {key};
      if key in result {
        var merged := MergeValues(result[key], overlay[key]);
        result := result[key := merged];
      } else {
        result := result[key := overlay[key]];
      }
    }
  }

  method MergeValues(base: Json, overlay: Json) returns (r: Json)
    ensures r == Merge(base, overlay) && LaidOver(base, overlay, r)
    decreases overlay, 2, 0
  {
    hide LaidOver;
    MergeMeaning(base, overlay);
    if base.JObject? && overlay.JObject? {
      var fields := DeepMerge(base.fields, overlay.fields);
      return JObject(fields);
    }
    if base.JArray? && overlay.JArray? {
      var items := MergeLists(base.items, overlay.items);
      return JArray(items);
    }
    return overlay;
  }

  method MergeLists(base: seq<Json>, overlay: seq<Json>) returns (r: seq<Json>)
    ensures r == MergeItems(base, overlay)
    decreases JArray(overlay), 1, 0
  {
    if base == [] || overlay == [] {
      return if overlay != [] then overlay else base;
    }
    if !AllKeyed(base) || !AllKeyed(overlay) {
      return overlay;
    }
    var s := Keyed(map[], []);
    for i := 0 to |base|
      invariant s == Collect(base[..i])
    {
      assert base[..i + 1][..i] == base[..i];
      var key := KeyOf(base[i]);
      s := Keyed(s.byKey[key := base[i]], s.order + [key]);
    }
    assert base[..|base|] == base;
    for i := 0 to |overlay|
      invariant s == LayOver(Collect(base), overlay, i)
    {
      var item := overlay[i];
      var key := KeyOf(item);
      if key in s.byKey {
        var merged := MergeValues(s.byKey[key], item);
        s := s.(byKey := s.byKey[key := merged]);
      } else {
        s := Keyed(s.byKey[key := item], s.order + [key]);
      }
    }
    r := Listed(s);
  }

  // --- Keys survive merging ---------------------------------------------------------------------

  lemma KeysDiffer(v: string, w: string)
    ensures "id:" + v != "name:" + w
    ensures "id:" + v == "id:" + w <==> v == w
    ensures "name:" + v == "name:" + w <==> v == w
  {
    assert ("id:" + v)[0] == 'i' && ("name:" + w)[0] == 'n';
    assert ("id:" + v)[3..] == v && ("id:" + w)[3..] == w;
    assert ("name:" + v)[5..] == v && ("name:" + w)[5..] == w;
  }

  lemma MergeToText(x: Json, y: Json)
    ensures Merge(x, y).JString? ==> Merge(x, y) == y
    ensures y.JString? ==> Merge(x, y) == y
  {}

  /** A record merged with one of the same key keeps that key. */
  lemma MergeKeepsKey(a: Json, b: Json)
    requires RecordKey(a).Some? && RecordKey(a) == RecordKey(b)
    ensures RecordKey(Merge(a, b)) == RecordKey(a)
  {
    var f := MergeFields(a.fields, b.fields);
    assert Merge(a, b) == JObject(f);
    if "id" in a.fields && "id" in b.fields {
      MergeToText(a.fields["id"], b.fields["id"]);
    }
    if "name" in a.fields && "name" in b.fields {
      MergeToText(a.fields["name"], b.fields["name"]);
    }
    hide Merge;
    if IsText(a.fields, "id") {
      if !IsText(b.fields, "id") {
        KeysDiffer(a.fields["id"].s, b.fields["name"].s);
      }
      KeysDiffer(a.fields["id"].s, b.fields["id"].s);
    } else {
      if IsText(b.fields, "id") {
        KeysDiffer(b.fields["id"].s, a.fields["name"].s);
      }
      KeysDiffer(a.fields["name"].s, b.fields["name"].s);
    }
  }

  /** Every record is filed under its own key. */
  ghost predicate Filed(s: Keyed) {
    && (forall k | k in s.order :: k in s.byKey)
    && (forall k | k in s.byKey :: k in s.order && RecordKey(s.byKey[k]) == Some(k))
  }

  lemma FilingKeepsFiled(s: Keyed, last: Json)
    requires Filed(s) && RecordKey(last).Some?
    ensures Filed(Keyed(s.byKey[KeyOf(last) := last], s.order + [KeyOf(last)]))
  {
    hide RecordKey;
  }

  lemma {:induction false} CollectFiles(items: seq<Json>)
    requires AllKeyed(items)
    ensures Filed(Collect(items))
    ensures |Collect(items).order| == |items| && forall i | 0 <= i < |items| :: Collect(items).order[i] == KeyOf(items[i])
  {
    hide RecordKey, Filed;
    if items == [] {
      NothingIsFiled();
    } else {
      CollectFiles(items[..|items| - 1]);
      FilingKeepsFiled(Collect(items[..|items| - 1]), items[|items| - 1]);
    }
  }

  lemma NothingIsFiled()
    ensures Filed(Keyed(map[], []))
  {}

  lemma LayOneFiles(s: Keyed, o: seq<Json>, i: nat)
    requires AllKeyed(o) && i < |o| && Filed(s)
    ensures Filed(LayOne(s, o, i))
  {
    hide RecordKey, Merge;
    var key := KeyOf(o[i]);
    if key in s.byKey {
      MergeKeepsKey(s.byKey[key], o[i]);
    }
  }

  lemma {:induction false} LayOverFiles(s: Keyed, o: seq<Json>, n: nat)
    requires AllKeyed(o) && n <= |o| && Filed(s)
    ensures Filed(LayOver(s, o, n))
  {
    hide RecordKey, LayOne;
    if n > 0 {
      LayOverFiles(s, o, n - 1);
      LayOneFiles(LayOver(s, o, n - 1), o, n - 1);
    }
  }

  /** Listing a filed state and collecting it again gives it back. */
  lemma CollectListed(s: Keyed)
    requires Filed(s)
    ensures AllKeyed(Listed(s)) && Collect(Listed(s)) == s
  {
    hide RecordKey;
    CollectPrefix(s, |s.order|);
    assert Listed(s)[..|s.order|] == Listed(s);
    var c := Collect(Listed(s));
    assert s.order[..|s.order|] == s.order;
    forall k ensures k in c.byKey <==> k in s.byKey {
    }
  }

  lemma CollectSnoc(items: seq<Json>, last: Json)
    requires AllKeyed(items) && RecordKey(last).Some?
    ensures AllKeyed(items + [last])
    ensures var s := Collect(items);
      Collect(items + [last]) == Keyed(s.byKey[KeyOf(last) := last], s.order + [KeyOf(last)])
  {
    hide RecordKey;
    assert (items + [last])[..|items|] == items;
  }

  lemma {:induction false} CollectPrefix(s: Keyed, n: nat)
    requires Filed(s) && n <= |s.order|
    ensures AllKeyed(Listed(s)[..n])
    ensures var c := Collect(Listed(s)[..n]);
      && c.order == s.order[..n]
      && (forall k :: k in c.byKey <==> k in s.order[..n])
      && (forall k | k in c.byKey :: k in s.byKey && c.byKey[k] == s.byKey[k])
  {
    hide RecordKey, Collect;
    if n == 0 {
      CollectNothing();
    } else {
      CollectPrefix(s, n - 1);
      var key := s.order[n - 1];
      assert key in s.order;
      assert Listed(s)[..n] == Listed(s)[..n - 1] + [s.byKey[key]];
      CollectSnoc(Listed(s)[..n - 1], s.byKey[key]);
      assert s.order[..n] == s.order[..n - 1] + [key];
    }
  }

  lemma CollectNothing()
    ensures Collect([]) == Keyed(map[], [])
  {}

  // --- What a merged list holds ------------------------------------------------------------------

  /** Records that share a key are equal. */
  ghost predicate SameKeySameRecord(items: seq<Json>)
    requires AllKeyed(items)
  {
    forall i, j | 0 <= i < j < |items| && KeyOf(items[i]) == KeyOf(items[j]) :: items[i] == items[j]
  }

  lemma {:induction false} CollectSelf(o: seq<Json>)
    requires AllKeyed(o) && SameKeySameRecord(o)
    ensures forall i | 0 <= i < |o| :: KeyOf(o[i]) in Collect(o).byKey && Collect(o).byKey[KeyOf(o[i])] == o[i]
  {
    hide RecordKey;
    if o != [] {
      CollectSelf(o[..|o| - 1]);
    }
  }

  /** One of the first `n` records has this key. */
  ghost predicate KeyAmong(items: seq<Json>, n: nat, k: string)
    requires AllKeyed(items) && n <= |items|
  {
    exists i :: 0 <= i < n && KeyOf(items[i]) == k
  }

  ghost predicate DistinctKeys(items: seq<Json>)
    requires AllKeyed(items)
  {
    forall i, j | 0 <= i < j < |items| :: KeyOf(items[i]) != KeyOf(items[j])
  }

  /** The last of the first `n` records that has this key. */
  function RecordOf(items: seq<Json>, n: nat, k: string): Option<Json>
    requires AllKeyed(items) && n <= |items|
  {
    if n == 0 then None
    else if KeyOf(items[n - 1]) == k then Some(items[n - 1])
    else RecordOf(items, n - 1, k)
  }

  /** A record, if there is one, with those of the first `n` overlay records that have this key
      merged into it one after the other. */
  function Folded(x: Option<Json>, o: seq<Json>, n: nat, k: string): Option<Json>
    requires AllKeyed(o) && n <= |o|
  {
    if n == 0 then x
    else
      var before := Folded(x, o, n - 1, k);
      if KeyOf(o[n - 1]) != k then before
      else if before.None? then Some(o[n - 1])
      else Some(Merge(before.value, o[n - 1]))
  }

  function Under(s: Keyed, k: string): Option<Json> {
    if k in s.byKey then Some(s.byKey[k]) else None
  }

  lemma KeyAmongNext(o: seq<Json>, n: nat, k: string)
    requires AllKeyed(o) && n < |o|
    ensures KeyAmong(o, n + 1, k) <==> KeyAmong(o, n, k) || k == KeyOf(o[n])
  {
    hide RecordKey;
  }

  /** The new keys come after the old ones, once each. */
  ghost predicate Grows(start: Keyed, s: Keyed) {
    && start.order <= s.order
    && (forall j | |start.order| <= j < |s.order| :: s.order[j] !in start.byKey)
    && (forall i, j | |start.order| <= i < j < |s.order| :: s.order[i] != s.order[j])
  }

  lemma LayOneGrows(start: Keyed, s: Keyed, o: seq<Json>, i: nat)
    requires AllKeyed(o) && i < |o| && Filed(s) && Grows(start, s) && start.byKey.Keys <= s.byKey.Keys
    ensures Grows(start, LayOne(s, o, i))
  {
    hide RecordKey, Merge;
  }

  lemma {:induction false} LayOverGrows(start: Keyed, o: seq<Json>, n: nat)
    requires AllKeyed(o) && n <= |o| && Filed(start)
    ensures Grows(start, LayOver(start, o, n))
    ensures forall k :: k in LayOver(start, o, n).byKey <==> k in start.byKey || KeyAmong(o, n, k)
  {
    hide RecordKey, Merge, Grows, KeyAmong;
    if n == 0 {
      assert forall k :: !KeyAmong(o, 0, k) by {
        NoKeyAmongNone(o);
      }
      GrowsFromItself(start);
    } else {
      LayOverGrows(start, o, n - 1);
      LayOverFiles(start, o, n - 1);
      LayOneGrows(start, LayOver(start, o, n - 1), o, n - 1);
      forall k ensures k in LayOver(start, o, n).byKey <==> k in start.byKey || KeyAmong(o, n, k) {
        KeyAmongNext(o, n - 1, k);
      }
    }
  }

  lemma NoKeyAmongNone(o: seq<Json>)
    requires AllKeyed(o)
    ensures forall k :: !KeyAmong(o, 0, k)
  {}

  lemma GrowsFromItself(s: Keyed)
    ensures Grows(s, s)
  {}

  lemma {:induction false} LayOverFolds(start: Keyed, o: seq<Json>, n: nat, k: string)
    requires AllKeyed(o) && n <= |o| && Filed(start)
    ensures Under(LayOver(start, o, n), k) == Folded(Under(start, k), o, n, k)
  {
    hide RecordKey, Merge;
    if n > 0 {
      LayOverFolds(start, o, n - 1, k);
    }
  }

  lemma {:induction false} CollectRecords(b: seq<Json>, n: nat, k: string)
    requires AllKeyed(b) && n <= |b|
    ensures Under(Collect(b[..n]), k) == RecordOf(b, n, k)
  {
    hide RecordKey;
    if n > 0 {
      CollectRecords(b, n - 1, k);
      assert b[..n][..n - 1] == b[..n - 1];
    }
  }

  lemma ListedRecords(s: Keyed, r: seq<Json>)
    requires Filed(s) && r == Listed(s)
    ensures AllKeyed(r)
    ensures forall i | 0 <= i < |r| ::
      s.order[i] in s.byKey && KeyOf(r[i]) == s.order[i] && r[i] == s.byKey[s.order[i]]
  {
    hide RecordKey;
    forall i | 0 <= i < |r| ensures RecordKey(r[i]) == Some(s.order[i]) && r[i] == s.byKey[s.order[i]] {
      assert s.order[i] in s.order;
    }
  }

  lemma CollectKeys(b: seq<Json>, start: Keyed)
    requires AllKeyed(b) && Filed(start) && |start.order| == |b| && forall i | 0 <= i < |b| :: start.order[i] == KeyOf(b[i])
    ensures forall k :: k in start.byKey <==> KeyAmong(b, |b|, k)
  {
    hide RecordKey;
    forall k ensures k in start.byKey <==> KeyAmong(b, |b|, k) {
      if k in start.byKey {
        var i :| 0 <= i < |start.order| && start.order[i] == k;
      }
      if KeyAmong(b, |b|, k) {
        var i :| 0 <= i < |b| && KeyOf(b[i]) == k;
        assert start.order[i] in start.order;
      }
    }
  }

  lemma ListedKeys(s: Keyed, r: seq<Json>)
    requires Filed(s) && r == Listed(s) && AllKeyed(r) && forall i | 0 <= i < |r| :: KeyOf(r[i]) == s.order[i]
    ensures forall k :: KeyAmong(r, |r|, k) <==> k in s.byKey
  {
    hide RecordKey;
    forall k ensures KeyAmong(r, |r|, k) <==> k in s.byKey {
      if k in s.byKey {
        var i :| 0 <= i < |s.order| && s.order[i] == k;
        assert KeyOf(r[i]) == k;
      }
      if KeyAmong(r, |r|, k) {
        var i :| 0 <= i < |r| && KeyOf(r[i]) == k;
        assert s.order[i] in s.order;
      }
    }
  }

  /** Two keyed lists merge into a keyed list: the base's keys in place, repeated ones included,
      then the overlay's new keys, each once. The record under a key is the base's last one with
      all the overlay's merged into it in order. */
  lemma MergedListMeaning(b: seq<Json>, o: seq<Json>)
    requires b != [] && o != [] && AllKeyed(b) && AllKeyed(o)
    ensures RecordsMerged(b, o, MergeItems(b, o))
  {
    hide RecordKey, Merge, LayOver, KeyAmong, Collect, Filed;
    var start := Collect(b);
    var s := LayOver(start, o, |o|);
    var r := Listed(s);
    CollectFiles(b);
    LayOverFiles(start, o, |o|);
    LayOverGrows(start, o, |o|);
    ListedRecords(s, r);
    CollectKeys(b, start);
    ListedKeys(s, r);
    forall i | 0 <= i < |r|
      ensures Some(r[i]) == Folded(RecordOf(b, |b|, KeyOf(r[i])), o, |o|, KeyOf(r[i]))
    {
      CollectRecords(b, |b|, KeyOf(r[i]));
      assert b[..|b|] == b;
      LayOverFolds(start, o, |o|, KeyOf(r[i]));
    }
  }

  // --- What a merge is -----------------------------------------------------------------------------

  /** The item is an object with this text, which is not empty, in the field. */
  ghost predicate HasText(item: Json, field: string, v: string) {
    item.JObject? && field in item.fields && item.fields[field] == JString(v) && v != ""
  }

  /** Some item has neither an id nor a name. */
  ghost predicate HasKeyless(items: seq<Json>) {
    exists i :: 0 <= i < |items| && Keyless(items[i])
  }

  ghost predicate Keyless(item: Json) {
    forall v :: !HasText(item, "id", v) && !HasText(item, "name", v)
  }

  /** Two lists, neither of them empty, and some item without a key. */
  ghost predicate ReplacedWhole(b: Json, o: Json) {
    b.JArray? && o.JArray? && b.items != [] && o.items != [] && (HasKeyless(b.items) || HasKeyless(o.items))
  }

  /** Both records have the same id, or both have no id and the same name. */
  ghost predicate SameRecord(a: Json, b: Json) {
    || (exists v :: HasText(a, "id", v) && HasText(b, "id", v))
    || ((forall v :: !HasText(a, "id", v) && !HasText(b, "id", v)) && exists v :: HasText(a, "name", v) && HasText(b, "name", v))
  }

  lemma RecordKeyMeaning(a: Json, b: Json)
    ensures RecordKey(a).None? <==> Keyless(a)
    ensures RecordKey(a).Some? && RecordKey(a) == RecordKey(b) <==> SameRecord(a, b)
  {
    KeyTexts(a);
    KeyTexts(b);
    if RecordKey(a).Some? && RecordKey(a) == RecordKey(b) {
      var v := if IsText(a.fields, "id") then a.fields["id"].s else a.fields["name"].s;
      var w := if IsText(b.fields, "id") then b.fields["id"].s else b.fields["name"].s;
      KeysDiffer(v, w);
      KeysDiffer(w, v);
    }
  }

  lemma KeyTexts(item: Json)
    ensures forall v :: HasText(item, "id", v) <==> item.JObject? && IsText(item.fields, "id") && item.fields["id"].s == v
    ensures forall v :: HasText(item, "name", v) <==> item.JObject? && IsText(item.fields, "name") && item.fields["name"].s == v
    ensures item.JObject? && IsText(item.fields, "id") ==> HasText(item, "id", item.fields["id"].s)
    ensures item.JObject? && IsText(item.fields, "name") ==> HasText(item, "name", item.fields["name"].s)
  {}

  lemma KeylessMeaning(items: seq<Json>)
    ensures HasKeyless(items) <==> !AllKeyed(items)
  {
    hide Keyless, RecordKey;
    forall i | 0 <= i < |items| ensures RecordKey(items[i]).None? <==> Keyless(items[i]) {
      RecordKeyMeaning(items[i], items[i]);
    }
  }

  /** What laying one value over another gives. */
  ghost predicate LaidOver(b: Json, o: Json, r: Json)
    decreases o, 1
  {
    if b.JObject? && o.JObject? then r.JObject? && FieldsLaidOver(b.fields, o.fields, r.fields)
    else if b.JArray? && o.JArray? then
      if o.items == [] then r == b
      else if b.items == [] || HasKeyless(b.items) || HasKeyless(o.items) then r == o
      else r.JArray? && RecordsMerged(b.items, o.items, r.items)
    else r == o
  }

  ghost predicate FieldsLaidOver(b: map<string, Json>, o: map<string, Json>, r: map<string, Json>)
    decreases JObject(o), 0
  {
    && r.Keys == b.Keys + o.Keys
    && (forall k | k in r && k !in o :: r[k] == b[k])
    && (forall k | k in o && k !in b :: r[k] == o[k])
    && (forall k | k in o && k in b :: LaidOver(b[k], o[k], r[k]))
  }

  /** The records of the base in their places, then the overlay's new ones, each once; the record
      under a key is the base's last one with all the overlay's merged into it in order. */
  ghost predicate RecordsMerged(b: seq<Json>, o: seq<Json>, r: seq<Json>) {
    && AllKeyed(b) && AllKeyed(o) && AllKeyed(r) && |b| <= |r|
    && (forall k :: KeyAmong(r, |r|, k) <==> KeyAmong(b, |b|, k) || KeyAmong(o, |o|, k))
    && (forall i | 0 <= i < |b| :: KeyOf(r[i]) == KeyOf(b[i]))
    && (forall j | |b| <= j < |r| :: !KeyAmong(b, |b|, KeyOf(r[j])))
    && (forall i, j | |b| <= i < j < |r| :: KeyOf(r[i]) != KeyOf(r[j]))
    && (forall i | 0 <= i < |r| :: Some(r[i]) == Folded(RecordOf(b, |b|, KeyOf(r[i])), o, |o|, KeyOf(r[i])))
  }

  /** The merge is what its four rules say, at all depths. */
  lemma {:induction false} MergeMeaning(b: Json, o: Json)
    ensures LaidOver(b, o, Merge(b, o))
    decreases o
  {
    hide RecordKey, RecordsMerged, HasKeyless;
    match (b, o)
    case (JObject(bs), JObject(os)) =>
      var r := MergeFields(bs, os);
      assert Merge(b, o) == JObject(r);
      forall k | k in os && k in bs ensures LaidOver(bs[k], os[k], r[k]) {
        MergeMeaning(bs[k], os[k]);
      }
      assert FieldsLaidOver(bs, os, r);
    case (JArray(bs), JArray(os)) =>
      KeylessMeaning(bs);
      KeylessMeaning(os);
      if bs != [] && os != [] && AllKeyed(bs) && AllKeyed(os) {
        MergedListMeaning(bs, os);
      }
    case _ =>
  }

  lemma DeepMergeMeaning(base: map<string, Json>, overlay: map<string, Json>)
    ensures var result := MergeFields(base, overlay);
      && FieldsLaidOver(base, overlay, result)
      && (forall k | k in base && k in overlay && base[k].JArray? && overlay[k] == JArray([]) :: result[k] == base[k])
      && (forall k | k in base && k in overlay && overlay[k].JArray? && base[k] == JArray([]) :: result[k] == overlay[k])
      && (forall k | k in base && k in overlay && ReplacedWhole(base[k], overlay[k]) :: result[k] == overlay[k])
  {
    hide RecordsMerged, HasKeyless;
    MergeMeaning(JObject(base), JObject(overlay));
    assert Merge(JObject(base), JObject(overlay)) == JObject(MergeFields(base, overlay));
    hide MergeFields, Merge;
    var result := MergeFields(base, overlay);
    assert forall k | k in base && k in overlay :: LaidOver(base[k], overlay[k], result[k]);
  }

  lemma {:induction false} RecordOfDistinct(b: seq<Json>, n: nat, i: nat)
    requires AllKeyed(b) && i < n <= |b| && DistinctKeys(b)
    ensures RecordOf(b, n, KeyOf(b[i])) == Some(b[i])
  {
    hide RecordKey;
    if i < n - 1 {
      RecordOfDistinct(b, n - 1, i);
    }
  }

  lemma {:induction false} NotFolded(x: Option<Json>, o: seq<Json>, n: nat, k: string)
    requires AllKeyed(o) && n <= |o| && !KeyAmong(o, n, k)
    ensures Folded(x, o, n, k) == x
  {
    hide RecordKey, Merge, KeyAmong;
    if n > 0 {
      KeyAmongNext(o, n - 1, k);
      NotFolded(x, o, n - 1, k);
    }
  }

  lemma {:induction false} FoldedOnce(x: Option<Json>, o: seq<Json>, n: nat, j: nat)
    requires AllKeyed(o) && j < n <= |o| && DistinctKeys(o)
    ensures Folded(x, o, n, KeyOf(o[j])) == Some(if x.None? then o[j] else Merge(x.value, o[j]))
  {
    hide RecordKey, Merge;
    if j < n - 1 {
      FoldedOnce(x, o, n - 1, j);
    } else {
      NotFolded(x, o, j, KeyOf(o[j]));
    }
  }

  /** When neither list repeats a key, a record of both is the merge of the two, and a record of
      the base alone is as it was. */
  lemma MergedOfDistinct(b: seq<Json>, o: seq<Json>)
    requires b != [] && o != [] && AllKeyed(b) && AllKeyed(o) && DistinctKeys(b) && DistinctKeys(o)
    ensures var r := MergeItems(b, o);
      && |b| <= |r|
      && (forall i | 0 <= i < |b| && !KeyAmong(o, |o|, KeyOf(b[i])) :: r[i] == b[i])
      && (forall i, j | 0 <= i < |b| && 0 <= j < |o| && KeyOf(b[i]) == KeyOf(o[j]) :: r[i] == Merge(b[i], o[j]))
  {
    hide RecordKey, Merge, MergeItems, KeyAmong, Folded, RecordOf;
    MergedListMeaning(b, o);
    forall i | 0 <= i < |b| ensures RecordOf(b, |b|, KeyOf(b[i])) == Some(b[i]) {
      RecordOfDistinct(b, |b|, i);
    }
    forall i | 0 <= i < |b| && !KeyAmong(o, |o|, KeyOf(b[i])) ensures MergeItems(b, o)[i] == b[i] {
      NotFolded(Some(b[i]), o, |o|, KeyOf(b[i]));
    }
    forall i, j | 0 <= i < |b| && 0 <= j < |o| && KeyOf(b[i]) == KeyOf(o[j])
      ensures MergeItems(b, o)[i] == Merge(b[i], o[j])
    {
      FoldedOnce(Some(b[i]), o, |o|, j);
    }
  }

  // --- When laying an overlay over twice is laying it over once --------------------------------------

  /** Records of one keyed list that share a key are equal, all the way down. Lists that are
      not keyed are replaced whole, so nothing is asked of their items. */
  ghost predicate Stable(o: Json) {
    match o
    case JObject(fields) => forall k | k in fields :: Stable(fields[k])
    case JArray(items) =>
      AllKeyed(items) ==>
        && SameKeySameRecord(items)
        && forall i | 0 <= i < |items| :: Stable(items[i])
    case _ => true
  }

  /** Everything the first `n` overlay records say is already in the state. */
  ghost predicate Settled(s: Keyed, o: seq<Json>, n: nat)
    requires AllKeyed(o) && n <= |o|
  {
    forall i | 0 <= i < n :: KeyOf(o[i]) in s.byKey && Merge(s.byKey[KeyOf(o[i])], o[i]) == s.byKey[KeyOf(o[i])]
  }

  /** A settled state stays as it is. */
  lemma {:induction false} SettledStays(s: Keyed, o: seq<Json>, n: nat)
    requires AllKeyed(o) && n <= |o| && Filed(s) && Settled(s, o, n)
    ensures LayOver(s, o, n) == s
  {
    hide RecordKey, Merge;
    if n > 0 {
      SettledStays(s, o, n - 1);
      var key := KeyOf(o[n - 1]);
      assert s.byKey[key := s.byKey[key]] == s.byKey;
    }
  }

  /** A stable overlay merged with itself is itself. */
  lemma {:induction false} SelfMerge(o: Json)
    requires Stable(o)
    ensures Merge(o, o) == o
  {
    match o
    case JObject(fields) =>
      forall k | k in fields ensures Merge(fields[k], fields[k]) == fields[k] {
        SelfMerge(fields[k]);
      }
    case JArray(items) =>
      if items != [] && AllKeyed(items) {
        forall i | 0 <= i < |items| ensures Merge(items[i], items[i]) == items[i] {
          SelfMerge(items[i]);
        }
        SelfMergeItems(items);
      }
    case _ =>
  }

  lemma SelfMergeItems(items: seq<Json>)
    requires items != [] && AllKeyed(items) && SameKeySameRecord(items)
    requires forall i | 0 <= i < |items| :: Merge(items[i], items[i]) == items[i]
    ensures MergeItems(items, items) == items
  {
    hide RecordKey, Merge;
    CollectFiles(items);
    CollectSelf(items);
    SettledStays(Collect(items), items, |items|);
    assert Listed(Collect(items)) == items;
  }

  /** After laying stable records over, each of them is settled. */
  lemma {:induction false} LayOverSettles(s: Keyed, o: seq<Json>, n: nat)
    requires AllKeyed(o) && n <= |o| && Filed(s) && SameKeySameRecord(o)
    requires forall i | 0 <= i < |o| :: Merge(o[i], o[i]) == o[i]
    requires forall i, x | 0 <= i < |o| :: Merge(Merge(x, o[i]), o[i]) == Merge(x, o[i])
    ensures Settled(LayOver(s, o, n), o, n)
  {
    hide RecordKey, Merge;
    if n > 0 {
      LayOverSettles(s, o, n - 1);
      var t := LayOver(s, o, n - 1);
      var key := KeyOf(o[n - 1]);
      if key in t.byKey {
        var x := t.byKey[key];
        assert Merge(Merge(x, o[n - 1]), o[n - 1]) == Merge(x, o[n - 1]);
      }
      forall i | 0 <= i < n
        ensures var u := LayOver(s, o, n);
          KeyOf(o[i]) in u.byKey && Merge(u.byKey[KeyOf(o[i])], o[i]) == u.byKey[KeyOf(o[i])]
      {
        if KeyOf(o[i]) == key {
          assert i == n - 1 || o[i] == o[n - 1];
        } else {
          assert i < n - 1 && KeyOf(o[i]) in t.byKey;
        }
      }
    }
  }

  /** Laying a stable overlay over twice is the same as once, on every base. */
  lemma {:induction false} Absorption(b: Json, o: Json)
    requires Stable(o)
    ensures Merge(Merge(b, o), o) == Merge(b, o)
    decreases o
  {
    SelfMerge(o);
    match (b, o)
    case (JObject(bs), JObject(os)) =>
      AbsorbFields(bs, os);
    case (JArray(bs), JArray(os)) =>
      if bs != [] && os != [] && AllKeyed(bs) && AllKeyed(os) {
        forall i | 0 <= i < |os| ensures Merge(os[i], os[i]) == os[i] {
          SelfMerge(os[i]);
        }
        forall i, x | 0 <= i < |os| ensures Merge(Merge(x, os[i]), os[i]) == Merge(x, os[i]) {
          Absorption(x, os[i]);
        }
        AbsorbItems(bs, os);
      }
    case _ =>
  }

  lemma {:induction false} AbsorbFields(bs: map<string, Json>, os: map<string, Json>)
    requires Stable(JObject(os))
    ensures MergeFields(MergeFields(bs, os), os) == MergeFields(bs, os)
    decreases JObject(os), 0
  {
    var once := MergeFields(bs, os);
    var twice := MergeFields(once, os);
    forall k | k in os ensures twice[k] == once[k] {
      SelfMerge(os[k]);
      if k in bs {
        Absorption(bs[k], os[k]);
      }
    }
  }

  lemma AbsorbItems(bs: seq<Json>, os: seq<Json>)
    requires bs != [] && os != [] && AllKeyed(bs) && AllKeyed(os) && SameKeySameRecord(os)
    requires forall i | 0 <= i < |os| :: Merge(os[i], os[i]) == os[i]
    requires forall i, x | 0 <= i < |os| :: Merge(Merge(x, os[i]), os[i]) == Merge(x, os[i])
    ensures MergeItems(MergeItems(bs, os), os) == MergeItems(bs, os)
  {
    hide RecordKey, Merge;
    CollectFiles(bs);
    var s := LayOver(Collect(bs), os, |os|);
    LayOverFiles(Collect(bs), os, |os|);
    LayOverSettles(Collect(bs), os, |os|);
    CollectListed(s);
    SettledStays(s, os, |os|);
    assert Listed(s) != [] by {
      assert KeyOf(os[0]) in s.byKey;
    }
  }

  // --- Only stable overlays are absorbed by every base --------------------------------------------------

  /** `o` laid over `x` again and again, `m` times. */
  function Again(x: Json, o: Json, m: nat): Json {
    if m == 0 then x else Merge(Again(x, o, m - 1), o)
  }

  lemma {:induction false} AgainAdds(x: Json, o: Json, a: nat, b: nat)
    ensures Again(Again(x, o, a), o, b) == Again(x, o, a + b)
  {
    if b > 0 {
      AgainAdds(x, o, a, b - 1);
    }
  }

  /** `o` said `m` times on top of what is there; said where nothing is, it is taken as it is. */
  function Said(x: Option<Json>, o: Json, m: nat): Option<Json> {
    if m == 0 then x
    else if x.None? then Some(Again(o, o, m - 1))
    else Some(Again(x.value, o, m))
  }

  lemma SaidAdds(x: Option<Json>, o: Json, a: nat, b: nat)
    ensures Said(Said(x, o, a), o, b) == Said(x, o, a + b)
  {
    if a > 0 {
      AgainAdds(o, o, a - 1, b);
    }
    if x.Some? {
      AgainAdds(x.value, o, a, b);
    }
  }

  lemma SaidOnce(x: Option<Json>, o: Json)
    ensures Said(x, o, 1) == Some(if x.None? then o else Merge(x.value, o))
  {
    if x.Some? {
      assert Again(x.value, o, 0) == x.value;
    }
  }

  lemma SaidOnSome(x: Json, o: Json, m: nat)
    ensures Said(Some(x), o, m) == Some(Again(x, o, m))
  {}

  function Field(fields: map<string, Json>, k: string): Option<Json> {
    if k in fields then Some(fields[k]) else None
  }

  lemma {:induction false} AgainFields(xs: map<string, Json>, os: map<string, Json>, m: nat)
    ensures var r := Again(JObject(xs), JObject(os), m);
      && r.JObject?
      && r.fields.Keys == xs.Keys + (if m == 0 then {} else os.Keys)
      && (forall k | k in os :: Field(r.fields, k) == Said(Field(xs, k), os[k], m))
      && (forall k | k in xs && k !in os :: r.fields[k] == xs[k])
  {
    if m > 0 {
      AgainFields(xs, os, m - 1);
      var before := Again(JObject(xs), JObject(os), m - 1);
      var r := MergeFields(before.fields, os);
      assert Merge(before, JObject(os)) == JObject(r);
      forall k | k in os ensures Field(r, k) == Said(Field(xs, k), os[k], m) {
        SaidAdds(Field(xs, k), os[k], m - 1, 1);
        SaidOnce(Field(before.fields, k), os[k]);
      }
    }
  }

  /** The list state after laying all of `o` over, `m` times. */
  function Rounds(s: Keyed, o: seq<Json>, m: nat): (t: Keyed)
    requires AllKeyed(o) && forall k | k in s.order :: k in s.byKey
    ensures forall k | k in t.order :: k in t.byKey
  {
    if m == 0 then s else LayOver(Rounds(s, o, m - 1), o, |o|)
  }

  /** Laying records over that are all filed already files nothing new. */
  lemma {:induction false} NothingNew(t: Keyed, o: seq<Json>, n: nat)
    requires AllKeyed(o) && n <= |o| && Filed(t) && forall i | 0 <= i < |o| :: KeyOf(o[i]) in t.byKey
    ensures LayOver(t, o, n).order == t.order && LayOver(t, o, n).byKey.Keys == t.byKey.Keys
  {
    hide RecordKey, Merge;
    if n > 0 {
      NothingNew(t, o, n - 1);
    }
  }

  /** Only the first round files new keys. */
  lemma {:induction false} RoundsFile(s: Keyed, o: seq<Json>, m: nat)
    requires AllKeyed(o) && Filed(s) && m >= 1
    ensures var once := LayOver(s, o, |o|);
      Filed(Rounds(s, o, m)) && Rounds(s, o, m).order == once.order && Rounds(s, o, m).byKey.Keys == once.byKey.Keys
  {
    hide RecordKey, LayOver;
    LayOverFiles(s, o, |o|);
    if m > 1 {
      RoundsFile(s, o, m - 1);
      LayOverFiles(Rounds(s, o, m - 1), o, |o|);
      LayOverGrows(s, o, |o|);
      NothingNew(Rounds(s, o, m - 1), o, |o|);
    } else {
      assert Rounds(s, o, 0) == s;
    }
  }

  lemma MergeKeyedLists(b: seq<Json>, o: seq<Json>)
    requires b != [] && o != [] && AllKeyed(b) && AllKeyed(o)
    ensures Merge(JArray(b), JArray(o)) == JArray(Listed(LayOver(Collect(b), o, |o|)))
  {}

  lemma {:induction false} AgainItems(b: seq<Json>, o: seq<Json>, m: nat)
    requires b != [] && o != [] && AllKeyed(b) && AllKeyed(o) && m >= 1
    ensures Again(JArray(b), JArray(o), m) == JArray(Listed(Rounds(Collect(b), o, m)))
  {
    hide RecordKey, LayOver, Collect, Merge, Filed;
    CollectFiles(b);
    if m > 1 {
      AgainItems(b, o, m - 1);
      var t := Rounds(Collect(b), o, m - 1);
      RoundsFile(Collect(b), o, m - 1);
      LayOverGrows(Collect(b), o, |o|);
      CollectListed(t);
      MergeKeyedLists(Listed(t), o);
    } else {
      assert Rounds(Collect(b), o, 0) == Collect(b);
      assert Again(JArray(b), JArray(o), 0) == JArray(b);
      MergeKeyedLists(b, o);
    }
  }

  /** How many of the first `n` records have key `k`. */
  function Count(o: seq<Json>, k: string, n: nat): nat
    requires AllKeyed(o) && n <= |o|
  {
    if n == 0 then 0 else Count(o, k, n - 1) + if KeyOf(o[n - 1]) == k then 1 else 0
  }

  lemma {:induction false} CountsItself(o: seq<Json>, i: nat, n: nat)
    requires AllKeyed(o) && i < n <= |o|
    ensures Count(o, KeyOf(o[i]), n) >= 1
  {
    hide RecordKey;
    if i < n - 1 {
      CountsItself(o, i, n - 1);
    }
  }

  /** Equal records of one key are said once each on top of the record that is there. */
  lemma {:induction false} LayOverSays(t: Keyed, o: seq<Json>, n: nat, i: nat)
    requires AllKeyed(o) && n <= |o| && i < |o| && Filed(t) && SameKeySameRecord(o)
    ensures var k := KeyOf(o[i]);
      Under(LayOver(t, o, n), k) == Said(Under(t, k), o[i], Count(o, k, n))
  {
    hide RecordKey, Merge;
    if n > 0 {
      LayOverSays(t, o, n - 1, i);
      if KeyOf(o[n - 1]) == KeyOf(o[i]) {
        assert o[n - 1] == o[i];
        SaidAdds(Under(t, KeyOf(o[i])), o[i], Count(o, KeyOf(o[i]), n - 1), 1);
        SaidOnce(Under(LayOver(t, o, n - 1), KeyOf(o[i])), o[i]);
      }
    }
  }

  lemma {:induction false} RoundsSay(s: Keyed, o: seq<Json>, m: nat, i: nat)
    requires AllKeyed(o) && i < |o| && Filed(s) && SameKeySameRecord(o)
    ensures var k := KeyOf(o[i]);
      Under(Rounds(s, o, m), k) == Said(Under(s, k), o[i], m * Count(o, k, |o|))
  {
    hide RecordKey, LayOver, Merge, Again;
    var k := KeyOf(o[i]);
    var c := Count(o, k, |o|);
    if m > 0 {
      RoundsSay(s, o, m - 1, i);
      if m > 1 {
        RoundsFile(s, o, m - 1);
      }
      LayOverSays(Rounds(s, o, m - 1), o, |o|, i);
      SaidAdds(Under(s, k), o[i], (m - 1) * c, c);
      assert (m - 1) * c + c == m * c;
    }
  }

  /** What comes back from being laid over itself some number of times is stable. */
  lemma {:induction false} ReturningIsStable(o: Json, m: nat)
    requires m >= 1 && Again(o, o, m) == o
    ensures Stable(o)
    decreases o
  {
    hide Merge, RecordKey;
    match o
    case JObject(fields) =>
      AgainFields(fields, fields, m);
      forall k | k in fields ensures Stable(fields[k]) {
        ReturningIsStable(fields[k], m);
      }
    case JArray(items) =>
      if AllKeyed(items) {
        if items != [] {
          ReturningItems(items, m);
        }
        forall i | 0 <= i < |items| ensures Stable(items[i]) {
          var c := Count(items, KeyOf(items[i]), |items|);
          CountsItself(items, i, |items|);
          ReturningIsStable(items[i], m * c);
        }
      }
    case _ =>
  }

  lemma ReturningItems(items: seq<Json>, m: nat)
    requires AllKeyed(items) && items != [] && m >= 1 && Again(JArray(items), JArray(items), m) == JArray(items)
    ensures SameKeySameRecord(items)
    ensures forall i | 0 <= i < |items| ::
      Again(items[i], items[i], m * Count(items, KeyOf(items[i]), |items|)) == items[i]
  {
    hide Merge, RecordKey, LayOver, Collect, Again, Said, RecordOf, KeysInPlace, Count;
    ListReplaced(items, items, m);
    CollectSelf(items);
    forall i | 0 <= i < |items|
      ensures Again(items[i], items[i], m * Count(items, KeyOf(items[i]), |items|)) == items[i]
    {
      CollectRecords(items, |items|, KeyOf(items[i]));
      assert items[..|items|] == items;
      SaidOnSome(items[i], items[i], m * Count(items, KeyOf(items[i]), |items|));
    }
  }

  ghost predicate Absorbed(o: Json) {
    forall b :: Merge(Merge(b, o), o) == Merge(b, o)
  }

  /** The exact condition: an overlay is absorbed by every base if and only if it is stable. */
  lemma AbsorbedIffStable(o: Json)
    ensures Absorbed(o) <==> Stable(o)
  {
    hide Stable;
    if Stable(o) {
      forall b ensures Merge(Merge(b, o), o) == Merge(b, o) {
        Absorption(b, o);
      }
    }
    if Absorbed(o) {
      assert Merge(Merge(JNull, o), o) == Merge(JNull, o);
      assert Again(o, o, 0) == o && Again(o, o, 1) == Merge(o, o);
      ReturningIsStable(o, 1);
    }
  }

  ghost predicate FieldsAbsorbed(o: map<string, Json>) {
    forall b :: MergeFields(MergeFields(b, o), o) == MergeFields(b, o)
  }

  /** The same for `deep_merge` itself, whose base and overlay are objects. */
  lemma DeepMergeAbsorbedIffStable(o: map<string, Json>)
    ensures FieldsAbsorbed(o) <==> Stable(JObject(o))
  {
    if Stable(JObject(o)) {
      forall b ensures MergeFields(MergeFields(b, o), o) == MergeFields(b, o) {
        AbsorbFields(b, o);
      }
    }
    if FieldsAbsorbed(o) {
      var none: map<string, Json> := map[];
      assert MergeFields(none, o) == o;
      assert MergeFields(MergeFields(none, o), o) == MergeFields(none, o);
      assert Merge(JObject(o), JObject(o)) == JObject(o);
      assert Again(JObject(o), JObject(o), 1) == Merge(Again(JObject(o), JObject(o), 0), JObject(o));
      ReturningIsStable(JObject(o), 1);
    }
  }

  /** No keyed list that is merged, at any depth, repeats a key. */
  ghost predicate DistinctlyKeyed(o: Json) {
    match o
    case JObject(fields) => forall k | k in fields :: DistinctlyKeyed(fields[k])
    case JArray(items) =>
      AllKeyed(items) ==>
        && DistinctKeys(items)
        && forall i | 0 <= i < |items| :: DistinctlyKeyed(items[i])
    case _ => true
  }

  /** Overlays whose keyed lists have distinct keys are stable. */
  lemma {:induction false} DistinctIsStable(o: Json)
    requires DistinctlyKeyed(o)
    ensures Stable(o)
  {
    hide RecordKey;
    match o
    case JObject(fields) =>
      forall k | k in fields ensures Stable(fields[k]) {
        DistinctIsStable(fields[k]);
      }
    case JArray(items) =>
      if AllKeyed(items) {
        forall i | 0 <= i < |items| ensures Stable(items[i]) {
          DistinctIsStable(items[i]);
        }
      }
    case _ =>
  }

  /** A list with two different records under one key: laying this overlay over twice changes
      the result. */
  lemma DuplicatesAreNotAbsorbed()
    ensures var one, two := JObject(map["id" := JString("a"), "p" := JNull]), JObject(map["id" := JString("a")]);
      !FieldsAbsorbed(map["records" := JArray([one, two])])
  {
    var one, two := JObject(map["id" := JString("a"), "p" := JNull]), JObject(map["id" := JString("a")]);
    var list := JArray([one, two]);
    var o := map["records" := list];
    assert "p" in one.fields && "p" !in two.fields;
    assert KeyOf(list.items[0]) == KeyOf(list.items[1]) && list.items[0] != list.items[1];
    assert AllKeyed(list.items);
    assert !Stable(list) && "records" in o && o["records"] == list;
    assert !Stable(JObject(o));
    DeepMergeAbsorbedIffStable(o);
  }

  // --- When an overlay replaces -----------------------------------------------------------------------

  /** The overlay list begins with the keys of the base list, and has every other key once. */
  ghost predicate KeysInPlace(bs: seq<Json>, os: seq<Json>)
    requires AllKeyed(bs) && AllKeyed(os)
  {
    && |bs| <= |os|
    && (forall i | 0 <= i < |bs| :: KeyOf(bs[i]) == KeyOf(os[i]))
    && (forall i, j | 0 <= i < j < |os| && |bs| <= j :: KeyOf(os[i]) != KeyOf(os[j]))
  }

  /** The overlay, said `n` times, has something to say about all that the base holds: no field of
      the base is missing from it; a keyed list has the keys of the base in place, and equal records
      where it repeats a key, each covering the base's last record of that key. Where there is
      nothing to cover the overlay only meets itself. */
  ghost predicate Covered(b: Option<Json>, o: Json, n: nat)
    decreases o
  {
    match (b, o)
    case (Some(JObject(bs)), JObject(os)) =>
      bs.Keys <= os.Keys && forall k | k in os :: Covered(Field(bs, k), os[k], n)
    case (Some(JArray(bs)), JArray(os)) =>
      if bs != [] && os != [] && AllKeyed(bs) && AllKeyed(os) then
        && KeysInPlace(bs, os)
        && SameKeySameRecord(os)
        && forall i | 0 <= i < |os| ::
             Covered(RecordOf(bs, |bs|, KeyOf(os[i])), os[i], n * Count(os, KeyOf(os[i]), |os|))
      else (bs == [] || os != []) && (n == 1 || Stable(o))
    case _ => n == 1 || Stable(o)
  }

  lemma {:induction false} AgainFixed(x: Json, o: Json, m: nat)
    requires Merge(x, o) == x
    ensures Again(x, o, m) == x
  {
    hide Merge;
    if m > 0 {
      AgainFixed(x, o, m - 1);
    }
  }

  lemma MeetsItself(o: Json, n: nat)
    requires n >= 1
    ensures Again(o, o, n - 1) == o <==> n == 1 || Stable(o)
  {
    hide Merge, Stable;
    if Stable(o) {
      SelfMerge(o);
      AgainFixed(o, o, n - 1);
    }
    if n > 1 && Again(o, o, n - 1) == o {
      ReturningIsStable(o, n - 1);
    }
  }

  /** What is replaced by the first merge leaves the overlay to meet itself. */
  lemma ReplacedAtOnce(b: Json, o: Json, n: nat)
    requires n >= 1 && Merge(b, o) == o
    ensures Again(b, o, n) == o <==> n == 1 || Stable(o)
  {
    hide Merge, Stable;
    assert Again(b, o, 0) == b && Again(b, o, 1) == Merge(b, o);
    AgainAdds(b, o, 1, n - 1);
    MeetsItself(o, n);
  }

  lemma {:induction false} OrderInPlace(bs: seq<Json>, os: seq<Json>, n: nat)
    requires AllKeyed(bs) && AllKeyed(os) && KeysInPlace(bs, os) && n <= |os|
    ensures var s := LayOver(Collect(bs), os, n);
      && |s.order| == (if n <= |bs| then |bs| else n)
      && forall i | 0 <= i < |s.order| :: s.order[i] == KeyOf(os[i])
  {
    hide RecordKey, Merge, Collect, Filed, KeyAmong, Grows;
    CollectFiles(bs);
    CollectKeys(bs, Collect(bs));
    if n > 0 {
      OrderInPlace(bs, os, n - 1);
      LayOverGrows(Collect(bs), os, n - 1);
      KnownAlready(bs, os, n - 1);
    }
  }

  lemma KnownAlready(bs: seq<Json>, os: seq<Json>, j: nat)
    requires AllKeyed(bs) && AllKeyed(os) && KeysInPlace(bs, os) && j < |os|
    ensures KeyAmong(bs, |bs|, KeyOf(os[j])) || KeyAmong(os, j, KeyOf(os[j])) <==> j < |bs|
  {
    hide RecordKey;
  }

  /** The merged list has the overlay's keys exactly when they are in place. */
  lemma OrderIsOverlays(bs: seq<Json>, os: seq<Json>)
    requires AllKeyed(bs) && AllKeyed(os)
    ensures var s := LayOver(Collect(bs), os, |os|);
      KeysInPlace(bs, os) <==> |s.order| == |os| && forall i | 0 <= i < |os| :: s.order[i] == KeyOf(os[i])
  {
    hide RecordKey, LayOver, Collect;
    var start := Collect(bs);
    var s := LayOver(start, os, |os|);
    CollectFiles(bs);
    LayOverGrows(start, os, |os|);
    if KeysInPlace(bs, os) {
      OrderInPlace(bs, os, |os|);
    }
    if |s.order| == |os| && forall i | 0 <= i < |os| :: s.order[i] == KeyOf(os[i]) {
      forall i, j | 0 <= i < j < |os| && |bs| <= j ensures KeyOf(os[i]) != KeyOf(os[j]) {
        assert i < |bs| ==> start.order[i] in start.order;
      }
    }
  }

  lemma ListsAgree(t: Keyed, os: seq<Json>)
    requires AllKeyed(os) && Filed(t)
    ensures Listed(t) == os <==>
      && |t.order| == |os|
      && forall i | 0 <= i < |os| :: t.order[i] == KeyOf(os[i]) && Under(t, KeyOf(os[i])) == Some(os[i])
  {
    hide RecordKey;
    ListedRecords(t, Listed(t));
  }

  lemma ListReplaced(bs: seq<Json>, os: seq<Json>, n: nat)
    requires bs != [] && os != [] && AllKeyed(bs) && AllKeyed(os) && n >= 1
    ensures Again(JArray(bs), JArray(os), n) == JArray(os) <==>
      && KeysInPlace(bs, os)
      && SameKeySameRecord(os)
      && forall i | 0 <= i < |os| ::
           Said(RecordOf(bs, |bs|, KeyOf(os[i])), os[i], n * Count(os, KeyOf(os[i]), |os|)) == Some(os[i])
  {
    hide RecordKey, LayOver, Collect, Merge, Again, Said, Listed, Filed, RecordOf, Rounds, Under, Count, KeysInPlace;
    var start := Collect(bs);
    var t := Rounds(start, os, n);
    CollectFiles(bs);
    AgainItems(bs, os, n);
    RoundsFile(start, os, n);
    OrderIsOverlays(bs, os);
    ListsAgree(t, os);
    if SameKeySameRecord(os) {
      forall i | 0 <= i < |os|
        ensures Under(t, KeyOf(os[i])) ==
          Said(RecordOf(bs, |bs|, KeyOf(os[i])), os[i], n * Count(os, KeyOf(os[i]), |os|))
      {
        RoundsSay(start, os, n, i);
        CollectRecords(bs, |bs|, KeyOf(os[i]));
        assert bs[..|bs|] == bs;
      }
    }
  }

  lemma {:induction false} SaidReplacesIffCovered(b: Option<Json>, o: Json, n: nat)
    requires n >= 1
    ensures Said(b, o, n) == Some(o) <==> Covered(b, o, n)
    decreases o
  {
    hide RecordKey, Again, Count, RecordOf, KeysInPlace, Stable;
    match (b, o)
    case (None, _) =>
      MeetsItself(o, n);
    case (Some(JObject(bs)), JObject(os)) =>
      forall k | k in os ensures Said(Field(bs, k), os[k], n) == Some(os[k]) <==> Covered(Field(bs, k), os[k], n) {
        SaidReplacesIffCovered(Field(bs, k), os[k], n);
      }
      FieldsReplaced(bs, os, n);
    case (Some(JArray(bs)), JArray(os)) =>
      if bs != [] && os != [] && AllKeyed(bs) && AllKeyed(os) {
        forall i | 0 <= i < |os|
          ensures var c := n * Count(os, KeyOf(os[i]), |os|); var x := RecordOf(bs, |bs|, KeyOf(os[i]));
            Said(x, os[i], c) == Some(os[i]) <==> Covered(x, os[i], c)
        {
          var c := Count(os, KeyOf(os[i]), |os|);
          CountsItself(os, i, |os|);
          assert n * c >= 1;
          SaidReplacesIffCovered(RecordOf(bs, |bs|, KeyOf(os[i])), os[i], n * c);
        }
        ListReplaced(bs, os, n);
      } else if bs != [] && os == [] {
        AgainFixed(b.value, o, n);
      } else {
        ReplacedAtOnce(b.value, o, n);
      }
    case _ =>
      ReplacedAtOnce(b.value, o, n);
  }

  lemma FieldsReplaced(bs: map<string, Json>, os: map<string, Json>, n: nat)
    requires n >= 1
    ensures Again(JObject(bs), JObject(os), n) == JObject(os) <==>
      bs.Keys <= os.Keys && forall k | k in os :: Said(Field(bs, k), os[k], n) == Some(os[k])
  {
    hide Again, Said;
    AgainFields(bs, os, n);
    var r := Again(JObject(bs), JObject(os), n).fields;
    if r == os {
      assert forall k | k in os :: Field(r, k) == Some(os[k]);
    } else if bs.Keys <= os.Keys && forall k | k in os :: Said(Field(bs, k), os[k], n) == Some(os[k]) {
      assert forall k | k in os :: r[k] == os[k];
    }
  }

  /** Merging gives back the overlay, that is, the overlay replaces the base, exactly when the
      base is covered; otherwise something of the base shows through, or of the overlay twice. */
  lemma ReplacesIffCovered(b: Json, o: Json)
    ensures Merge(b, o) == o <==> Covered(Some(b), o, 1)
  {
    hide Merge, Covered;
    SaidReplacesIffCovered(Some(b), o, 1);
    assert Again(b, o, 0) == b && Again(b, o, 1) == Merge(b, o);
  }

  /** An overlay entry does not replace the base entry of its key: a field that only the base
      has is kept. */
  lemma BaseFieldIsKept()
    ensures var kept, entry := JObject(map["id" := JString("a"), "p" := JNull]), JObject(map["id" := JString("a")]);
      MergeItems([kept], [entry]) == [kept] && kept != entry
  {
    var kept, entry := JObject(map["id" := JString("a"), "p" := JNull]), JObject(map["id" := JString("a")]);
    assert "p" in kept.fields && "p" !in entry.fields;
    assert RecordKey(kept) == Some("id:" + "a") == RecordKey(entry);
    assert Merge(kept, entry) == kept by {
      assert MergeFields(kept.fields, entry.fields) == kept.fields;
    }
    var only := Keyed(map["id:" + "a" := kept], ["id:" + "a"]);
    assert [kept][..0] == [];
    assert Collect([kept]) == only;
    assert LayOver(Collect([kept]), [entry], 0) == only;
    assert LayOver(Collect([kept]), [entry], 1) == only;
    assert MergeItems([kept], [entry]) == [kept];
  }
}
