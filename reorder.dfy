/** reorder_json_keys in helper_ziyarah.py: every index entry is cut down to
    the five index keys, in a fixed order, and the entries are sorted by id. */
module ZiyarahReorder {
  import opened Wrappers
  import opened Json
  import opened Text
  import opened Sorting
  import opened Workspace
  import opened Records

  /** The keys reorder_json_keys keeps, in the order it writes them. */
  const IndexKeys: seq<string> := ["id", "title", "description", "total_lines", "languages"]

  /** A dict of the keys `ks`, in that order, with the values `f` holds for
      them; the first key `f` lacks raises KeyError. */
  function Pick(f: Fields, ks: seq<string>): (r: Result<Fields, Failure>)
    ensures r.Success? <==> forall i :: 0 <= i < |ks| ==> ks[i] in Keys(f)
    ensures r.Success? ==> Keys(r.value) == ks && forall i :: 0 <= i < |ks| ==> Get(f, ks[i]) == Some(r.value[i].1)
    ensures r.Failure? ==> r.error.KeyError? && r.error.key in ks && r.error.key !in Keys(f)
  {
    if ks == [] then Success([])
    else if Get(f, ks[0]).None? then Failure(KeyError(ks[0]))
    else
      assert forall i :: 1 <= i < |ks| ==> ks[i] == ks[1..][i - 1];
      match Pick(f, ks[1..])
      case Failure(e) => Failure(e)
      case Success(rest) =>
        var r := [(ks[0], Get(f, ks[0]).value)] + rest;
        assert Keys(r) == [ks[0]] + Keys(rest);
        Success(r)
  }

  /** `{"id": item["id"], ..., "languages": item["languages"]}`: indexing
      anything but a dict raises TypeError. */
  function Project(item: Value): Result<Fields, Failure>
  {
    if item.Obj? then Pick(item.fields, IndexKeys) else Failure(TypeError)
  }

  /** The list comprehension: the items in order, stopping at the first that
      cannot be projected. */
  function ProjectAll(items: seq<Value>): (r: Result<seq<Fields>, Failure>)
    ensures r.Success? ==> |r.value| == |items| && forall i :: 0 <= i < |items| ==> Project(items[i]) == Success(r.value[i])
  {
    if items == [] then Success([])
    else
      match Project(items[0])
      case Failure(e) => Failure(e)
      case Success(p) =>
        assert forall j :: 1 <= j < |items| ==> items[j] == items[1..][j - 1];
        match ProjectAll(items[1..])
        case Failure(e) => Failure(e)
        case Success(ps) => Success([p] + ps)
  }

  /** The comprehension fails with the error of the first item that cannot be
      projected. */
  lemma {:induction false} ProjectAllFailure(items: seq<Value>, i: nat)
    requires i < |items| && Project(items[i]).Failure?
    requires forall j :: 0 <= j < i ==> Project(items[j]).Success?
    ensures ProjectAll(items) == Failure(Project(items[i]).error)
  {
    if i > 0 {
      var rest := items[1..];
      assert rest[i - 1] == items[i];
      forall j | 0 <= j < i - 1 ensures Project(rest[j]).Success? {
        assert rest[j] == items[j + 1];
      }
      ProjectAllFailure(rest, i - 1);
    }
  }

  /** `x.get("id", "")` where the id is a string. */
  function IdKey(f: Fields): string
  {
    match Get(f, "id")
    case Some(Str(s)) => s
    case _ => ""
  }

  /** Every entry's id is a string, so that the sort can compare them. */
  predicate StringIds(es: seq<Fields>)
  {
    forall i :: 0 <= i < |es| ==> Get(es[i], "id").Some? && Get(es[i], "id").value.Str?
  }

  /** The outcome and the index file after reorder_json_keys. Sorting two or
      more entries whose ids are not all strings raises TypeError. */
  function Reorder(index: JsonFile): (Outcome, JsonFile)
  {
    match index
    case Absent => (Failed(FileNotFound), index)
    case Present(None) => (Failed(JsonDecodeError), index)
    case Present(Some(v)) =>
      match Iterate(v)
      case Failure(e) => (Failed(e), index)
      case Success(items) =>
        match ProjectAll(items)
        case Failure(e) => (Failed(e), index)
        case Success(reordered) =>
          if |reordered| >= 2 && !StringIds(reordered) then (Failed(TypeError), index)
          else (Done, Present(Some(ObjList(SortBy(reordered, IdKey)))))
  }

  method ReorderJsonKeys(ws: Store) returns (outcome: Outcome)
    modifies ws
    ensures (outcome, ws.index) == Reorder(old(ws.index))
    ensures ws.raw == old(ws.raw) && ws.texts == old(ws.texts)
  {
    if ws.index.Absent? {
      return Failed(FileNotFound);
    }
    if ws.index.decoded.None? {
      return Failed(JsonDecodeError);
    }
    var data := Iterate(ws.index.decoded.value);
    if data.Failure? {
      return Failed(data.error);
    }
    var reordered := ProjectAll(data.value);
    if reordered.Failure? {
      return Failed(reordered.error);
    }
    if |reordered.value| >= 2 && !StringIds(reordered.value) {
      return Failed(TypeError);
    }
    ws.index := Present(Some(ObjList(SortBy(reordered.value, IdKey))));
    outcome := Done;
  }

  /** After a successful run the index holds one entry per item, each with
      exactly the five index keys in order and the item's values under them;
      the entries are sorted by id, are a permutation of the projected items,
      and items with equal ids keep their order. */
  lemma ReorderSpec(v: Value)
    requires Reorder(Present(Some(v))).0 == Done
    ensures var items := Iterate(v).value;
      var reordered := ProjectAll(items).value;
      var out := LoadIndex(Reorder(Present(Some(v))).1).value;
      LoadIndex(Reorder(Present(Some(v))).1).Success? &&
      |out| == |items| &&
      (forall i :: 0 <= i < |out| ==> Keys(out[i]) == IndexKeys) &&
      multiset(out) == multiset(reordered) &&
      SortedBy(out, IdKey) &&
      forall k :: KeyFilter(out, IdKey, k) == KeyFilter(reordered, IdKey, k)
  {
    var items := Iterate(v).value;
    var reordered := ProjectAll(items).value;
    var out := SortBy(reordered, IdKey);
    SortByCorrect(reordered, IdKey);
    LoadWrittenIndex(out);
    ProjectedKeys(items);
    SortKeepsIndexKeys(reordered);
  }

  /** Every projected entry has exactly the index keys. */
  lemma ProjectedKeys(items: seq<Value>)
    requires ProjectAll(items).Success?
    ensures forall i :: 0 <= i < |ProjectAll(items).value| ==> Keys(ProjectAll(items).value[i]) == IndexKeys
  {
    var ps := ProjectAll(items).value;
    forall i | 0 <= i < |ps| ensures Keys(ps[i]) == IndexKeys {
      assert Project(items[i]) == Success(ps[i]);
    }
  }

  /** Sorting entries that have exactly the index keys keeps that shape. */
  lemma SortKeepsIndexKeys(es: seq<Fields>)
    requires forall i :: 0 <= i < |es| ==> Keys(es[i]) == IndexKeys
    ensures forall i :: 0 <= i < |SortBy(es, IdKey)| ==> Keys(SortBy(es, IdKey)[i]) == IndexKeys
  {
    var out := SortBy(es, IdKey);
    SortByCorrect(es, IdKey);
    forall i | 0 <= i < |out| ensures Keys(out[i]) == IndexKeys {
      assert out[i] in multiset(es);
      var j :| 0 <= j < |es| && es[j] == out[i];
    }
  }

  lemma IndexKeysDistinct()
    ensures forall i, j :: 0 <= i < j < |IndexKeys| ==> IndexKeys[i] != IndexKeys[j]
  {
    var ks := IndexKeys;
    assert |ks[0]| == 2 && |ks[1]| == 5 && |ks[2]| == 11 && |ks[3]| == 11 && |ks[4]| == 9;
    assert ks[2][0] != ks[3][0];
  }

  /** Picking a dict's own keys, from key `m` on, gives its own pairs. */
  lemma {:induction false} PickOwnKeys(f: Fields, m: nat)
    requires DistinctKeys(f) && m <= |f|
    ensures Pick(f, Keys(f)[m..]) == Success(f[m..])
    decreases |f| - m
  {
    var t := Keys(f)[m..];
    if m < |f| {
      PickOwnKeys(f, m + 1);
      assert t[0] == f[m].0 && t[1..] == Keys(f)[m + 1..];
      assert Get(f, t[0]) == Some(f[m].1);
      assert Pick(f, t) == Success([(t[0], f[m].1)] + f[m + 1..]);
      assert f[m..] == [f[m]] + f[m + 1..];
    } else {
      assert t == [] && f[m..] == [];
    }
  }

  /** Entries with exactly the index keys project to themselves. */
  lemma ProjectWritten(es: seq<Fields>)
    requires forall i :: 0 <= i < |es| ==> Keys(es[i]) == IndexKeys
    ensures ProjectAll(ObjList(es).items) == Success(es)
  {
    var items := ObjList(es).items;
    IndexKeysDistinct();
    forall i | 0 <= i < |es| ensures Project(items[i]) == Success(es[i]) {
      PickOwnKeys(es[i], 0);
      assert Keys(es[i])[0..] == IndexKeys && es[i][0..] == es[i];
    }
    ProjectAllOf(items, es);
  }

  lemma SortKeepsStringIds(es: seq<Fields>)
    requires StringIds(es)
    ensures StringIds(SortBy(es, IdKey))
  {
    var out := SortBy(es, IdKey);
    SortByCorrect(es, IdKey);
    forall i | 0 <= i < |out| ensures Get(out[i], "id").Some? && Get(out[i], "id").value.Str? {
      assert out[i] in multiset(es);
    }
  }

  /** An index whose entries already have the index keys, string ids (when
      there are two or more) and id order is left as it is. */
  lemma ReorderFixed(es: seq<Fields>)
    requires ProjectAll(ObjList(es).items) == Success(es)
    requires |es| < 2 || StringIds(es)
    requires SortedBy(es, IdKey)
    ensures Reorder(Present(Some(ObjList(es)))) == (Done, Present(Some(ObjList(es))))
  {
    SortBySorted(es, IdKey);
  }

  /** Reordering an index that has just been reordered changes nothing. */
  lemma ReorderIdempotent(v: Value)
    requires Reorder(Present(Some(v))).0 == Done
    ensures Reorder(Reorder(Present(Some(v))).1) == (Done, Reorder(Present(Some(v))).1)
  {
    var reordered := ProjectAll(Iterate(v).value).value;
    var out := SortBy(reordered, IdKey);
    assert Reorder(Present(Some(v))).1 == Present(Some(ObjList(out)));
    SortByCorrect(reordered, IdKey);
    ProjectedKeys(Iterate(v).value);
    SortKeepsIndexKeys(reordered);
    ProjectWritten(out);
    if |out| >= 2 {
      SortKeepsStringIds(reordered);
    }
    ReorderFixed(out);
  }

  /** The comprehension succeeds with `ps` when every item projects to the
      matching element of `ps`. */
  lemma ProjectAllOf(items: seq<Value>, ps: seq<Fields>)
    requires |items| == |ps| && forall i :: 0 <= i < |items| ==> Project(items[i]) == Success(ps[i])
    ensures ProjectAll(items) == Success(ps)
  {
    ProjectAllFrom(items, ps, 0);
    assert items[0..] == items && ps[0..] == ps;
  }

  /** The same from item `m` on. */
  lemma {:induction false} ProjectAllFrom(items: seq<Value>, ps: seq<Fields>, m: nat)
    requires |items| == |ps| && forall i :: 0 <= i < |items| ==> Project(items[i]) == Success(ps[i])
    requires m <= |items|
    ensures ProjectAll(items[m..]) == Success(ps[m..])
    decreases |items| - m
  {
    if m < |items| {
      ProjectAllFrom(items, ps, m + 1);
      var rest := items[m..];
      assert rest[0] == items[m] && rest[1..] == items[m + 1..];
      assert Project(rest[0]) == Success(ps[m]);
      assert ps[m..] == [ps[m]] + ps[m + 1..];
    } else {
      assert items[m..] == [] && ps[m..] == [];
    }
  }
}
