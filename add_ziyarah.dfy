/** add_ziyarah.py: the stand-alone script that adds one ziyarah from raw.txt
    with three fixed languages (Arabic, transliteration, English), always
    prefixes a heading line, and keeps the index sorted by id. */
module AddZiyarah {
  import opened Wrappers
  import opened Json
  import opened Text
  import opened Sorting
  import opened Blocks
  import opened Workspace
  import opened Records

  /** ZIYARAH_NAME, ZIYARAH_NAME_ARABIC and DESCRIPTION. */
  datatype Config = Config(name: string, arabicName: string, description: string)

  /** `ziyarahId`: the name in lower case with every space replaced by '-'. */
  function ItemId(cfg: Config): string
  {
    Slug(cfg.name)
  }

  const HeadingPrefix: string := "INFO: "

  /** A single line always gets the prefix, even if it already has one. */
  const Rule: HeadingRule := AlwaysPrefix(HeadingPrefix)

  /** Lines per block: one per language. */
  const Arity: nat := 3

  /** `languages`: code, line of the block, and title of each text file. */
  function Table(cfg: Config): seq<LanguageColumn>
  {
    [LanguageColumn("ar", 0, cfg.arabicName), LanguageColumn("transliteration", 1, cfg.name), LanguageColumn("en", 2, cfg.name)]
  }

  /** The index entry: id, total_lines, languages, a title per language and
      the stripped description, in that key order. */
  function Entry(cfg: Config, total: nat): Fields
  {
    [("id", Str(ItemId(cfg))),
     ("total_lines", Num(total)),
     ("languages", Arr([Str("ar"), Str("en"), Str("transliteration")])),
     ("title", Obj(Titles(cfg))),
     ("description", Str(Strip(cfg.description)))]
  }

  /** `x.get("id", "")` for an entry whose id, if any, is a string. */
  function SortKey(f: Fields): string
  {
    match Get(f, "id")
    case Some(Str(s)) => s
    case _ => ""
  }

  /** Every id the sort compares is a string (a missing id counts as ""):
      otherwise comparing it with the new entry's string id raises TypeError. */
  predicate ComparableIds(es: seq<Fields>)
  {
    forall i :: 0 <= i < |es| ==> Get(es[i], "id").None? || Get(es[i], "id").value.Str?
  }

  /** The outcome and the index file after update_index. */
  function IndexAfterUpdate(f: JsonFile, cfg: Config, total: nat): (Outcome, JsonFile)
  {
    match LoadIndex(f)
    case Failure(e) => (Failed(e), f)
    case Success(es) =>
      var index := RemoveId(es, ItemId(cfg)) + [Entry(cfg, total)];
      if !ComparableIds(index) then (Failed(TypeError), f)
      else (Done, Present(Some(ObjList(SortBy(index, SortKey)))))
  }

  method UpdateIndex(ws: Store, cfg: Config, totalLines: nat) returns (outcome: Outcome)
    modifies ws
    ensures (outcome, ws.index) == IndexAfterUpdate(old(ws.index), cfg, totalLines)
    ensures ws.raw == old(ws.raw) && ws.texts == old(ws.texts)
  {
    var entry := Entry(cfg, totalLines);
    var loaded := LoadIndex(ws.index);
    if loaded.Failure? {
      return Failed(loaded.error);
    }
    var index := RemoveId(loaded.value, ItemId(cfg));
    index := index + [entry];
    if !ComparableIds(index) {
      return Failed(TypeError);
    }
    index := SortBy(index, SortKey);
    ws.index := Present(Some(ObjList(index)));
    outcome := Done;
  }

  /** add_ziyarah_data on the files `s`. */
  function AddData(s: Snapshot, cfg: Config): (Outcome, Snapshot)
  {
    var bs := Parse(s.raw);
    match FirstBadBlock(bs, Arity)
    case Some(k) => (Failed(BlockArity(k + 1, |bs[k]|)), s)
    case None =>
      var nb := NormalizeAll(bs, Rule, Arity);
      assert HasColumns(nb, Table(cfg), 3) by {
        forall j | 0 <= j < |nb| ensures |nb[j]| == Arity {
          assert !BadArity(bs[j], Arity);
        }
      }
      var texts := WriteColumns(s.texts, ItemId(cfg), Table(cfg), nb, 3);
      var (outcome, index) := IndexAfterUpdate(s.index, cfg, |nb|);
      (outcome, s.(texts := texts, index := index))
  }

  method AddZiyarahData(ws: Store, cfg: Config) returns (outcome: Outcome)
    modifies ws
    ensures (outcome, ws.State()) == AddData(old(ws.State()), cfg)
  {
    var blocks := ReadBlocks(ws.raw);
    var a := new Block[|blocks|](i requires 0 <= i < |blocks| => blocks[i]);
    assert a[..] == blocks;
    var bad := NormalizeInPlace(a, Rule, Arity, Arity);
    if bad.Some? {
      return Failed(BlockArity(bad.value + 1, |blocks[bad.value]|));
    }
    var nb := a[..];
    AddDataWrites(old(ws.State()), cfg);
    var languages := Table(cfg);
    var id := ItemId(cfg);
    for k := 0 to |languages|
      invariant ws.texts == WriteColumns(old(ws.texts), id, languages, nb, k)
      invariant ws.raw == old(ws.raw) && ws.index == old(ws.index)
    {
      var lines := Column(nb, languages[k].column);
      ws.texts := ws.texts[TextPath(languages[k].code, id) := Some(TextRecord(id, languages[k].title, languages[k].code, lines))];
    }
    outcome := UpdateIndex(ws, cfg, |nb|);
  }

  /** When every block has a valid size, the run writes the three language
      files and then updates the index. */
  lemma AddDataWrites(s: Snapshot, cfg: Config)
    requires FirstBadBlock(Parse(s.raw), Arity) == None
    ensures var nb := NormalizeAll(Parse(s.raw), Rule, Arity);
      HasColumns(nb, Table(cfg), 3) &&
      var texts := WriteColumns(s.texts, ItemId(cfg), Table(cfg), nb, 3);
      var (outcome, index) := IndexAfterUpdate(s.index, cfg, |nb|);
      AddData(s, cfg) == (outcome, s.(texts := texts, index := index))
  {
    var bs := Parse(s.raw);
    var nb := NormalizeAll(bs, Rule, Arity);
    forall j | 0 <= j < |nb| ensures |nb[j]| == Arity {
      assert !BadArity(bs[j], Arity);
    }
  }

  /** A block of neither one nor three lines stops the run at the first such
      block, reporting its 1-based number, and nothing is written. */
  lemma AddDataArityFailure(s: Snapshot, cfg: Config, k: nat)
    requires k < |Parse(s.raw)| && BadArity(Parse(s.raw)[k], Arity)
    requires forall j :: 0 <= j < k ==> !BadArity(Parse(s.raw)[j], Arity)
    ensures AddData(s, cfg) == (Failed(BlockArity(k + 1, |Parse(s.raw)[k]|)), s)
  {
    var r := FirstBadBlock(Parse(s.raw), Arity);
    assert r.Some? && r.value == k;
  }

  /** A one-line block becomes three copies of the prefixed line, with no check
      for a prefix already there; a three-line block is kept. */
  lemma NormalizeBlocks(bs: seq<Block>)
    requires FirstBadBlock(bs, Arity) == None
    ensures var nb := NormalizeAll(bs, Rule, Arity);
      forall j :: 0 <= j < |bs| ==>
        if |bs[j]| == 1 then nb[j] == [HeadingPrefix + bs[j][0], HeadingPrefix + bs[j][0], HeadingPrefix + bs[j][0]]
        else |bs[j]| == 3 && nb[j] == bs[j]
  {
    var nb := NormalizeAll(bs, Rule, Arity);
    forall j | 0 <= j < |bs|
      ensures if |bs[j]| == 1 then nb[j] == [HeadingPrefix + bs[j][0], HeadingPrefix + bs[j][0], HeadingPrefix + bs[j][0]]
        else |bs[j]| == 3 && nb[j] == bs[j]
    {
      assert !BadArity(bs[j], Arity);
    }
  }

  /** With valid blocks, the Arabic, transliteration and English files hold
      line 0, 1 and 2 of every normalised block (one entry per block) with the
      item's id, title and language, and no other file changes. */
  lemma AddDataWritesTexts(s: Snapshot, cfg: Config)
    requires FirstBadBlock(Parse(s.raw), Arity) == None
    ensures var nb := NormalizeAll(Parse(s.raw), Rule, Arity);
      var texts := AddData(s, cfg).1.texts;
      var id := ItemId(cfg);
      HasColumn(nb, 0) && HasColumn(nb, 1) && HasColumn(nb, 2) &&
      TextPath("ar", id) in texts && texts[TextPath("ar", id)] == Some(TextRecord(id, cfg.arabicName, "ar", Column(nb, 0))) &&
      TextPath("transliteration", id) in texts &&
      texts[TextPath("transliteration", id)] == Some(TextRecord(id, cfg.name, "transliteration", Column(nb, 1))) &&
      TextPath("en", id) in texts && texts[TextPath("en", id)] == Some(TextRecord(id, cfg.name, "en", Column(nb, 2))) &&
      |Column(nb, 0)| == |Parse(s.raw)| &&
      forall p: TextPath :: p.id != id || p.language !in ["ar", "transliteration", "en"] ==>
        (p in texts <==> p in s.texts) && (p in s.texts ==> texts[p] == s.texts[p])
  {
    var bs := Parse(s.raw);
    var nb := NormalizeAll(bs, Rule, Arity);
    var id := ItemId(cfg);
    var table := Table(cfg);
    forall j | 0 <= j < |nb| ensures |nb[j]| == Arity {
      assert !BadArity(bs[j], Arity);
    }
    AddDataWrites(s, cfg);
    var texts := WriteColumns(s.texts, id, table, nb, 3);
    assert AddData(s, cfg).1.texts == texts;
    assert |table[0].code| == 2 && |table[1].code| == 15 && |table[2].code| == 2;
    assert table[0].code[0] != table[2].code[0];
    WriteColumnsWrites(s.texts, id, table, nb, 3, 0);
    WriteColumnsWrites(s.texts, id, table, nb, 3, 1);
    WriteColumnsWrites(s.texts, id, table, nb, 3, 2);
    forall p: TextPath | p.id != id || p.language !in ["ar", "transliteration", "en"]
      ensures (p in texts <==> p in s.texts)
      ensures p in s.texts ==> texts[p] == s.texts[p]
    {
      WriteColumnsKeeps(s.texts, id, table, nb, 3, p);
    }
  }

  /** The title of every language, keyed by language code. */
  function Titles(cfg: Config): Fields
  {
    [("ar", Str(cfg.arabicName)), ("en", Str(cfg.name)), ("transliteration", Str(cfg.name))]
  }

  lemma TitlesSpec(cfg: Config)
    ensures Keys(Titles(cfg)) == ["ar", "en", "transliteration"]
    ensures Get(Titles(cfg), "ar") == Some(Str(cfg.arabicName))
    ensures Get(Titles(cfg), "en") == Some(Str(cfg.name))
    ensures Get(Titles(cfg), "transliteration") == Some(Str(cfg.name))
  {
    var t := Titles(cfg);
    assert |t| == 3 && t[0].0 == "ar" && t[1].0 == "en" && t[2].0 == "transliteration";
    assert |t[0].0| == 2 && |t[1].0| == 2 && |t[2].0| == 15;
    assert t[0].0[0] != t[1].0[0];
  }

  /** The entry's id, line count and per-language titles. */
  lemma EntrySpec(cfg: Config, total: nat)
    ensures Get(Entry(cfg, total), "id") == Some(Str(ItemId(cfg)))
    ensures Get(Entry(cfg, total), "total_lines") == Some(Num(total))
    ensures Get(Entry(cfg, total), "title") == Some(Obj(Titles(cfg)))
  {
    var e := Entry(cfg, total);
    assert |e| == 5 && e[0].0 == "id" && e[1].0 == "total_lines" && e[3].0 == "title";
    assert |e[0].0| == 2 && |e[1].0| == 11 && |e[2].0| == 9 && |e[3].0| == 5;
  }

  /** Sorting the kept entries with the new one appended: the new entry is
      the only one with the id, and the rest are a permutation. */
  lemma {:induction false} SortedUpsert(kept: seq<Fields>, entry: Fields, id: string)
    requires forall i :: 0 <= i < |kept| ==> !HasId(kept[i], id)
    requires HasId(entry, id)
    ensures var out := SortBy(kept + [entry], SortKey);
      Count(out, e => HasId(e, id)) == 1 && entry in out && SortedBy(out, SortKey) &&
      multiset(out) == multiset(kept) + multiset{entry}
  {
    var index := kept + [entry];
    var p := e => HasId(e, id);
    SortByCorrect(index, SortKey);
    SortByCount(index, SortKey, p);
    CountAppend(kept, [entry], p);
    CountNone(kept, p);
    assert Count([entry], p) == 1 by {
      assert [entry][1..] == [];
    }
    assert entry in multiset(SortBy(index, SortKey));
  }

  /** After a successful update exactly one entry has the item's id, the
      entries are sorted by id (a missing id sorts as ""), and they are the old
      entries without that id plus the new entry, in some order. */
  lemma IndexAfterUpdateSpec(f: JsonFile, cfg: Config, total: nat)
    requires LoadIndex(f).Success?
    requires ComparableIds(RemoveId(LoadIndex(f).value, ItemId(cfg)) + [Entry(cfg, total)])
    ensures IndexAfterUpdate(f, cfg, total).0 == Done
    ensures var out := LoadIndex(IndexAfterUpdate(f, cfg, total).1).value;
      LoadIndex(IndexAfterUpdate(f, cfg, total).1).Success? &&
      Count(out, e => HasId(e, ItemId(cfg))) == 1 &&
      Entry(cfg, total) in out &&
      SortedBy(out, SortKey) &&
      multiset(out) == multiset(RemoveId(LoadIndex(f).value, ItemId(cfg))) + multiset{Entry(cfg, total)}
  {
    var kept := RemoveId(LoadIndex(f).value, ItemId(cfg));
    EntrySpec(cfg, total);
    SortedUpsert(kept, Entry(cfg, total), ItemId(cfg));
    LoadWrittenIndex(SortBy(kept + [Entry(cfg, total)], SortKey));
  }

  /** An entry whose id is present but not a string makes the sort raise
      TypeError, and the index is left as it was. */
  lemma IndexAfterUpdateTypeError(f: JsonFile, cfg: Config, total: nat, i: nat)
    requires LoadIndex(f).Success?
    requires i < |LoadIndex(f).value| && !HasId(LoadIndex(f).value[i], ItemId(cfg))
    requires Get(LoadIndex(f).value[i], "id").Some? && !Get(LoadIndex(f).value[i], "id").value.Str?
    ensures IndexAfterUpdate(f, cfg, total) == (Failed(TypeError), f)
  {
    var es := LoadIndex(f).value;
    var index := RemoveId(es, ItemId(cfg)) + [Entry(cfg, total)];
    RemoveIdKeeps(es, ItemId(cfg), i);
    var kept := RemoveId(es, ItemId(cfg));
    var j :| 0 <= j < |kept| && kept[j] == es[i];
    assert index[j] == es[i];
  }
}
