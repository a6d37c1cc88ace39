/** helper_ziyarah.py: adding or updating an item (dua, ziyarah, dhikr) from
    raw.txt and changing its title or description. Rebuilding raw.txt is in
    module ZiyarahRegenerate, normalising the index in ZiyarahReorder. */
module Ziyarah {
  import opened Wrappers
  import opened Json
  import opened Text
  import opened Sorting
  import opened Blocks
  import opened Workspace
  import opened Records

  /** The constants at the top of the script: the item, its languages (one per
      line of a full block) and the heading prefixes. */
  datatype Config = Config(
    name: string,
    description: string,
    languages: seq<string>,
    headingPrefix: string,
    prefixList: seq<string>)

  /** The item's id: getZiyarahId(ZIYARAH_NAME). */
  function ItemId(cfg: Config): string
  {
    Slug(cfg.name)
  }

  /** A single line is made a heading with HEADING_PREFIX unless it already
      starts with one of HEADING_PREFIX_LIST. */
  function Rule(cfg: Config): HeadingRule
  {
    PrefixUnlessMarked(cfg.headingPrefix, cfg.prefixList)
  }

  /** The number of copies the block loop makes of a heading line. */
  const Copies: nat := 3

  /** Language `i` takes line `i` of every block; every file has the item's title. */
  function Table(cfg: Config): (t: seq<LanguageColumn>)
    ensures |t| == |cfg.languages|
    ensures forall i :: 0 <= i < |t| ==> t[i] == LanguageColumn(cfg.languages[i], i, cfg.name)
  {
    seq(|cfg.languages|, i requires 0 <= i < |cfg.languages| => LanguageColumn(cfg.languages[i], i, cfg.name))
  }

  /** The number of languages whose column exists in every block: the write
      loop raises IndexError at the first language past it. */
  function MinWidth(bs: seq<Block>, n: nat): (w: nat)
    ensures w <= n
    ensures forall j :: 0 <= j < |bs| ==> w <= |bs[j]|
    ensures w < n ==> exists j :: 0 <= j < |bs| && |bs[j]| == w
  {
    if bs == [] then n
    else
      var rest := MinWidth(bs[1..], n);
      if |bs[0]| < rest then |bs[0]| else rest
  }

  /** Some block lacks line `idx` exactly when the loop has reached MinWidth. */
  lemma MinWidthStep(bs: seq<Block>, n: nat, idx: nat)
    requires idx <= MinWidth(bs, n) && idx < n
    ensures (exists j :: 0 <= j < |bs| && |bs[j]| <= idx) <==> MinWidth(bs, n) == idx
    ensures MinWidth(bs, n) != idx ==> HasColumn(bs, idx) && idx + 1 <= MinWidth(bs, n)
  {
  }

  // ---------------------------------------------------------------- update_index_after_adding_new_ziyarah

  /** The index entry written for the item. */
  function IndexEntry(cfg: Config, total: nat): Fields
  {
    IndexFields(Str(ItemId(cfg)), Str(cfg.name), Str(Strip(cfg.description)), Num(total), Arr(StrSeq(cfg.languages)))
  }

  /** The outcome and the index file after the index update. */
  function IndexAfterAdding(f: JsonFile, cfg: Config, total: nat): (Outcome, JsonFile)
  {
    match LoadIndex(f)
    case Failure(e) => (Failed(e), f)
    case Success(es) => (Done, Present(Some(ObjList(Upsert(es, IndexEntry(cfg, total), ItemId(cfg))))))
  }

  method UpdateIndexAfterAdding(ws: Store, cfg: Config, total: nat) returns (outcome: Outcome)
    modifies ws
    ensures (outcome, ws.index) == IndexAfterAdding(old(ws.index), cfg, total)
    ensures ws.raw == old(ws.raw) && ws.texts == old(ws.texts)
  {
    var entry := IndexEntry(cfg, total);
    var loaded := LoadIndex(ws.index);
    if loaded.Failure? {
      return Failed(loaded.error);
    }
    var index := RemoveId(loaded.value, ItemId(cfg));
    index := index + [entry];
    ws.index := Present(Some(ObjList(index)));
    outcome := Done;
  }

  /** After a successful update the item's entry is the only one with its id
      and the last one, the other entries are the old ones in order, and a
      missing or undecodable index counts as empty. */
  lemma IndexAfterAddingSpec(f: JsonFile, cfg: Config, total: nat)
    requires LoadIndex(f).Success?
    ensures IndexAfterAdding(f, cfg, total).0 == Done
    ensures var es := LoadIndex(IndexAfterAdding(f, cfg, total).1).value;
      |es| >= 1 && es[|es| - 1] == IndexEntry(cfg, total) &&
      (forall i :: 0 <= i < |es| - 1 ==> !HasId(es[i], ItemId(cfg))) &&
      es[..|es| - 1] == RemoveId(LoadIndex(f).value, ItemId(cfg))
    ensures f.Absent? || f.decoded.None? ==> LoadIndex(IndexAfterAdding(f, cfg, total).1).value == [IndexEntry(cfg, total)]
  {
    var es := Upsert(LoadIndex(f).value, IndexEntry(cfg, total), ItemId(cfg));
    LoadWrittenIndex(es);
    UpsertSpec(LoadIndex(f).value, IndexEntry(cfg, total), ItemId(cfg));
  }

  // ---------------------------------------------------------------- add_new_ziyarah_or_update_existing_from_raw

  /** A run on the files `s` in which single-line blocks become `copies` heading
      lines. The script as written uses `Copies`. */
  function AddFromRawWith(s: Snapshot, cfg: Config, copies: nat): (Outcome, Snapshot)
  {
    var bs := Parse(s.raw);
    var n := |cfg.languages|;
    match FirstBadBlock(bs, n)
    case Some(k) => (Failed(BlockArity(k + 1, |bs[k]|)), s)
    case None =>
      var nb := NormalizeAll(bs, Rule(cfg), copies);
      var w := MinWidth(nb, n);
      var texts := WriteColumns(s.texts, ItemId(cfg), Table(cfg), nb, w);
      if w < n then (Failed(IndexError), s.(texts := texts))
      else
        var (outcome, index) := IndexAfterAdding(s.index, cfg, |nb|);
        (outcome, s.(texts := texts, index := index))
  }

  /** add_new_ziyarah_or_update_existing_from_raw as written. */
  function AddFromRaw(s: Snapshot, cfg: Config): (Outcome, Snapshot)
  {
    AddFromRawWith(s, cfg, Copies)
  }

  /** The run as evidently intended: a heading line is repeated once per
      language. */
  function AddFromRawIntended(s: Snapshot, cfg: Config): (Outcome, Snapshot)
  {
    AddFromRawWith(s, cfg, |cfg.languages|)
  }

  method AddNewOrUpdateFromRaw(ws: Store, cfg: Config) returns (outcome: Outcome)
    modifies ws
    ensures (outcome, ws.State()) == AddFromRaw(old(ws.State()), cfg)
  {
    var blocks := ReadBlocks(ws.raw);
    var a := new Block[|blocks|](i requires 0 <= i < |blocks| => blocks[i]);
    assert a[..] == blocks;
    var bad := NormalizeInPlace(a, Rule(cfg), Copies, |cfg.languages|);
    if bad.Some? {
      return Failed(BlockArity(bad.value + 1, |blocks[bad.value]|));
    }
    var nb := a[..];
    var complete := WriteLanguageFiles(ws, cfg, nb);
    if !complete {
      return Failed(IndexError);
    }
    outcome := UpdateIndexAfterAdding(ws, cfg, |nb|);
  }

  /** The loop over `enumerate(LANGUAGES)`: writes language `idx`'s file from
      line `idx` of every block, and stops (IndexError) at the first language
      some block has no line for. */
  method WriteLanguageFiles(ws: Store, cfg: Config, nb: seq<Block>) returns (complete: bool)
    modifies ws
    ensures complete <==> MinWidth(nb, |cfg.languages|) == |cfg.languages|
    ensures ws.texts == WriteColumns(old(ws.texts), ItemId(cfg), Table(cfg), nb, MinWidth(nb, |cfg.languages|))
    ensures ws.raw == old(ws.raw) && ws.index == old(ws.index)
  {
    var id := ItemId(cfg);
    ghost var w := MinWidth(nb, |cfg.languages|);
    var idx := 0;
    while idx < |cfg.languages|
      invariant idx <= w
      invariant ws.texts == WriteColumns(old(ws.texts), id, Table(cfg), nb, idx)
      invariant ws.raw == old(ws.raw) && ws.index == old(ws.index)
    {
      MinWidthStep(nb, |cfg.languages|, idx);
      if exists j :: 0 <= j < |nb| && |nb[j]| <= idx {
        return false;
      }
      var lines := Column(nb, idx);
      var langCode := cfg.languages[idx];
      WriteColumnsNext(old(ws.texts), cfg, nb, idx);
      ws.texts := ws.texts[TextPath(langCode, id) := Some(TextRecord(id, cfg.name, langCode, lines))];
      idx := idx + 1;
    }
    complete := true;
  }

  /** The columns below MinWidth exist, and writing one more language adds
      its file. */
  lemma WriteColumnsNext(texts: map<TextPath, Option<Value>>, cfg: Config, nb: seq<Block>, idx: nat)
    requires idx < MinWidth(nb, |cfg.languages|)
    ensures HasColumns(nb, Table(cfg), idx + 1)
    ensures var lang := cfg.languages[idx];
      WriteColumns(texts, ItemId(cfg), Table(cfg), nb, idx + 1)
        == WriteColumns(texts, ItemId(cfg), Table(cfg), nb, idx)[TextPath(lang, ItemId(cfg)) :=
             Some(TextRecord(ItemId(cfg), cfg.name, lang, Column(nb, idx)))]
  {
    assert Table(cfg)[idx] == LanguageColumn(cfg.languages[idx], idx, cfg.name);
  }

  /** A block of a wrong size stops the run at the first such block, reports
      its 1-based number and size, and leaves every file as it was. */
  lemma ArityFailureWritesNothing(s: Snapshot, cfg: Config, copies: nat, k: nat)
    requires k < |Parse(s.raw)| && BadArity(Parse(s.raw)[k], |cfg.languages|)
    requires forall j :: 0 <= j < k ==> !BadArity(Parse(s.raw)[j], |cfg.languages|)
    ensures AddFromRawWith(s, cfg, copies) == (Failed(BlockArity(k + 1, |Parse(s.raw)[k]|)), s)
  {
    var r := FirstBadBlock(Parse(s.raw), |cfg.languages|);
    assert r.Some?;
    assert r.value == k;
  }

  /** When every block has a valid size and heading lines are copied at least
      once per language, every language's file holds its column of the
      normalised blocks (one line per block), no other file changes, and the
      index gets the item's entry with `total_lines` the number of blocks. */
  lemma {:induction false} AddFromRawWithSucceeds(s: Snapshot, cfg: Config, copies: nat)
    requires FirstBadBlock(Parse(s.raw), |cfg.languages|) == None
    requires copies >= |cfg.languages|
    requires LoadIndex(s.index).Success?
    ensures var bs := Parse(s.raw);
      var nb := NormalizeAll(bs, Rule(cfg), copies);
      var (o, s') := AddFromRawWith(s, cfg, copies);
      o == Done && s'.raw == s.raw &&
      s'.index == Present(Some(ObjList(Upsert(LoadIndex(s.index).value, IndexEntry(cfg, |bs|), ItemId(cfg))))) &&
      (forall t :: 0 <= t < |cfg.languages| && LastWithCode(Table(cfg), |cfg.languages|, t) ==>
         HasColumn(nb, t) &&
         var p := TextPath(cfg.languages[t], ItemId(cfg));
         p in s'.texts && s'.texts[p] == Some(TextRecord(ItemId(cfg), cfg.name, cfg.languages[t], Column(nb, t)))) &&
      (forall p :: !Written(p, ItemId(cfg), Table(cfg), |cfg.languages|) ==>
         (p in s'.texts <==> p in s.texts) && (p in s.texts ==> s'.texts[p] == s.texts[p]))
  {
    var bs := Parse(s.raw);
    var n := |cfg.languages|;
    var nb := NormalizeAll(bs, Rule(cfg), copies);
    assert forall j :: 0 <= j < |nb| ==> n <= |nb[j]| by {
      forall j | 0 <= j < |nb| ensures n <= |nb[j]| {
        assert !BadArity(bs[j], n);
      }
    }
    var w := MinWidth(nb, n);
    if w < n {
      var j :| 0 <= j < |nb| && |nb[j]| == w;
      assert false;
    }
    var table := Table(cfg);
    var texts := WriteColumns(s.texts, ItemId(cfg), table, nb, n);
    AddFromRawWithComplete(s, cfg, copies);
    forall t | 0 <= t < n && LastWithCode(table, n, t)
      ensures HasColumn(nb, t)
      ensures TextPath(cfg.languages[t], ItemId(cfg)) in texts
      ensures texts[TextPath(cfg.languages[t], ItemId(cfg))] == Some(TextRecord(ItemId(cfg), cfg.name, cfg.languages[t], Column(nb, t)))
    {
      WriteColumnsWrites(s.texts, ItemId(cfg), table, nb, n, t);
    }
    forall p | !Written(p, ItemId(cfg), table, n)
      ensures (p in texts <==> p in s.texts) && (p in s.texts ==> texts[p] == s.texts[p])
    {
      WriteColumnsKeeps(s.texts, ItemId(cfg), table, nb, n, p);
    }
  }

  /** With valid block sizes and at least one copy per language, every
      normalised block has a line for each language. */
  lemma NormalizedWidth(bs: seq<Block>, rule: HeadingRule, copies: nat, n: nat)
    requires FirstBadBlock(bs, n) == None && copies >= n
    ensures MinWidth(NormalizeAll(bs, rule, copies), n) == n
  {
    var nb := NormalizeAll(bs, rule, copies);
    forall j | 0 <= j < |bs| ensures n <= |nb[j]| {
      assert !BadArity(bs[j], n);
    }
  }

  /** Column `c` of the normalised blocks does not depend on the number of
      heading copies, as long as both reach past it. */
  lemma NormalizedColumn(bs: seq<Block>, rule: HeadingRule, copies: nat, copies': nat, c: nat)
    requires HasColumn(NormalizeAll(bs, rule, copies), c) && HasColumn(NormalizeAll(bs, rule, copies'), c)
    ensures Column(NormalizeAll(bs, rule, copies), c) == Column(NormalizeAll(bs, rule, copies'), c)
  {
    var nb := NormalizeAll(bs, rule, copies);
    var nb' := NormalizeAll(bs, rule, copies');
    assert forall j :: 0 <= j < |bs| ==> nb[j][c] == nb'[j][c];
  }

  /** Heading lines past the last language are never read: with at least one
      copy per language, the number of copies does not change the run. */
  lemma AddFromRawWithCopies(s: Snapshot, cfg: Config, copies: nat, copies': nat)
    requires FirstBadBlock(Parse(s.raw), |cfg.languages|) == None
    requires copies >= |cfg.languages| && copies' >= |cfg.languages|
    ensures AddFromRawWith(s, cfg, copies) == AddFromRawWith(s, cfg, copies')
  {
    var bs := Parse(s.raw);
    var n := |cfg.languages|;
    var nb := NormalizeAll(bs, Rule(cfg), copies);
    var nb' := NormalizeAll(bs, Rule(cfg), copies');
    NormalizedWidth(bs, Rule(cfg), copies, n);
    NormalizedWidth(bs, Rule(cfg), copies', n);
    AddFromRawWithComplete(s, cfg, copies);
    AddFromRawWithComplete(s, cfg, copies');
    var table := Table(cfg);
    forall t | 0 <= t < n
      ensures HasColumn(nb, table[t].column) && HasColumn(nb', table[t].column)
      ensures Column(nb, table[t].column) == Column(nb', table[t].column)
    {
      NormalizedColumn(bs, Rule(cfg), copies, copies', t);
    }
    WriteColumnsSameColumns(s.texts, ItemId(cfg), table, nb, nb', n);
  }

  /** When every language's column exists, the run writes all of them and
      then updates the index. */
  lemma AddFromRawWithComplete(s: Snapshot, cfg: Config, copies: nat)
    requires FirstBadBlock(Parse(s.raw), |cfg.languages|) == None
    requires MinWidth(NormalizeAll(Parse(s.raw), Rule(cfg), copies), |cfg.languages|) == |cfg.languages|
    ensures var nb := NormalizeAll(Parse(s.raw), Rule(cfg), copies);
      var texts := WriteColumns(s.texts, ItemId(cfg), Table(cfg), nb, |cfg.languages|);
      var (outcome, index) := IndexAfterAdding(s.index, cfg, |Parse(s.raw)|);
      AddFromRawWith(s, cfg, copies) == (outcome, s.(texts := texts, index := index))
  {
  }

  /** The script as written, with at most three languages, succeeds on every
      document whose blocks have valid sizes. */
  lemma AddFromRawSucceeds(s: Snapshot, cfg: Config)
    requires FirstBadBlock(Parse(s.raw), |cfg.languages|) == None
    requires |cfg.languages| <= Copies
    requires LoadIndex(s.index).Success?
    ensures AddFromRaw(s, cfg).0 == Done
    ensures AddFromRaw(s, cfg) == AddFromRawIntended(s, cfg)
  {
    AddFromRawWithSucceeds(s, cfg, Copies);
    AddFromRawWithCopies(s, cfg, Copies, |cfg.languages|);
  }

  /** The intended run writes every language whenever the blocks have valid
      sizes. */
  lemma AddFromRawIntendedSucceeds(s: Snapshot, cfg: Config)
    requires FirstBadBlock(Parse(s.raw), |cfg.languages|) == None
    requires LoadIndex(s.index).Success?
    ensures AddFromRawIntended(s, cfg).0 == Done
  {
    AddFromRawWithSucceeds(s, cfg, |cfg.languages|);
  }

  /** With more than three languages, a single heading line among valid blocks
      makes the run as written write the first three languages' files and then
      stop with IndexError, leaving the index unchanged. */
  lemma {:induction false} HeadingBlockStopsLongLanguageList(s: Snapshot, cfg: Config, k: nat)
    requires FirstBadBlock(Parse(s.raw), |cfg.languages|) == None
    requires |cfg.languages| > Copies
    requires k < |Parse(s.raw)| && |Parse(s.raw)[k]| == 1
    ensures AddFromRaw(s, cfg).0 == Failed(IndexError)
    ensures AddFromRaw(s, cfg).1.index == s.index
    ensures AddFromRaw(s, cfg).1.texts
         == WriteColumns(s.texts, ItemId(cfg), Table(cfg), NormalizeAll(Parse(s.raw), Rule(cfg), Copies), Copies)
  {
    var bs := Parse(s.raw);
    var n := |cfg.languages|;
    var nb := NormalizeAll(bs, Rule(cfg), Copies);
    assert |nb[k]| == Copies;
    forall j | 0 <= j < |nb| ensures Copies <= |nb[j]| {
      assert !BadArity(bs[j], n);
    }
    var w := MinWidth(nb, n);
    assert w == Copies;
  }

  // ---------------------------------------------------------------- change_ziyarah_metadata

  /** `[z for z in index if z.get("id") == id]` */
  function Matching(es: seq<Fields>, id: string): (r: seq<Fields>)
    ensures r == [] <==> forall i :: 0 <= i < |es| ==> !HasId(es[i], id)
    ensures forall k :: 0 <= k < |es| && HasId(es[k], id) && (forall i :: 0 <= i < k ==> !HasId(es[i], id)) ==> r[0] == es[k]
  {
    if es == [] then []
    else if HasId(es[0], id) then [es[0]] + Matching(es[1..], id)
    else
      var rest := Matching(es[1..], id);
      assert forall k :: 1 <= k < |es| ==> es[k] == es[1..][k - 1];
      rest
  }

  /** `new_title or entry["title"]`, which getZiyarahId then lower-cases. */
  function UpdatedTitle(entry: Fields, newTitle: Option<string>): (r: Result<string, Failure>)
    ensures newTitle.Some? && newTitle.value != "" ==> r == Success(newTitle.value)
    ensures (newTitle.None? || newTitle.value == "") && r.Success? ==> Get(entry, "title") == Some(Str(r.value))
    ensures (newTitle.None? || newTitle.value == "") && r.Failure? ==> Get(entry, "title").None? || !Get(entry, "title").value.Str?
  {
    if newTitle.Some? && newTitle.value != "" then Success(newTitle.value)
    else
      match Get(entry, "title")
      case None => Failure(KeyError("title"))
      case Some(Str(t)) => Success(t)
      case Some(_) => Failure(AttributeError)
  }

  /** The new title, the languages the entry lists, and the entry that replaces
      the old one. */
  datatype Retitled = Retitled(title: string, languages: Value, entry: Fields)

  function RetitledEntry(entry: Fields, newTitle: Option<string>, newDescription: Option<string>): Result<Retitled, Failure>
  {
    match UpdatedTitle(entry, newTitle)
    case Failure(e) => Failure(e)
    case Success(title) =>
      var description := if newDescription.Some? then Str(Strip(newDescription.value)) else GetOr(entry, "description", Str(""));
      match Get(entry, "total_lines")
      case None => Failure(KeyError("total_lines"))
      case Some(total) =>
        match Get(entry, "languages")
        case None => Failure(KeyError("languages"))
        case Some(languages) =>
          Success(Retitled(title, languages, IndexFields(Str(Slug(title)), Str(title), description, total, languages)))
  }

  /** The metadata change fails exactly when the title cannot be found or
      slugged or a key to copy is missing. */
  lemma RetitledEntryFails(entry: Fields, newTitle: Option<string>, newDescription: Option<string>)
    ensures RetitledEntry(entry, newTitle, newDescription).Failure?
        <==> UpdatedTitle(entry, newTitle).Failure? || "total_lines" !in Keys(entry) || "languages" !in Keys(entry)
  {
  }

  /** The new title is the given one when it is not empty. */
  lemma RetitledTitle(entry: Fields, newTitle: Option<string>, newDescription: Option<string>)
    requires RetitledEntry(entry, newTitle, newDescription).Success?
    ensures RetitledEntry(entry, newTitle, newDescription).value.title == UpdatedTitle(entry, newTitle).value
  {
  }

  /** The replacement entry has exactly the five index keys; its id is the slug
      of the new title (an empty or missing new title keeps the old title); the
      description is the stripped new one when given, else the old one; the
      line count and languages are the old entry's. */
  lemma RetitledEntrySpec(entry: Fields, newTitle: Option<string>, newDescription: Option<string>)
    requires RetitledEntry(entry, newTitle, newDescription).Success?
    ensures var r := RetitledEntry(entry, newTitle, newDescription).value;
      Keys(r.entry) == ["id", "title", "description", "total_lines", "languages"] &&
      Get(r.entry, "id") == Some(Str(Slug(r.title))) &&
      Get(r.entry, "title") == Some(Str(r.title)) &&
      r.title == UpdatedTitle(entry, newTitle).value &&
      Get(r.entry, "description")
        == Some(if newDescription.Some? then Str(Strip(newDescription.value)) else GetOr(entry, "description", Str(""))) &&
      Get(r.entry, "total_lines") == Get(entry, "total_lines") &&
      Get(r.entry, "languages") == Get(entry, "languages") == Some(r.languages)
  {
    var title := UpdatedTitle(entry, newTitle).value;
    var total := Get(entry, "total_lines").value;
    var languages := Get(entry, "languages").value;
    var description := if newDescription.Some? then Str(Strip(newDescription.value)) else GetOr(entry, "description", Str(""));
    assert RetitledEntry(entry, newTitle, newDescription).value
        == Retitled(title, languages, IndexFields(Str(Slug(title)), Str(title), description, total, languages));
    IndexFieldsGet(Str(Slug(title)), Str(title), description, total, languages);
  }

  /** What moving one language's record does. */
  datatype Step = Moved(texts: map<TextPath, Option<Value>>) | NotFound | Stopped(failure: Failure)

  /** The record a move writes: the old one with the new id and title. */
  function Retagged(f: Fields, updatedId: string, title: string): Value
  {
    Obj(SetField(SetField(f, "id", Str(updatedId)), "title", Str(title)))
  }

  /** One turn of the rename loop as written: load the old record, set its id
      and title, write it under the new id, then delete the old path. */
  function MoveRecord(texts: map<TextPath, Option<Value>>, language: string, currentId: string,
                      updatedId: string, title: string): Step
  {
    var oldPath := TextPath(language, currentId);
    var newPath := TextPath(language, updatedId);
    if oldPath !in texts then NotFound
    else
      match texts[oldPath]
      case None => Stopped(JsonDecodeError)
      case Some(Obj(f)) =>
        Moved(texts[newPath := Some(Retagged(f, updatedId, title))] - {oldPath})
      case Some(_) => Stopped(TypeError)
  }

  /** The same turn as evidently intended: the old path is deleted only when it
      is not the path just written. */
  function MoveRecordIntended(texts: map<TextPath, Option<Value>>, language: string, currentId: string,
                              updatedId: string, title: string): Step
  {
    var oldPath := TextPath(language, currentId);
    var newPath := TextPath(language, updatedId);
    if oldPath !in texts then NotFound
    else
      match texts[oldPath]
      case None => Stopped(JsonDecodeError)
      case Some(Obj(f)) =>
        var data := Retagged(f, updatedId, title);
        Moved(if newPath == oldPath then texts[newPath := Some(data)] else texts[newPath := Some(data)] - {oldPath})
      case Some(_) => Stopped(TypeError)
  }

  /** As written, moving a record to a new id puts it at the new path and
      removes the old one; but when the new id is the current id the record is
      written and then deleted, so the language loses its file. */
  lemma MoveRecordAsWritten(texts: map<TextPath, Option<Value>>, language: string, currentId: string,
                            updatedId: string, title: string, f: Fields)
    requires TextPath(language, currentId) in texts && texts[TextPath(language, currentId)] == Some(Obj(f))
    ensures var r := MoveRecord(texts, language, currentId, updatedId, title);
      r.Moved? && TextPath(language, currentId) !in r.texts &&
      (updatedId != currentId ==> r.texts[TextPath(language, updatedId)] == Some(Retagged(f, updatedId, title))) &&
      (updatedId == currentId ==> TextPath(language, updatedId) !in r.texts)
  {
  }

  /** As intended, the record always ends at the new path with the new id and
      title, the old path is gone exactly when the id changed, and the result
      agrees with the script whenever the id changes. */
  lemma MoveRecordIntendedKeepsRecord(texts: map<TextPath, Option<Value>>, language: string, currentId: string,
                                      updatedId: string, title: string, f: Fields)
    requires TextPath(language, currentId) in texts && texts[TextPath(language, currentId)] == Some(Obj(f))
    ensures var r := MoveRecordIntended(texts, language, currentId, updatedId, title);
      r.Moved? &&
      TextPath(language, updatedId) in r.texts &&
      r.texts[TextPath(language, updatedId)] == Some(Retagged(f, updatedId, title)) &&
      (TextPath(language, currentId) in r.texts <==> updatedId == currentId)
    ensures updatedId != currentId ==>
      MoveRecordIntended(texts, language, currentId, updatedId, title) == MoveRecord(texts, language, currentId, updatedId, title)
  {
    var oldPath := TextPath(language, currentId);
    var newPath := TextPath(language, updatedId);
    var data := Retagged(f, updatedId, title);
    var written := texts[newPath := Some(data)];
    if updatedId == currentId {
      assert MoveRecordIntended(texts, language, currentId, updatedId, title) == Moved(written);
    } else {
      assert newPath != oldPath;
      assert MoveRecordIntended(texts, language, currentId, updatedId, title) == Moved(written - {oldPath});
      assert MoveRecord(texts, language, currentId, updatedId, title) == Moved(written - {oldPath});
    }
  }

  /** A moved record carries the new id and title. */
  lemma RetaggedSpec(f: Fields, updatedId: string, title: string)
    ensures Get(Retagged(f, updatedId, title).fields, "id") == Some(Str(updatedId))
    ensures Get(Retagged(f, updatedId, title).fields, "title") == Some(Str(title))
  {
    assert |"id"| != |"title"|;
    SetFieldOthers(SetField(f, "id", Str(updatedId)), "title", Str(title), "id");
  }

  /** The languages not found, the text files after the loop, and the error that
      stopped it, if any. */
  datatype Moves = Moves(missing: seq<string>, texts: map<TextPath, Option<Value>>, failure: Option<Failure>)

  /** The rename loop over `entry["languages"]`. Each language is written into
      the paths as an f-string writes it, so a language that is not a string
      names the directory of its `str`. */
  function MoveAll(texts: map<TextPath, Option<Value>>, languages: seq<Value>, currentId: string,
                   updatedId: string, title: string): Moves
    decreases |languages|
  {
    if languages == [] then Moves([], texts, None)
    else
      var language := Format(languages[0]);
      match MoveRecord(texts, language, currentId, updatedId, title)
      case NotFound =>
        var r := MoveAll(texts, languages[1..], currentId, updatedId, title);
        r.(missing := [language] + r.missing)
      case Stopped(e) => Moves([], texts, Some(e))
      case Moved(t) => MoveAll(t, languages[1..], currentId, updatedId, title)
  }

  method MoveTexts(ws: Store, languages: seq<Value>, currentId: string, updatedId: string, title: string)
    returns (missing: seq<string>, failure: Option<Failure>)
    modifies ws
    ensures Moves(missing, ws.texts, failure) == MoveAll(old(ws.texts), languages, currentId, updatedId, title)
    ensures ws.raw == old(ws.raw) && ws.index == old(ws.index)
  {
    missing := [];
    var i := 0;
    while i < |languages|
      invariant 0 <= i <= |languages|
      invariant ws.raw == old(ws.raw) && ws.index == old(ws.index)
      invariant var r := MoveAll(ws.texts, languages[i..], currentId, updatedId, title);
        r.(missing := missing + r.missing) == MoveAll(old(ws.texts), languages, currentId, updatedId, title)
    {
      assert languages[i..][1..] == languages[i + 1..];
      var language := Format(languages[i]);
      var oldPath := TextPath(language, currentId);
      var newPath := TextPath(language, updatedId);
      if oldPath in ws.texts {
        match ws.texts[oldPath]
        case None =>
          return missing, Some(JsonDecodeError);
        case Some(data) =>
          if !data.Obj? {
            return missing, Some(TypeError);
          }
          var fields := SetField(data.fields, "id", Str(updatedId));
          fields := SetField(fields, "title", Str(title));
          assert Obj(fields) == Retagged(data.fields, updatedId, title);
          ws.texts := ws.texts[newPath := Some(Obj(fields))];
          ws.texts := ws.texts - {oldPath};
      } else {
        ghost var r := MoveAll(ws.texts, languages[i + 1..], currentId, updatedId, title);
        AppendAssoc(missing, [language], r.missing);
        missing := missing + [language];
      }
      i := i + 1;
    }
    assert languages[i..] == [];
    failure := None;
  }

  /** The outcome of a metadata change, the languages whose record was not
      found, and the files afterwards. */
  datatype MetadataRun = MetadataRun(outcome: Outcome, missing: seq<string>, state: Snapshot)

  /** change_ziyarah_metadata(current_id, new_title, new_description) on the
      files `s`. */
  function ChangeMetadata(s: Snapshot, currentId: string, newTitle: Option<string>, newDescription: Option<string>): MetadataRun
  {
    match s.index
    case Absent => MetadataRun(Failed(IndexFileMissing), [], s)
    case Present(None) => MetadataRun(Failed(IndexFileInvalid), [], s)
    case Present(Some(v)) =>
      match Entries(v)
      case Failure(e) => MetadataRun(Failed(e), [], s)
      case Success(es) =>
        var matched := Matching(es, currentId);
        if matched == [] then MetadataRun(Failed(NoEntry(currentId)), [], s)
        else
          match RetitledEntry(matched[0], newTitle, newDescription)
          case Failure(e) => MetadataRun(Failed(e), [], s)
          case Success(rt) =>
            var s1 := s.(index := Present(Some(ObjList(RemoveId(es, currentId) + [rt.entry]))));
            var updatedId := Slug(rt.title);
            if updatedId == currentId && (newTitle.None? || newTitle.value == "") then MetadataRun(Done, [], s1)
            else
              match Iterate(rt.languages)
              case Failure(e) => MetadataRun(Failed(e), [], s1)
              case Success(languages) =>
                var m := MoveAll(s1.texts, languages, currentId, updatedId, rt.title);
                MetadataRun(if m.failure.Some? then Failed(m.failure.value) else Done, m.missing, s1.(texts := m.texts))
  }

  method ChangeZiyarahMetadata(ws: Store, currentId: string, newTitle: Option<string>, newDescription: Option<string>)
    returns (outcome: Outcome, missing: seq<string>)
    modifies ws
    ensures MetadataRun(outcome, missing, ws.State()) == ChangeMetadata(old(ws.State()), currentId, newTitle, newDescription)
  {
    missing := [];
    if ws.index.Absent? {
      return Failed(IndexFileMissing), [];
    }
    if ws.index.decoded.None? {
      return Failed(IndexFileInvalid), [];
    }
    var loaded := Entries(ws.index.decoded.value);
    if loaded.Failure? {
      return Failed(loaded.error), [];
    }
    var index := loaded.value;
    var matched := Matching(index, currentId);
    if matched == [] {
      return Failed(NoEntry(currentId)), [];
    }
    var entry := matched[0];
    var retitled := RetitledEntry(entry, newTitle, newDescription);
    if retitled.Failure? {
      return Failed(retitled.error), [];
    }
    var updatedTitle := retitled.value.title;
    var updatedId := Slug(updatedTitle);
    index := RemoveId(index, currentId);
    index := index + [retitled.value.entry];
    ws.index := Present(Some(ObjList(index)));
    if updatedId != currentId || (newTitle.Some? && newTitle.value != "") {
      var languages := Iterate(retitled.value.languages);
      if languages.Failure? {
        return Failed(languages.error), [];
      }
      var failure;
      missing, failure := MoveTexts(ws, languages.value, currentId, updatedId, updatedTitle);
      outcome := if failure.Some? then Failed(failure.value) else Done;
    } else {
      outcome := Done;
    }
  }

  /** An id that no entry has changes nothing. */
  lemma UnknownIdWritesNothing(s: Snapshot, currentId: string, newTitle: Option<string>, newDescription: Option<string>)
    requires s.index.Present? && s.index.decoded.Some? && Entries(s.index.decoded.value).Success?
    requires forall i :: 0 <= i < |Entries(s.index.decoded.value).value| ==> !HasId(Entries(s.index.decoded.value).value[i], currentId)
    ensures ChangeMetadata(s, currentId, newTitle, newDescription) == MetadataRun(Failed(NoEntry(currentId)), [], s)
  {
  }

  /** For a known id the index afterwards holds the other entries in order and,
      last, the replacement built from the first entry with that id. */
  lemma ChangeMetadataIndex(s: Snapshot, currentId: string, newTitle: Option<string>, newDescription: Option<string>)
    requires s.index.Present? && s.index.decoded.Some? && Entries(s.index.decoded.value).Success?
    requires var es := Entries(s.index.decoded.value).value;
      Matching(es, currentId) != [] && RetitledEntry(Matching(es, currentId)[0], newTitle, newDescription).Success?
    ensures var es := Entries(s.index.decoded.value).value;
      var rt := RetitledEntry(Matching(es, currentId)[0], newTitle, newDescription).value;
      var after := ChangeMetadata(s, currentId, newTitle, newDescription).state.index;
      after.Present? && after.decoded.Some? &&
      LoadIndex(after) == Success(RemoveId(es, currentId) + [rt.entry]) &&
      (forall i :: 0 <= i < |es| ==> (HasId(es[i], currentId) ==> es[i] !in RemoveId(es, currentId)))
  {
    var es := Entries(s.index.decoded.value).value;
    var rt := RetitledEntry(Matching(es, currentId)[0], newTitle, newDescription).value;
    var kept := RemoveId(es, currentId) + [rt.entry];
    ChangeMetadataWritesIndex(s, currentId, newTitle, newDescription);
    LoadWrittenIndex(kept);
  }

  /** Once the replacement entry is built, the index file holds the other
      entries followed by it, whatever the rename loop does afterwards. */
  lemma ChangeMetadataWritesIndex(s: Snapshot, currentId: string, newTitle: Option<string>, newDescription: Option<string>)
    requires s.index.Present? && s.index.decoded.Some? && Entries(s.index.decoded.value).Success?
    requires var es := Entries(s.index.decoded.value).value;
      Matching(es, currentId) != [] && RetitledEntry(Matching(es, currentId)[0], newTitle, newDescription).Success?
    ensures var es := Entries(s.index.decoded.value).value;
      var rt := RetitledEntry(Matching(es, currentId)[0], newTitle, newDescription).value;
      ChangeMetadata(s, currentId, newTitle, newDescription).state.index
        == Present(Some(ObjList(RemoveId(es, currentId) + [rt.entry])))
  {
    var es := Entries(s.index.decoded.value).value;
    var rt := RetitledEntry(Matching(es, currentId)[0], newTitle, newDescription).value;
    var s1 := s.(index := Present(Some(ObjList(RemoveId(es, currentId) + [rt.entry]))));
    var updatedId := Slug(rt.title);
    if updatedId == currentId && (newTitle.None? || newTitle.value == "") {
      assert ChangeMetadata(s, currentId, newTitle, newDescription) == MetadataRun(Done, [], s1);
    } else if Iterate(rt.languages).Failure? {
      assert ChangeMetadata(s, currentId, newTitle, newDescription) == MetadataRun(Failed(Iterate(rt.languages).error), [], s1);
    } else {
      var m := MoveAll(s1.texts, Iterate(rt.languages).value, currentId, updatedId, rt.title);
      assert ChangeMetadata(s, currentId, newTitle, newDescription).state == s1.(texts := m.texts);
    }
  }

  /** Every record of item `id` that exists decodes to an object. */
  predicate RecordsDecode(texts: map<TextPath, Option<Value>>, id: string)
  {
    forall p :: p in texts && p.id == id ==> texts[p].Some? && texts[p].value.Obj?
  }

  /** Renaming to the id the item already has deletes the record of every
      listed language and adds none. */
  lemma {:induction false} SameIdMoveDeletes(texts: map<TextPath, Option<Value>>, languages: seq<Value>, id: string, title: string)
    requires RecordsDecode(texts, id)
    ensures MoveAll(texts, languages, id, id, title).failure == None
    ensures MoveAll(texts, languages, id, id, title).texts.Keys <= texts.Keys
    ensures RecordsDecode(MoveAll(texts, languages, id, id, title).texts, id)
    ensures forall i :: 0 <= i < |languages| ==> TextPath(Format(languages[i]), id) !in MoveAll(texts, languages, id, id, title).texts
    decreases |languages|
  {
    if languages != [] {
      var language := Format(languages[0]);
      var p := TextPath(language, id);
      var rest := languages[1..];
      var t := if p in texts then texts - {p} else texts;
      SameIdMoveStep(texts, languages, id, title);
      SameIdMoveDeletes(t, rest, id, title);
      var after := MoveAll(t, rest, id, id, title).texts;
      forall i | 0 <= i < |languages|
        ensures TextPath(Format(languages[i]), id) !in after
      {
        if i > 0 {
          assert languages[i] == rest[i - 1];
        }
      }
    }
  }

  /** One turn of the same-id rename: the language's record, if any, is
      deleted and the loop goes on with the rest. */
  lemma SameIdMoveStep(texts: map<TextPath, Option<Value>>, languages: seq<Value>, id: string, title: string)
    requires languages != []
    requires RecordsDecode(texts, id)
    ensures var p := TextPath(Format(languages[0]), id);
      var t := if p in texts then texts - {p} else texts;
      t.Keys <= texts.Keys && p !in t && RecordsDecode(t, id) &&
      MoveAll(texts, languages, id, id, title) ==
        (if p in texts then MoveAll(t, languages[1..], id, id, title)
         else var r := MoveAll(t, languages[1..], id, id, title); r.(missing := [Format(languages[0])] + r.missing))
  {
    var p := TextPath(Format(languages[0]), id);
    if p in texts {
      var f := texts[p].value.fields;
      var moved := texts[p := Some(Retagged(f, id, title))] - {p};
      assert moved == texts - {p};
      assert MoveRecord(texts, Format(languages[0]), id, id, title) == Moved(texts - {p});
      assert MoveAll(texts, languages, id, id, title) == MoveAll(texts - {p}, languages[1..], id, id, title);
    } else {
      assert MoveRecord(texts, Format(languages[0]), id, id, title) == NotFound;
    }
  }

  /** When the entry is found and its id or title changes, the index is
      rewritten first and then the rename loop moves the text records of the
      languages the entry lists. */
  lemma ChangeMetadataMoves(s: Snapshot, currentId: string, newTitle: Option<string>, newDescription: Option<string>)
    requires s.index.Present? && s.index.decoded.Some? && Entries(s.index.decoded.value).Success?
    requires var es := Entries(s.index.decoded.value).value;
      Matching(es, currentId) != [] && RetitledEntry(Matching(es, currentId)[0], newTitle, newDescription).Success?
    requires var rt := RetitledEntry(Matching(Entries(s.index.decoded.value).value, currentId)[0], newTitle, newDescription).value;
      Iterate(rt.languages).Success? && (Slug(rt.title) != currentId || (newTitle.Some? && newTitle.value != ""))
    ensures var es := Entries(s.index.decoded.value).value;
      var rt := RetitledEntry(Matching(es, currentId)[0], newTitle, newDescription).value;
      var m := MoveAll(s.texts, Iterate(rt.languages).value, currentId, Slug(rt.title), rt.title);
      ChangeMetadata(s, currentId, newTitle, newDescription) ==
        MetadataRun(if m.failure.Some? then Failed(m.failure.value) else Done, m.missing,
                    Snapshot(s.raw, Present(Some(ObjList(RemoveId(es, currentId) + [rt.entry]))), m.texts))
  {
  }

  /** The rename as written: a new title whose slug is the current id keeps
      the entry in the index (ChangeMetadataIndex) but deletes the text record
      of every language it lists. */
  lemma RetitleToSameIdLosesTexts(s: Snapshot, currentId: string, title: string, newDescription: Option<string>, languages: seq<Value>)
    requires s.index.Present? && s.index.decoded.Some? && Entries(s.index.decoded.value).Success?
    requires var es := Entries(s.index.decoded.value).value;
      Matching(es, currentId) != [] &&
      RetitledEntry(Matching(es, currentId)[0], Some(title), newDescription).Success? &&
      RetitledEntry(Matching(es, currentId)[0], Some(title), newDescription).value.languages == Arr(languages)
    requires title != "" && Slug(title) == currentId
    requires RecordsDecode(s.texts, currentId)
    ensures ChangeMetadata(s, currentId, Some(title), newDescription).outcome == Done
    ensures forall i :: 0 <= i < |languages| ==>
      TextPath(Format(languages[i]), currentId) !in ChangeMetadata(s, currentId, Some(title), newDescription).state.texts
  {
    var es := Entries(s.index.decoded.value).value;
    var rt := RetitledEntry(Matching(es, currentId)[0], Some(title), newDescription).value;
    RetitledTitle(Matching(es, currentId)[0], Some(title), newDescription);
    var ls := languages;
    assert Iterate(rt.languages) == Success(ls);
    ChangeMetadataMoves(s, currentId, Some(title), newDescription);
    SameIdMoveDeletes(s.texts, ls, currentId, title);
    var m := MoveAll(s.texts, ls, currentId, currentId, title);
    var run := ChangeMetadata(s, currentId, Some(title), newDescription);
    assert run.outcome == Done && run.state.texts == m.texts;
  }
}
