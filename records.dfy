/** What the ingestion scripts write: one text record per language, made of one
    column of the blocks, and an index of entries keyed by "id" in which a new
    entry replaces every old entry with the same id. */
module Records {
  import opened Wrappers
  import opened Json
  import opened Blocks
  import opened Workspace
  import Text

  // ---------------------------------------------------------------- text records

  /** The contents of text/<language>/<id>.json. */
  function TextRecord(id: string, title: string, language: string, lines: seq<string>): Value
  {
    Obj([("id", Str(id)), ("title", Str(title)), ("language", Str(language)), ("text", Arr(StrSeq(lines)))])
  }

  /** The lines stored in a text record. */
  lemma TextRecordText(id: string, title: string, language: string, lines: seq<string>)
    ensures Get(TextRecord(id, title, language, lines).fields, "text") == Some(Arr(StrSeq(lines)))
  {
    var f := TextRecord(id, title, language, lines).fields;
    assert |f| == 4 && f[3].0 == "text";
    assert |f[0].0| == 2 && |f[1].0| == 5 && |f[2].0| == 8 && |f[3].0| == 4;
  }

  /** Every block has a line number `c`. */
  predicate HasColumn(bs: seq<Block>, c: nat)
  {
    forall j :: 0 <= j < |bs| ==> c < |bs[j]|
  }

  /** `[b[c] for b in blocks]`: one line per block, taken from line `c` of it. */
  function Column(bs: seq<Block>, c: nat): (r: seq<string>)
    requires HasColumn(bs, c)
    ensures |r| == |bs| && forall j :: 0 <= j < |bs| ==> r[j] == bs[j][c]
  {
    seq(|bs|, j requires 0 <= j < |bs| => bs[j][c])
  }

  /** A language code, the column of the blocks its file takes, and the title
      written into that file. */
  datatype LanguageColumn = LanguageColumn(code: string, column: nat, title: string)

  predicate HasColumns(bs: seq<Block>, table: seq<LanguageColumn>, k: nat)
    requires k <= |table|
  {
    forall t :: 0 <= t < k ==> HasColumn(bs, table[t].column)
  }

  /** The text files after the first `k` languages of `table` have been written
      for item `id`. */
  function WriteColumns(texts: map<TextPath, Option<Value>>, id: string, table: seq<LanguageColumn>,
                        bs: seq<Block>, k: nat): map<TextPath, Option<Value>>
    requires k <= |table| && HasColumns(bs, table, k)
  {
    if k == 0 then texts
    else
      var e := table[k - 1];
      WriteColumns(texts, id, table, bs, k - 1)[TextPath(e.code, id) := Some(TextRecord(id, e.title, e.code, Column(bs, e.column)))]
  }

  /** Language `t` is the last of the first `k` with its code. */
  predicate LastWithCode(table: seq<LanguageColumn>, k: nat, t: nat)
    requires t < k <= |table|
  {
    forall u :: t < u < k ==> table[u].code != table[t].code
  }

  /** `p` is one of the files the first `k` languages write for item `id`. */
  predicate Written(p: TextPath, id: string, table: seq<LanguageColumn>, k: nat)
    requires k <= |table|
  {
    p.id == id && exists t :: 0 <= t < k && table[t].code == p.language
  }

  /** Each language's file holds its column of the blocks; a code listed twice
      keeps its last column. */
  lemma {:induction false} WriteColumnsWrites(texts: map<TextPath, Option<Value>>, id: string, table: seq<LanguageColumn>,
                                              bs: seq<Block>, k: nat, t: nat)
    requires k <= |table| && HasColumns(bs, table, k)
    requires t < k && LastWithCode(table, k, t)
    ensures TextPath(table[t].code, id) in WriteColumns(texts, id, table, bs, k)
    ensures WriteColumns(texts, id, table, bs, k)[TextPath(table[t].code, id)]
         == Some(TextRecord(id, table[t].title, table[t].code, Column(bs, table[t].column)))
  {
    if t < k - 1 {
      assert LastWithCode(table, k - 1, t);
      WriteColumnsWrites(texts, id, table, bs, k - 1, t);
    }
  }

  /** Writing records that are already there changes nothing. */
  lemma {:induction false} WriteColumnsAlreadyWritten(texts: map<TextPath, Option<Value>>, id: string, table: seq<LanguageColumn>,
                                                      bs: seq<Block>, k: nat)
    requires k <= |table| && HasColumns(bs, table, k)
    requires forall u :: 0 <= u < k ==>
      TextPath(table[u].code, id) in texts &&
      texts[TextPath(table[u].code, id)] == Some(TextRecord(id, table[u].title, table[u].code, Column(bs, table[u].column)))
    ensures WriteColumns(texts, id, table, bs, k) == texts
  {
    if k > 0 {
      WriteColumnsAlreadyWritten(texts, id, table, bs, k - 1);
    }
  }

  /** The writes depend on the blocks only through the columns they read:
      blocks with the same columns write the same records. */
  lemma {:induction false} WriteColumnsSameColumns(texts: map<TextPath, Option<Value>>, id: string,
                                                   table: seq<LanguageColumn>, bs: seq<Block>, bs': seq<Block>, k: nat)
    requires k <= |table| && HasColumns(bs, table, k) && HasColumns(bs', table, k)
    requires forall t :: 0 <= t < k ==> Column(bs, table[t].column) == Column(bs', table[t].column)
    ensures WriteColumns(texts, id, table, bs, k) == WriteColumns(texts, id, table, bs', k)
  {
    if k > 0 {
      WriteColumnsSameColumns(texts, id, table, bs, bs', k - 1);
    }
  }

  /** Files that none of the languages writes are left as they were. */
  lemma {:induction false} WriteColumnsKeeps(texts: map<TextPath, Option<Value>>, id: string, table: seq<LanguageColumn>,
                                             bs: seq<Block>, k: nat, p: TextPath)
    requires k <= |table| && HasColumns(bs, table, k)
    requires !Written(p, id, table, k)
    ensures p in WriteColumns(texts, id, table, bs, k) <==> p in texts
    ensures p in texts ==> WriteColumns(texts, id, table, bs, k)[p] == texts[p]
  {
    if k > 0 {
      assert p != TextPath(table[k - 1].code, id);
      assert !Written(p, id, table, k - 1);
      WriteColumnsKeeps(texts, id, table, bs, k - 1, p);
    }
  }

  // ---------------------------------------------------------------- the index

  /** The index as the update functions load it: a missing or undecodable file
      counts as an empty list; every item must be a dict (`item.get`). */
  function LoadIndex(f: JsonFile): (r: Result<seq<Fields>, Failure>)
    ensures f.Absent? || f.decoded.None? ==> r == Success([])
    ensures f.Present? && f.decoded.Some? ==> r == Entries(f.decoded.value)
  {
    match f
    case Absent => Success([])
    case Present(None) => Success([])
    case Present(Some(v)) => Entries(v)
  }

  /** `[item for item in index if item.get("id") != id]` */
  function RemoveId(es: seq<Fields>, id: string): (r: seq<Fields>)
    ensures |r| <= |es|
    ensures forall i :: 0 <= i < |r| ==> !HasId(r[i], id) && r[i] in es
  {
    if es == [] then []
    else (if HasId(es[0], id) then [] else [es[0]]) + RemoveId(es[1..], id)
  }

  lemma {:induction false} RemoveIdAppend(a: seq<Fields>, b: seq<Fields>, id: string)
    ensures RemoveId(a + b, id) == RemoveId(a, id) + RemoveId(b, id)
  {
    if a == [] {
      assert a + b == b;
    } else {
      assert (a + b)[0] == a[0] && (a + b)[1..] == a[1..] + b;
      RemoveIdAppend(a[1..], b, id);
      var head := if HasId(a[0], id) then [] else [a[0]];
      assert RemoveId(a, id) == head + RemoveId(a[1..], id);
      Text.AppendAssoc(head, RemoveId(a[1..], id), RemoveId(b, id));
    }
  }

  lemma {:induction false} RemoveIdKeepsOthers(es: seq<Fields>, id: string)
    requires forall i :: 0 <= i < |es| ==> !HasId(es[i], id)
    ensures RemoveId(es, id) == es
  {
    if es != [] {
      RemoveIdKeepsOthers(es[1..], id);
    }
  }

  /** An entry without the id survives the filter. */
  lemma {:induction false} RemoveIdKeeps(es: seq<Fields>, id: string, i: nat)
    requires i < |es| && !HasId(es[i], id)
    ensures es[i] in RemoveId(es, id)
  {
    if i > 0 {
      RemoveIdKeeps(es[1..], id, i - 1);
    }
  }

  /** RemoveId keeps exactly the entries without the id, in their order: it
      drops every entry with the id, leaves a list without one as it is, and
      treats the two halves of a list independently. */
  lemma RemoveIdSpec(a: seq<Fields>, b: seq<Fields>, id: string)
    ensures forall i :: 0 <= i < |RemoveId(a, id)| ==> !HasId(RemoveId(a, id)[i], id)
    ensures (forall i :: 0 <= i < |a| ==> !HasId(a[i], id)) ==> RemoveId(a, id) == a
    ensures RemoveId(a + b, id) == RemoveId(a, id) + RemoveId(b, id)
  {
    RemoveIdAppend(a, b, id);
    if forall i :: 0 <= i < |a| ==> !HasId(a[i], id) {
      RemoveIdKeepsOthers(a, id);
    }
  }

  /** The index after adding `entry`: old entries with its id removed, the entry
      appended. */
  function Upsert(es: seq<Fields>, entry: Fields, id: string): seq<Fields>
  {
    RemoveId(es, id) + [entry]
  }

  /** After an upsert exactly one entry carries the id and it is the last one;
      the others are the old entries without the id, in order; a second upsert
      of the same entry changes nothing. */
  lemma UpsertSpec(es: seq<Fields>, entry: Fields, id: string)
    requires HasId(entry, id)
    ensures var r := Upsert(es, entry, id);
      |r| >= 1 && r[|r| - 1] == entry &&
      (forall i :: 0 <= i < |r| - 1 ==> !HasId(r[i], id)) &&
      r[..|r| - 1] == RemoveId(es, id) &&
      Upsert(r, entry, id) == r
  {
    var r := Upsert(es, entry, id);
    RemoveIdAppend(RemoveId(es, id), [entry], id);
    RemoveIdKeepsOthers(RemoveId(es, id), id);
    assert RemoveId([entry], id) == [] by {
      assert [entry][1..] == [];
    }
  }

  /** An index entry as helper_ziyarah.py writes it: the keys id, title,
      description, total_lines and languages, in that order. */
  function IndexFields(id: Value, title: Value, description: Value, total: Value, languages: Value): Fields
  {
    [("id", id), ("title", title), ("description", description), ("total_lines", total), ("languages", languages)]
  }

  lemma IndexFieldsGet(id: Value, title: Value, description: Value, total: Value, languages: Value)
    ensures var f := IndexFields(id, title, description, total, languages);
      Keys(f) == ["id", "title", "description", "total_lines", "languages"] &&
      Get(f, "id") == Some(id) && Get(f, "title") == Some(title) && Get(f, "description") == Some(description) &&
      Get(f, "total_lines") == Some(total) && Get(f, "languages") == Some(languages)
  {
    IndexKeysOf(id, title, description, total, languages);
    var f := IndexFields(id, title, description, total, languages);
    GetFirst(f, "id", 0);
    IndexFieldsGetAt(f, "title", 1);
    IndexFieldsGetAt(f, "description", 2);
    IndexFieldsGetAt(f, "total_lines", 3);
    IndexFieldsGetAt(f, "languages", 4);
  }

  /** The index keys are distinct, so each is found at its own place. */
  lemma IndexFieldsGetAt(f: Fields, k: string, i: nat)
    requires Keys(f) == ["id", "title", "description", "total_lines", "languages"]
    requires i < 5 && k == Keys(f)[i]
    ensures Get(f, k) == Some(f[i].1)
  {
    var ks := Keys(f);
    assert |ks[0]| == 2 && |ks[1]| == 5 && |ks[2]| == 11 && |ks[3]| == 11 && |ks[4]| == 9;
    assert ks[2][0] != ks[3][0];
    GetFirst(f, k, i);
  }

  lemma IndexKeysOf(id: Value, title: Value, description: Value, total: Value, languages: Value)
    ensures Keys(IndexFields(id, title, description, total, languages)) == ["id", "title", "description", "total_lines", "languages"]
  {
    var f := IndexFields(id, title, description, total, languages);
    var ks := Keys(f);
    assert |ks| == 5;
  }

  /** The index value written back: a list of objects. */
  function ObjList(es: seq<Fields>): (v: Value)
    ensures v.Arr? && |v.items| == |es| && forall i :: 0 <= i < |es| ==> v.items[i] == Obj(es[i])
  {
    Arr(seq(|es|, i requires 0 <= i < |es| => Obj(es[i])))
  }

  /** A written index loads back as the same entries. */
  lemma LoadWrittenIndex(es: seq<Fields>)
    ensures LoadIndex(Present(Some(ObjList(es)))) == Success(es)
  {
    var r := AsDicts(ObjList(es).items);
    assert r.Success?;
    assert r.value == es;
  }
}
