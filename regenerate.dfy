/** regenerate_raw_file in helper_ziyarah.py: rebuilding raw.txt from the
    per-language text files of an item, and the round trip with
    add_new_or_update_from_raw. */
module ZiyarahRegenerate {
  import opened Wrappers
  import opened Json
  import opened Text
  import opened Blocks
  import opened Workspace
  import opened Records
  import opened Ziyarah

  /** `next((z for z in index if z.get("id") == id), None)`: the items are read
      in order up to the first match, so an item that is not a dict stops the
      search only when it comes before the match. */
  function FindEntry(items: seq<Value>, id: string): (r: Result<Option<Fields>, Failure>)
    ensures r.Success? && r.value.Some? ==> HasId(r.value.value, id)
  {
    if items == [] then Success(None)
    else if !items[0].Obj? then Failure(AttributeError)
    else if HasId(items[0].fields, id) then Success(Some(items[0].fields))
    else FindEntry(items[1..], id)
  }

  /** The search ends without a match exactly when every item is a dict
      without the id. */
  lemma {:induction false} FindEntryNone(items: seq<Value>, id: string)
    ensures FindEntry(items, id) == Success(None) <==>
      forall i :: 0 <= i < |items| ==> items[i].Obj? && !HasId(items[i].fields, id)
  {
    if items != [] {
      FindEntryNone(items[1..], id);
      assert forall i :: 1 <= i < |items| ==> items[i] == items[1..][i - 1];
    }
  }

  /** The search reads the items in order: when every item before `i` is a
      dict without the id, the item at `i` decides the result, and the items
      after it are never read. */
  lemma {:induction false} FindEntryFirst(items: seq<Value>, id: string, i: nat)
    requires i < |items|
    requires forall j :: 0 <= j < i ==> items[j].Obj? && !HasId(items[j].fields, id)
    ensures items[i].Obj? && HasId(items[i].fields, id) ==>
      FindEntry(items, id) == Success(Some(items[i].fields))
    ensures !items[i].Obj? ==> FindEntry(items, id) == Failure(AttributeError)
  {
    if i > 0 {
      assert forall j :: 0 <= j < i - 1 ==> items[1..][j] == items[j + 1];
      FindEntryFirst(items[1..], id, i - 1);
    }
  }

  /** In a written index whose last entry is the only one with the id, the
      search finds that entry. */
  lemma {:induction false} FindLastEntry(es: seq<Fields>, id: string)
    requires |es| >= 1 && HasId(es[|es| - 1], id)
    requires forall i :: 0 <= i < |es| - 1 ==> !HasId(es[i], id)
    ensures FindEntry(ObjList(es).items, id) == Success(Some(es[|es| - 1]))
  {
    if |es| > 1 {
      FindLastEntry(es[1..], id);
      assert ObjList(es).items[1..] == ObjList(es[1..]).items;
    }
  }

  /** One turn of the loop over the entry's languages: the language is written
      into the path as an f-string writes it; the file must exist, decode and
      be a dict, whose "text" (an empty list when missing) is then stored under
      the language in `lang_data`, which a list or dict cannot be a key of. */
  function ReadText(texts: map<TextPath, Option<Value>>, l: Value, id: string): Result<Value, Failure>
  {
    var path := TextPath(Format(l), id);
    if path !in texts then Failure(MissingTextFile(Format(l)))
    else
      match texts[path]
      case None => Failure(JsonDecodeError)
      case Some(Obj(f)) => if l.Arr? || l.Obj? then Failure(TypeError) else Success(GetOr(f, "text", Arr([])))
      case Some(_) => Failure(AttributeError)
  }

  /** The loop over the entry's languages: the "text" read for each, in order,
      up to the first language that fails. */
  function GatherTexts(texts: map<TextPath, Option<Value>>, languages: seq<Value>, id: string): (r: Result<seq<Value>, Failure>)
    ensures r.Success? ==> |r.value| == |languages|
    decreases |languages|
  {
    if languages == [] then Success([])
    else
      match ReadText(texts, languages[0], id)
      case Failure(e) => Failure(e)
      case Success(v) =>
        match GatherTexts(texts, languages[1..], id)
        case Failure(e) => Failure(e)
        case Success(rest) => Success([v] + rest)
  }

  /** The loop succeeds exactly when every language can be read, and then
      holds what each one reads; otherwise it fails as the first language that
      cannot be read does. */
  lemma {:induction false} GatherTextsSpec(texts: map<TextPath, Option<Value>>, languages: seq<Value>, id: string, k: nat)
    requires k <= |languages| && forall t :: 0 <= t < k ==> ReadText(texts, languages[t], id).Success?
    ensures GatherTexts(texts, languages, id).Success? <==> forall t :: 0 <= t < |languages| ==> ReadText(texts, languages[t], id).Success?
    ensures GatherTexts(texts, languages, id).Success? ==>
      forall t :: 0 <= t < |languages| ==> GatherTexts(texts, languages, id).value[t] == ReadText(texts, languages[t], id).value
    ensures k < |languages| && ReadText(texts, languages[k], id).Failure? ==>
      GatherTexts(texts, languages, id) == Failure(ReadText(texts, languages[k], id).error)
    decreases |languages|
  {
    if languages != [] {
      var rest := languages[1..];
      assert forall t :: 0 <= t < |rest| ==> rest[t] == languages[t + 1];
      if ReadText(texts, languages[0], id).Success? {
        GatherTextsSpec(texts, rest, id, if k == 0 then 0 else k - 1);
      }
    }
  }

  /** Records written with the given lines are read back as those lines. */
  lemma GatherWritten(texts: map<TextPath, Option<Value>>, languages: seq<string>, id: string,
                      title: string, cols: seq<seq<string>>)
    requires |cols| == |languages|
    requires forall t :: 0 <= t < |languages| ==>
      TextPath(languages[t], id) in texts && texts[TextPath(languages[t], id)] == Some(TextRecord(id, title, languages[t], cols[t]))
    ensures GatherTexts(texts, StrSeq(languages), id) == Success(ListsOf(cols))
  {
    var ls := StrSeq(languages);
    forall t | 0 <= t < |ls| ensures ReadText(texts, ls[t], id) == Success(ListsOf(cols)[t]) {
      ReadWritten(texts, languages[t], id, title, cols[t]);
    }
    GatherTextsSpec(texts, ls, id, 0);
    assert GatherTexts(texts, ls, id).value == ListsOf(cols);
  }

  /** A record written with the given lines is read as the list of them. */
  lemma ReadWritten(texts: map<TextPath, Option<Value>>, language: string, id: string, title: string, lines: seq<string>)
    requires TextPath(language, id) in texts && texts[TextPath(language, id)] == Some(TextRecord(id, title, language, lines))
    ensures ReadText(texts, Str(language), id) == Success(Arr(StrSeq(lines)))
  {
    TextRecordText(id, title, language, lines);
  }

  /** JSON lists of the given strings, as the text records hold them. */
  function ListsOf(cols: seq<seq<string>>): (r: seq<Value>)
    ensures |r| == |cols| && forall j :: 0 <= j < |cols| ==> r[j] == Arr(StrSeq(cols[j]))
  {
    seq(|cols|, j requires 0 <= j < |cols| => Arr(StrSeq(cols[j])))
  }

  // `lang_data` is a dict keyed by the language values, so a language equal
  // to an earlier one replaces the value stored under it.

  /** The integer a number or boolean stands for in Python's `==`. */
  function NumberOf(v: Value): int
    requires v.Num? || v.Bool?
  {
    if v.Num? then v.n else if v.b then 1 else 0
  }

  /** Python's `==` on values that can be dict keys: True and False equal the
      integers 1 and 0, any other value only itself. */
  predicate SameKey(a: Value, b: Value)
  {
    if (a.Num? || a.Bool?) && (b.Num? || b.Bool?) then NumberOf(a) == NumberOf(b) else a == b
  }

  /** The position, among the first `k` languages, of the last one equal to
      language `j`: its value is what `lang_data[languages[j]]` holds once
      those `k` have been stored. */
  function LastStored(languages: seq<Value>, j: nat, k: nat): (r: nat)
    requires j < k <= |languages|
    ensures j <= r < k && SameKey(languages[r], languages[j])
    ensures forall m :: r < m < k ==> !SameKey(languages[m], languages[j])
    decreases k
  {
    if SameKey(languages[k - 1], languages[j]) then k - 1 else LastStored(languages, j, k - 1)
  }

  /** `lang_data[lang]` for each language in order, after the loop stored the
      `data` read for every language. */
  function Stored(data: seq<Value>, languages: seq<Value>): (cols: seq<Value>)
    requires |data| == |languages|
    ensures |cols| == |languages|
    ensures forall j :: 0 <= j < |languages| ==> cols[j] == data[LastStored(languages, j, |languages|)]
  {
    seq(|languages|, j requires 0 <= j < |languages| => data[LastStored(languages, j, |languages|)])
  }

  /** When languages that are equal as keys read equal data, `lang_data`
      gives every language its own data. */
  lemma StoredOwn(data: seq<Value>, languages: seq<Value>)
    requires |data| == |languages|
    requires forall j, m :: 0 <= j < m < |languages| && SameKey(languages[m], languages[j]) ==> data[m] == data[j]
    ensures Stored(data, languages) == data
  {
    var cols := Stored(data, languages);
    forall j | 0 <= j < |languages| ensures cols[j] == data[j] {
      var r := LastStored(languages, j, |languages|);
      if r != j {
        assert data[r] == data[j];
      }
    }
  }

  /** No language is a boolean, so languages equal as keys are equal values,
      which name the same file: every language gets its own data. */
  lemma StoredGathered(texts: map<TextPath, Option<Value>>, languages: seq<Value>, id: string)
    requires forall t :: 0 <= t < |languages| ==> !languages[t].Bool?
    requires GatherTexts(texts, languages, id).Success?
    ensures Stored(GatherTexts(texts, languages, id).value, languages) == GatherTexts(texts, languages, id).value
  {
    GatherTextsSpec(texts, languages, id, 0);
    var data := GatherTexts(texts, languages, id).value;
    forall j, m | 0 <= j < m < |languages| && SameKey(languages[m], languages[j]) ensures data[m] == data[j] {
      assert languages[m] == languages[j];
    }
    StoredOwn(data, languages);
  }

  /** Only booleans make two different values the same key: `1` and `true` in
      one list of languages share one entry of `lang_data`, which holds the
      file read for the later one. */
  lemma BooleanSharesKey(data: seq<Value>)
    requires |data| == 2
    ensures Stored(data, [Num(1), Bool(true)]) == [data[1], data[1]]
    ensures Stored(data, [Num(1), Str("1")]) == data
  {
    var ls := [Num(1), Bool(true)];
    assert LastStored(ls, 0, 2) == 1;
    var ls' := [Num(1), Str("1")];
    assert LastStored(ls', 0, 2) == 0;
  }

  /** Every language file has as many lines as the first. */
  predicate SameLength(cols: seq<seq<string>>)
    requires cols != []
  {
    forall j :: 0 <= j < |cols| ==> |cols[j]| == |cols[0]|
  }

  /** `[lang_data[lang][i].strip() for lang in languages]` */
  function Row(cols: seq<seq<string>>, i: nat): (r: seq<string>)
    requires forall j :: 0 <= j < |cols| ==> i < |cols[j]|
    ensures |r| == |cols| && forall j :: 0 <= j < |cols| ==> r[j] == Strip(cols[j][i])
  {
    seq(|cols|, j requires 0 <= j < |cols| => Strip(cols[j][i]))
  }

  /** `len(set(lines)) == 1` */
  predicate AllSame(lines: seq<string>)
  {
    |lines| > 0 && forall j :: 0 <= j < |lines| ==> lines[j] == lines[0]
  }

  lemma SingleDistinctLine(lines: seq<string>)
    ensures |(set l | l in lines)| == 1 <==> AllSame(lines)
  {
    var u := set l | l in lines;
    if lines == [] {
      assert u == {};
    } else if AllSame(lines) {
      assert u == {lines[0]};
    } else {
      var j :| 0 <= j < |lines| && lines[j] != lines[0];
      var others := u - {lines[0]};
      assert lines[j] in others;
      assert u == others + {lines[0]};
    }
  }

  /** What one row adds to raw.txt: a heading line and a blank line when all
      languages agree, else one line per language and a blank line. */
  function RenderRow(rule: HeadingRule, lines: seq<string>): string
  {
    if AllSame(lines) then HeadingLine(rule, lines[0]) + "\n\n"
    else WriteLines(lines) + "\n"
  }

  /** raw.txt after the first `k` rows. */
  function Render(cols: seq<seq<string>>, rule: HeadingRule, k: nat): string
    requires cols != [] && SameLength(cols) && k <= |cols[0]|
  {
    if k == 0 then "" else Render(cols, rule, k - 1) + RenderRow(rule, Row(cols, k - 1))
  }

  /** Each row appends its lines or its heading. */
  lemma RenderStep(cols: seq<seq<string>>, rule: HeadingRule, i: nat)
    requires cols != [] && SameLength(cols) && i < |cols[0]|
    ensures forall j :: 0 <= j < |cols| ==> i < |cols[j]|
    ensures Render(cols, rule, i + 1) == Render(cols, rule, i) + RenderRow(rule, Row(cols, i))
  {
  }

  /** Loading the index and finding the item's entry. */
  function LookUp(index: JsonFile, id: string): (r: Result<Fields, Failure>)
    ensures r.Success? ==> HasId(r.value, id)
  {
    match index
    case Absent => Failure(IndexFileMissing)
    case Present(None) => Failure(IndexFileInvalid)
    case Present(Some(v)) =>
      match Iterate(v)
      case Failure(e) => Failure(e)
      case Success(items) =>
        match FindEntry(items, id)
        case Failure(e) => Failure(e)
        case Success(None) => Failure(NoEntry(id))
        case Success(Some(entry)) => Success(entry)
  }

  /** Looking up an id in an index list returns the first dict with the id,
      and fails with AttributeError when a non-dict comes before any match. */
  lemma LookUpFirst(items: seq<Value>, id: string, i: nat)
    requires i < |items|
    requires forall j :: 0 <= j < i ==> items[j].Obj? && !HasId(items[j].fields, id)
    ensures items[i].Obj? && HasId(items[i].fields, id) ==>
      LookUp(Present(Some(Arr(items))), id) == Success(items[i].fields)
    ensures !items[i].Obj? ==> LookUp(Present(Some(Arr(items))), id) == Failure(AttributeError)
  {
    FindEntryFirst(items, id, i);
  }

  /** `lang_data[lang]` for every language the entry lists, in order. */
  function LanguageData(texts: map<TextPath, Option<Value>>, entry: Fields, id: string): Result<seq<Value>, Failure>
  {
    match Iterate(GetOr(entry, "languages", Arr([])))
    case Failure(e) => Failure(e)
    case Success(languages) =>
      match GatherTexts(texts, languages, id)
      case Failure(e) => Failure(e)
      case Success(data) => Success(Stored(data, languages))
  }

  /** `len(v)`: the characters of a string, the items of a list, the keys of a
      dict; any other value has no length. */
  function Len(v: Value): (r: Result<nat, Failure>)
    ensures r.Failure? <==> !(v.Str? || v.Arr? || v.Obj?)
  {
    match v
    case Str(s) => Success(|s|)
    case Arr(items) => Success(|items|)
    case Obj(f) => Success(|f|)
    case _ => Failure(TypeError)
  }

  /** `all(len(lang_data[lang]) == total_lines for lang in languages)`: the
      lengths are taken in order and the first that differs ends the check. */
  function AllOfLength(cols: seq<Value>, total: nat): Result<bool, Failure>
  {
    if cols == [] then Success(true)
    else
      match Len(cols[0])
      case Failure(e) => Failure(e)
      case Success(n) => if n != total then Success(false) else AllOfLength(cols[1..], total)
  }

  /** The check passes exactly when every value has length `total`. */
  lemma {:induction false} AllOfLengthSpec(cols: seq<Value>, total: nat)
    ensures AllOfLength(cols, total) == Success(true) <==> forall j :: 0 <= j < |cols| ==> Len(cols[j]) == Success(total)
  {
    if cols != [] {
      AllOfLengthSpec(cols[1..], total);
      assert forall j :: 1 <= j < |cols| ==> cols[j] == cols[1..][j - 1];
    }
  }

  /** `lang_data[lang][i].strip()`: the `i`-th string of a list or character
      of a string; a dict has no key `i`, as its keys are strings. */
  function Item(v: Value, i: nat): (r: Result<string, Failure>)
    ensures v.Arr? && i < |v.items| && v.items[i].Str? ==> r == Success(Strip(v.items[i].s))
    ensures r.Success? <==> (v.Arr? && i < |v.items| && v.items[i].Str?) || (v.Str? && i < |v.s|)
  {
    match v
    case Arr(items) =>
      if i >= |items| then Failure(IndexError)
      else if items[i].Str? then Success(Strip(items[i].s)) else Failure(AttributeError)
    case Str(s) => if i >= |s| then Failure(IndexError) else Success(Strip([s[i]]))
    case Obj(_) => Failure(KeyError(IntToString(i)))
    case _ => Failure(TypeError)
  }

  /** `[lang_data[lang][i].strip() for lang in languages]`: the languages are
      read in order and the first failure ends the row. */
  function RowAt(cols: seq<Value>, i: nat): (r: Result<seq<string>, Failure>)
    ensures r.Success? ==> |r.value| == |cols|
  {
    if cols == [] then Success([])
    else
      match Item(cols[0], i)
      case Failure(e) => Failure(e)
      case Success(line) =>
        match RowAt(cols[1..], i)
        case Failure(e) => Failure(e)
        case Success(rest) => Success([line] + rest)
  }

  /** What the first `k` turns of the row loop write to the emptied raw.txt,
      and the error that ended the loop, if any: a failing row writes nothing
      and no later row runs. */
  function Rows(cols: seq<Value>, rule: HeadingRule, k: nat): (string, Option<Failure>)
  {
    if k == 0 then ("", None)
    else
      var (written, stop) := Rows(cols, rule, k - 1);
      if stop.Some? then (written, stop)
      else
        match RowAt(cols, k - 1)
        case Failure(e) => (written, Some(e))
        case Success(lines) => (written + RenderRow(rule, lines), None)
  }

  /** regenerate_raw_file(id) on the files `s`. The checks before raw.txt is
      opened leave it as it was; once it is opened it is emptied, and a row
      that fails leaves the rows before it. */
  function Regenerate(s: Snapshot, cfg: Config, id: string): (Outcome, Snapshot)
  {
    match LookUp(s.index, id)
    case Failure(e) => (Failed(e), s)
    case Success(entry) =>
      match LanguageData(s.texts, entry, id)
      case Failure(e) => (Failed(e), s)
      case Success(cols) => Rebuild(s, cfg, cols)
  }

  /** The rest of regenerate_raw_file once `lang_data` is read: the line
      counts are checked, then raw.txt is emptied and the rows are written. */
  function Rebuild(s: Snapshot, cfg: Config, cols: seq<Value>): (Outcome, Snapshot)
  {
    if cols == [] then (Failed(StopIteration), s)
    else
      match Len(cols[0])
      case Failure(e) => (Failed(e), s)
      case Success(total) =>
        match AllOfLength(cols, total)
        case Failure(e) => (Failed(e), s)
        case Success(same) =>
          if !same then (Failed(LineCountMismatch), s)
          else
            var (written, stop) := Rows(cols, Rule(cfg), total);
            (if stop.Some? then Failed(stop.value) else Done, s.(raw := written))
  }

  method RegenerateRawFile(ws: Store, cfg: Config, id: string) returns (outcome: Outcome)
    modifies ws
    ensures (outcome, ws.State()) == Regenerate(old(ws.State()), cfg, id)
  {
    if ws.index.Absent? {
      return Failed(IndexFileMissing);
    }
    if ws.index.decoded.None? {
      return Failed(IndexFileInvalid);
    }
    var items := Iterate(ws.index.decoded.value);
    if items.Failure? {
      return Failed(items.error);
    }
    var matched := FindEntry(items.value, id);
    if matched.Failure? {
      return Failed(matched.error);
    }
    if matched.value.None? {
      return Failed(NoEntry(id));
    }
    var languages := Iterate(GetOr(matched.value.value, "languages", Arr([])));
    if languages.Failure? {
      return Failed(languages.error);
    }
    var data := GatherTexts(ws.texts, languages.value, id);
    if data.Failure? {
      return Failed(data.error);
    }
    var langData := Stored(data.value, languages.value);
    outcome := RebuildRaw(ws, cfg, langData);
  }

  method RebuildRaw(ws: Store, cfg: Config, langData: seq<Value>) returns (outcome: Outcome)
    modifies ws
    ensures (outcome, ws.State()) == Rebuild(old(ws.State()), cfg, langData)
  {
    if langData == [] {
      return Failed(StopIteration);
    }
    var totalLines := Len(langData[0]);
    if totalLines.Failure? {
      return Failed(totalLines.error);
    }
    var same := AllOfLength(langData, totalLines.value);
    if same.Failure? {
      return Failed(same.error);
    }
    if !same.value {
      return Failed(LineCountMismatch);
    }
    ws.raw := "";
    outcome := WriteRows(ws, langData, totalLines.value, Rule(cfg), cfg.prefixList, cfg.headingPrefix);
    ghost var written := Rows(langData, Rule(cfg), totalLines.value).0;
    assert "" + written == written;
  }

  /** The loop over the rows of regenerate_raw_file. */
  method WriteRows(ws: Store, cols: seq<Value>, total: nat, rule: HeadingRule, prefixList: seq<string>, headingPrefix: string)
    returns (outcome: Outcome)
    requires rule == PrefixUnlessMarked(headingPrefix, prefixList)
    modifies ws
    ensures ws.raw == old(ws.raw) + Rows(cols, rule, total).0
    ensures outcome == if Rows(cols, rule, total).1.Some? then Failed(Rows(cols, rule, total).1.value) else Done
    ensures ws.index == old(ws.index) && ws.texts == old(ws.texts)
  {
    var i := 0;
    while i < total
      invariant 0 <= i <= total
      invariant ws.raw == old(ws.raw) + Rows(cols, rule, i).0 && Rows(cols, rule, i).1 == None
      invariant ws.index == old(ws.index) && ws.texts == old(ws.texts)
    {
      var lines := RowAt(cols, i);
      if lines.Failure? {
        RowsStop(cols, rule, i, total);
        return Failed(lines.error);
      }
      RowsAfter(old(ws.raw), cols, rule, i);
      WriteRow(ws, lines.value, rule, prefixList, headingPrefix);
      i := i + 1;
    }
    outcome := Done;
  }

  /** Appending a row that succeeds to what the rows before it wrote gives
      what one more turn writes. */
  lemma RowsAfter(written: string, cols: seq<Value>, rule: HeadingRule, i: nat)
    requires Rows(cols, rule, i).1 == None && RowAt(cols, i).Success?
    ensures Rows(cols, rule, i + 1) == (Rows(cols, rule, i).0 + RenderRow(rule, RowAt(cols, i).value), None)
    ensures (written + Rows(cols, rule, i).0) + RenderRow(rule, RowAt(cols, i).value) == written + Rows(cols, rule, i + 1).0
  {
    RowsStep(cols, rule, i);
    AppendAssoc(written, Rows(cols, rule, i).0, RenderRow(rule, RowAt(cols, i).value));
  }

  /** A row that succeeds after rows that succeeded appends its text. */
  lemma RowsStep(cols: seq<Value>, rule: HeadingRule, i: nat)
    requires Rows(cols, rule, i).1 == None && RowAt(cols, i).Success?
    ensures Rows(cols, rule, i + 1) == (Rows(cols, rule, i).0 + RenderRow(rule, RowAt(cols, i).value), None)
  {
  }

  /** A row that fails ends the loop: every later turn keeps what the rows
      before it wrote, and its error. */
  lemma {:induction false} RowsStop(cols: seq<Value>, rule: HeadingRule, i: nat, k: nat)
    requires Rows(cols, rule, i).1 == None && RowAt(cols, i).Failure? && i < k
    ensures Rows(cols, rule, k) == (Rows(cols, rule, i).0, Some(RowAt(cols, i).error))
    decreases k
  {
    if k > i + 1 {
      RowsStop(cols, rule, i, k - 1);
    }
  }

  /** Over lists of strings, a row reads the `i`-th string of every list. */
  lemma {:induction false} RowAtLists(cols: seq<seq<string>>, i: nat)
    requires forall j :: 0 <= j < |cols| ==> i < |cols[j]|
    ensures RowAt(ListsOf(cols), i) == Success(Row(cols, i))
  {
    if cols != [] {
      RowAtLists(cols[1..], i);
      assert ListsOf(cols)[1..] == ListsOf(cols[1..]);
      assert Row(cols, i) == [Strip(cols[0][i])] + Row(cols[1..], i);
    }
  }

  /** Over lists of strings of one length, every row succeeds and the loop
      writes what Render describes. */
  lemma {:induction false} RowsOfLists(cols: seq<seq<string>>, rule: HeadingRule, k: nat)
    requires cols != [] && SameLength(cols) && k <= |cols[0]|
    ensures Rows(ListsOf(cols), rule, k) == (Render(cols, rule, k), None)
  {
    if k > 0 {
      RowsOfLists(cols, rule, k - 1);
      RowAtLists(cols, k - 1);
      RowsStep(ListsOf(cols), rule, k - 1);
      RenderStep(cols, rule, k - 1);
    }
  }

  /** Lists of strings of one length pass the line-count check. */
  lemma ListsOfLength(cols: seq<seq<string>>)
    requires cols != [] && SameLength(cols)
    ensures Len(ListsOf(cols)[0]) == Success(|cols[0]|)
    ensures AllOfLength(ListsOf(cols), |cols[0]|) == Success(true)
  {
    AllOfLengthSpec(ListsOf(cols), |cols[0]|);
  }

  /** One row: a heading when every language has the same line, else the lines. */
  method WriteRow(ws: Store, lines: seq<string>, rule: HeadingRule, prefixList: seq<string>, headingPrefix: string)
    requires rule == PrefixUnlessMarked(headingPrefix, prefixList)
    modifies ws
    ensures ws.raw == old(ws.raw) + RenderRow(rule, lines)
    ensures ws.index == old(ws.index) && ws.texts == old(ws.texts)
  {
    var uniqueLines := set l | l in lines;
    SingleDistinctLine(lines);
    if |uniqueLines| == 1 {
      var line := lines[0];
      if !(exists k :: 0 <= k < |prefixList| && StartsWith(line, prefixList[k])) {
        line := headingPrefix + line;
      }
      assert line == HeadingLine(rule, lines[0]);
      ws.raw := ws.raw + (line + "\n\n");
    } else {
      AppendLines(ws, lines);
      ws.raw := ws.raw + "\n";
    }
  }

  /** `for line in lines: f.write(line + "\n")` */
  method AppendLines(ws: Store, lines: seq<string>)
    modifies ws
    ensures ws.raw == old(ws.raw) + WriteLines(lines)
    ensures ws.index == old(ws.index) && ws.texts == old(ws.texts)
  {
    var j := 0;
    while j < |lines|
      invariant 0 <= j <= |lines|
      invariant ws.raw == old(ws.raw) + WriteLines(lines[..j])
      invariant ws.index == old(ws.index) && ws.texts == old(ws.texts)
    {
      WriteLinesAppend(lines[..j], [lines[j]]);
      assert lines[..j + 1] == lines[..j] + [lines[j]];
      ws.raw := ws.raw + (lines[j] + "\n");
      j := j + 1;
    }
    assert lines[..j] == lines;
  }

  // The round trip: regenerating raw.txt from the columns of normalised blocks
  // and reading it back gives blocks that normalise to the same blocks.

  /** The language files of blocks with `n` lines: file `c` is line `c` of
      every block. `RowOfColumns` proves the converse reading: row `i` of the
      columns is block `i` again. */
  function Columns(bs: seq<Block>, n: nat): (cols: seq<seq<string>>)
    requires forall j :: 0 <= j < |bs| ==> |bs[j]| == n
    ensures |cols| == n && forall c :: 0 <= c < n ==> cols[c] == Column(bs, c)
  {
    seq(n, c requires 0 <= c < n => Column(bs, c))
  }

  /** A normalised block raw.txt can represent: one clean, non-empty line per
      language, and when all lines agree they form a heading that already
      carries its marker (a heading line is written once). */
  predicate Renderable(bs: seq<Block>, rule: HeadingRule, n: nat)
  {
    n >= 1 &&
    (forall j :: 0 <= j < |bs| ==> |bs[j]| == n && NoBlankLine(bs[j])) &&
    (forall j, k :: 0 <= j < |bs| && 0 <= k < |bs[j]| ==> CleanLine(bs[j][k])) &&
    (forall j :: 0 <= j < |bs| && AllSame(bs[j]) ==> HeadingLine(rule, bs[j][0]) == bs[j][0])
  }

  /** How regenerate writes a block: once if all its lines are equal. */
  function Collapse(b: Block): (r: Block)
    ensures |b| > 0 ==> r != []
    ensures forall j :: 0 <= j < |r| ==> r[j] in b
  {
    if AllSame(b) then [b[0]] else b
  }

  function CollapseAll(bs: seq<Block>): (r: seq<Block>)
    ensures |r| == |bs| && forall i :: 0 <= i < |bs| ==> r[i] == Collapse(bs[i])
  {
    seq(|bs|, i requires 0 <= i < |bs| => Collapse(bs[i]))
  }

  lemma CollapsePrefix(bs: seq<Block>, k: nat)
    requires 1 <= k <= |bs|
    ensures CollapseAll(bs[..k]) == CollapseAll(bs[..k - 1]) + [Collapse(bs[k - 1])]
  {
    var l := CollapseAll(bs[..k]);
    var r := CollapseAll(bs[..k - 1]) + [Collapse(bs[k - 1])];
    assert |l| == |r|;
    forall i | 0 <= i < |l| ensures l[i] == r[i] {
      assert bs[..k][i] == bs[i];
      if i < k - 1 {
        assert bs[..k - 1][i] == bs[i];
      }
    }
  }

  /** Row `i` of the columns of clean blocks is block `i`. */
  lemma RowOfColumns(bs: seq<Block>, n: nat, i: nat)
    requires forall j :: 0 <= j < |bs| ==> |bs[j]| == n
    requires forall j, k :: 0 <= j < |bs| && 0 <= k < |bs[j]| ==> CleanLine(bs[j][k])
    requires i < |bs|
    ensures forall c :: 0 <= c < n ==> i < |Columns(bs, n)[c]|
    ensures Row(Columns(bs, n), i) == bs[i]
  {
    var r := Row(Columns(bs, n), i);
    forall k | 0 <= k < n ensures r[k] == bs[i][k] {
      StripStripped(bs[i][k]);
    }
  }

  /** A renderable block's row is its collapsed lines followed by a blank line. */
  lemma RenderRowOf(rule: HeadingRule, b: Block)
    requires AllSame(b) ==> HeadingLine(rule, b[0]) == b[0]
    ensures RenderRow(rule, b) == WriteLines(Collapse(b) + [""])
  {
    if AllSame(b) {
      assert [b[0], ""][1..] == [""] && [""][1..] == [];
      assert WriteLines([b[0], ""]) == b[0] + "\n" + ("" + "\n" + WriteLines([]));
    } else {
      WriteLinesAppend(b, [""]);
      assert WriteLines([""]) == "" + "\n" + WriteLines([]);
    }
  }

  /** Row `k - 1` of the columns writes block `k - 1`, collapsed. */
  lemma RenderLastRow(bs: seq<Block>, rule: HeadingRule, n: nat, k: nat)
    requires Renderable(bs, rule, n)
    requires 1 <= k <= |bs|
    ensures var cols := Columns(bs, n);
      SameLength(cols) &&
      Render(cols, rule, k) == Render(cols, rule, k - 1) + WriteLines(Collapse(bs[k - 1]) + [""])
  {
    var cols := Columns(bs, n);
    RowOfColumns(bs, n, k - 1);
    RenderRowOf(rule, bs[k - 1]);
    assert |bs| >= 1 && |cols[0]| == |bs|;
    RenderStep(cols, rule, k - 1);
  }

  /** The first `k` rows write the first `k` collapsed blocks, each followed by
      a blank line. */
  lemma {:induction false} RenderWritten(bs: seq<Block>, rule: HeadingRule, n: nat, k: nat)
    requires Renderable(bs, rule, n)
    requires k <= |bs|
    ensures var cols := Columns(bs, n);
      SameLength(cols) && Render(cols, rule, k) == WriteLines(Join(CollapseAll(bs[..k])))
  {
    var cols := Columns(bs, n);
    if k == 0 {
      assert CollapseAll(bs[..0]) == [];
    } else {
      RenderWritten(bs, rule, n, k - 1);
      RenderLastRow(bs, rule, n, k);
      var front := CollapseAll(bs[..k - 1]);
      var b := Collapse(bs[k - 1]);
      CollapsePrefix(bs, k);
      JoinAppend(front, b);
      WriteLinesAppend(Join(front), b + [""]);
      AppendAssoc(Join(front), b, [""]);
    }
  }

  /** Reading back what regenerate writes gives the collapsed blocks. */
  lemma ParseRendered(bs: seq<Block>, rule: HeadingRule, n: nat)
    requires Renderable(bs, rule, n)
    ensures var cols := Columns(bs, n);
      SameLength(cols) && Parse(Render(cols, rule, |bs|)) == CollapseAll(bs)
  {
    RenderWritten(bs, rule, n, |bs|);
    assert bs[..|bs|] == bs;
    var c := CollapseAll(bs);
    JoinKeepsClean(c);
    ReadBackWrittenLines(Join(c));
    SplitJoin(c);
  }

  /** Collapsed blocks normalise back to the blocks they came from, with no
      block of a wrong size. */
  lemma NormalizeCollapsed(bs: seq<Block>, rule: HeadingRule, n: nat)
    requires Renderable(bs, rule, n)
    ensures FirstBadBlock(CollapseAll(bs), n) == None
    ensures NormalizeAll(CollapseAll(bs), rule, n) == bs
  {
    var c := CollapseAll(bs);
    forall j | 0 <= j < |bs| ensures !BadArity(c[j], n) && NormalizeBlock(c[j], rule, n) == bs[j] {
      NormalizeCollapsedBlock(bs[j], rule, n);
    }
    var r := NormalizeAll(c, rule, n);
    assert |r| == |bs|;
    assert forall j :: 0 <= j < |bs| ==> r[j] == bs[j];
  }

  /** One block: collapsed, it has a valid size and normalises back. */
  lemma NormalizeCollapsedBlock(b: Block, rule: HeadingRule, n: nat)
    requires n >= 1 && |b| == n
    requires AllSame(b) ==> HeadingLine(rule, b[0]) == b[0]
    ensures !BadArity(Collapse(b), n) && NormalizeBlock(Collapse(b), rule, n) == b
  {
    if AllSame(b) {
      assert Repeat(HeadingLine(rule, b[0]), n) == b;
    } else {
      assert |b| != 1;
    }
  }

  /** Regenerating raw.txt from renderable blocks and reading it back, the
      blocks pass the size check and normalise to the original blocks. */
  lemma RegenerateThenRead(bs: seq<Block>, rule: HeadingRule, n: nat)
    requires Renderable(bs, rule, n)
    ensures var cols := Columns(bs, n);
      SameLength(cols) &&
      var back := Parse(Render(cols, rule, |bs|));
      FirstBadBlock(back, n) == None && NormalizeAll(back, rule, n) == bs
  {
    ParseRendered(bs, rule, n);
    NormalizeCollapsed(bs, rule, n);
  }

  // The round trip on the files: add_new_ziyarah_or_update_existing_from_raw
  // (heading lines repeated once per language), then regenerate_raw_file.

  /** A configuration under which raw.txt can be rebuilt: at least one
      language, no language twice, and a heading prefix that is itself one of
      the markers and keeps a heading line clean. */
  predicate RoundTripConfig(cfg: Config)
  {
    |cfg.languages| >= 1 &&
    (forall i, j :: 0 <= i < j < |cfg.languages| ==> cfg.languages[i] != cfg.languages[j]) &&
    cfg.headingPrefix in cfg.prefixList &&
    '\n' !in cfg.headingPrefix && '\r' !in cfg.headingPrefix &&
    (cfg.headingPrefix == [] || !IsSpace(cfg.headingPrefix[0]))
  }

  /** No full block has the same line for every language (regenerate would
      write it as a heading). */
  predicate NoUniformFullBlock(bs: seq<Block>, n: nat)
  {
    forall j :: 0 <= j < |bs| && |bs[j]| == n && n != 1 ==> !AllSame(bs[j])
  }

  /** Under such a configuration a heading line is clean, and making it a
      heading again changes nothing. */
  lemma HeadingIsStable(cfg: Config, l: string)
    requires RoundTripConfig(cfg)
    requires CleanLine(l) && l != ""
    ensures CleanLine(HeadingLine(Rule(cfg), l)) && HeadingLine(Rule(cfg), l) != ""
    ensures HeadingLine(Rule(cfg), HeadingLine(Rule(cfg), l)) == HeadingLine(Rule(cfg), l)
  {
    var rule := Rule(cfg);
    var p := cfg.headingPrefix;
    if !StartsWithAny(l, cfg.prefixList) {
      var h := p + l;
      var k :| 0 <= k < |cfg.prefixList| && cfg.prefixList[k] == p;
      assert h[..|p|] == p;
      assert StartsWith(h, cfg.prefixList[k]);
      assert h[|h| - 1] == l[|l| - 1];
      assert p != [] ==> h[0] == p[0];
      assert p == [] ==> h == l;
      assert '\n' !in h && '\r' !in h by {
        forall i | 0 <= i < |h| ensures h[i] != '\n' && h[i] != '\r' {
          if i < |p| { assert h[i] == p[i]; } else { assert h[i] == l[i - |p|]; }
        }
      }
    }
  }

  /** The normalised blocks of a raw.txt with valid block sizes and no uniform
      full block can be rebuilt. */
  lemma NormalizedRenderable(raw: string, cfg: Config)
    requires RoundTripConfig(cfg)
    requires FirstBadBlock(Parse(raw), |cfg.languages|) == None
    requires NoUniformFullBlock(Parse(raw), |cfg.languages|)
    ensures Renderable(NormalizeAll(Parse(raw), Rule(cfg), |cfg.languages|), Rule(cfg), |cfg.languages|)
  {
    var bs := Parse(raw);
    var n := |cfg.languages|;
    var nb := NormalizeAll(bs, Rule(cfg), n);
    ParseClean(raw);
    forall j | 0 <= j < |bs|
      ensures |nb[j]| == n && NoBlankLine(nb[j])
      ensures forall k :: 0 <= k < |nb[j]| ==> CleanLine(nb[j][k])
      ensures AllSame(nb[j]) ==> HeadingLine(Rule(cfg), nb[j][0]) == nb[j][0]
    {
      assert !BadArity(bs[j], n);
      if |bs[j]| == 1 {
        HeadingIsStable(cfg, bs[j][0]);
      }
    }
  }

  /** Regenerating from an index whose last entry is the item's (and no other
      entry has its id) and from text records holding the columns of blocks
      writes those blocks. */
  lemma RegenerateFromWritten(s: Snapshot, cfg: Config, es: seq<Fields>, total: nat, cols: seq<seq<string>>)
    requires |cfg.languages| >= 1
    requires s.index == Present(Some(ObjList(es)))
    requires |es| >= 1 && es[|es| - 1] == IndexEntry(cfg, total)
    requires forall i :: 0 <= i < |es| - 1 ==> !HasId(es[i], ItemId(cfg))
    requires |cols| == |cfg.languages| && SameLength(cols)
    requires forall t :: 0 <= t < |cfg.languages| ==>
      TextPath(cfg.languages[t], ItemId(cfg)) in s.texts &&
      s.texts[TextPath(cfg.languages[t], ItemId(cfg))] == Some(TextRecord(ItemId(cfg), cfg.name, cfg.languages[t], cols[t]))
    ensures Regenerate(s, cfg, ItemId(cfg)) == (Done, s.(raw := Render(cols, Rule(cfg), |cols[0]|)))
  {
    LookUpWritten(es, cfg, total);
    LanguageDataWritten(s.texts, cfg, total, cols);
    ListsOfLength(cols);
    RowsOfLists(cols, Rule(cfg), |cols[0]|);
  }

  /** The item's entry is found in an index where it is the only one with its id
      and the last. */
  lemma LookUpWritten(es: seq<Fields>, cfg: Config, total: nat)
    requires |es| >= 1 && es[|es| - 1] == IndexEntry(cfg, total)
    requires forall i :: 0 <= i < |es| - 1 ==> !HasId(es[i], ItemId(cfg))
    ensures LookUp(Present(Some(ObjList(es))), ItemId(cfg)) == Success(IndexEntry(cfg, total))
  {
    FindLastEntry(es, ItemId(cfg));
  }

  /** The entry's languages are read from the records written for them. */
  lemma LanguageDataWritten(texts: map<TextPath, Option<Value>>, cfg: Config, total: nat, cols: seq<seq<string>>)
    requires |cols| == |cfg.languages|
    requires forall t :: 0 <= t < |cfg.languages| ==>
      TextPath(cfg.languages[t], ItemId(cfg)) in texts &&
      texts[TextPath(cfg.languages[t], ItemId(cfg))] == Some(TextRecord(ItemId(cfg), cfg.name, cfg.languages[t], cols[t]))
    ensures LanguageData(texts, IndexEntry(cfg, total), ItemId(cfg)) == Success(ListsOf(cols))
  {
    var ls := StrSeq(cfg.languages);
    IndexFieldsGet(Str(ItemId(cfg)), Str(cfg.name), Str(Strip(cfg.description)), Num(total), Arr(ls));
    assert Iterate(GetOr(IndexEntry(cfg, total), "languages", Arr([]))) == Success(ls);
    GatherWritten(texts, cfg.languages, ItemId(cfg), cfg.name, cols);
    StoredGathered(texts, ls, ItemId(cfg));
  }

  /** With distinct languages every language's record holds its column of the
      normalised blocks after the item is added, and the index holds the
      upserted entry. */
  lemma AddWritesColumns(s: Snapshot, cfg: Config)
    requires RoundTripConfig(cfg)
    requires FirstBadBlock(Parse(s.raw), |cfg.languages|) == None
    requires LoadIndex(s.index).Success?
    ensures var n := |cfg.languages|;
      var nb := NormalizeAll(Parse(s.raw), Rule(cfg), n);
      var s1 := AddFromRawIntended(s, cfg).1;
      AddFromRawIntended(s, cfg).0 == Done &&
      s1.index == Present(Some(ObjList(Upsert(LoadIndex(s.index).value, IndexEntry(cfg, |nb|), ItemId(cfg))))) &&
      (forall j :: 0 <= j < |nb| ==> |nb[j]| == n) &&
      forall t :: 0 <= t < n ==>
        TextPath(cfg.languages[t], ItemId(cfg)) in s1.texts &&
        s1.texts[TextPath(cfg.languages[t], ItemId(cfg))] == Some(TextRecord(ItemId(cfg), cfg.name, cfg.languages[t], Columns(nb, n)[t]))
  {
    var n := |cfg.languages|;
    var bs := Parse(s.raw);
    var nb := NormalizeAll(bs, Rule(cfg), n);
    AddFromRawWithSucceeds(s, cfg, n);
    forall j | 0 <= j < |nb| ensures |nb[j]| == n {
      assert !BadArity(bs[j], n);
    }
    forall t | 0 <= t < n ensures LastWithCode(Table(cfg), n, t) {
    }
  }

  /** Adding an item and then regenerating its raw.txt from the files written
      changes only raw.txt, and the new raw.txt reads back as blocks of valid
      sizes that normalise to the same blocks as the original raw.txt. */
  lemma AddThenRegenerate(s: Snapshot, cfg: Config)
    requires RoundTripConfig(cfg)
    requires FirstBadBlock(Parse(s.raw), |cfg.languages|) == None
    requires NoUniformFullBlock(Parse(s.raw), |cfg.languages|)
    requires LoadIndex(s.index).Success?
    ensures var (o1, s1) := AddFromRawIntended(s, cfg);
      var (o2, s2) := Regenerate(s1, cfg, ItemId(cfg));
      o1 == Done && o2 == Done && s2 == s1.(raw := s2.raw) &&
      FirstBadBlock(Parse(s2.raw), |cfg.languages|) == None &&
      NormalizeAll(Parse(s2.raw), Rule(cfg), |cfg.languages|) == NormalizeAll(Parse(s.raw), Rule(cfg), |cfg.languages|)
  {
    var n := |cfg.languages|;
    var nb := NormalizeAll(Parse(s.raw), Rule(cfg), n);
    RegenerateAfterAdding(s, cfg);
    NormalizedRenderable(s.raw, cfg);
    RegenerateThenRead(nb, Rule(cfg), n);
  }

  /** After the item is added, regenerating writes the rows of the columns of
      the normalised blocks and changes nothing else. */
  lemma RegenerateAfterAdding(s: Snapshot, cfg: Config)
    requires RoundTripConfig(cfg)
    requires FirstBadBlock(Parse(s.raw), |cfg.languages|) == None
    requires LoadIndex(s.index).Success?
    ensures var n := |cfg.languages|;
      var nb := NormalizeAll(Parse(s.raw), Rule(cfg), n);
      var (o1, s1) := AddFromRawIntended(s, cfg);
      (forall j :: 0 <= j < |nb| ==> |nb[j]| == n) &&
      o1 == Done && Regenerate(s1, cfg, ItemId(cfg)) == (Done, s1.(raw := Render(Columns(nb, n), Rule(cfg), |nb|)))
  {
    var n := |cfg.languages|;
    var id := ItemId(cfg);
    var nb := NormalizeAll(Parse(s.raw), Rule(cfg), n);
    var s1 := AddFromRawIntended(s, cfg).1;
    var es := Upsert(LoadIndex(s.index).value, IndexEntry(cfg, |nb|), id);
    AddWritesColumns(s, cfg);
    UpsertEntry(LoadIndex(s.index).value, cfg, |nb|);
    var cols := Columns(nb, n);
    RegenerateFromWritten(s1, cfg, es, |nb|, cols);
    assert |cols[0]| == |nb|;
  }

  /** The upserted index ends with the item's entry, the only one with its id. */
  lemma UpsertEntry(previous: seq<Fields>, cfg: Config, total: nat)
    ensures var es := Upsert(previous, IndexEntry(cfg, total), ItemId(cfg));
      |es| >= 1 && es[|es| - 1] == IndexEntry(cfg, total) &&
      forall i :: 0 <= i < |es| - 1 ==> !HasId(es[i], ItemId(cfg))
  {
    IndexFieldsGet(Str(ItemId(cfg)), Str(cfg.name), Str(Strip(cfg.description)), Num(total), Arr(StrSeq(cfg.languages)));
    UpsertSpec(previous, IndexEntry(cfg, total), ItemId(cfg));
  }

  /** The regenerated raw.txt is a fixed point: adding the item from it again
      leaves every file (raw.txt, the text records and the index) as it is. */
  lemma RegeneratedIsStable(s: Snapshot, cfg: Config)
    requires RoundTripConfig(cfg)
    requires FirstBadBlock(Parse(s.raw), |cfg.languages|) == None
    requires NoUniformFullBlock(Parse(s.raw), |cfg.languages|)
    requires LoadIndex(s.index).Success?
    ensures var s2 := Regenerate(AddFromRawIntended(s, cfg).1, cfg, ItemId(cfg)).1;
      AddFromRawIntended(s2, cfg) == (Done, s2)
  {
    var n := |cfg.languages|;
    var id := ItemId(cfg);
    var nb := NormalizeAll(Parse(s.raw), Rule(cfg), n);
    var s1 := AddFromRawIntended(s, cfg).1;
    var s2 := Regenerate(s1, cfg, id).1;
    var es := Upsert(LoadIndex(s.index).value, IndexEntry(cfg, |nb|), id);
    AddThenRegenerate(s, cfg);
    AddWritesColumns(s, cfg);
    assert s2.texts == s1.texts && s2.index == s1.index;
    assert NormalizeAll(Parse(s2.raw), Rule(cfg), n) == nb;
    assert MinWidth(nb, n) == n;
    forall u | 0 <= u < n
      ensures TextPath(Table(cfg)[u].code, id) in s2.texts
      ensures s2.texts[TextPath(Table(cfg)[u].code, id)]
           == Some(TextRecord(id, Table(cfg)[u].title, Table(cfg)[u].code, Column(nb, Table(cfg)[u].column)))
    {
    }
    WriteColumnsAlreadyWritten(s2.texts, id, Table(cfg), nb, n);
    ReaddIndexUnchanged(LoadIndex(s.index).value, cfg, |nb|);
    assert |Parse(s2.raw)| == |nb|;
    AddFromRawWithComplete(s2, cfg, n);
  }

  /** Adding the item again to an index it was just upserted into rewrites
      the same index. */
  lemma ReaddIndexUnchanged(previous: seq<Fields>, cfg: Config, total: nat)
    ensures var f := Present(Some(ObjList(Upsert(previous, IndexEntry(cfg, total), ItemId(cfg)))));
      IndexAfterAdding(f, cfg, total) == (Done, f)
  {
    var es := Upsert(previous, IndexEntry(cfg, total), ItemId(cfg));
    LoadWrittenIndex(es);
    IndexFieldsGet(Str(ItemId(cfg)), Str(cfg.name), Str(Strip(cfg.description)), Num(total), Arr(StrSeq(cfg.languages)));
    UpsertSpec(previous, IndexEntry(cfg, total), ItemId(cfg));
  }
}
