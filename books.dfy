/** helper_books.py: adds a book to books/index.json and sorts that index.
    Copying the PDF and the cover and formatting the file size are outside the
    model; the formatted size of the copied PDF is a parameter. */
module Books {
  import opened Wrappers
  import opened Json
  import opened Text
  import opened Sorting

  /** The book described at the top of the script. */
  datatype Book = Book(name: string, author: string, translator: seq<string>, publisher: string,
                       about: string, category: string)

  const CoverUrlPrefix := "https://raw.githubusercontent.com/sayyid5416/shia-islamic-data/main/books/covers/"

  /** The book's id: the slug of its name. */
  function BookId(b: Book): string
  {
    Slug(b.name)
  }

  function Cover(b: Book): string
  {
    CoverUrlPrefix + BookId(b) + ".jpg"
  }

  /** The entry add_pdf_file appends, keys in the order it writes them. */
  function BookEntry(b: Book, size: string): Value
  {
    Obj([("id", Str(BookId(b))), ("name", Str(b.name)), ("author", Str(b.author)),
         ("translator", Arr(StrSeq(b.translator))), ("publisher", Str(b.publisher)),
         ("about", Str(Strip(b.about))), ("size", Str(size)), ("category", Str(b.category)),
         ("cover", Str(Cover(b)))])
  }

  /** The index as add_pdf_file loads it: a list as it is, any other value as a
      one-element list, and an empty or undecodable file (a missing file is
      created empty first) as the empty list. */
  function LoadBooks(f: JsonFile): seq<Value>
  {
    match f
    case Present(Some(Arr(items))) => items
    case Present(Some(v)) => [v]
    case _ => []
  }

  /** add_pdf_file: the new index file. With `pdfSize` None the source PDF is
      missing, the copy raises FileNotFoundError and the index is not touched. */
  function AddBook(f: JsonFile, b: Book, pdfSize: Option<string>): (Outcome, JsonFile)
  {
    match pdfSize
    case None => (Failed(FileNotFound), f)
    case Some(size) => (Done, Present(Some(Arr(LoadBooks(f) + [BookEntry(b, size)]))))
  }

  /** The entries that carry `id`. */
  function CountId(items: seq<Value>, id: string): nat
  {
    Count(items, (v: Value) => v.Obj? && HasId(v.fields, id))
  }

  /** Adding a book keeps every entry the index had, in order, and appends the
      new one; nothing is de-duplicated, so the id's count grows by one. */
  lemma AddBookSpec(f: JsonFile, b: Book, size: string)
    ensures var (o, g) := AddBook(f, b, Some(size));
      var before := LoadBooks(f);
      var after := LoadBooks(g);
      && o == Done
      && |after| == |before| + 1
      && after[..|before|] == before
      && after[|before|] == BookEntry(b, size)
      && CountId(after, BookId(b)) == CountId(before, BookId(b)) + 1
  {
    var before := LoadBooks(f);
    var after := before + [BookEntry(b, size)];
    assert after[..|before|] == before;
    CountAppend(before, [BookEntry(b, size)], (v: Value) => v.Obj? && HasId(v.fields, BookId(b)));
    assert [BookEntry(b, size)][1..] == [];
  }

  /** A decoded non-list index is kept as the first entry of the new list. */
  lemma AddBookWrapsValue(v: Value, b: Book, size: string)
    requires !v.Arr?
    ensures AddBook(Present(Some(v)), b, Some(size)).1 == Present(Some(Arr([v, BookEntry(b, size)])))
  {
    assert [v] + [BookEntry(b, size)] == [v, BookEntry(b, size)];
  }

  /** The holder of books/index.json. */
  class Library {
    var index: JsonFile

    constructor (index: JsonFile)
      ensures this.index == index
    {
      this.index := index;
    }

    method AddPdfFile(b: Book, pdfSize: Option<string>) returns (outcome: Outcome)
      modifies this
      ensures (outcome, index) == AddBook(old(index), b, pdfSize)
    {
      if pdfSize.None? {
        return Failed(FileNotFound);
      }
      var data := LoadBooks(index);
      data := data + [BookEntry(b, pdfSize.value)];
      index := Present(Some(Arr(data)));
      outcome := Done;
    }

    method SortIndexFile() returns (outcome: Outcome)
      modifies this
      ensures (outcome, index) == SortIndex(old(index))
    {
      if index.Absent? {
        index := Present(None);
        return Failed(JsonDecodeError);
      }
      if index.decoded.None? {
        return Failed(JsonDecodeError);
      }
      var data := index.decoded.value;
      if !data.Arr? {
        return Failed(TypeError);
      }
      if !AllSortable(data.items) {
        return Failed(AttributeError);
      }
      var sorted := SortBy(data.items, IdKey);
      index := Present(Some(Arr(SortAllFields(sorted))));
      outcome := Done;
    }
  }

  /** `x.get("id", "").lower()` can be computed: the entry is a dict and its id,
      if any, is a string. */
  predicate Sortable(v: Value)
  {
    v.Obj? && match Get(v.fields, "id") { case None => true case Some(id) => id.Str? }
  }

  predicate AllSortable(items: seq<Value>)
  {
    forall i :: 0 <= i < |items| ==> Sortable(items[i])
  }

  /** The sort key of an entry: its lower-cased id, "" when it has none. */
  function IdKey(v: Value): string
  {
    if v.Obj? then
      match Get(v.fields, "id")
      case Some(Str(id)) => Lower(id)
      case _ => ""
    else ""
  }

  function PairKey(p: (string, Value)): string
  {
    p.0
  }

  /** `dict(sorted(item.items()))` */
  function SortFields(v: Value): Value
  {
    if v.Obj? then Obj(SortBy(v.fields, PairKey)) else v
  }

  function SortAllFields(items: seq<Value>): (r: seq<Value>)
    ensures |r| == |items| && forall i :: 0 <= i < |items| ==> r[i] == SortFields(items[i])
  {
    seq(|items|, i requires 0 <= i < |items| => SortFields(items[i]))
  }

  /** sort_index_file: the outcome and the index file afterwards. A missing file
      is created empty and then fails to decode. */
  function SortIndex(f: JsonFile): (Outcome, JsonFile)
  {
    match f
    case Absent => (Failed(JsonDecodeError), Present(None))
    case Present(None) => (Failed(JsonDecodeError), f)
    case Present(Some(data)) =>
      if !data.Arr? then (Failed(TypeError), f)
      else if !AllSortable(data.items) then (Failed(AttributeError), f)
      else (Done, Present(Some(Arr(SortAllFields(SortBy(data.items, IdKey))))))
  }

  /** `d.get(k)` is the value of the first pair whose key is `k`. */
  lemma {:induction false} GetKeyFilter(f: Fields, k: string)
    ensures Get(f, k) == if KeyFilter(f, PairKey, k) == [] then None else Some(KeyFilter(f, PairKey, k)[0].1)
  {
    if f != [] {
      GetKeyFilter(f[1..], k);
    }
  }

  /** Sorting a dict's items orders its keys, keeps every pair and keeps what
      `get` returns for every key. */
  lemma SortFieldsSpec(f: Fields)
    ensures SortedBy(SortBy(f, PairKey), PairKey)
    ensures multiset(SortBy(f, PairKey)) == multiset(f)
    ensures forall k :: Get(SortBy(f, PairKey), k) == Get(f, k)
  {
    SortByCorrect(f, PairKey);
    forall k ensures Get(SortBy(f, PairKey), k) == Get(f, k) {
      GetKeyFilter(f, k);
      GetKeyFilter(SortBy(f, PairKey), k);
    }
  }

  lemma SortFieldsKeepsKey(v: Value)
    ensures IdKey(SortFields(v)) == IdKey(v)
    ensures Sortable(SortFields(v)) == Sortable(v)
  {
    if v.Obj? {
      SortFieldsSpec(v.fields);
    }
  }

  lemma SortAllFieldsCons(x: Value, s: seq<Value>)
    ensures SortAllFields([x] + s) == [SortFields(x)] + SortAllFields(s)
  {
  }

  lemma {:induction false} InsertSortFields(x: Value, s: seq<Value>)
    ensures SortAllFields(Insert(x, s, IdKey)) == Insert(SortFields(x), SortAllFields(s), IdKey)
  {
    SortFieldsKeepsKey(x);
    if s == [] {
      SortAllFieldsCons(x, s);
    } else {
      SortFieldsKeepsKey(s[0]);
      SortAllFieldsCons(s[0], s[1..]);
      assert s == [s[0]] + s[1..];
      if LexLe(IdKey(x), IdKey(s[0])) {
        SortAllFieldsCons(x, s);
      } else {
        InsertSortFields(x, s[1..]);
        SortAllFieldsCons(s[0], Insert(x, s[1..], IdKey));
        var t := SortAllFields(s);
        assert t[0] == SortFields(s[0]) && t[1..] == SortAllFields(s[1..]);
        assert Insert(SortFields(x), t, IdKey) == [t[0]] + Insert(SortFields(x), t[1..], IdKey);
      }
    }
  }

  /** Sorting each entry's keys does not change the entries' order: the two
      sorts of sort_index_file commute. */
  lemma {:induction false} SortByCommutes(s: seq<Value>)
    ensures SortAllFields(SortBy(s, IdKey)) == SortBy(SortAllFields(s), IdKey)
  {
    if s != [] {
      SortByCommutes(s[1..]);
      InsertSortFields(s[0], SortBy(s[1..], IdKey));
      assert SortAllFields(s)[1..] == SortAllFields(s[1..]);
    }
  }

  /** What sort_index_file promises: it fails without writing when the file
      does not decode, is not a list, or holds an entry whose key cannot be
      computed; otherwise the new list is ordered by lower-cased id, holds the
      same entries each with its keys sorted, and keeps the file order among
      entries with the same key. */
  lemma SortIndexSpec(f: JsonFile)
    ensures var (o, g) := SortIndex(f);
      && (o == Done <==> f.Present? && f.decoded.Some? && f.decoded.value.Arr? && AllSortable(f.decoded.value.items))
      && (o == Failed(TypeError) <==> f.Present? && f.decoded.Some? && !f.decoded.value.Arr?)
      && (o != Done ==> g == if f.Absent? then Present(None) else f)
      && (o == Done ==>
            var items := SortAllFields(f.decoded.value.items);
            && g.Present? && g.decoded.Some? && g.decoded.value.Arr?
            && var out := g.decoded.value.items;
            && SortedBy(out, IdKey)
            && multiset(out) == multiset(items)
            && (forall k :: KeyFilter(out, IdKey, k) == KeyFilter(items, IdKey, k))
            && forall i :: 0 <= i < |out| ==> out[i].Obj? && SortedBy(out[i].fields, PairKey))
  {
    if SortIndex(f).0 == Done {
      SortedIndex(f.decoded.value.items);
    }
  }

  /** The list sort_index_file writes for entries that can all be sorted. */
  lemma SortedIndex(items: seq<Value>)
    requires AllSortable(items)
    ensures var out := SortAllFields(SortBy(items, IdKey));
      && SortedBy(out, IdKey)
      && multiset(out) == multiset(SortAllFields(items))
      && (forall k :: KeyFilter(out, IdKey, k) == KeyFilter(SortAllFields(items), IdKey, k))
      && forall i :: 0 <= i < |out| ==> out[i].Obj? && SortedBy(out[i].fields, PairKey)
  {
    SortByCommutes(items);
    SortByCorrect(SortAllFields(items), IdKey);
    SortByCorrect(items, IdKey);
    var sorted := SortBy(items, IdKey);
    forall i | 0 <= i < |sorted| ensures sorted[i].Obj? && SortedBy(SortFields(sorted[i]).fields, PairKey) {
      assert sorted[i] in multiset(items);
      var j :| 0 <= j < |items| && items[j] == sorted[i];
      SortFieldsSpec(sorted[i].fields);
    }
  }

  lemma {:induction false} SortFieldsIdempotent(v: Value)
    ensures SortFields(SortFields(v)) == SortFields(v)
  {
    if v.Obj? {
      SortFieldsSpec(v.fields);
      SortBySorted(SortBy(v.fields, PairKey), PairKey);
    }
  }

  /** Sorting the index a second time changes nothing. */
  lemma SortIndexIdempotent(f: JsonFile)
    requires SortIndex(f).0 == Done
    ensures SortIndex(SortIndex(f).1) == SortIndex(f)
  {
    var items := f.decoded.value.items;
    SortIndexSpec(f);
    var out := SortIndex(f).1.decoded.value.items;
    SortByCommutes(items);
    SortByCorrect(items, IdKey);
    forall i | 0 <= i < |out| ensures Sortable(out[i]) && SortFields(out[i]) == out[i] {
      var sorted := SortBy(items, IdKey);
      assert sorted[i] in multiset(items);
      SortFieldsKeepsKey(sorted[i]);
      SortFieldsIdempotent(sorted[i]);
    }
    SortBySorted(out, IdKey);
    assert SortAllFields(out) == out;
  }
}
