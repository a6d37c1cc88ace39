# Ingestion scripts of a devotional-text data repository, in Dafny

The repository keeps duas, ziyarat, dhikr, books and biographies of the
fourteen infallibles as JSON files. A handful of Python scripts turn an
editor's `raw.txt` into those files and keep the indexes tidy. This project
models the core of those scripts and proves what they promise.

- `helper_ziyarah.py`:
  - reads `raw.txt` as blocks of non-blank lines;
  - turns a single-line block into a heading;
  - writes one text record per language, `text/<language>/<id>.json`;
  - adds or replaces the item's entry in `index.json`;
  - renames an item, moving its text records;
  - rebuilds `raw.txt` from the text records;
  - cuts every index entry down to five keys and sorts the index by id.
- `add_ziyarah.py`: the older variant of the add. It has a fixed Arabic,
  transliteration and English table, always prefixes headings and sorts the
  index.
- `convert.py`: splits `raw.txt` into three per-language files and a
  metadata file.
- `helper_books.py`: appends a book to `books/index.json` and sorts that
  index.
- `helper_infallables.py`: brings every entry of
  `basic_information.json` into the shape of `template.json` and pads the
  list to fourteen entries.

Modules, one per concern:

| module | contents |
|---|---|
| `Wrappers` | Option, Result, and how a run ends: `Outcome`, `Failure` |
| `Json` | JSON values. A dict is an ordered list of pairs. `d.get`, `d[k] = v`, and Python's iteration of a list, dict or string |
| `Text` | `str.strip`, `lower().replace(" ", "-")` (the id "slug"), and string order |
| `Sorting` | Python's stable sort by key, as insertion sort |
| `Blocks` | `read_blocks` and the heading normalisation of blocks. The normalisation is an in-place loop over an `array` |
| `Workspace` | the files of one category: `raw.txt`, `index.json` and the text records |
| `Records` | text records, the index filter-and-append, and the five-key index entry |
| `Ziyarah` | adding from `raw.txt` and changing metadata, in `helper_ziyarah.py` |
| `ZiyarahRegenerate` | `regenerate_raw_file`, and its round trip with the add |
| `ZiyarahReorder` | `reorder_json_keys` |
| `AddZiyarah`, `Convert`, `Books`, `Infallibles` | the other four scripts |

Each script operation that changes files is a method on a class holding those
files: `Workspace.Store`, `Convert.Outputs`, `Books.Library` or
`Infallibles.BasicInformation`. Each method's `ensures` equates the outcome
and the new contents with a function of the old contents. The lemmas then
prove the scripts' promises about those functions: round trips,
idempotence, sortedness and permutation, and "nothing else changes".

A Python exception that ends a run is modelled as a `Failed(...)` outcome.
So is a check that makes a script print an error and return early. Either
way, the contracts say exactly when each one happens.

## Model

| member | source | states |
|---|---|---|
| Json.Get | helper_ziyarah.py:129 | `d.get(k)` is None exactly when `k` is not a key, and otherwise a value stored under `k` |
| Json.SetField | helper_ziyarah.py:237-238 | after `d[k] = v`, `d.get(k)` is `v`; the key order is unchanged when `k` was present, else `k` is added last |
| Json.SetFieldOthers | helper_ziyarah.py:237-238 | setting one key leaves the value of every other key unchanged |
| Json.Iterate | helper_ziyarah.py:229 | iterating a list gives its items, a dict its keys and a string its characters; any other value raises TypeError |
| Json.Entries | helper_ziyarah.py:203 | `z.get("id")` over the loaded index succeeds exactly on a list of dicts, an empty dict or an empty string |
| Json.AsDicts | helper_ziyarah.py:129 | `item.get` over a list succeeds exactly when every item is a dict, else AttributeError |
| Json.AsStringsStrSeq | helper_ziyarah.py:115 | a list of strings written to JSON reads back as the same strings |
| Json.Format | helper_ziyarah.py:230-231 | an f-string writes a string language into a path as the string itself |
| Json.FormatNumbers | helper_ziyarah.py:230-231 | two numbers written into a path alike are equal, and no number is written as None, True or False |
| Text.NatToString | helper_ziyarah.py:230 | `str(n)` of a non-negative number is decimal digits without a leading zero |
| Text.NatToStringValue | helper_ziyarah.py:230 | those digits read back as the number |
| Text.IntToStringInjective | helper_ziyarah.py:230 | different integers are written as different strings |
| Text.StripShape | helper_ziyarah.py:90 | `line.strip()` is a slice of the line with only whitespace cut from either end, and has no whitespace at either end |
| Text.StripIdempotent | helper_ziyarah.py:90 | stripping a stripped line changes nothing |
| Text.StripWithNewline | helper_ziyarah.py:90 | a stripped line read back with its line end strips to itself |
| Text.SlugAt | helper_ziyarah.py:57-58 | the id has the name's length; a space becomes `-`; every other character is lower-cased |
| Text.SlugNormalForm | helper_ziyarah.py:57-58 | an id has no space and no upper-case letter, and deriving an id from it again changes nothing |
| Text.LexLeTotal | helper_ziyarah.py:313 | any two sort keys are comparable |
| Text.LexLeAntisymmetric | helper_ziyarah.py:313 | two keys each at most the other are equal |
| Text.LexLeTransitive | helper_ziyarah.py:313 | the key order is transitive |
| Sorting.SortByCorrect | helper_ziyarah.py:313 | `list.sort(key=...)` gives a list sorted by key that is a permutation of the input; entries with equal keys keep their relative order |
| Sorting.SortBySorted | helper_ziyarah.py:313 | sorting a list already sorted by the key changes nothing |
| Sorting.SortByCount | add_ziyarah.py:102 | sorting keeps the number of entries that satisfy any predicate |
| Blocks.LineLength | helper_ziyarah.py:89-90 | a line read in text mode ends after "\n", after "\r\n", or after a "\r" that no "\n" follows, and holds no other line break |
| Blocks.ReadLinesClean | helper_ziyarah.py:89-90 | every stripped line holds no line break |
| Blocks.ReadBlocks | helper_ziyarah.py:88-105 | the blocks of a file are the split of its stripped lines at blank lines |
| Blocks.SplitLines | helper_ziyarah.py:92-105 | the loop collects each maximal run of non-empty lines into one block, in order |
| Blocks.ReadBackWrittenLines | helper_ziyarah.py:89-90 | stripped lines written one per line read back, after stripping, as themselves |
| Blocks.ParseClean | helper_ziyarah.py:95-103 | every block read is non-empty, holds no blank line, and its lines are stripped and contain no line break |
| Blocks.SplitFlattens | helper_ziyarah.py:95-103 | the blocks, laid end to end, are exactly the non-blank lines in order |
| Blocks.SplitAtBlank | helper_ziyarah.py:98-100 | a blank line separates: the blocks of `a`, blank, `b` are the blocks of `a` followed by those of `b` |
| Blocks.BlankLinesAreSeparators | helper_ziyarah.py:95-103 | leading, trailing and repeated blank lines add no block; a final run of non-blank lines is the last block |
| Blocks.SplitJoin | helper_ziyarah.py:95-103 | non-empty blank-free blocks separated by blank lines split back into the same blocks |
| Blocks.HeadingLine | helper_ziyarah.py:153-157 | a single line gets the heading prefix unless it already starts with a listed prefix; the other script's rule always prefixes |
| Blocks.Repeat | helper_ziyarah.py:158 | `[infoLine, infoLine, infoLine]`: `n` copies of the line |
| Blocks.FirstBadBlock | helper_ziyarah.py:151-161 | no result exactly when every block has one line or one line per language, else the index of the first block that has neither |
| Blocks.NormalizeInPlace | helper_ziyarah.py:151-161 | the in-place loop returns the first bad block; with none, every block is normalised; else the blocks before it are normalised and the rest untouched |
| Records.TextRecordText | helper_ziyarah.py:165-170 | a text record's `text` holds the language's lines |
| Records.Column | helper_ziyarah.py:164 | `[b[idx] for b in blocks]`: one line per block, the `idx`-th of each |
| Records.WriteColumnsWrites | helper_ziyarah.py:163-176 | after the write loop each language's path holds the record of its column; the last write wins when a code repeats |
| Records.WriteColumnsKeeps | helper_ziyarah.py:163-176 | the write loop leaves every other path as it was |
| Records.WriteColumnsSameColumns | helper_ziyarah.py:163-176 | the loop reads the blocks only through the columns `[b[idx] for b in blocks]`: blocks with the same columns write the same records |
| Records.WriteColumnsAlreadyWritten | helper_ziyarah.py:163-176 | rewriting records that are already in place changes nothing |
| Records.LoadIndex | helper_ziyarah.py:119-126 | a missing or undecodable index loads as the empty list, a decoded one as its entries |
| Records.RemoveIdSpec | helper_ziyarah.py:129 | the filter drops every entry with the id, returns the list unchanged when no entry has it, and distributes over concatenation |
| Records.RemoveIdKeeps | helper_ziyarah.py:129 | an entry without the id survives the filter |
| Records.UpsertSpec | helper_ziyarah.py:128-132 | the new index ends with the new entry, no other entry has its id, the rest is the filtered old index, and upserting again changes nothing |
| Records.IndexFieldsGet | helper_ziyarah.py:110-116 | the index entry has exactly the keys id, title, description, total_lines and languages, in that order, each holding its value |
| Records.ObjList | helper_ziyarah.py:135-136 | the dumped index is a list with one dict per entry, in order |
| Records.LoadWrittenIndex | helper_ziyarah.py:119-136 | loading the index just written gives back its entries |
| Ziyarah.Table | helper_ziyarah.py:163-171 | language `i` is written from column `i` under the item's title |
| Ziyarah.MinWidth | helper_ziyarah.py:163-164 | how many languages the loop writes before `b[idx]` fails: at most the language count and at most every block's width; less than the count only when it is some block's width |
| Ziyarah.MinWidthStep | helper_ziyarah.py:164 | at language `idx` the loop stops exactly when some block has at most `idx` lines; otherwise column `idx` exists |
| Ziyarah.UpdateIndexAfterAdding | helper_ziyarah.py:107-137 | the index file becomes the filtered old index plus the new entry; `raw.txt` and the text records are untouched |
| Ziyarah.IndexAfterAddingSpec | helper_ziyarah.py:107-137 | with a loadable index the update succeeds; the new entry is last, no other entry has the id, and the rest is the old index minus the id; a missing or invalid index gives the new entry alone |
| Ziyarah.AddNewOrUpdateFromRaw | helper_ziyarah.py:143-185 | the run's outcome and files are those of the add as written |
| Ziyarah.WriteLanguageFiles | helper_ziyarah.py:163-176 | the loop completes exactly when every language's column exists; the text records written are those of the columns it reached |
| Ziyarah.ArityFailureWritesNothing | helper_ziyarah.py:159-161 | the first block with the wrong line count stops the run, reporting its 1-based number and line count, and nothing is written |
| Ziyarah.AddFromRawWithSucceeds | helper_ziyarah.py:143-178 | with valid blocks and at least one heading copy per language the run succeeds; `raw.txt` is unchanged; the index is upserted; each language's path holds its column; every other path is untouched |
| Ziyarah.AddFromRawSucceeds | helper_ziyarah.py:151-178 | with at most three languages the script as written succeeds; it writes exactly what the corrected run writes |
| Ziyarah.NormalizedWidth | helper_ziyarah.py:155-164 | with valid block sizes and at least one heading copy per language, `b[idx]` exists for every language |
| Ziyarah.NormalizedColumn | helper_ziyarah.py:155-164 | a language's column does not depend on how many heading copies reach past it |
| Ziyarah.AddFromRawWithCopies | helper_ziyarah.py:151-178 | heading copies past the last language are never read: any two copy counts of at least one per language give the same run |
| Ziyarah.AddFromRawIntendedSucceeds | helper_ziyarah.py:151-178 | the corrected run succeeds for any number of languages |
| Ziyarah.HeadingBlockStopsLongLanguageList | helper_ziyarah.py:158-164 | with more than three languages and a single-line block, the script as written raises IndexError after writing three languages, and leaves the index untouched |
| Ziyarah.Matching | helper_ziyarah.py:203-208 | `matched` is empty exactly when no entry has the id, and otherwise starts with the first entry that does |
| Ziyarah.UpdatedTitle | helper_ziyarah.py:209 | `new_title or entry["title"]`: a non-empty new title wins; otherwise the entry's title, failing when it is missing or not a string |
| Ziyarah.RetitledEntryFails | helper_ziyarah.py:209-221 | building the new entry fails exactly when the title cannot be had or total_lines or languages is missing |
| Ziyarah.RetitledEntrySpec | helper_ziyarah.py:209-222 | the new entry has the five index keys; its id is the slug of the new title; its description is the stripped new one when given, else the old one; total_lines and languages are copied |
| Ziyarah.RetaggedSpec | helper_ziyarah.py:237-238 | a moved record carries the new id and title |
| Ziyarah.MoveRecordAsWritten | helper_ziyarah.py:233-243 | as written, moving a record deletes the old path; to a new id the retagged record is at the new path; to the same id the record is gone |
| Ziyarah.MoveRecordIntendedKeepsRecord | helper_ziyarah.py:233-243 | corrected, the retagged record is always at the new path, and the old path remains only when it is the new one; for a new id this agrees with the script |
| Ziyarah.MoveTexts | helper_ziyarah.py:229-246 | the rename loop writes each language into the paths as `str` writes it, lists those whose record is missing, and stops at the first record that does not decode or is not a dict |
| Ziyarah.ChangeZiyarahMetadata | helper_ziyarah.py:187-246 | the outcome, missing languages and files are those of the metadata change |
| Ziyarah.UnknownIdWritesNothing | helper_ziyarah.py:203-206 | an id no entry has is reported and nothing changes |
| Ziyarah.ChangeMetadataIndex | helper_ziyarah.py:213-225 | the index afterwards is the old index without the current id, followed by the new entry; no entry with the old id remains |
| Ziyarah.ChangeMetadataWritesIndex | helper_ziyarah.py:213-225 | the index file written holds exactly that list |
| Ziyarah.ChangeMetadataMoves | helper_ziyarah.py:213-246 | when the id changes or a title is given, the run is the index write followed by the rename loop, and fails only with the loop's error |
| Ziyarah.SameIdMoveDeletes | helper_ziyarah.py:228-246 | the rename loop with the same id fails nowhere, creates no file, and deletes the record of every listed language, whatever its type |
| Ziyarah.RetitleToSameIdLosesTexts | helper_ziyarah.py:228-243 | retitling with a title whose id is the current id reports success, yet no language's record remains |
| AddZiyarah.UpdateIndex | add_ziyarah.py:69-107 | the index file becomes the filtered old index plus the new entry, sorted by id; nothing else changes |
| AddZiyarah.AddZiyarahData | add_ziyarah.py:111-154 | the run's outcome and files are those of the add |
| AddZiyarah.AddDataWrites | add_ziyarah.py:119-147 | with valid blocks, the run writes the three language columns and then updates the index |
| AddZiyarah.AddDataArityFailure | add_ziyarah.py:119-125 | the first block with neither one nor three lines stops the run with its number and line count, and nothing is written |
| AddZiyarah.NormalizeBlocks | add_ziyarah.py:119-125 | a single line becomes three copies of `INFO: ` plus the line, with no prefix check; a three-line block is kept |
| AddZiyarah.AddDataWritesTexts | add_ziyarah.py:127-145 | ar gets column 0 under the Arabic title, transliteration column 1 and en column 2 under the name, one line per block; every other path is untouched |
| AddZiyarah.TitlesSpec | add_ziyarah.py:77-81 | the title dict maps ar to the Arabic name and en and transliteration to the name |
| AddZiyarah.EntrySpec | add_ziyarah.py:73-83 | the entry holds the id, the line count and the title dict |
| AddZiyarah.SortedUpsert | add_ziyarah.py:96-102 | after filter, append and sort, exactly one entry has the id, the new entry is in, the list is sorted, and it is a permutation of the filtered list plus the entry |
| AddZiyarah.IndexAfterUpdateSpec | add_ziyarah.py:69-107 | with comparable ids the update succeeds, and the written index has those properties |
| AddZiyarah.IndexAfterUpdateTypeError | add_ziyarah.py:96-102 | an entry whose id is not a string makes the sort raise TypeError, and the index is untouched |
| ZiyarahRegenerate.FindEntry | helper_ziyarah.py:261 | an entry found has the id |
| ZiyarahRegenerate.FindEntryFirst | helper_ziyarah.py:261 | the search is lazy and ordered: past a prefix of dicts without the id, the first dict with the id is returned, and a non-dict met first raises AttributeError; later items are not read |
| ZiyarahRegenerate.FindEntryNone | helper_ziyarah.py:261-264 | no entry is found exactly when every item is a dict without the id |
| ZiyarahRegenerate.FindLastEntry | helper_ziyarah.py:261 | in an index the add wrote, the item's entry is found |
| ZiyarahRegenerate.LookUp | helper_ziyarah.py:250-264 | an entry looked up has the id |
| ZiyarahRegenerate.LookUpFirst | helper_ziyarah.py:250-264 | on an index list, the entry looked up is the first dict with the id, and a non-dict before any match gives AttributeError |
| ZiyarahRegenerate.GatherTexts | helper_ziyarah.py:269-275 | the loop reads one `text` value per language |
| ZiyarahRegenerate.GatherTextsSpec | helper_ziyarah.py:269-275 | the loop succeeds exactly when every language's record exists and decodes to a dict and the language can be a dict key; it then holds each record's `text`, else it fails as the first unreadable language does |
| ZiyarahRegenerate.GatherWritten | helper_ziyarah.py:269-275 | when every language's record is present, the values read are the lists of their lines |
| ZiyarahRegenerate.LastStored | helper_ziyarah.py:275 | `lang_data[lang]` holds the value of the last language equal to `lang` under Python's `==` |
| ZiyarahRegenerate.StoredOwn | helper_ziyarah.py:275-285 | when languages equal as keys read equal data, each language gets its own data |
| ZiyarahRegenerate.StoredGathered | helper_ziyarah.py:269-285 | with no boolean language, each language gets the data read for it |
| ZiyarahRegenerate.BooleanSharesKey | helper_ziyarah.py:275-285 | `1` and `true` share one key and both get the later file's data; `1` and `"1"` do not |
| ZiyarahRegenerate.Len | helper_ziyarah.py:277-278 | `len` fails exactly on values that are not a string, list or dict |
| ZiyarahRegenerate.AllOfLengthSpec | helper_ziyarah.py:278 | the line-count check passes exactly when every language's value has the first one's length |
| ZiyarahRegenerate.Item | helper_ziyarah.py:285 | reading line `i` succeeds exactly on a list whose `i`-th item is a string, or a string longer than `i`; the list case gives the stripped item |
| ZiyarahRegenerate.RowAt | helper_ziyarah.py:285 | a row read has one line per language |
| ZiyarahRegenerate.Row | helper_ziyarah.py:285 | row `i` is the stripped `i`-th line of every language |
| ZiyarahRegenerate.SingleDistinctLine | helper_ziyarah.py:286-287 | `len(set(lines)) == 1` exactly when the lines are all equal and there is at least one |
| ZiyarahRegenerate.RegenerateRawFile | helper_ziyarah.py:248-296 | the outcome and files are those of the rebuild: a failure before `raw.txt` is opened leaves it unchanged; after that it is emptied and holds the rows written before the first row that fails |
| ZiyarahRegenerate.RebuildRaw | helper_ziyarah.py:277-296 | the line-count checks, then the emptied `raw.txt` and the rows, as the rebuild describes |
| ZiyarahRegenerate.WriteRows | helper_ziyarah.py:283-295 | `raw.txt` gains the rows rendered in order up to the first row that fails, whose error is the outcome; index and text records are untouched |
| ZiyarahRegenerate.RowsStop | helper_ziyarah.py:284-285 | a failing row ends the loop with its error and keeps the rows before it |
| ZiyarahRegenerate.RowAtLists | helper_ziyarah.py:285 | over lists of strings, row `i` is the stripped `i`-th string of every language |
| ZiyarahRegenerate.RowsOfLists | helper_ziyarah.py:283-295 | over lists of strings of one length, no row fails and the loop writes every row rendered in order |
| ZiyarahRegenerate.ListsOfLength | helper_ziyarah.py:277-278 | lists of one length pass the line-count check |
| ZiyarahRegenerate.WriteRow | helper_ziyarah.py:285-295 | a row is written as one heading line and a blank line when all languages agree, else one line per language and a blank line |
| ZiyarahRegenerate.AppendLines | helper_ziyarah.py:293-294 | each line is written followed by a line end |
| ZiyarahRegenerate.Columns | helper_ziyarah.py:164 | the columns of full blocks, one per language; `RowOfColumns` proves row `i` of them is block `i`, so they are the transpose |
| ZiyarahRegenerate.RenderRowOf | helper_ziyarah.py:286-295 | a rendered row is its block, cut to one line when all lines agree, followed by a blank line |
| ZiyarahRegenerate.RenderWritten | helper_ziyarah.py:283-295 | `raw.txt` after `k` rows is those blocks written with blank lines between them |
| ZiyarahRegenerate.ParseRendered | helper_ziyarah.py:88-105 | reading the rebuilt `raw.txt` gives back the rows' blocks |
| ZiyarahRegenerate.NormalizeCollapsed | helper_ziyarah.py:151-158 | normalising those blocks restores the blocks the add wrote |
| ZiyarahRegenerate.RegenerateThenRead | helper_ziyarah.py:248-296 | rebuilding and then reading and normalising gives back the normalised blocks, with no arity error |
| ZiyarahRegenerate.HeadingIsStable | helper_ziyarah.py:154-157 | a heading line is clean, and making it a heading again changes nothing |
| ZiyarahRegenerate.NormalizedRenderable | helper_ziyarah.py:151-158 | the blocks the corrected add writes can be rebuilt |
| ZiyarahRegenerate.RegenerateFromWritten | helper_ziyarah.py:248-296 | given the index and records the add wrote, the rebuild succeeds and writes the rendered rows, changing nothing else |
| ZiyarahRegenerate.LookUpWritten | helper_ziyarah.py:250-264 | the entry the add wrote is the one looked up |
| ZiyarahRegenerate.LanguageDataWritten | helper_ziyarah.py:266-275 | the language data gathered for that entry is the columns written, as lists |
| ZiyarahRegenerate.AddWritesColumns | helper_ziyarah.py:143-178 | the corrected add succeeds, upserts the index and writes every language's column |
| ZiyarahRegenerate.RegenerateAfterAdding | helper_ziyarah.py:248-296 | after the corrected add, the rebuild succeeds and changes only `raw.txt` |
| ZiyarahRegenerate.AddThenRegenerate | helper_ziyarah.py:143-296 | add then rebuild: both succeed, only `raw.txt` changes, and the rebuilt `raw.txt` normalises to the same blocks as the original |
| ZiyarahRegenerate.UpsertEntry | helper_ziyarah.py:128-132 | after the upsert the item's entry is last and the only one with its id |
| ZiyarahRegenerate.RegeneratedIsStable | helper_ziyarah.py:143-296 | adding again from the rebuilt `raw.txt` succeeds and changes nothing |
| ZiyarahRegenerate.ReaddIndexUnchanged | helper_ziyarah.py:107-137 | upserting the same entry into an index that already ends with it changes nothing |
| ZiyarahReorder.Pick | helper_ziyarah.py:303-309 | the dict of the five keys in order, with the item's values, or KeyError naming a key the item lacks |
| ZiyarahReorder.ProjectAll | helper_ziyarah.py:302-311 | the comprehension projects every item in order |
| ZiyarahReorder.ProjectAllFailure | helper_ziyarah.py:302-311 | it fails with the error of the first item that cannot be projected |
| ZiyarahReorder.ReorderJsonKeys | helper_ziyarah.py:298-316 | the index file becomes the projected entries sorted by id; nothing else changes |
| ZiyarahReorder.ReorderSpec | helper_ziyarah.py:302-316 | after a successful run there is one entry per item with exactly the five keys in order; the entries are sorted by id, are a permutation of the projected items, and equal ids keep their order |
| ZiyarahReorder.PickOwnKeys | helper_ziyarah.py:303-309 | projecting a dict onto its own keys gives the dict back |
| ZiyarahReorder.ProjectWritten | helper_ziyarah.py:302-311 | projecting entries that already have the five keys gives them back |
| ZiyarahReorder.ReorderFixed | helper_ziyarah.py:298-316 | a sorted index of five-key entries is left as it is |
| ZiyarahReorder.ReorderIdempotent | helper_ziyarah.py:298-316 | a second reorder changes nothing |
| Convert.Offenders | convert.py:57-61 | the 1-based numbers, in order, of exactly the blocks without three lines |
| Convert.NoOffenders | convert.py:57 | no number is reported exactly when every block has three lines |
| Convert.LastIndex | convert.py:68 | the last position of the character, or -1 |
| Convert.Root | convert.py:68 | `os.path.splitext(p)[0]`: a prefix of `p`, cut only before a last `.` that follows the last `/` |
| Convert.RootOfJsonPath | convert.py:68 | the root of `base.json` is `base` when `base`'s last name part has a character other than `.` |
| Convert.ExtractSpec | convert.py:49-62 | the run succeeds exactly when every block has three lines, else it reports the offenders and writes nothing |
| Convert.ExtractWrites | convert.py:64-81 | on success it writes `_arabic`, `_translit` and `_english` with columns 0, 1 and 2, and `_meta` with the block count; every other file is untouched |
| Convert.ExtractOfJoined | convert.py:29-81 | three-line blocks written to `raw.txt` are extracted into exactly their columns |
| Convert.ReportOffenders | convert.py:57-62 | the loop reports exactly the offending block numbers |
| Convert.WriteFiles | convert.py:76-80 | the files after writing each output in turn |
| Convert.ExtractText | convert.py:49-88 | the outcome and files are those of the extraction |
| Books.AddBookSpec | helper_books.py:87-105 | the index gains one entry, last, the old entries unchanged before it; one more entry carries the book's id |
| Books.AddBookWrapsValue | helper_books.py:89-91 | an index that is not a list becomes a one-item list before the append |
| Books.Library.AddPdfFile | helper_books.py:74-111 | the index file becomes the old one plus the book entry, or is untouched when the PDF is missing |
| Books.Library.SortIndexFile | helper_books.py:114-129 | the index file becomes the sorted index, or is untouched on failure |
| Books.SortFieldsSpec | helper_books.py:124 | `dict(sorted(item.items()))` has its keys in order, the same pairs, and the same value under every key |
| Books.SortFieldsKeepsKey | helper_books.py:123-124 | sorting an entry's keys keeps its id and whether it can be sorted |
| Books.SortByCommutes | helper_books.py:123-124 | sorting the keys of each entry does not change the order of the entries |
| Books.SortIndexSpec | helper_books.py:114-129 | it succeeds exactly on a list of dicts whose id, if present, is a string; it raises TypeError exactly on a non-list; on success the list is sorted by lower-cased id, a permutation with equal ids in order, and every entry has sorted keys |
| Books.SortedIndex | helper_books.py:123-124 | those properties of the sorted list |
| Books.SortFieldsIdempotent | helper_books.py:124 | sorting an entry's keys twice is sorting once |
| Books.SortIndexIdempotent | helper_books.py:114-129 | sorting a sorted index changes nothing |
| Infallibles.SyncWithTemplate | helper_infallables.py:12-22 | the loop computes the synced dict |
| Infallibles.GetAt | helper_infallables.py:15-19 | in a dict without repeated keys, `entry[key]` for one of its keys reads the value stored with that key |
| Infallibles.SyncSucceeds | helper_infallables.py:12-22 | syncing a dict with a dict never fails |
| Infallibles.SyncShape | helper_infallables.py:12-22 | the synced dict has exactly the template's keys, in the template's order |
| Infallibles.SyncValues | helper_infallables.py:14-21 | a key the entry lacks takes the template's value; dicts on both sides are synced recursively; otherwise the entry's value is kept |
| Infallibles.SyncTemplate | helper_infallables.py:12-22 | syncing the template with itself gives the template |
| Infallibles.SyncIdempotent | helper_infallables.py:12-22 | syncing a synced entry again changes nothing |
| Infallibles.StepIdempotent | helper_infallables.py:14-21 | syncing a synced entry again gives every key the value it already has |
| Infallibles.Pad | helper_infallables.py:47-48 | at least fourteen entries; the given ones first and unchanged, then copies of the template |
| Infallibles.SyncAllSpec | helper_infallables.py:44 | the comprehension succeeds exactly when every entry syncs, and then gives the synced entries in order |
| Infallibles.SyncEntries | helper_infallables.py:44 | the loop computes the comprehension |
| Infallibles.BasicInformation.GenerateBasicJson | helper_infallables.py:26-53 | the output file becomes the generated list, or is untouched on failure |
| Infallibles.GenerateSpec | helper_infallables.py:31-50 | the output has max(existing, 14) entries; the existing ones come first, synced, in order; the rest are the template |
| Infallibles.GenerateSucceeds | helper_infallables.py:31-50 | with a dict template and a list of dicts it succeeds |
| Infallibles.GenerateIdempotent | helper_infallables.py:26-53 | a second generation changes nothing |

## Left out

- Encoding and decoding JSON text are left out. A file is absent, present
  and undecodable, or present with a decoded value. Numbers are integers
  only, and duplicate keys in decoded input are not modelled: `Json.Get`
  returns the first pair with the key.
- Console messages (`printStart`, `printDone`, `printError`) are left out.
  Each kind of message that ends a run is a `Failure` constructor. A
  missing record during the rename loop is recorded in the returned
  `missing` list.
- `prepare_file` creates directories and empty files. The model keeps only
  its effects on what is read: a missing `raw.txt` reads as empty, and a
  missing `books/index.json` is created empty and so fails to decode.
  Directories are not modelled.
- `Workspace.TextPath(language, id)` stands for the path string
  `text/<language>/<id>.json` that the scripts build by formatting. Distinct
  pairs are treated as distinct files, which holds while no language
  contains "/" and no id contains "/" or a ".." segment (and, on Windows,
  neither contains `\`, which is a separator there too). A language
  "ar/dua" with id "x" and a language "ar" with id "dua/x" name one file in
  the scripts but two records in the model, so the "other paths are
  untouched" clauses (`Records.WriteColumnsKeeps`,
  `Ziyarah.AddFromRawWithSucceeds`, `AddZiyarah.AddDataWritesTexts`) are
  about pairs, not about files.
- I/O errors and partial writes are left out. Each file is written whole or
  not at all.
- Convert.Root: follows the POSIX `os.path.splitext`, where "/" is the only
  separator. On Windows `\` is also a separator, so a path containing it
  (such as `a.b\c`, whose root there is the whole path) is cut differently.
- Convert.ExtractSpec: reports the offending block numbers but not their
  line counts or contents.
- `Text.Strip` and `Text.Lower` are left out for characters outside ASCII.
  Only ASCII whitespace (including `\r`) is stripped and only A to Z is
  lower-cased; Unicode whitespace and case are not modelled.
- The `DESCRIPTION`, `ABOUT` and other literals at the top of each script
  are parameters (`Config`, `Book`), not the literal texts.
- `helper_books.py` imports `generateIdFromName`, which `helper_ziyarah.py`
  does not define, so the script as given cannot start. The book id here is
  the same slug as `getZiyarahId`.
- `format_file_size` works in floating point. The formatted size of the
  copied PDF is a parameter, and a missing source PDF is `pdfSize == None`.
- `copy_cover_with_name` and the PDF copy are left out: they only copy a
  file outside the index.
- Json.Format: inside a list or dict, `repr` of a string is written
  between single quotes. Python's escaping and its switch to double quotes
  are not modelled. Only a list or dict language reaches this, in a path.
- ZiyarahRegenerate.Item: a dict `text` indexed by a row number raises
  KeyError with the integer. The model's KeyError carries its decimal
  digits.
- ZiyarahReorder.ReorderJsonKeys: when fewer than two entries are sorted,
  Python never compares ids, so any id type passes. With two or more and
  some id not a string, the model always fails with TypeError. Python
  succeeds when the non-string ids happen never to be compared with a
  string, for example when all ids are numbers.
- ZiyarahReorder.Reorder: the same gap as ReorderJsonKeys, in the function
  that specifies it.
- ZiyarahReorder.ReorderSpec: the same gap; its promises are made only
  about the runs the model lets succeed.
- Books.SortFieldsSpec: `sorted(item.items())` sorts the pairs, and
  compares values when two keys are equal. Decoded dicts never repeat a
  key, so the model sorts by key alone.
- Infallibles.SyncWithTemplate: the synced dict is built by appending, key
  by key, in the template's order. That equals Python's `synced[key] = ...`
  because a template's keys are distinct.
- Concurrency between scripts is left out: each run sees the files as they
  were when it started.

## Findings

| source | as written | input that shows it | evidently intended | confidence | as-written member | corrected member |
|---|---|---|---|---|---|---|
| helper_ziyarah.py:158-159 | a single-line block becomes exactly three heading lines, whatever the number of languages | `LANGUAGES` with four codes and a `raw.txt` holding one single-line block: `b[3]` raises IndexError after three records are written, and the index is not updated | one heading copy per language, so a heading appears in every language file | not executed | Ziyarah.HeadingBlockStopsLongLanguageList | Ziyarah.AddFromRawIntendedSucceeds |
| helper_ziyarah.py:228-243 | the rename loop writes the record to the new path, then always removes the old path | `change_ziyarah_metadata("dua-nudba", new_title="dua nudba")`: the new id equals the current one, the title is non-empty, so each record is rewritten in place and then deleted | remove the old path only when it differs from the new one | not executed | Ziyarah.RetitleToSameIdLosesTexts | Ziyarah.MoveRecordIntendedKeepsRecord |
