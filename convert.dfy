/** convert.py: splits raw.txt into blocks of exactly three lines (Arabic,
    transliteration, English) and writes one JSON file per language plus a
    metadata file next to the output path. */
module Convert {
  import opened Wrappers
  import opened Json
  import opened Blocks
  import opened Records

  /** The 1-based numbers of the blocks that do not have exactly three lines,
      in increasing order. */
  function Offenders(bs: seq<Block>): (r: seq<nat>)
    ensures forall n :: n in r <==> 1 <= n <= |bs| && |bs[n - 1]| != 3
    ensures forall i, j :: 0 <= i < j < |r| ==> r[i] < r[j]
    ensures forall i :: 0 <= i < |r| ==> r[i] <= |bs|
  {
    if bs == [] then []
    else
      var front := bs[..|bs| - 1];
      assert forall j :: 0 <= j < |front| ==> front[j] == bs[j];
      Offenders(front) + (if |bs[|bs| - 1]| != 3 then [|bs|] else [])
  }

  /** No block is reported exactly when every block has three lines. */
  lemma NoOffenders(bs: seq<Block>)
    ensures Offenders(bs) == [] <==> forall j :: 0 <= j < |bs| ==> |bs[j]| == 3
  {
    if Offenders(bs) == [] {
      forall j | 0 <= j < |bs| ensures |bs[j]| == 3 {
        assert j + 1 !in Offenders(bs);
      }
    } else {
      var n := Offenders(bs)[0];
      assert n in Offenders(bs);
    }
  }

  /** `s.rfind(c)`: the last index of `c` in `s`, or -1. */
  function LastIndex(s: string, c: char): (r: int)
    ensures -1 <= r < |s|
    ensures r >= 0 ==> s[r] == c
    ensures forall k :: r < k < |s| ==> s[k] != c
  {
    if s == [] then -1
    else if s[|s| - 1] == c then |s| - 1
    else LastIndex(s[..|s| - 1], c)
  }

  /** The contract of LastIndex pins its value down. */
  lemma LastIndexUnique(s: string, c: char, r: int)
    requires -1 <= r < |s|
    requires r >= 0 ==> s[r] == c
    requires forall k :: r < k < |s| ==> s[k] != c
    ensures LastIndex(s, c) == r
  {
  }

  /** `os.path.splitext(p)[0]`: the path without the extension of its last
      component. The extension starts at the last '.' after the last '/', and
      only if some character between that '/' and that dot is not a dot. */
  function Root(p: string): (r: string)
    ensures |r| <= |p| && p[..|r|] == r
    ensures r != p ==> p[|r|] == '.' && '/' !in p[|r|..] && '.' !in p[|r| + 1..]
  {
    var sep := LastIndex(p, '/');
    var dot := LastIndex(p, '.');
    if dot > sep && exists k :: sep < k < dot && p[k] != '.' then
      assert forall k :: dot < k < |p| ==> p[dot + 1..][k - dot - 1] == p[k];
      assert forall k :: dot <= k < |p| ==> p[dot..][k - dot] == p[k];
      p[..dot]
    else p
  }

  /** A dot after the last '/' with a non-dot character before it starts the
      extension. */
  lemma RootCut(p: string, k: int)
    requires LastIndex(p, '/') < k < LastIndex(p, '.') && p[k] != '.'
    ensures Root(p) == p[..LastIndex(p, '.')]
  {
  }

  lemma JsonSuffixDot(base: string)
    ensures LastIndex(base + ".json", '.') == |base|
  {
    var p := base + ".json";
    var n := |base|;
    assert p[n] == '.' && p[n + 1] == 'j' && p[n + 2] == 's' && p[n + 3] == 'o' && p[n + 4] == 'n';
    LastIndexUnique(p, '.', n);
  }

  lemma JsonSuffixSlash(base: string)
    ensures LastIndex(base + ".json", '/') == LastIndex(base, '/')
  {
    var p := base + ".json";
    var n := |base|;
    assert p[n] == '.' && p[n + 1] == 'j' && p[n + 2] == 's' && p[n + 3] == 'o' && p[n + 4] == 'n';
    assert forall k :: 0 <= k < n ==> p[k] == base[k];
    LastIndexUnique(p, '/', LastIndex(base, '/'));
  }

  /** The output path without its extension, for a file name with a non-dot
      character: `.temp/results.json` becomes `.temp/results`. */
  lemma RootOfJsonPath(base: string)
    requires exists k :: LastIndex(base, '/') < k < |base| && base[k] != '.'
    ensures Root(base + ".json") == base
  {
    var p := base + ".json";
    JsonSuffixDot(base);
    JsonSuffixSlash(base);
    var k :| LastIndex(base, '/') < k < |base| && base[k] != '.';
    assert p[k] == base[k];
    RootCut(p, k);
    assert p[..|base|] == base;
  }

  /** The four files extract_text writes, in the order it writes them. */
  function OutputFiles(base: string, bs: seq<Block>): (r: seq<(string, Value)>)
    requires HasColumn(bs, 0) && HasColumn(bs, 1) && HasColumn(bs, 2)
  {
    [(base + "_arabic.json", TextFile(Column(bs, 0))),
     (base + "_translit.json", TextFile(Column(bs, 1))),
     (base + "_english.json", TextFile(Column(bs, 2))),
     (base + "_meta.json", Obj([("total_blocks", Num(|bs|))]))]
  }

  /** The files after writing each of `out` in turn. */
  function WriteAll(files: map<string, Value>, out: seq<(string, Value)>): map<string, Value>
  {
    if out == [] then files
    else
      var last := out[|out| - 1];
      WriteAll(files, out[..|out| - 1])[last.0 := last.1]
  }

  /** extract_text on the contents of the input file: the outcome and the
      output files. */
  function Extract(content: string, outputFile: string, files: map<string, Value>): (Outcome, map<string, Value>)
  {
    var bs := Parse(content);
    var bad := Offenders(bs);
    if bad != [] then (Failed(BlocksNotThreeLines(bad)), files)
    else
      NoOffenders(bs);
      (Done, WriteAll(files, OutputFiles(Root(outputFile), bs)))
  }

  /** The file of one language: its lines under "text". */
  function TextFile(lines: seq<string>): Value
  {
    Obj([("text", Arr(StrSeq(lines)))])
  }

  lemma WriteAllFour(files: map<string, Value>, out: seq<(string, Value)>)
    requires |out| == 4
    ensures WriteAll(files, out) == files[out[0].0 := out[0].1][out[1].0 := out[1].1][out[2].0 := out[2].1][out[3].0 := out[3].1]
  {
    assert out[..3][..2] == out[..2];
    assert out[..2][..1] == out[..1];
    assert out[..1][..0] == [];
    assert WriteAll(files, out[..1]) == files[out[0].0 := out[0].1];
    assert WriteAll(files, out[..2]) == WriteAll(files, out[..1])[out[1].0 := out[1].1];
    assert WriteAll(files, out[..3]) == WriteAll(files, out[..2])[out[2].0 := out[2].1];
  }

  /** What a run of extract_text leaves behind. When some block does not have
      three lines, every such block is reported and nothing is written.
      Otherwise the three language files hold line 0, 1 and 2 of every block,
      in block order, the metadata file holds the number of blocks, and no
      other file changes. */
  lemma ExtractSpec(content: string, outputFile: string, files: map<string, Value>)
    ensures var bs := Parse(content);
      var (o, f) := Extract(content, outputFile, files);
      && (o == Done <==> forall j :: 0 <= j < |bs| ==> |bs[j]| == 3)
      && (o != Done ==> o == Failed(BlocksNotThreeLines(Offenders(bs))) && f == files)
  {
    NoOffenders(Parse(content));
  }

  lemma ExtractWrites(content: string, outputFile: string, files: map<string, Value>)
    requires forall j :: 0 <= j < |Parse(content)| ==> |Parse(content)[j]| == 3
    ensures var bs := Parse(content);
      var base := Root(outputFile);
      var f := Extract(content, outputFile, files).1;
      && f.Keys == files.Keys + {base + "_arabic.json", base + "_translit.json", base + "_english.json", base + "_meta.json"}
      && f[base + "_arabic.json"] == TextFile(Column(bs, 0))
      && f[base + "_translit.json"] == TextFile(Column(bs, 1))
      && f[base + "_english.json"] == TextFile(Column(bs, 2))
      && f[base + "_meta.json"] == Obj([("total_blocks", Num(|bs|))])
      && forall p :: p in files && p !in {base + "_arabic.json", base + "_translit.json", base + "_english.json", base + "_meta.json"} ==> f[p] == files[p]
  {
    var bs := Parse(content);
    var base := Root(outputFile);
    NoOffenders(bs);
    var out := OutputFiles(base, bs);
    WriteAllFour(files, out);
    assert |base + "_arabic.json"| == |base| + 12;
    assert |base + "_translit.json"| == |base| + 14;
    assert |base + "_english.json"| == |base| + 13;
    assert |base + "_meta.json"| == |base| + 10;
  }

  /** Blocks written one after another, each followed by a blank line, are
      read back as the same blocks. */
  lemma ParseJoined(bs: seq<Block>)
    requires forall i :: 0 <= i < |bs| ==> bs[i] != [] && NoBlankLine(bs[i])
    requires forall i, j :: 0 <= i < |bs| && 0 <= j < |bs[i]| ==> CleanLine(bs[i][j])
    ensures Parse(WriteLines(Join(bs))) == bs
  {
    JoinKeepsClean(bs);
    ReadBackWrittenLines(Join(bs));
    SplitJoin(bs);
  }

  /** Raw text written as three-line blocks separated by blank lines converts
      back into those blocks: each language file holds its line of every block. */
  lemma ExtractOfJoined(bs: seq<Block>, outputFile: string, files: map<string, Value>)
    requires forall i :: 0 <= i < |bs| ==> |bs[i]| == 3 && NoBlankLine(bs[i])
    requires forall i, j :: 0 <= i < |bs| && 0 <= j < |bs[i]| ==> CleanLine(bs[i][j])
    ensures var base := Root(outputFile);
      var (o, f) := Extract(WriteLines(Join(bs)), outputFile, files);
      && o == Done
      && base + "_arabic.json" in f && f[base + "_arabic.json"] == TextFile(Column(bs, 0))
      && base + "_translit.json" in f && f[base + "_translit.json"] == TextFile(Column(bs, 1))
      && base + "_english.json" in f && f[base + "_english.json"] == TextFile(Column(bs, 2))
      && base + "_meta.json" in f && f[base + "_meta.json"] == Obj([("total_blocks", Num(|bs|))])
  {
    var content := WriteLines(Join(bs));
    ParseJoined(bs);
    ExtractSpec(content, outputFile, files);
    ExtractWrites(content, outputFile, files);
  }

  /** The output directory. */
  class Outputs {
    var files: map<string, Value>

    constructor (files: map<string, Value>)
      ensures this.files == files
    {
      this.files := files;
    }
  }

  /** The loop that reports every block without three lines. */
  method ReportOffenders(blocks: seq<Block>) returns (bad: seq<nat>)
    ensures bad == Offenders(blocks)
  {
    bad := [];
    for i := 0 to |blocks|
      invariant bad == Offenders(blocks[..i])
    {
      assert blocks[..i + 1][..i] == blocks[..i];
      if |blocks[i]| != 3 {
        bad := bad + [i + 1];
      }
    }
    assert blocks[..|blocks|] == blocks;
  }

  /** The loop that writes each output file in turn. */
  method WriteFiles(out: Outputs, written: seq<(string, Value)>)
    modifies out
    ensures out.files == WriteAll(old(out.files), written)
  {
    for k := 0 to |written|
      invariant out.files == WriteAll(old(out.files), written[..k])
    {
      assert written[..k + 1][..k] == written[..k];
      out.files := out.files[written[k].0 := written[k].1];
    }
    assert written[..|written|] == written;
  }

  method ExtractText(out: Outputs, content: string, outputFile: string) returns (outcome: Outcome)
    modifies out
    ensures (outcome, out.files) == Extract(content, outputFile, old(out.files))
  {
    var blocks := ReadBlocks(content);
    var bad := ReportOffenders(blocks);
    if bad != [] {
      return Failed(BlocksNotThreeLines(bad));
    }
    NoOffenders(blocks);
    var base := Root(outputFile);
    WriteFiles(out, OutputFiles(base, blocks));
    outcome := Done;
  }
}
