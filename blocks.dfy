/** Reading a raw text document into blocks (read_blocks, identical in
    helper_ziyarah.py, add_ziyarah.py and convert.py) and the single-line heading
    rule with the block-arity check that the ingestion scripts apply to the blocks
    before writing anything. */
module Blocks {
  import opened Wrappers
  import opened Text

  /** The lines of one block, top to bottom; in a full block, line `i` is
      language `i`. */
  type Block = seq<string>

  // ---------------------------------------------------------------- lines

  /** A line break under Python's universal newlines. */
  predicate IsBreak(c: char)
  {
    c == '\n' || c == '\r'
  }

  /** Length of the first line of `s`, counting its terminator if it has one:
      a line ends after "\n", after "\r\n", or after a "\r" that no "\n"
      follows. */
  function LineLength(s: string): (k: nat)
    requires s != []
    ensures 0 < k <= |s|
    ensures forall j :: 0 <= j < k - 1 ==> s[j] != '\n' && (s[j] == '\r' ==> j == k - 2 && s[k - 1] == '\n')
    ensures k < |s| ==> IsBreak(s[k - 1]) && (s[k - 1] == '\r' ==> s[k] != '\n')
  {
    if s[0] == '\n' || |s| == 1 then 1
    else if s[0] == '\r' then (if s[1] == '\n' then 2 else 1)
    else 1 + LineLength(s[1..])
  }

  /** `for line in f` over a file opened in text mode holding `content`: each
      line keeps its terminator; the last line may lack one. (Python turns
      "\r" and "\r\n" into "\n" while reading; every line is stripped before
      use, which removes either form.) */
  function ReadLines(content: string): seq<string>
    decreases |content|
  {
    if content == [] then []
    else
      var k := LineLength(content);
      [content[..k]] + ReadLines(content[k..])
  }

  /** What `f.write(line + "\n")` for each line in turn leaves in a file. */
  function WriteLines(ls: seq<string>): string
  {
    if ls == [] then "" else ls[0] + "\n" + WriteLines(ls[1..])
  }

  /** `[line.strip() for line in lines]` */
  function StripAll(ls: seq<string>): (r: seq<string>)
    ensures |r| == |ls| && forall i :: 0 <= i < |ls| ==> r[i] == Strip(ls[i])
  {
    seq(|ls|, i requires 0 <= i < |ls| => Strip(ls[i]))
  }

  lemma {:induction false} LineLengthOfWritten(l: string, rest: string)
    requires '\n' !in l && '\r' !in l
    ensures LineLength(l + "\n" + rest) == |l| + 1
  {
    if l != [] {
      assert (l + "\n" + rest)[1..] == l[1..] + "\n" + rest;
      LineLengthOfWritten(l[1..], rest);
    }
  }

  lemma {:induction false} WriteLinesAppend(a: seq<string>, b: seq<string>)
    ensures WriteLines(a + b) == WriteLines(a) + WriteLines(b)
  {
    if a != [] {
      assert (a + b)[0] == a[0] && (a + b)[1..] == a[1..] + b;
      WriteLinesAppend(a[1..], b);
      var h := a[0] + "\n";
      assert WriteLines(a + b) == h + WriteLines(a[1..] + b);
      assert WriteLines(a) == h + WriteLines(a[1..]);
      AppendAssoc(h, WriteLines(a[1..]), WriteLines(b));
    } else {
      assert a + b == b;
    }
  }

  /** Lines written one per "\n" are read back as the same lines, each still
      carrying its "\n", as long as no line holds a line break itself. */
  lemma {:induction false} ReadWrittenLines(ls: seq<string>)
    requires forall i :: 0 <= i < |ls| ==> '\n' !in ls[i] && '\r' !in ls[i]
    ensures |ReadLines(WriteLines(ls))| == |ls|
    ensures forall i :: 0 <= i < |ls| ==> ReadLines(WriteLines(ls))[i] == ls[i] + "\n"
  {
    if ls != [] {
      var c := WriteLines(ls);
      var rest := WriteLines(ls[1..]);
      assert c == ls[0] + "\n" + rest;
      LineLengthOfWritten(ls[0], rest);
      assert c[..|ls[0]| + 1] == ls[0] + "\n";
      assert c[|ls[0]| + 1..] == rest;
      ReadWrittenLines(ls[1..]);
    }
  }

  /** Stripped lines without line breaks survive being written and read back. */
  lemma ReadBackWrittenLines(ls: seq<string>)
    requires forall i :: 0 <= i < |ls| ==> CleanLine(ls[i])
    ensures StripAll(ReadLines(WriteLines(ls))) == ls
  {
    ReadWrittenLines(ls);
    var r := StripAll(ReadLines(WriteLines(ls)));
    forall i | 0 <= i < |ls| ensures r[i] == ls[i] {
      StripWithNewline(ls[i]);
    }
  }

  /** A line as `read_blocks` leaves it: stripped and without a line break. */
  predicate CleanLine(l: string)
  {
    IsStripped(l) && '\n' !in l && '\r' !in l
  }

  /** Once a line break occurs in `l`, only line breaks follow it. */
  predicate BreaksAtEnd(l: string)
  {
    forall j, t :: 0 <= j <= t < |l| && IsBreak(l[j]) ==> IsBreak(l[t])
  }

  /** A line read from a file has line breaks only as its terminator. */
  lemma {:induction false} ReadLinesShape(content: string)
    ensures forall i :: 0 <= i < |ReadLines(content)| ==> BreaksAtEnd(ReadLines(content)[i])
    decreases |content|
  {
    if content != [] {
      var k := LineLength(content);
      ReadLinesShape(content[k..]);
      var ls := ReadLines(content);
      assert ls == [content[..k]] + ReadLines(content[k..]);
      forall i | 0 <= i < |ls| ensures BreaksAtEnd(ls[i]) {
        if i > 0 {
          assert ls[i] == ReadLines(content[k..])[i - 1];
        }
      }
    }
  }

  /** Stripping a line whose line breaks all come at its end leaves a clean
      line. */
  lemma StripRemovesNewline(l: string)
    requires BreaksAtEnd(l)
    ensures CleanLine(Strip(l))
  {
    StripShape(l);
    var s := Strip(l);
    var a, b :| 0 <= a <= b <= |l| && s == l[a..b] && AllSpace(l[..a]) && AllSpace(l[b..]);
    if s != [] {
      assert s[|s| - 1] == l[b - 1];
      assert !IsBreak(l[b - 1]);
      forall m | 0 <= m < |s| ensures !IsBreak(s[m]) {
        assert s[m] == l[a + m];
      }
    }
  }

  /** Every line `read_blocks` works on is clean. */
  lemma ReadLinesClean(content: string)
    ensures forall i :: 0 <= i < |StripAll(ReadLines(content))| ==> CleanLine(StripAll(ReadLines(content))[i])
  {
    ReadLinesShape(content);
    var ls := ReadLines(content);
    forall i | 0 <= i < |ls| ensures CleanLine(Strip(ls[i])) {
      StripRemovesNewline(ls[i]);
    }
  }

  // ---------------------------------------------------------------- blocks

  /** Number of non-empty lines at the front of `ls`. */
  function RunLength(ls: seq<string>): (n: nat)
    ensures n <= |ls|
    ensures forall j :: 0 <= j < n ==> ls[j] != ""
    ensures n < |ls| ==> ls[n] == ""
  {
    if ls == [] || ls[0] == "" then 0 else 1 + RunLength(ls[1..])
  }

  /** The blocks of a list of stripped lines: its maximal runs of non-empty
      lines, in order. */
  function Split(ls: seq<string>): seq<Block>
    decreases |ls|
  {
    if ls == [] then []
    else if ls[0] == "" then Split(ls[1..])
    else
      var n := RunLength(ls);
      [ls[..n]] + Split(ls[n..])
  }

  /** read_blocks applied to a file holding `content`. */
  function Parse(content: string): seq<Block>
  {
    Split(StripAll(ReadLines(content)))
  }

  /** The blocks still to come when `cur` holds the lines of an unfinished block
      and `rest` has not been read yet. */
  function Pending(cur: Block, rest: seq<string>): seq<Block>
  {
    if cur == [] then Split(rest)
    else
      var n := RunLength(rest);
      [cur + rest[..n]] + Split(rest[n..])
  }

  /** read_blocks: collects non-empty stripped lines into the current block and
      closes it at a blank line; a last block is closed at the end of the file. */
  method ReadBlocks(content: string) returns (blocks: seq<Block>)
    ensures blocks == Parse(content)
  {
    var rawLines := StripAll(ReadLines(content));
    blocks := SplitLines(rawLines);
  }

  /** The loop of read_blocks over the stripped lines. */
  method SplitLines(rawLines: seq<string>) returns (blocks: seq<Block>)
    ensures blocks == Split(rawLines)
  {
    blocks := [];
    var current: Block := [];
    var i := 0;
    while i < |rawLines|
      invariant 0 <= i <= |rawLines|
      invariant blocks + Pending(current, rawLines[i..]) == Split(rawLines)
    {
      var line := rawLines[i];
      ghost var rest := rawLines[i..];
      PendingStep(current, rest);
      assert rest[0] == line && rest[1..] == rawLines[i + 1..];
      if line != "" {
        current := current + [line];
      } else if current != [] {
        assert blocks + Pending(current, rest) == (blocks + [current]) + Pending([], rest[1..]);
        blocks := blocks + [current];
        current := [];
      }
      i := i + 1;
    }
    PendingEnd(current);
    assert rawLines[i..] == [];
    if current != [] {
      blocks := blocks + [current];
    }
  }

  /** At the end of the file the unfinished block, if any, is the last block. */
  lemma PendingEnd(cur: Block)
    ensures Pending(cur, []) == if cur == [] then [] else [cur]
  {
    if cur != [] {
      assert RunLength([]) == 0;
      assert cur + [][..0] == cur;
      assert [cur] + Split([][0..]) == [cur];
    }
  }

  /** One line read: a non-empty line extends the current block, a blank line
      closes it. */
  lemma PendingStep(cur: Block, rest: seq<string>)
    requires rest != []
    ensures rest[0] != "" ==> Pending(cur, rest) == Pending(cur + [rest[0]], rest[1..])
    ensures rest[0] == "" && cur == [] ==> Pending(cur, rest) == Pending([], rest[1..])
    ensures rest[0] == "" && cur != [] ==> Pending(cur, rest) == [cur] + Pending([], rest[1..])
  {
    var tail := rest[1..];
    assert rest == [rest[0]] + tail;
    if rest[0] != "" {
      var n := RunLength(tail);
      assert RunLength(rest) == 1 + n;
      assert rest[..1 + n] == [rest[0]] + tail[..n];
      assert rest[1 + n..] == tail[n..];
      assert Split(rest) == [rest[..1 + n]] + Split(rest[1 + n..]);
      if cur == [] {
        assert cur + [rest[0]] == [rest[0]];
      } else {
        assert cur + rest[..1 + n] == (cur + [rest[0]]) + tail[..n];
      }
    } else {
      assert RunLength(rest) == 0;
      assert rest[..0] == [];
      assert rest[0..] == rest;
      assert cur + [] == cur;
    }
  }

  /** `[line for line in ls if line]` */
  function NonBlank(ls: seq<string>): seq<string>
  {
    if ls == [] then [] else (if ls[0] != "" then [ls[0]] else []) + NonBlank(ls[1..])
  }

  function Concat(bs: seq<Block>): seq<string>
  {
    if bs == [] then [] else bs[0] + Concat(bs[1..])
  }

  predicate NoBlankLine(b: Block)
  {
    forall j :: 0 <= j < |b| ==> b[j] != ""
  }

  lemma {:induction false} NonBlankAppend(a: seq<string>, b: seq<string>)
    ensures NonBlank(a + b) == NonBlank(a) + NonBlank(b)
  {
    if a != [] {
      assert (a + b)[0] == a[0] && (a + b)[1..] == a[1..] + b;
      NonBlankAppend(a[1..], b);
      var h := if a[0] != "" then [a[0]] else [];
      calc {
        NonBlank(a + b);
        h + NonBlank(a[1..] + b);
        h + (NonBlank(a[1..]) + NonBlank(b));
        (h + NonBlank(a[1..])) + NonBlank(b);
      }
    } else {
      assert a + b == b;
    }
  }

  lemma {:induction false} NonBlankOfRun(ls: seq<string>)
    requires NoBlankLine(ls)
    ensures NonBlank(ls) == ls
  {
    if ls != [] { NonBlankOfRun(ls[1..]); }
  }

  /** Every block is non-empty and holds no empty line, and the blocks together
      are exactly the non-empty lines, in their original order. */
  lemma {:induction false} SplitFlattens(ls: seq<string>)
    ensures forall i :: 0 <= i < |Split(ls)| ==> Split(ls)[i] != [] && NoBlankLine(Split(ls)[i])
    ensures Concat(Split(ls)) == NonBlank(ls)
  {
    if ls != [] {
      if ls[0] == "" {
        SplitFlattens(ls[1..]);
      } else {
        var n := RunLength(ls);
        SplitFlattens(ls[n..]);
        assert ls == ls[..n] + ls[n..];
        NonBlankAppend(ls[..n], ls[n..]);
        NonBlankOfRun(ls[..n]);
        assert Split(ls)[1..] == Split(ls[n..]);
      }
    }
  }

  lemma {:induction false} RunLengthBeforeBlank(a: seq<string>, b: seq<string>)
    ensures RunLength(a + [""] + b) == RunLength(a)
  {
    if a != [] && a[0] != "" {
      assert (a + [""] + b)[1..] == a[1..] + [""] + b;
      RunLengthBeforeBlank(a[1..], b);
    }
  }

  /** A blank line separates: the blocks of `a`, a blank line and `b` are the
      blocks of `a` followed by the blocks of `b`. */
  lemma {:induction false} SplitAtBlank(a: seq<string>, b: seq<string>)
    ensures Split(a + [""] + b) == Split(a) + Split(b)
    decreases |a|
  {
    var ls := a + [""] + b;
    if a == [] {
      assert ls[1..] == b;
    } else if a[0] == "" {
      assert ls[1..] == a[1..] + [""] + b;
      SplitAtBlank(a[1..], b);
    } else {
      var n := RunLength(a);
      RunLengthBeforeBlank(a, b);
      assert ls[..n] == a[..n];
      assert ls[n..] == a[n..] + [""] + b;
      SplitAtBlank(a[n..], b);
    }
  }

  /** A run of non-empty lines is one block. */
  lemma SplitOfRun(b: Block)
    requires b != [] && NoBlankLine(b)
    ensures Split(b) == [b]
  {
    assert RunLength(b) == |b|;
    assert b[..|b|] == b;
  }

  /** Leading, trailing and repeated blank lines produce no extra blocks, and a
      last block is kept even when no blank line follows it. */
  lemma BlankLinesAreSeparators(a: seq<string>, b: seq<string>, last: Block)
    ensures Split([""] + a) == Split(a)
    ensures Split(a + [""]) == Split(a)
    ensures Split(a + ["", ""] + b) == Split(a + [""] + b)
    ensures last != [] && NoBlankLine(last) ==> Split(a + [""] + last) == Split(a) + [last]
  {
    SplitAtBlank(a, []);
    assert a + [""] + [] == a + [""];
    SplitAtBlank(a, [""] + b);
    assert a + [""] + ([""] + b) == a + ["", ""] + b;
    SplitAtBlank(a, b);
    assert ([""] + b)[1..] == b;
    assert ([""] + a)[1..] == a;
    if last != [] && NoBlankLine(last) {
      SplitAtBlank(a, last);
      SplitOfRun(last);
    }
  }

  /** Every line of every block is one of the input lines. */
  lemma {:induction false} SplitKeepsClean(ls: seq<string>)
    requires forall k :: 0 <= k < |ls| ==> CleanLine(ls[k])
    ensures forall i, j :: 0 <= i < |Split(ls)| && 0 <= j < |Split(ls)[i]| ==> CleanLine(Split(ls)[i][j])
    decreases |ls|
  {
    if ls != [] {
      if ls[0] == "" {
        SplitKeepsClean(ls[1..]);
      } else {
        var n := RunLength(ls);
        SplitKeepsClean(ls[n..]);
        var bs := Split(ls);
        assert bs == [ls[..n]] + Split(ls[n..]);
        forall i, j | 0 <= i < |bs| && 0 <= j < |bs[i]| ensures CleanLine(bs[i][j]) {
          if i == 0 {
            assert bs[i][j] == ls[j];
          } else {
            assert bs[i] == Split(ls[n..])[i - 1];
          }
        }
      }
    }
  }

  /** The blocks of a document: non-empty blocks of non-empty clean lines. */
  lemma ParseClean(content: string)
    ensures forall i :: 0 <= i < |Parse(content)| ==> Parse(content)[i] != [] && NoBlankLine(Parse(content)[i])
    ensures forall i, j :: 0 <= i < |Parse(content)| && 0 <= j < |Parse(content)[i]| ==> CleanLine(Parse(content)[i][j])
  {
    ReadLinesClean(content);
    SplitKeepsClean(StripAll(ReadLines(content)));
    SplitFlattens(StripAll(ReadLines(content)));
  }

  /** The document that holds each block followed by one blank line. */
  function Join(bs: seq<Block>): seq<string>
  {
    if bs == [] then [] else bs[0] + [""] + Join(bs[1..])
  }

  /** Blocks written one after another, each followed by a blank line, are read
      back as the same blocks. */
  lemma {:induction false} SplitJoin(bs: seq<Block>)
    requires forall i :: 0 <= i < |bs| ==> bs[i] != [] && NoBlankLine(bs[i])
    ensures Split(Join(bs)) == bs
  {
    if bs != [] {
      SplitAtBlank(bs[0], Join(bs[1..]));
      SplitOfRun(bs[0]);
      SplitJoin(bs[1..]);
      assert bs == [bs[0]] + bs[1..];
    }
  }

  lemma {:induction false} JoinAppend(bs: seq<Block>, b: Block)
    ensures Join(bs + [b]) == Join(bs) + b + [""]
  {
    if bs == [] {
      assert [b][1..] == [];
    } else {
      assert (bs + [b])[0] == bs[0] && (bs + [b])[1..] == bs[1..] + [b];
      JoinAppend(bs[1..], b);
    }
  }

  /** The lines of a joined document are blank lines and the blocks' lines. */
  lemma {:induction false} JoinKeepsClean(bs: seq<Block>)
    requires forall i, j :: 0 <= i < |bs| && 0 <= j < |bs[i]| ==> CleanLine(bs[i][j])
    ensures forall k :: 0 <= k < |Join(bs)| ==> CleanLine(Join(bs)[k])
  {
    if bs != [] {
      JoinKeepsClean(bs[1..]);
      var d := Join(bs);
      assert d == bs[0] + [""] + Join(bs[1..]);
      forall k | 0 <= k < |d| ensures CleanLine(d[k]) {
        if k < |bs[0]| {
          assert d[k] == bs[0][k];
        } else if k > |bs[0]| {
          assert d[k] == Join(bs[1..])[k - |bs[0]| - 1];
        } else {
          assert d[k] == "";
        }
      }
    }
  }

  // ---------------------------------------------------------------- headings

  /** How a single-line block's line becomes a heading line. */
  datatype HeadingRule =
    | PrefixUnlessMarked(prefix: string, markers: seq<string>)  // helper_ziyarah.py
    | AlwaysPrefix(prefix: string)                              // add_ziyarah.py

  function HeadingLine(rule: HeadingRule, line: string): (r: string)
    ensures rule.AlwaysPrefix? ==> r == rule.prefix + line
    ensures rule.PrefixUnlessMarked? && StartsWithAny(line, rule.markers) ==> r == line
    ensures rule.PrefixUnlessMarked? && !StartsWithAny(line, rule.markers) ==> r == rule.prefix + line
  {
    match rule
    case PrefixUnlessMarked(prefix, markers) =>
      if StartsWithAny(line, markers) then line else prefix + line
    case AlwaysPrefix(prefix) => prefix + line
  }

  function Repeat(line: string, n: nat): (r: Block)
    ensures |r| == n && forall j :: 0 <= j < n ==> r[j] == line
  {
    seq(n, _ => line)
  }

  /** A single-line block becomes `copies` copies of its heading line; any other
      block is left as it is. */
  function NormalizeBlock(b: Block, rule: HeadingRule, copies: nat): Block
  {
    if |b| == 1 then Repeat(HeadingLine(rule, b[0]), copies) else b
  }

  function NormalizeAll(bs: seq<Block>, rule: HeadingRule, copies: nat): (r: seq<Block>)
    ensures |r| == |bs| && forall i :: 0 <= i < |bs| ==> r[i] == NormalizeBlock(bs[i], rule, copies)
  {
    seq(|bs|, i requires 0 <= i < |bs| => NormalizeBlock(bs[i], rule, copies))
  }

  /** A block the scripts reject: neither one line nor one line per language. */
  predicate BadArity(b: Block, arity: nat)
  {
    |b| != 1 && |b| != arity
  }

  /** The position of the first rejected block, if any. */
  function FirstBadBlock(bs: seq<Block>, arity: nat): (r: Option<nat>)
    ensures r.None? <==> forall i :: 0 <= i < |bs| ==> !BadArity(bs[i], arity)
    ensures r.Some? ==> r.value < |bs| && BadArity(bs[r.value], arity)
    ensures r.Some? ==> forall i :: 0 <= i < r.value ==> !BadArity(bs[i], arity)
  {
    if bs == [] then None
    else if BadArity(bs[0], arity) then Some(0)
    else
      match FirstBadBlock(bs[1..], arity)
      case None => None
      case Some(k) => Some(k + 1)
  }

  /** The loop over `enumerate(blocks)`: rewrites single-line blocks in place
      and stops at the first block of a wrong size. When it stops, the blocks
      before the offender have been rewritten and the rest are untouched. */
  method NormalizeInPlace(a: array<Block>, rule: HeadingRule, copies: nat, arity: nat) returns (bad: Option<nat>)
    modifies a
    ensures bad == FirstBadBlock(old(a[..]), arity)
    ensures bad.None? ==> a[..] == NormalizeAll(old(a[..]), rule, copies)
    ensures bad.Some? ==> a[..bad.value] == NormalizeAll(old(a[..bad.value]), rule, copies)
    ensures bad.Some? ==> a[bad.value..] == old(a[bad.value..])
  {
    ghost var original := a[..];
    var i := 0;
    while i < a.Length
      invariant 0 <= i <= a.Length
      invariant forall j :: 0 <= j < i ==> !BadArity(original[j], arity)
      invariant forall j :: 0 <= j < i ==> a[j] == NormalizeBlock(original[j], rule, copies)
      invariant forall j :: i <= j < a.Length ==> a[j] == original[j]
    {
      var block := a[i];
      if |block| == 1 {
        var infoLine := HeadingLine(rule, block[0]);
        a[i] := Repeat(infoLine, copies);
      } else if |block| != arity {
        bad := Some(i);
        assert original[..i + 1][..i] == original[..i];
        assert FirstBadBlock(original, arity) == Some(i);
        return;
      }
      i := i + 1;
    }
    bad := None;
  }
}
