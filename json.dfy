/** The JSON values the scripts read and write, with the parts of Python's dict
    and iteration semantics that the scripts rely on. A decoded JSON object is an
    ordered list of key/value pairs (Python dicts keep insertion order); numbers
    are integers only. */
module Json {
  import opened Wrappers
  import Text

  datatype Value =
    | Null
    | Bool(b: bool)
    | Num(n: int)
    | Str(s: string)
    | Arr(items: seq<Value>)
    | Obj(fields: seq<(string, Value)>)

  type Fields = seq<(string, Value)>

  /** A JSON file as a script sees it: absent, or present with contents that
      either decode to a value or do not (an empty file does not decode). */
  datatype JsonFile = Absent | Present(decoded: Option<Value>)

  function Keys(f: Fields): (ks: seq<string>)
    ensures |ks| == |f| && forall i :: 0 <= i < |f| ==> ks[i] == f[i].0
  {
    if f == [] then [] else [f[0].0] + Keys(f[1..])
  }

  /** Python dicts never repeat a key. */
  predicate DistinctKeys(f: Fields)
  {
    forall i, j :: 0 <= i < j < |f| ==> f[i].0 != f[j].0
  }

  /** Every object inside the value has distinct keys: what json.load produces. */
  predicate WellFormed(v: Value)
  {
    match v
    case Arr(items) => forall i :: 0 <= i < |items| ==> WellFormed(items[i])
    case Obj(f) => DistinctKeys(f) && forall i :: 0 <= i < |f| ==> WellFormed(f[i].1)
    case _ => true
  }

  /** `d.get(k)`: the value stored under `k`, if any. */
  function Get(f: Fields, k: string): (r: Option<Value>)
    ensures r.None? <==> k !in Keys(f)
    ensures r.Some? ==> (k, r.value) in f
  {
    if f == [] then None
    else if f[0].0 == k then Some(f[0].1)
    else Get(f[1..], k)
  }

  /** `get` returns the value of the first pair with the key. */
  lemma {:induction false} GetFirst(f: Fields, k: string, i: nat)
    requires i < |f| && f[i].0 == k && forall j :: 0 <= j < i ==> f[j].0 != k
    ensures Get(f, k) == Some(f[i].1)
  {
    if i > 0 {
      assert forall j :: 0 <= j < i - 1 ==> f[1..][j] == f[j + 1];
      GetFirst(f[1..], k, i - 1);
    }
  }

  /** `d.get(k, default)`. */
  function GetOr(f: Fields, k: string, default: Value): Value
  {
    match Get(f, k)
    case Some(v) => v
    case None => default
  }

  /** `d[k] = v`: an existing key keeps its place and gets the new value; a new
      key goes at the end. */
  function SetField(f: Fields, k: string, v: Value): (r: Fields)
    ensures Get(r, k) == Some(v)
    ensures Keys(r) == if k in Keys(f) then Keys(f) else Keys(f) + [k]
  {
    if f == [] then [(k, v)]
    else if f[0].0 == k then
      var r := [(k, v)] + f[1..];
      assert r[1..] == f[1..];
      r
    else
      var rest := SetField(f[1..], k, v);
      var r := [f[0]] + rest;
      assert r[1..] == rest;
      assert Keys(f) == [f[0].0] + Keys(f[1..]);
      Text.AppendAssoc([f[0].0], Keys(f[1..]), [k]);
      r
  }

  /** Setting one key leaves every other key's value as it was. */
  lemma {:induction false} SetFieldOthers(f: Fields, k: string, v: Value, k': string)
    requires k' != k
    ensures Get(SetField(f, k, v), k') == Get(f, k')
  {
    if f != [] && f[0].0 != k {
      SetFieldOthers(f[1..], k, v, k');
    }
  }

  /** `for x in v`: a list yields its items, a dict its keys, a string its
      characters; anything else raises TypeError. */
  function Iterate(v: Value): (r: Result<seq<Value>, Failure>)
    ensures r.Success? <==> v.Arr? || v.Obj? || v.Str?
    ensures v.Arr? ==> r == Success(v.items)
    ensures v.Obj? ==> r.Success? && |r.value| == |v.fields| && forall i :: 0 <= i < |v.fields| ==> r.value[i] == Str(v.fields[i].0)
    ensures v.Str? ==> r.Success? && |r.value| == |v.s| && forall i :: 0 <= i < |v.s| ==> r.value[i] == Str([v.s[i]])
  {
    match v
    case Arr(items) => Success(items)
    case Obj(f) => Success(seq(|f|, i requires 0 <= i < |f| => Str(f[i].0)))
    case Str(s) => Success(seq(|s|, i requires 0 <= i < |s| => Str([s[i]])))
    case _ => Failure(TypeError)
  }

  /** The items of an iteration on which `.get` is then called: every item must
      be a dict, otherwise Python raises AttributeError. */
  function AsDicts(items: seq<Value>): (r: Result<seq<Fields>, Failure>)
    ensures r.Success? <==> forall i :: 0 <= i < |items| ==> items[i].Obj?
    ensures r.Success? ==> |r.value| == |items| && forall i :: 0 <= i < |items| ==> items[i] == Obj(r.value[i])
    ensures r.Failure? ==> r.error == AttributeError
  {
    if items == [] then Success([])
    else if !items[0].Obj? then Failure(AttributeError)
    else
      match AsDicts(items[1..])
      case Failure(e) => Failure(e)
      case Success(rest) => Success([items[0].fields] + rest)
  }

  /** A decoded index, iterated and read with `.get`: the list of its entries. */
  function Entries(v: Value): (r: Result<seq<Fields>, Failure>)
    ensures v.Arr? ==> r == AsDicts(v.items)
    ensures v.Obj? ==> (r.Success? <==> v.fields == [])
    ensures v.Str? ==> (r.Success? <==> v.s == [])
    ensures r.Success? ==> v.Arr? || v == Obj([]) || v == Str([])
  {
    match Iterate(v)
    case Failure(e) => Failure(e)
    case Success(items) => AsDicts(items)
  }

  /** `item.get("id") == id` */
  predicate HasId(f: Fields, id: string)
  {
    Get(f, "id") == Some(Str(id))
  }

  function StrSeq(ss: seq<string>): (r: seq<Value>)
    ensures |r| == |ss| && forall i :: 0 <= i < |ss| ==> r[i] == Str(ss[i])
  {
    seq(|ss|, i requires 0 <= i < |ss| => Str(ss[i]))
  }

  /** `str(v)`, which an f-string writes for a value: a string as itself,
      anything else as its `repr`. */
  function Format(v: Value): (r: string)
    ensures v.Str? ==> r == v.s
  {
    if v.Str? then v.s else Repr(v)
  }

  /** `repr(v)`: None, True, False, decimal digits, a quoted string, and
      lists and dicts written out with ", " between their parts. */
  function Repr(v: Value): string
    decreases v, 1
  {
    match v
    case Null => "None"
    case Bool(b) => if b then "True" else "False"
    case Num(n) => Text.IntToString(n)
    case Str(s) => "'" + s + "'"
    case Arr(_) => "[" + ReprItems(v, 0) + "]"
    case Obj(_) => "{" + ReprFields(v, 0) + "}"
  }

  /** The items of a list from the `i`-th on, as `repr` writes them. */
  function ReprItems(v: Value, i: nat): string
    requires v.Arr? && i <= |v.items|
    decreases v, 0, |v.items| - i
  {
    if i == |v.items| then ""
    else (if i == 0 then "" else ", ") + Repr(v.items[i]) + ReprItems(v, i + 1)
  }

  /** The pairs of a dict from the `i`-th on, as `repr` writes them. */
  function ReprFields(v: Value, i: nat): string
    requires v.Obj? && i <= |v.fields|
    decreases v, 0, |v.fields| - i
  {
    if i == |v.fields| then ""
    else (if i == 0 then "" else ", ") + "'" + v.fields[i].0 + "': " + Repr(v.fields[i].1) + ReprFields(v, i + 1)
  }

  /** Two numbers that format alike are equal, and no number formats like
      None, True or False. */
  lemma FormatNumbers(a: int, b: int)
    ensures Format(Num(a)) == Format(Num(b)) ==> a == b
    ensures Format(Num(a)) != Format(Null) && Format(Num(a)) != Format(Bool(true)) && Format(Num(a)) != Format(Bool(false))
  {
    if Format(Num(a)) == Format(Num(b)) {
      Text.IntToStringInjective(a, b);
    }
    var d := Format(Num(a));
    var k := if a < 0 then 1 else 0;
    assert d[k..] == Text.NatToString(if a < 0 then -a else a);
    assert '0' <= d[k] <= '9';
  }

  /** A JSON list of strings, read back as strings. */
  function AsStrings(v: Value): (r: Option<seq<string>>)
    ensures r.Some? <==> v.Arr? && forall i :: 0 <= i < |v.items| ==> v.items[i].Str?
    ensures r.Some? ==> StrSeq(r.value) == v.items
  {
    if v.Arr? && forall i :: 0 <= i < |v.items| ==> v.items[i].Str? then
      Some(seq(|v.items|, i requires 0 <= i < |v.items| => v.items[i].s))
    else None
  }

  lemma {:induction false} AsStringsStrSeq(ss: seq<string>)
    ensures AsStrings(Arr(StrSeq(ss))) == Some(ss)
  {
    var r := AsStrings(Arr(StrSeq(ss)));
    assert r.Some?;
    assert |r.value| == |ss|;
    forall i | 0 <= i < |ss| ensures r.value[i] == ss[i] {
      assert StrSeq(r.value)[i] == StrSeq(ss)[i];
    }
    assert r.value == ss;
  }
}
