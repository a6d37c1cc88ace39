/** helper_infallables.py: brings every entry of
    infallibles/basic_information.json into the shape of
    infallibles/template.json and pads the list to fourteen entries. */
module Infallibles {
  import opened Wrappers
  import opened Json
  import opened Text

  /** The number of entries the output file ends up with at least. */
  const EntryCount := 14

  /** `s` occurs in `t` as a contiguous piece: Python's `s in t` on strings. */
  predicate IsSubstring(s: string, t: string)
  {
    StartsWith(t, s) || (t != [] && IsSubstring(s, t[1..]))
  }

  /** `key in entry` followed by `entry[key]`: the value stored under `key`, or
      None when `key in entry` is false. A list or string that contains the key
      cannot be indexed by it (TypeError); `in` on any other value raises
      TypeError. */
  function Member(entry: Value, key: string): Result<Option<Value>, Failure>
  {
    match entry
    case Obj(f) => Success(Get(f, key))
    case Arr(items) => if Str(key) in items then Failure(TypeError) else Success(None)
    case Str(s) => if IsSubstring(key, s) then Failure(TypeError) else Success(None)
    case _ => Failure(TypeError)
  }

  /** sync_with_template(entry, template) for a dict template. */
  function Sync(entry: Value, template: Value): Result<Fields, Failure>
    requires template.Obj?
  {
    SyncPrefix(entry, template, |template.fields|)
  }

  /** The synced dict after the first `n` keys of the template: a key the
      entry lacks takes the template's value, a key with dicts on both sides
      is synced recursively, any other key keeps the entry's value. */
  function SyncPrefix(entry: Value, template: Value, n: nat): Result<Fields, Failure>
    requires template.Obj? && n <= |template.fields|
    decreases template, n
  {
    if n == 0 then Success([])
    else
      match SyncPrefix(entry, template, n - 1)
      case Failure(e) => Failure(e)
      case Success(acc) =>
        var (key, value) := template.fields[n - 1];
        match Member(entry, key)
        case Failure(e) => Failure(e)
        case Success(None) => Success(acc + [(key, value)])
        case Success(Some(ev)) =>
          if value.Obj? && ev.Obj? then
            match SyncPrefix(ev, value, |value.fields|)
            case Failure(e) => Failure(e)
            case Success(r) => Success(acc + [(key, Obj(r))])
          else Success(acc + [(key, ev)])
  }

  /** The value synced under the template's `i`-th key. */
  function Step(entry: Value, template: Value, i: nat): Result<Value, Failure>
    requires template.Obj? && i < |template.fields|
  {
    var (key, value) := template.fields[i];
    match Member(entry, key)
    case Failure(e) => Failure(e)
    case Success(None) => Success(value)
    case Success(Some(ev)) =>
      if value.Obj? && ev.Obj? then
        match Sync(ev, value)
        case Failure(e) => Failure(e)
        case Success(r) => Success(Obj(r))
      else Success(ev)
  }

  /** One key of the loop: an earlier failure stays, a failure on this key
      ends the sync, otherwise the key is set to its synced value. */
  lemma PrefixStepA(entry: Value, template: Value, n: nat)
    requires template.Obj? && 0 < n <= |template.fields|
    requires SyncPrefix(entry, template, n - 1).Failure?
    ensures SyncPrefix(entry, template, n) == SyncPrefix(entry, template, n - 1)
  {
  }
  lemma PrefixStepB(entry: Value, template: Value, n: nat)
    requires template.Obj? && 0 < n <= |template.fields|
    requires SyncPrefix(entry, template, n - 1).Success? && Step(entry, template, n - 1).Failure?
    ensures SyncPrefix(entry, template, n) == Failure(Step(entry, template, n - 1).error)
  {
  }
  lemma PrefixStepC(entry: Value, template: Value, n: nat)
    requires template.Obj? && 0 < n <= |template.fields|
    requires SyncPrefix(entry, template, n - 1).Success? && Step(entry, template, n - 1).Success?
    ensures SyncPrefix(entry, template, n) == Success(SyncPrefix(entry, template, n - 1).value + [(template.fields[n - 1].0, Step(entry, template, n - 1).value)])
  {
  }

  /** Once a key fails, the whole sync fails with that error. */
  lemma {:induction false} FailurePersists(entry: Value, template: Value, n: nat, m: nat)
    requires template.Obj? && n <= m <= |template.fields|
    requires SyncPrefix(entry, template, n).Failure?
    ensures SyncPrefix(entry, template, m) == SyncPrefix(entry, template, n)
    decreases m
  {
    if m > n {
      FailurePersists(entry, template, n, m - 1);
    }
  }

  method SyncWithTemplate(entry: Value, template: Value) returns (r: Result<Fields, Failure>)
    requires template.Obj?
    ensures r == Sync(entry, template)
    decreases template
  {
    var tf := template.fields;
    var synced: Fields := [];
    for i := 0 to |tf|
      invariant SyncPrefix(entry, template, i) == Success(synced)
    {
      var (key, value) := tf[i];
      var m := Member(entry, key);
      var v: Value;
      if m.Failure? {
        PrefixStepB(entry, template, i + 1);
        FailurePersists(entry, template, i + 1, |tf|);
        return Failure(m.error);
      } else if m.value.None? {
        v := value;
      } else if value.Obj? && m.value.value.Obj? {
        var sub := SyncWithTemplate(m.value.value, value);
        if sub.Failure? {
          PrefixStepB(entry, template, i + 1);
          FailurePersists(entry, template, i + 1, |tf|);
          return Failure(sub.error);
        }
        v := Obj(sub.value);
      } else {
        v := m.value.value;
      }
      PrefixStepC(entry, template, i + 1);
      synced := synced + [(key, v)];
    }
    r := Success(synced);
  }

  /** A dict entry can always be synced: `in` and indexing succeed on a dict,
      and recursion only happens into dicts. */
  lemma {:induction false} SyncSucceeds(entry: Value, template: Value)
    requires entry.Obj? && template.Obj?
    ensures Sync(entry, template).Success?
    decreases template, 2
  {
    PrefixSucceeds(entry, template, |template.fields|);
  }

  lemma {:induction false} PrefixSucceeds(entry: Value, template: Value, n: nat)
    requires entry.Obj? && template.Obj? && n <= |template.fields|
    ensures SyncPrefix(entry, template, n).Success?
    decreases template, 1, n
  {
    if n > 0 {
      PrefixSucceeds(entry, template, n - 1);
      StepSucceeds(entry, template, n - 1);
      PrefixStepC(entry, template, n);
    }
  }

  lemma {:induction false} StepSucceeds(entry: Value, template: Value, i: nat)
    requires entry.Obj? && template.Obj? && i < |template.fields|
    ensures Step(entry, template, i).Success?
    decreases template, 0
  {
    var (key, value) := template.fields[i];
    match Get(entry.fields, key)
    case None =>
    case Some(ev) =>
      if value.Obj? && ev.Obj? {
        SyncSucceeds(ev, value);
      }
  }

  /** The synced dict holds, in template order, each template key with the
      value synced for it. */
  lemma {:induction false} PrefixShape(entry: Value, template: Value, n: nat)
    requires template.Obj? && n <= |template.fields|
    requires SyncPrefix(entry, template, n).Success?
    ensures var r := SyncPrefix(entry, template, n).value;
      && |r| == n
      && forall i :: 0 <= i < n ==> Step(entry, template, i).Success? && r[i] == (template.fields[i].0, Step(entry, template, i).value)
  {
    if n > 0 {
      if SyncPrefix(entry, template, n - 1).Failure? {
        PrefixStepA(entry, template, n);
        assert false;
      }
      PrefixShape(entry, template, n - 1);
      if Step(entry, template, n - 1).Failure? {
        PrefixStepB(entry, template, n);
        assert false;
      }
      PrefixStepC(entry, template, n);
      var before := SyncPrefix(entry, template, n - 1).value;
      assert SyncPrefix(entry, template, n).value == before + [(template.fields[n - 1].0, Step(entry, template, n - 1).value)];
    }
  }

  /** sync_with_template keeps exactly the template's keys, in template
      order: a key only in the entry is dropped, and a key missing from the
      entry is filled in from the template. */
  lemma SyncShape(entry: Value, template: Value)
    requires template.Obj? && Sync(entry, template).Success?
    ensures Keys(Sync(entry, template).value) == Keys(template.fields)
  {
    PrefixShape(entry, template, |template.fields|);
  }

  /** Per key of the template: a key the entry lacks takes the template's
      value; a key whose values are dicts on both sides is merged
      recursively; any other key keeps the entry's value, whatever its type. */
  lemma SyncValues(entry: Value, template: Value, i: nat)
    requires entry.Obj? && template.Obj? && i < |template.fields|
    ensures Sync(entry, template).Success?
    ensures var (key, value) := template.fields[i];
      var r := Sync(entry, template).value;
      var found := Get(entry.fields, key);
      && |r| == |template.fields| && r[i].0 == key
      && (found.None? ==> r[i].1 == value)
      && (found.Some? && value.Obj? && found.value.Obj? ==>
            Sync(found.value, value).Success? && r[i].1 == Obj(Sync(found.value, value).value))
      && (found.Some? && !(value.Obj? && found.value.Obj?) ==> r[i].1 == found.value)
  {
    SyncSucceeds(entry, template);
    PrefixShape(entry, template, |template.fields|);
  }

  /** In a dict with distinct keys, `get` finds the pair at its position. */
  lemma GetAt(f: Fields, i: nat)
    requires DistinctKeys(f) && i < |f|
    ensures Get(f, f[i].0) == Some(f[i].1)
  {
    GetFirst(f, f[i].0, i);
  }

  /** Syncing the template with itself gives the template back. */
  lemma {:induction false} SyncTemplate(template: Value)
    requires template.Obj? && WellFormed(template)
    ensures Sync(template, template) == Success(template.fields)
    decreases template
  {
    var tf := template.fields;
    SyncSucceeds(template, template);
    PrefixShape(template, template, |tf|);
    var r := Sync(template, template).value;
    forall i | 0 <= i < |tf| ensures r[i] == tf[i] {
      GetAt(tf, i);
      var value := tf[i].1;
      if value.Obj? {
        assert WellFormed(value);
        SyncTemplate(value);
      }
      assert Step(template, template, i) == Success(value);
    }
    assert r == tf;
  }

  /** Syncing a synced entry again changes nothing. */
  lemma {:induction false} SyncIdempotent(entry: Value, template: Value)
    requires template.Obj? && WellFormed(template) && Sync(entry, template).Success?
    ensures Sync(Obj(Sync(entry, template).value), template) == Sync(entry, template)
    decreases template, 1
  {
    var tf := template.fields;
    var r := Sync(entry, template).value;
    PrefixShape(entry, template, |tf|);
    assert DistinctKeys(r) by {
      assert forall i :: 0 <= i < |r| ==> r[i].0 == tf[i].0;
    }
    SyncSucceeds(Obj(r), template);
    PrefixShape(Obj(r), template, |tf|);
    var r2 := Sync(Obj(r), template).value;
    forall i | 0 <= i < |tf| ensures r2[i] == r[i] {
      StepIdempotent(entry, template, r, i);
    }
    assert r2 == r;
  }

  /** Syncing the synced dict again gives each key the value it already has. */
  lemma {:induction false} StepIdempotent(entry: Value, template: Value, r: Fields, i: nat)
    requires template.Obj? && WellFormed(template) && i < |template.fields|
    requires |r| == |template.fields| && DistinctKeys(r)
    requires forall j :: 0 <= j < |r| ==> Step(entry, template, j).Success? && r[j] == (template.fields[j].0, Step(entry, template, j).value)
    ensures Step(Obj(r), template, i) == Success(r[i].1)
    decreases template, 0
  {
    var (key, value) := template.fields[i];
    GetAt(r, i);
    assert Member(Obj(r), key) == Success(Some(r[i].1));
    match Member(entry, key)
    case Success(None) =>
      if value.Obj? {
        SyncTemplate(value);
      }
    case Success(Some(ev)) =>
      if value.Obj? && ev.Obj? {
        SyncIdempotent(ev, value);
      }
  }

  /** The entries already in basic_information.json: a missing, empty or
      undecodable file gives the empty list. */
  function LoadExisting(output: JsonFile): Value
  {
    match output
    case Present(Some(v)) => v
    case _ => Arr([])
  }

  /** `[sync_with_template(entry, template) for entry in items]`: the synced
      entries, or the first failure. */
  function SyncAll(items: seq<Value>, template: Value): Result<seq<Value>, Failure>
    requires template.Obj?
  {
    if items == [] then Success([])
    else
      match SyncAll(items[..|items| - 1], template)
      case Failure(e) => Failure(e)
      case Success(acc) =>
        match Sync(items[|items| - 1], template)
        case Failure(e) => Failure(e)
        case Success(r) => Success(acc + [Obj(r)])
  }

  /** The list after the `while` loop: `template` appended until there are
      fourteen entries. */
  function Pad(entries: seq<Value>, template: Value): (r: seq<Value>)
    ensures |r| == if |entries| < EntryCount then EntryCount else |entries|
    ensures r[..|entries|] == entries
    ensures forall j :: |entries| <= j < |r| ==> r[j] == template
  {
    if |entries| < EntryCount then entries + seq(EntryCount - |entries|, _ => template) else entries
  }

  /** generate_basic_json: the outcome and basic_information.json afterwards.
      The template file must exist and decode; the existing entries must be
      iterable; `template.items()` needs a dict as soon as there is an entry
      to sync, and `template.copy()` a dict or list as soon as there is
      padding to add. Any failure leaves the output file as it was. */
  function Generate(templateFile: JsonFile, output: JsonFile): (Outcome, JsonFile)
  {
    match templateFile
    case Absent => (Failed(FileNotFound), output)
    case Present(None) => (Failed(JsonDecodeError), output)
    case Present(Some(t)) =>
      match Iterate(LoadExisting(output))
      case Failure(e) => (Failed(e), output)
      case Success(items) =>
        if items != [] && !t.Obj? then (Failed(AttributeError), output)
        else
          var synced := if items == [] then Success([]) else SyncAll(items, t);
          match synced
          case Failure(e) => (Failed(e), output)
          case Success(updated) =>
            if |updated| < EntryCount && !(t.Obj? || t.Arr?) then (Failed(AttributeError), output)
            else (Done, Present(Some(Arr(Pad(updated, t)))))
  }

  lemma SyncAllStep(items: seq<Value>, template: Value, n: nat)
    requires template.Obj? && 0 < n <= |items|
    ensures items[..n][..n - 1] == items[..n - 1] && items[..n][n - 1] == items[n - 1]
  {
  }

  /** Once an entry fails, the list comprehension fails with that error. */
  lemma {:induction false} SyncAllFailurePersists(items: seq<Value>, template: Value, n: nat, m: nat)
    requires template.Obj? && n <= m <= |items|
    requires SyncAll(items[..n], template).Failure?
    ensures SyncAll(items[..m], template) == SyncAll(items[..n], template)
    decreases m
  {
    if m > n {
      SyncAllFailurePersists(items, template, n, m - 1);
      SyncAllStep(items, template, m);
    }
  }

  /** Every entry is synced against the template, in order. */
  lemma {:induction false} SyncAllSpec(items: seq<Value>, template: Value)
    requires template.Obj?
    ensures SyncAll(items, template).Success? <==> forall i :: 0 <= i < |items| ==> Sync(items[i], template).Success?
    ensures SyncAll(items, template).Success? ==>
      var r := SyncAll(items, template).value;
      |r| == |items| && forall i :: 0 <= i < |items| ==> r[i] == Obj(Sync(items[i], template).value)
  {
    if items != [] {
      var front := items[..|items| - 1];
      SyncAllSpec(front, template);
      assert forall i :: 0 <= i < |front| ==> front[i] == items[i];
    }
  }

  /** The loop body of generate_basic_json, one entry at a time. */
  method SyncEntries(items: seq<Value>, template: Value) returns (r: Result<seq<Value>, Failure>)
    requires template.Obj?
    ensures r == SyncAll(items, template)
  {
    var updated: seq<Value> := [];
    for i := 0 to |items|
      invariant SyncAll(items[..i], template) == Success(updated)
    {
      SyncAllStep(items, template, i + 1);
      var synced := SyncWithTemplate(items[i], template);
      if synced.Failure? {
        SyncAllFailurePersists(items, template, i + 1, |items|);
        assert items[..|items|] == items;
        return Failure(synced.error);
      }
      updated := updated + [Obj(synced.value)];
    }
    assert items[..|items|] == items;
    r := Success(updated);
  }

  /** The output file infallibles/basic_information.json. */
  class BasicInformation {
    var output: JsonFile

    constructor (output: JsonFile)
      ensures this.output == output
    {
      this.output := output;
    }

    method GenerateBasicJson(templateFile: JsonFile) returns (outcome: Outcome)
      modifies this
      ensures (outcome, output) == Generate(templateFile, old(output))
    {
      if templateFile.Absent? {
        return Failed(FileNotFound);
      }
      if templateFile.decoded.None? {
        return Failed(JsonDecodeError);
      }
      var template := templateFile.decoded.value;
      var existing := Iterate(LoadExisting(output));
      if existing.Failure? {
        return Failed(existing.error);
      }
      var items := existing.value;
      var updated: seq<Value> := [];
      if items != [] {
        if !template.Obj? {
          return Failed(AttributeError);
        }
        var synced := SyncEntries(items, template);
        if synced.Failure? {
          return Failed(synced.error);
        }
        updated := synced.value;
      }
      ghost var entries := updated;
      while |updated| < EntryCount
        invariant |entries| <= |updated|
        invariant |entries| < EntryCount ==> |updated| <= EntryCount
        invariant |entries| >= EntryCount ==> updated == entries
        invariant updated[..|entries|] == entries
        invariant forall j :: |entries| <= j < |updated| ==> updated[j] == template
        invariant |entries| < |updated| ==> template.Obj? || template.Arr?
        decreases EntryCount - |updated|
      {
        if !(template.Obj? || template.Arr?) {
          return Failed(AttributeError);
        }
        updated := updated + [template];
      }
      assert updated == Pad(entries, template) by {
        var p := Pad(entries, template);
        assert |updated| == |p|;
        forall j | 0 <= j < |p| ensures updated[j] == p[j] {
          if j < |entries| {
            assert updated[j] == updated[..|entries|][j] && p[j] == p[..|entries|][j];
          }
        }
      }
      output := Present(Some(Arr(updated)));
      outcome := Done;
    }
  }

  /** What generate_basic_json promises: the new list has
      max(len(existing), 14) entries, none dropped; the existing entries come
      first, each synced with the template, in order; the padding entries are
      copies of the template. */
  lemma GenerateSpec(t: Value, output: JsonFile)
    requires t.Obj?
    requires Generate(Present(Some(t)), output).0 == Done
    ensures var items := Iterate(LoadExisting(output)).value;
      var g := Generate(Present(Some(t)), output).1;
      && g.Present? && g.decoded.Some? && g.decoded.value.Arr?
      && var out := g.decoded.value.items;
      && |out| == (if |items| < EntryCount then EntryCount else |items|)
      && (forall i :: 0 <= i < |items| ==> Sync(items[i], t).Success? && out[i] == Obj(Sync(items[i], t).value))
      && (forall i :: |items| <= i < |out| ==> out[i] == t)
  {
    var items := Iterate(LoadExisting(output)).value;
    SyncAllSpec(items, t);
  }

  /** A dict template and a list of dicts (or no usable file at all) always
      produce an output. */
  lemma GenerateSucceeds(t: Value, output: JsonFile)
    requires t.Obj?
    requires var v := LoadExisting(output); v.Arr? && forall i :: 0 <= i < |v.items| ==> v.items[i].Obj?
    ensures Generate(Present(Some(t)), output).0 == Done
  {
    var items := LoadExisting(output).items;
    forall i | 0 <= i < |items| ensures Sync(items[i], t).Success? {
      SyncSucceeds(items[i], t);
    }
    SyncAllSpec(items, t);
  }

  /** Running generate_basic_json a second time changes nothing. */
  lemma GenerateIdempotent(t: Value, output: JsonFile)
    requires t.Obj? && WellFormed(t)
    requires Generate(Present(Some(t)), output).0 == Done
    ensures Generate(Present(Some(t)), Generate(Present(Some(t)), output).1) == Generate(Present(Some(t)), output)
  {
    var items := Iterate(LoadExisting(output)).value;
    var g := Generate(Present(Some(t)), output).1;
    GenerateSpec(t, output);
    var out := g.decoded.value.items;
    forall i | 0 <= i < |out| ensures out[i].Obj? && Sync(out[i], t) == Success(out[i].fields) {
      if i < |items| {
        SyncIdempotent(items[i], t);
      } else {
        SyncTemplate(t);
      }
    }
    SyncAllSpec(out, t);
    assert SyncAll(out, t).value == out;
  }
}
