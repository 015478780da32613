/**
 * The string tables of the build script (internal/scripts/build.mjs): one nested
 * table per locale, filled at start-up by merging every translation module of
 * the module directory into it, and the dotted-key lookup `t`, which falls back
 * to the key itself when a segment is missing.
 */
module Locales {
  import opened Options
  import opened Text
  import opened Paths

  /** A value of a translation module: a string or a nested object. */
  datatype Value = Str(s: string) | Obj(fields: map<string, Value>)

  /** The text a template literal or a replace callback makes of a looked-up value. */
  function ToText(v: Value): string
  {
    match v
    case Str(s) => s
    case Obj(_) => "[object Object]"
  }

  /** A parsed translation module: its `en` and `fr` objects, each possibly absent. */
  datatype LocaleModule = LocaleModule(en: Option<map<string, Value>>, fr: Option<map<string, Value>>)
  {
    function Part(l: Locale): Option<map<string, Value>>
    {
      if l == Fr then fr else en
    }
  }

  /** A file of the module directory, by name, with its parsed content. */
  datatype ModuleFile = ModuleFile(name: string, content: LocaleModule)

  /** The two string tables. */
  datatype Tables = Tables(en: map<string, Value>, fr: map<string, Value>)
  {
    function For(l: Locale): map<string, Value>
    {
      if l == Fr then fr else en
    }
  }

  // ----------------------------------------------------------------- merging

  /** The objects merged into locale `l`, in directory order: `.json` files that define `l`. */
  function Updates(files: seq<ModuleFile>, l: Locale): seq<map<string, Value>>
  {
    if |files| == 0 then []
    else
      var last := files[|files| - 1];
      Updates(files[..|files| - 1], l)
        + (if EndsWith(last.name, ".json") && last.content.Part(l).Some? then [last.content.Part(l).value] else [])
  }

  /** Taking one more file adds that file's object, if it defines one for `l`. */
  lemma UpdatesStep(files: seq<ModuleFile>, i: nat, l: Locale)
    requires i < |files|
    ensures EndsWith(files[i].name, ".json") && files[i].content.Part(l).Some? ==>
      Updates(files[..i + 1], l) == Updates(files[..i], l) + [files[i].content.Part(l).value]
    ensures !(EndsWith(files[i].name, ".json") && files[i].content.Part(l).Some?) ==>
      Updates(files[..i + 1], l) == Updates(files[..i], l)
  {
    assert files[..i + 1][..i] == files[..i];
    assert Updates(files[..i], l) + [] == Updates(files[..i], l);
  }

  /** `Object.assign(table, update)` for each update in turn: a shallow, per-top-level-key overwrite. */
  function MergeAll(base: map<string, Value>, updates: seq<map<string, Value>>): map<string, Value>
  {
    if |updates| == 0 then base
    else MergeAll(base, updates[..|updates| - 1]) + updates[|updates| - 1]
  }

  /** Merging one more update. */
  lemma MergeStep(base: map<string, Value>, updates: seq<map<string, Value>>, u: map<string, Value>)
    ensures MergeAll(base, updates + [u]) == MergeAll(base, updates) + u
  {
    assert (updates + [u])[..|updates|] == updates;
  }

  /** After merging, a top-level key is present iff the base or some update has it. */
  lemma {:induction false} MergeKeys(base: map<string, Value>, updates: seq<map<string, Value>>, k: string)
    ensures k in MergeAll(base, updates) <==> k in base || exists j :: 0 <= j < |updates| && k in updates[j]
  {
    if |updates| > 0 {
      var n := |updates| - 1;
      MergeKeys(base, updates[..n], k);
      if k in MergeAll(base, updates) && k !in base && k !in updates[n] {
        var j :| 0 <= j < n && k in updates[..n][j];
        assert k in updates[j];
      }
      if exists j :: 0 <= j < |updates| && k in updates[j] {
        var j :| 0 <= j < |updates| && k in updates[j];
        if j < n {
          assert k in updates[..n][j];
        }
      }
    }
  }

  /** Last writer wins: a key takes the value of the last update that defines it. */
  lemma {:induction false} MergeLastWriterWins(base: map<string, Value>, updates: seq<map<string, Value>>, k: string, i: nat)
    requires i < |updates| && k in updates[i]
    requires forall j :: i < j < |updates| ==> k !in updates[j]
    ensures k in MergeAll(base, updates) && MergeAll(base, updates)[k] == updates[i][k]
  {
    var n := |updates| - 1;
    if i < n {
      assert k !in updates[n];
      assert updates[..n][i] == updates[i];
      MergeLastWriterWins(base, updates[..n], k, i);
    }
  }

  /** A key that no update defines keeps its base value. */
  lemma {:induction false} MergeUntouched(base: map<string, Value>, updates: seq<map<string, Value>>, k: string)
    requires k in base
    requires forall j :: 0 <= j < |updates| ==> k !in updates[j]
    ensures k in MergeAll(base, updates) && MergeAll(base, updates)[k] == base[k]
  {
    if |updates| > 0 {
      var n := |updates| - 1;
      assert k !in updates[n];
      MergeUntouched(base, updates[..n], k);
    }
  }

  // ------------------------------------------------------------------ lookup

  /** One step of `val = val?.[k]`: only an object has properties. */
  function Step(v: Option<Value>, k: string): Option<Value>
  {
    match v
    case Some(Obj(m)) => if k in m then Some(m[k]) else None
    case _ => None
  }

  /** The value reached by stepping through `keys` in order. */
  function Resolve(v: Option<Value>, keys: seq<string>): Option<Value>
  {
    if |keys| == 0 then v else Step(Resolve(v, keys[..|keys| - 1]), keys[|keys| - 1])
  }

  /** The value of a dotted key in a table. */
  function Lookup(table: map<string, Value>, key: string): Option<Value>
  {
    Resolve(Some(Obj(table)), Split(key, '.'))
  }

  /** `t(key, locale)`: the looked-up value as text, or the key itself when the walk fails. */
  function Translation(table: map<string, Value>, key: string): string
  {
    match Lookup(table, key)
    case Some(v) => ToText(v)
    case None => key
  }

  /** Once the walk has failed it stays failed. */
  lemma {:induction false} ResolveFromNone(keys: seq<string>)
    ensures Resolve(None, keys) == None
  {
    if |keys| > 0 {
      ResolveFromNone(keys[..|keys| - 1]);
    }
  }

  /** Walking `a + b` is walking `a`, then `b`. */
  lemma {:induction false} ResolveConcat(v: Option<Value>, a: seq<string>, b: seq<string>)
    ensures Resolve(v, a + b) == Resolve(Resolve(v, a), b)
    decreases |b|
  {
    if |b| == 0 {
      assert a + b == a;
    } else {
      var n := |b| - 1;
      assert (a + b)[..|a + b| - 1] == a + b[..n];
      ResolveConcat(v, a, b[..n]);
    }
  }

  /** A segment missing at any depth makes `t` return the key verbatim. */
  lemma MissingSegmentFallsBack(table: map<string, Value>, key: string, i: nat)
    requires i < |Split(key, '.')|
    requires Step(Resolve(Some(Obj(table)), Split(key, '.')[..i]), Split(key, '.')[i]) == None
    ensures Lookup(table, key) == None
    ensures Translation(table, key) == key
  {
    var ks := Split(key, '.');
    assert ks[..i + 1][..i] == ks[..i];
    assert ks == ks[..i + 1] + ks[i + 1..];
    ResolveConcat(Some(Obj(table)), ks[..i + 1], ks[i + 1..]);
    ResolveFromNone(ks[i + 1..]);
  }

  /** When every segment of a dotted key resolves to a string, `t` returns that string. */
  lemma NestedStringFound(table: map<string, Value>, segments: seq<string>, s: string)
    requires |segments| >= 1
    requires forall i :: 0 <= i < |segments| ==> '.' !in segments[i]
    requires Resolve(Some(Obj(table)), segments) == Some(Str(s))
    ensures Translation(table, Join(segments, '.')) == s
  {
    SplitJoin(segments, '.');
  }

  /** Walking a one-element prefix first. */
  lemma {:induction false} ResolveCons(v: Option<Value>, k: string, rest: seq<string>)
    ensures Resolve(v, [k] + rest) == Resolve(Step(v, k), rest)
  {
    ResolveConcat(v, [k], rest);
    assert [k][..0] == [];
  }

  /**
   * Merging is shallow: a dotted key whose first segment an update defines is
   * looked up in that update alone, and any other key in the old table.
   */
  lemma LookupAfterMerge(table: map<string, Value>, update: map<string, Value>, key: string)
    ensures Split(key, '.')[0] in update ==> Lookup(table + update, key) == Lookup(update, key)
    ensures Split(key, '.')[0] !in update ==> Lookup(table + update, key) == Lookup(table, key)
  {
    var ks := Split(key, '.');
    assert ks == [ks[0]] + ks[1..];
    ResolveCons(Some(Obj(table + update)), ks[0], ks[1..]);
    ResolveCons(Some(Obj(update)), ks[0], ks[1..]);
    ResolveCons(Some(Obj(table)), ks[0], ks[1..]);
  }

  // ------------------------------------------------------------------- store

  /** The two tables the build keeps for its whole run, filled in place by the loader. */
  class LocaleStore {
    var en: map<string, Value>
    var fr: map<string, Value>

    constructor ()
      ensures en == map[] && fr == map[]
    {
      en := map[];
      fr := map[];
    }

    function Current(): Tables
      reads this
    {
      Tables(en, fr)
    }

    /**
     * The loader: a missing module directory stops the build; otherwise each
     * `.json` module, in directory order, is merged into the tables it defines.
     */
    method Load(directory: Option<seq<ModuleFile>>) returns (ok: bool)
      modifies this
      ensures ok == directory.Some?
      ensures !ok ==> en == old(en) && fr == old(fr)
      ensures ok ==> en == MergeAll(old(en), Updates(directory.value, En))
      ensures ok ==> fr == MergeAll(old(fr), Updates(directory.value, Fr))
    {
      if directory.None? {
        return false;
      }
      var files := directory.value;
      for i := 0 to |files|
        invariant en == MergeAll(old(en), Updates(files[..i], En))
        invariant fr == MergeAll(old(fr), Updates(files[..i], Fr))
      {
        UpdatesStep(files, i, En);
        UpdatesStep(files, i, Fr);
        var file := files[i];
        if EndsWith(file.name, ".json") {
          if file.content.en.Some? {
            MergeStep(old(en), Updates(files[..i], En), file.content.en.value);
            en := en + file.content.en.value;
          }
          if file.content.fr.Some? {
            MergeStep(old(fr), Updates(files[..i], Fr), file.content.fr.value);
            fr := fr + file.content.fr.value;
          }
        }
      }
      assert files[..|files|] == files;
      return true;
    }

    /** `t(key, locale)`: walks the key's dot-separated segments through the locale's table. */
    method Translate(key: string, locale: Locale) returns (r: string)
      ensures r == Translation(Current().For(locale), key)
    {
      var keys := Split(key, '.');
      var val: Option<Value> := Some(Obj(if locale == Fr then fr else en));
      for i := 0 to |keys|
        invariant val == Resolve(Some(Obj(Current().For(locale))), keys[..i])
      {
        assert keys[..i + 1][..i] == keys[..i];
        val := match val
          case Some(Obj(m)) => if keys[i] in m then Some(m[keys[i]]) else None
          case _ => None;
      }
      assert keys[..|keys|] == keys;
      r := if val.Some? then ToText(val.value) else key;
    }
  }
}
