/** The public surface of config.go: the constructors, file and environment ingestion, and the
    typed accessors of the flat store. */
module Config {
  import opened Wrappers
  import opened Errors
  import opened Json
  import opened Leaves
  import opened Merge
  import Environment

  /** No key holds a null. A store built only by this module's operations keeps it. */
  predicate NullFreeStore(c: Store)
  {
    forall k :: k in c ==> c[k] != Null
  }

  /** NewConfig: the empty store. */
  function NewConfig(): (c: Store)
    ensures forall k :: Get(c, k) == Null && !HasKey(c, k)
    ensures NullFreeStore(c)
  {
    map[]
  }

  /** AddFile after the file has been read and decoded: `loaded` is what the read and the decoder
      produced, either the decoded document or the reason they failed. */
  function AddFile(c: Store, loaded: Result<Value, string>, destPrefix: string, override: bool): (r: Result<Store, Error>)
    // a read or decode failure is returned as it is
    ensures loaded.Failure? ==> r == Failure(ReadFailed(loaded.error))
    // the document must be an object
    ensures loaded.Success? && !loaded.value.Obj? ==> r == Failure(RootNotObject)
    // success exactly for a null-free object
    ensures r.Success? <==> loaded.Success? && loaded.value.Obj? && NullFree(loaded.value)
    // a null inside the object is the error NullLeaf
    ensures loaded.Success? && loaded.value.Obj? && !NullFree(loaded.value) ==> r == Failure(NullLeaf)
    ensures r.Success? ==> r.value == ApplyLeaves(c, Flatten(loaded.value.entries, destPrefix), override)
    ensures r.Success? && NullFreeStore(c) ==> NullFreeStore(r.value)
  {
    match loaded
    case Failure(reason) => Failure(ReadFailed(reason))
    case Success(root) =>
      if !root.Obj? then Failure(RootNotObject)
      else NestedMerge(c, root.entries, destPrefix, override)
  }

  /** ReadFromFile: a new store with one file merged at the top level, without override. On
      success the keys are exactly the flattened paths of the document, each holding the first
      leaf written on it, and HasKey holds exactly for them. On failure the error is the one
      AddFile reports. */
  function ReadFromFile(loaded: Result<Value, string>): (r: Result<Store, Error>)
    ensures loaded.Failure? ==> r == Failure(ReadFailed(loaded.error))
    ensures loaded.Success? && !loaded.value.Obj? ==> r == Failure(RootNotObject)
    ensures loaded.Success? && loaded.value.Obj? && !NullFree(loaded.value) ==> r == Failure(NullLeaf)
    ensures r.Success? <==> loaded.Success? && loaded.value.Obj? && NullFree(loaded.value)
    ensures r.Success? ==> r.value.Keys == Paths(Flatten(loaded.value.entries, ""))
    ensures r.Success? ==> forall k :: k in r.value ==>
      r.value[k] == FirstValue(Flatten(loaded.value.entries, ""), k).value
    ensures r.Success? ==> forall k :: HasKey(r.value, k) <==> k in Paths(Flatten(loaded.value.entries, ""))
  {
    AddFile(NewConfig(), loaded, "", false)
  }

  /** ReadFromEnv: a new store holding, at the top level, every environment variable whose name
      starts with `prefix`, as a string. */
  method ReadFromEnv(env: seq<string>, prefix: string) returns (r: Store)
    ensures r.Keys == Environment.EnvVars(env, prefix).Keys
    ensures forall name :: name in r ==> r[name] == Str(Environment.EnvVars(env, prefix)[name])
    ensures NullFreeStore(r)
    // every value is a string, so AsInt fails on all of them
    ensures forall name :: AsInt(r, name).Failure?
  {
    r := Environment.AddEnvironment(NewConfig(), env, prefix, "", false);
    assert Environment.EnvPaths(Environment.EnvVars(env, prefix), "") == Environment.EnvVars(env, prefix).Keys;
  }

  /** Get: the stored value, or nil (Null) for an absent key. */
  function Get(c: Store, key: string): (v: Value)
    ensures key !in c ==> v == Null
    ensures key in c ==> v == c[key]
  {
    if key in c then c[key] else Null
  }

  /** HasKey: the key is present with a non-null value. */
  function HasKey(c: Store, key: string): (b: bool)
    ensures b <==> key in c && c[key] != Null
    ensures NullFreeStore(c) ==> (b <==> key in c)
  {
    Get(c, key) != Null
  }

  /** AsString: "" for an absent or null value, a stored string unchanged; any other value is
      rendered by `render`, which stands for Go's `%v` formatting. */
  function AsString(c: Store, key: string, render: Value -> string): (s: string)
    ensures !HasKey(c, key) ==> s == ""
    ensures Get(c, key).Str? ==> s == Get(c, key).s
  {
    match Get(c, key)
    case Null => ""
    case Str(text) => text
    case v => render(v)
  }

  /** `n` is `x` truncated toward zero: the integer between zero and `x` nearest to `x`. */
  predicate TruncatesTo(x: real, n: int)
  {
    if x >= 0.0 then n as real <= x < n as real + 1.0 else n as real - 1.0 < x <= n as real
  }

  /** Go's `int(f)` on a float64, without the integer width. */
  function TruncateTowardZero(x: real): (n: int)
    ensures TruncatesTo(x, n)
  {
    if x >= 0.0 then x.Floor else -((-x).Floor)
  }

  /** Truncation toward zero has one result. */
  lemma TruncationUnique(x: real, n: int, m: int)
    requires TruncatesTo(x, n) && TruncatesTo(x, m)
    ensures n == m
  {
  }

  /** AsInt: a number truncated toward zero; anything else, including an absent key, is an
      error. */
  function AsInt(c: Store, key: string): (r: Result<int, Error>)
    ensures r.Success? <==> key in c && c[key].Num?
    ensures r.Failure? ==> r.error == NotNumeric
    ensures r.Success? ==> TruncatesTo(c[key].n, r.value)
  {
    match Get(c, key)
    case Num(x) => Success(TruncateTowardZero(x))
    case _ => Failure(NotNumeric)
  }
}
