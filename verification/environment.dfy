/** The pure part of `AddEnvironment` in config.go: `NAME=VALUE` strings are split on their first
    `=`, filtered by a name prefix, collected into a map and merged as string leaves. The process
    environment itself is a parameter. */
module Environment {
  import opened Json
  import opened Leaves
  import opened Merge

  /** `strings.SplitN(x, "=", 2)`: the text before the first `=` and the text after it, or `x`
      alone when it holds no `=`. */
  function SplitAtEquals(x: string): (parts: seq<string>)
    ensures |parts| == 1 || |parts| == 2
    decreases |x|
  {
    if |x| == 0 then [x]
    else if x[0] == '=' then ["", x[1..]]
    else
      var rest := SplitAtEquals(x[1..]);
      [[x[0]] + rest[0]] + rest[1..]
  }

  /** Splitting is undone by joining: one part is the whole entry, which holds no `=`; two parts
      are the text before the first `=` (which holds none) and everything after it. */
  lemma {:induction false} SplitAtEqualsRoundTrip(x: string)
    ensures |SplitAtEquals(x)| == 1 ==> SplitAtEquals(x)[0] == x && '=' !in x
    ensures |SplitAtEquals(x)| == 2 ==>
      x == SplitAtEquals(x)[0] + "=" + SplitAtEquals(x)[1] && '=' !in SplitAtEquals(x)[0]
    decreases |x|
  {
    if |x| > 0 && x[0] != '=' {
      SplitAtEqualsRoundTrip(x[1..]);
      assert x == [x[0]] + x[1..];
    }
  }

  /** The split is at the first `=`: with `x[i]` the first `=` of `x`, the parts are the text
      before it and the text after it. */
  lemma {:induction false} SplitAtFirstEquals(x: string, i: nat)
    requires i < |x| && x[i] == '='
    requires forall j :: 0 <= j < i ==> x[j] != '='
    ensures SplitAtEquals(x) == [x[..i], x[i + 1..]]
    decreases i
  {
    if i > 0 {
      SplitAtFirstEquals(x[1..], i - 1);
      assert [x[0]] + x[1..][..i - 1] == x[..i];
      assert x[1..][i..] == x[i + 1..];
    }
  }

  /** The variable name of an environment entry. */
  function NameOf(x: string): string
  {
    SplitAtEquals(x)[0]
  }

  /** The value of an environment entry; "" when the entry holds no `=`. */
  function ValueOf(x: string): string
  {
    var parts := SplitAtEquals(x);
    if |parts| == 2 then parts[1] else ""
  }

  /** Name and value recover the entry: the name never holds `=`, an entry with an `=` is name,
      `=` and value, and an entry without one is all name with the empty value. */
  lemma EntryRoundTrip(x: string)
    ensures '=' !in NameOf(x)
    ensures '=' in x ==> x == NameOf(x) + "=" + ValueOf(x)
    ensures '=' !in x ==> NameOf(x) == x && ValueOf(x) == ""
  {
    SplitAtEqualsRoundTrip(x);
  }

  /** The entry at `i` is the last one of `env` with its name. */
  predicate LastWithName(env: seq<string>, i: int)
    requires 0 <= i < |env|
  {
    forall j :: i < j < |env| ==> NameOf(env[j]) != NameOf(env[i])
  }

  /** The intermediate map of the loop: every entry whose name starts with `sourcePrefix`, keyed
      by name; a later entry with the same name replaces an earlier one. */
  function EnvVars(env: seq<string>, sourcePrefix: string): (nested: map<string, string>)
    ensures forall name :: name in nested ==> sourcePrefix <= name
  {
    if |env| == 0 then map[]
    else
      var before := EnvVars(env[..|env| - 1], sourcePrefix);
      var x := env[|env| - 1];
      if sourcePrefix <= NameOf(x) then before[NameOf(x) := ValueOf(x)] else before
  }

  /** The environment filter: a name is collected exactly when some entry carries it and it
      starts with `sourcePrefix` (so the empty prefix collects every entry). */
  lemma {:induction false} EnvVarsNames(env: seq<string>, sourcePrefix: string, name: string)
    ensures name in EnvVars(env, sourcePrefix) <==>
      sourcePrefix <= name && exists i :: 0 <= i < |env| && NameOf(env[i]) == name
  {
    if |env| > 0 {
      var init := env[..|env| - 1];
      EnvVarsNames(init, sourcePrefix, name);
      assert forall i :: 0 <= i < |init| ==> init[i] == env[i];
      if exists i :: 0 <= i < |env| && NameOf(env[i]) == name {
        var i :| 0 <= i < |env| && NameOf(env[i]) == name;
        if i < |init| {
          assert NameOf(init[i]) == name;
        }
      }
    }
  }

  /** The collected value of a name is the value of the last entry that carries it. */
  lemma {:induction false} EnvVarsLastWins(env: seq<string>, sourcePrefix: string, i: nat)
    requires i < |env|
    requires sourcePrefix <= NameOf(env[i])
    requires LastWithName(env, i)
    ensures NameOf(env[i]) in EnvVars(env, sourcePrefix)
    ensures EnvVars(env, sourcePrefix)[NameOf(env[i])] == ValueOf(env[i])
  {
    var init := env[..|env| - 1];
    if i < |init| {
      assert init[i] == env[i];
      assert LastWithName(init, i) by {
        forall j | i < j < |init| ensures NameOf(init[j]) != NameOf(init[i]) {
          assert init[j] == env[j];
        }
      }
      EnvVarsLastWins(init, sourcePrefix, i);
    }
  }

  /** The keys an environment merge under `destPrefix` writes. */
  function EnvPaths(nested: map<string, string>, destPrefix: string): set<string>
  {
    set name | name in nested :: Join(destPrefix, name)
  }

  /** `entries` lists every name of `nested` exactly once, with its value as a string leaf. */
  predicate ListsMap(entries: seq<(string, Value)>, nested: map<string, string>)
  {
    && (forall m :: 0 <= m < |entries| ==> entries[m].0 in nested && entries[m].1 == Str(nested[entries[m].0]))
    && (forall m, n :: 0 <= m < n < |entries| ==> entries[m].0 != entries[n].0)
    && (forall name :: name in nested ==> exists m :: 0 <= m < |entries| && entries[m].0 == name)
  }

  /** The iteration over the intermediate Go map: its names, in an arbitrary order. */
  method MapEntries(nested: map<string, string>) returns (entries: seq<(string, Value)>)
    ensures ListsMap(entries, nested)
  {
    entries := [];
    var pending := nested.Keys;
    while pending != {}
      invariant pending <= nested.Keys
      invariant forall m :: 0 <= m < |entries| ==>
        entries[m].0 in nested && entries[m].0 !in pending && entries[m].1 == Str(nested[entries[m].0])
      invariant forall m, n :: 0 <= m < n < |entries| ==> entries[m].0 != entries[n].0
      invariant forall name :: name in nested && name !in pending ==> exists m :: 0 <= m < |entries| && entries[m].0 == name
      decreases pending
    {
      var name :| name in pending;
      var before := entries;
      entries := entries + [(name, Str(nested[name]))];
      pending := pending - {name};
      forall other | other in nested && other !in pending
        ensures exists m :: 0 <= m < |entries| && entries[m].0 == other
      {
        if other == name {
          assert entries[|before|].0 == other;
        } else {
          var m :| 0 <= m < |before| && before[m].0 == other;
          assert entries[m].0 == other;
        }
      }
    }
  }

  /** The leaves of a listed map of strings never collide: names are distinct and the prefix
      keeps them apart. */
  lemma StringLeavesDistinct(entries: seq<(string, Value)>, nested: map<string, string>, destPrefix: string)
    requires ListsMap(entries, nested)
    ensures DistinctPaths(Flatten(entries, destPrefix))
  {
    StringEntriesFlatten(entries, 0, destPrefix);
    var leaves := Flatten(entries, destPrefix);
    forall m, n | 0 <= m < n < |leaves|
      ensures leaves[m].0 != leaves[n].0
    {
      if leaves[m].0 == leaves[n].0 {
        JoinInjective(destPrefix, entries[m].0, entries[n].0);
      }
    }
  }

  /** The leaves of a listed map of strings are exactly one `(prefix.name, value)` per name. */
  lemma StringLeavesExact(entries: seq<(string, Value)>, nested: map<string, string>, destPrefix: string)
    requires ListsMap(entries, nested)
    ensures forall name :: name in nested ==> (Join(destPrefix, name), Str(nested[name])) in Flatten(entries, destPrefix)
    ensures forall l :: l in Flatten(entries, destPrefix) ==> exists name :: name in nested && l.0 == Join(destPrefix, name)
  {
    StringEntriesFlatten(entries, 0, destPrefix);
    var leaves := Flatten(entries, destPrefix);
    forall name | name in nested
      ensures (Join(destPrefix, name), Str(nested[name])) in leaves
    {
      var m :| 0 <= m < |entries| && entries[m].0 == name;
      assert leaves[m] == (Join(destPrefix, name), Str(nested[name]));
    }
    forall l | l in leaves
      ensures exists name :: name in nested && l.0 == Join(destPrefix, name)
    {
      var m :| 0 <= m < |leaves| && leaves[m] == l;
      assert entries[m].0 in nested;
    }
  }

  /** Merging a map of strings, in any order, writes `prefix.name` for every name: the string
      itself when the key is new or with override, and nothing else changes. */
  lemma MergeStrings(store: Store, entries: seq<(string, Value)>, nested: map<string, string>, destPrefix: string, override: bool)
    requires ListsMap(entries, nested)
    ensures NestedMerge(store, entries, destPrefix, override).Success?
    ensures var r := NestedMerge(store, entries, destPrefix, override).value;
      && r.Keys == store.Keys + EnvPaths(nested, destPrefix)
      && (forall name :: name in nested && (override || Join(destPrefix, name) !in store) ==>
            r[Join(destPrefix, name)] == Str(nested[name]))
      && (forall k :: k in store && (!override || k !in EnvPaths(nested, destPrefix)) ==> r[k] == store[k])
  {
    assert NullFree(Obj(entries));
    StringLeavesDistinct(entries, nested, destPrefix);
    StringLeavesExact(entries, nested, destPrefix);
    var leaves := Flatten(entries, destPrefix);
    assert Paths(leaves) == EnvPaths(nested, destPrefix) by {
      forall k | k in EnvPaths(nested, destPrefix) ensures k in Paths(leaves) {
        var name :| name in nested && k == Join(destPrefix, name);
        assert (k, Str(nested[name])) in leaves;
      }
    }
    var r := NestedMerge(store, entries, destPrefix, override).value;
    forall name | name in nested && (override || Join(destPrefix, name) !in store)
      ensures r[Join(destPrefix, name)] == Str(nested[name])
    {
      DistinctMember(leaves, (Join(destPrefix, name), Str(nested[name])));
    }
  }

  /** AddEnvironment with the environment given as a sequence of `NAME=VALUE` strings. */
  method AddEnvironment(store: Store, env: seq<string>, sourcePrefix: string, destPrefix: string, override: bool)
    returns (r: Store)
    ensures r.Keys == store.Keys + EnvPaths(EnvVars(env, sourcePrefix), destPrefix)
    ensures forall name :: name in EnvVars(env, sourcePrefix) && (override || Join(destPrefix, name) !in store) ==>
      r[Join(destPrefix, name)] == Str(EnvVars(env, sourcePrefix)[name])
    ensures forall k :: k in store && (!override || k !in EnvPaths(EnvVars(env, sourcePrefix), destPrefix)) ==>
      r[k] == store[k]
  {
    var nested := EnvVars(env, sourcePrefix);
    var entries := MapEntries(nested);
    MergeStrings(store, entries, nested, destPrefix, override);
    r := NestedMerge(store, entries, destPrefix, override).value;
  }

  /** Entries whose values are all strings flatten to one leaf each, at `prefix.name`. */
  lemma {:induction false} StringEntriesFlatten(es: seq<(string, Value)>, i: nat, prefix: string)
    requires i <= |es|
    requires forall m :: 0 <= m < |es| ==> es[m].1.Str?
    ensures NullFree(Obj(es))
    ensures |FlattenFrom(es, i, prefix)| == |es| - i
    ensures forall m :: 0 <= m < |es| - i ==> FlattenFrom(es, i, prefix)[m] == (Join(prefix, es[i + m].0), es[i + m].1)
    decreases |es| - i
  {
    if i < |es| {
      StringEntriesFlatten(es, i + 1, prefix);
    }
  }
}
