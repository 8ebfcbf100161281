# Flat configuration store (config.go), modelled in Dafny

The Go package `config` keeps configuration in a flat `map[string]interface{}` whose keys are
dot-delimited. A decoded JSON object, or the process environment, is merged into it by
`nestedMerge`. That function flattens nested objects into keys such as `a.b.c`, under an optional
destination prefix. An existing key is overwritten only when `override` is set. Typed accessors
(`Get`, `HasKey`, `AsString`, `AsInt`) read the store back.

The model is functional:

- `Json.Value` is the decoded JSON tree. An object is a sequence of entries. The sequence order
  stands for one iteration order of Go's map.
- The store is `map<string, Value>`.
- `nestedMerge` is the pair `Merge.MergeValue` / `Merge.MergeFrom`. It follows the source's
  recursion entry by entry, with the same prefix rule and the same "absent or override" test.
- It is tied to an independent reference semantics in module `Leaves`:
  - `Flatten` gives the ordered list of (dotted path, leaf) pairs.
  - `ApplyLeaves` writes those leaves one after the other.
  - `Resolve` says declaratively what each key ends up holding. With override, the last leaf on
    that path wins. Without it, an old value stays, and a new key takes the first leaf.
- Order independence holds at every depth: `Merge.Reordered` relates two values whose objects
  list the same entries in other orders, and `Merge.DeepOrderIndependent` shows that such a
  reordering does not change the merge when no two paths collide. When paths do collide the
  iteration order matters, as `Examples.CollidingPaths` shows.
- `Environment` models the pure part of `AddEnvironment`:
  - the split on the first `=`;
  - the name-prefix filter;
  - the intermediate Go map, where a later duplicate name wins;
  - the merge of its entries in an arbitrary order, chosen with `:|` in a method.
- `Config` holds the public operations.

Files: `wrappers.dfy` (Option, Result, Error), `json.dfy`, `leaves.dfy`, `merge.dfy`,
`environment.dfy`, `config.dfy` and `examples.dfy` (concrete cases).

In three places the code behaves in a way a reader may not expect; the model follows the code:

- A JSON `null` inside an object is not stored. `reflect.TypeOf(nil).Kind()` at config.go:116
  panics on it. The model turns that into the error `NullLeaf`, and the merge is abandoned.
  Nulls inside arrays are harmless, because an array is one opaque leaf.
- A document whose root is not an object fails the type assertion at config.go:66. It is
  modelled as the error `RootNotObject`.
- `HasKey` is `c[key] != nil`. It is true for a stored `false` or `0` and false only for an
  absent key or a stored nil (`Examples.AccessorCases`).

## Model

| member | source | states |
|---|---|---|
| Leaves.JoinInjective | config.go:110-113 | Under one prefix, two different entry names never land on the same key. |
| Leaves.FlattenValueShape | config.go:115-126 | Every leaf a value contributes is a non-object. Its path is the value's key or lies below `key.`. It is never null when the value is null-free. |
| Leaves.FlattenFromShape | config.go:110-118 | Under a non-empty prefix P, every flattened path starts with `P.`. No flattened leaf is an object. Null-free entries give no null leaf. |
| Leaves.FirstValueIsFirst | config.go:122-124 | A leaf with no earlier leaf on its path is the one FirstValue reports for that path. |
| Leaves.LastValueIsLast | config.go:122-124 | A leaf with no later leaf on its path is the one LastValue reports for that path. |
| Leaves.DistinctLeafFound | config.go:122-124 | With pairwise distinct paths, each leaf is both the first and the last on its path. |
| Leaves.DistinctMember | config.go:122-124 | With pairwise distinct paths, any member leaf is what both FirstValue and LastValue find. |
| Leaves.Put | config.go:122-124 | One write adds its key and nothing else. The key takes the new value when it was absent or with override. Otherwise the store is unchanged, and other keys keep their values. Sequences of writes are characterised by Leaves.ApplyLeaves and Leaves.Resolve. |
| Leaves.ApplyLeaves | config.go:122-124 | Writing leaves in order yields the old keys plus the leaf paths. With override each key holds the last leaf on its path. Without it, an old key keeps its value and a new key holds the first leaf on its path. |
| Leaves.ResolveStep | config.go:115-124 | Writing the first leaf and resolving the rest gives the same value per key as resolving all the leaves. |
| Leaves.ApplyLeavesConcat | config.go:115-127 | Writing `a` and then `b` equals writing `a + b`. |
| Leaves.ApplyLeavesOrderFree | config.go:115 | Two collision-free leaf lists with the same leaves write the same store, whatever their order. |
| Merge.MergeValue | config.go:116-125 | Merging one value can fail only with NullLeaf. It never removes a key, and without override it never changes an old key. The full result is stated by Merge.MergeValueFlattens. |
| Merge.MergeFrom | config.go:115-127 | The loop over the entries can fail only with NullLeaf. It never removes a key, and without override it never changes an old key. The full result is stated by Merge.MergeFromFlattens. |
| Merge.MergeValueFlattens | config.go:116-125 | Merging one value under a key equals writing its flattened leaves, or fails with NullLeaf exactly when the value holds a null. |
| Merge.MergeFromFlattens | config.go:115-127 | The loop over `es[i..]` equals writing their flattened leaves in order, or fails with NullLeaf exactly when one of them holds a null. |
| Merge.NestedMerge | config.go:109-128 | Fails exactly on a null, and then with NullLeaf. Otherwise the result equals the reference write of the flattened leaves. The key set is the old keys plus the flattened paths, so nothing is deleted. Keys that are not paths keep their value. Without override every old key keeps its value. No object or null is ever stored. |
| Merge.LeavesAreWritten | config.go:122-124 | Every key whose value is new or changed holds one of the written leaves. |
| Merge.MergeIdempotent | config.go:122-124 | Merging the same object again, with or without override, leaves the store unchanged. |
| Merge.LookupRoundTrip | config.go:122-124 | With collision-free paths, after the merge every flattened path holds exactly its leaf. This holds always with override, and without it whenever the key was new. |
| Merge.FirstLeafWins | config.go:122-124 | When paths collide and there is no override, a new key holds the first leaf written on it. |
| Merge.LastLeafWins | config.go:122-124 | When paths collide and override is set, a key holds the last leaf written on it. |
| Merge.FlattenFromMembership | config.go:115-118 | A leaf is among the flattened leaves of `es[i..]` exactly when it is a leaf of one of those entries. |
| Merge.EntryPlacement | config.go:110-124 | A non-object entry `k` under prefix P is the leaf at `P.k`, or at `k` when P is empty. An object entry contributes all of its own leaves, flattened under `P.k`. |
| Merge.OrderIndependent | config.go:115 | Permuting an object's top-level entries does not change the merge, provided the original order makes no two paths collide (then no order does). Merge.DeepOrderIndependent states this at every depth. |
| Merge.FlattenFromAppend | config.go:115-118 | The leaves of two entry lists placed one after the other are the leaves of the first followed by those of the second. |
| Merge.FlattenPermutation | config.go:115-118 | Reordering an object's entries reorders its flattened leaves: every leaf occurs as often as before. |
| Leaves.DistinctPermutation | config.go:122-124 | A reordering of a collision-free leaf list is collision-free. |
| Merge.DeepOrderIndependent | config.go:115 | Reordering the entries of objects at any depth does not change the merge, provided the original order makes no two paths collide. |
| Merge.ReorderedLeaves | config.go:115-126 | A value whose objects are reordered at any depth flattens to the same leaves, each as often as before. |
| Merge.AlignedLeaves | config.go:115-118 | Entries that pair up by name with reordered values flatten to the same leaves. |
| Merge.ReorderedNullFree | config.go:116 | A value whose objects are reordered at any depth holds a null exactly when the original does. |
| Merge.AlignedNullFree | config.go:115-116 | Entries that pair up by name with reordered values hold a null exactly when the original ones do. |
| Merge.ReorderedReflexive | config.go:115 | Every value is a reordering of itself. |
| Merge.PermutationIsReordered | config.go:115 | A permutation of the top-level entries is a reordering in the deep sense. |
| Merge.SameNullFree | config.go:115-116 | Reordered entries hold a null exactly when the original ones do. |
| Merge.SameLeaves | config.go:115-118 | Reordered entries flatten to the same set of leaves. |
| Environment.SplitAtEquals | config.go:88 | `SplitN(x, "=", 2)` gives one or two parts. Their content is stated by Environment.SplitAtEqualsRoundTrip and Environment.SplitAtFirstEquals. |
| Environment.SplitAtEqualsRoundTrip | config.go:88 | `SplitN(x, "=", 2)` gives either `x` alone, when `x` has no `=`, or a name without `=` and a rest that join back to `x` around one `=`. |
| Environment.SplitAtFirstEquals | config.go:88 | The split happens at the first `=`. |
| Environment.EntryRoundTrip | config.go:88-99 | The name never holds `=`. An entry with `=` is name, `=` and value. An entry without `=` is all name, with the empty value. |
| Environment.EnvVars | config.go:86-101 | Every collected name starts with the source prefix. Which names are collected, and with which values, is stated by Environment.EnvVarsNames and Environment.EnvVarsLastWins. |
| Environment.EnvVarsNames | config.go:86-101 | A name is collected exactly when some entry carries it and it starts with the source prefix. The empty prefix therefore keeps every entry. |
| Environment.EnvVarsLastWins | config.go:95-100 | A collected name holds the value of the last entry that carries it. |
| Environment.MapEntries | config.go:106 | The iteration over the intermediate map lists every name exactly once, as a string leaf, in an arbitrary order. |
| Environment.StringLeavesDistinct | config.go:106 | The leaves of the environment map never collide on a path. |
| Environment.StringLeavesExact | config.go:106 | The environment map flattens to exactly one leaf per name, at `prefix.name`. |
| Environment.StringEntriesFlatten | config.go:115-126 | String-valued entries are never recursed into. Each gives one leaf at `prefix.name`, and none holds a null. |
| Environment.MergeStrings | config.go:106 | Merging the environment map in any order succeeds. It writes `prefix.name` for every name: the string itself when the key is new or with override. Nothing else changes. |
| Environment.AddEnvironment | config.go:81-107 | The keys become the old keys plus `destPrefix.name` for every collected name. A new key, or any such key with override, holds the entry's string. Other keys, and all old keys without override, keep their values. |
| Config.NewConfig | config.go:18-20 | The new store is empty: Get is nil and HasKey is false for every key. |
| Config.AddFile | config.go:51-72 | A read or decode failure is returned as is. A non-object root is RootNotObject. A null inside the object is NullLeaf. Success happens exactly for a null-free object and equals writing its flattened leaves under the destination prefix. A null-free store stays null-free. |
| Config.ReadFromFile | config.go:24-30 | It fails with AddFile's error: ReadFailed for a read or decode failure, RootNotObject for a non-object root, NullLeaf for a null inside the object. On success the keys are exactly the document's flattened paths. Each holds the first leaf written on it, and HasKey holds exactly for those paths. |
| Config.ReadFromEnv | config.go:35-41 | The keys are exactly the collected variable names. Each holds its value as a string, and AsInt fails on every key. |
| Config.Get | config.go:133-135 | An absent key gives nil; a present key gives its stored value. |
| Config.HasKey | config.go:137-139 | True exactly when the key is present with a non-nil value. On a null-free store this is plain presence. |
| Config.AsString | config.go:143-149 | An absent or nil value gives "". A stored string is returned unchanged. |
| Config.TruncateTowardZero | config.go:160 | The result lies between zero and the number, less than one away from it. |
| Config.TruncationUnique | config.go:160 | Truncation toward zero has exactly one result. |
| Config.AsInt | config.go:154-161 | Succeeds exactly when the key holds a number, and then returns it truncated toward zero. Anything else, including an absent key, is NotNumeric. |
| Examples.DeepNesting | config.go:115-118 | `{"a":{"b":{"c":5}}}` gives only the key `a.b.c`. |
| Examples.DestinationPrefix | config.go:110-113 | `{"a":1}` under `svc` gives `svc.a`. |
| Examples.ArrayIsOneLeaf | config.go:116-125 | An array, even one holding a null, is stored whole at its key. |
| Examples.NullValueFails | config.go:116 | A null object value makes the merge fail. |
| Examples.CollidingPaths | config.go:122-124 | `{"a.b":1,"a":{"b":2}}` collides on `a.b`. The iteration order and the override flag decide the value. |
| Examples.NestedSwap | config.go:115 | `{"o":{"x":a,"y":b}}` and `{"o":{"y":b,"x":a}}` merge to the same result. |
| Examples.AddFileErrors | config.go:53-66 | A non-object root and a read failure are both errors. |
| Examples.AsIntCases | config.go:154-160 | 42 gives 42, 42.9 gives 42 and -42.9 gives -42. A string or an absent key is an error. |
| Examples.AccessorCases | config.go:137-149 | HasKey is true for a stored false or 0 and false for nil. AsString gives "" for an absent key and returns a stored string. |
| Examples.SplitCases | config.go:88-99 | `A=b=c` splits into `A` and `b=c`. `X` has the empty value. |
| Examples.PrefixFilter | config.go:92 | The prefix `APP` keeps `APP_X` and `APPLE` and drops `HOME`. |

## Left out

- Reading the file and decoding JSON (config.go:53-63): these are foreign calls. `AddFile` takes
  their outcome as a parameter, either the decoded value or the failure reason.
- `os.Environ()` (config.go:82): it reads process-wide state. The environment is a parameter,
  a sequence of `NAME=VALUE` strings.
- The diagnostic `fmt.Printf` calls (config.go:85, 89, 104): they only produce output.
- Config.AsString: the `%v` rendering of numbers, booleans and arrays (config.go:148) is Go
  formatting. It is the parameter `render`, and only the nil and string cases are stated.
- Config.AsInt: float64 precision and the platform width of `int` are not modelled. A number is
  a `real`, and `int(vv)` is truncation toward zero on unbounded integers.
- Merge.NestedMerge: the Go store is mutated in place. When a null panics part-way through a
  merge, the keys already written stay in the map. The model reports the failure and returns no
  store.
- Config.ReadFromFile: on a read or decode error, the source returns the empty new config
  together with the error. The model returns only the error.
- Go's map type keeps object keys distinct. The model's entry sequences may repeat a key, which
  is a superset of what the decoder produces.
- Strings: Go strings are byte sequences, while the model's strings are sequences of characters.
  Prefix tests, the split on `=` and key concatenation agree on valid UTF-8. Environment entries
  or keys that are not valid UTF-8 are outside the model.
- Concurrency: the store has no locking, and the source makes no promise about concurrent use.
