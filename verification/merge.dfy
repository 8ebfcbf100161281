/** `nestedMerge` of config.go: a decoded JSON object is flattened into dotted keys of the store,
    under an optional prefix, with existing keys overwritten only when `override` is set. */
module Merge {
  import opened Wrappers
  import opened Errors
  import opened Json
  import opened Leaves

  /** One entry value placed at `key`: an object is merged recursively under `key`, any other
      value is written at `key` (if absent, or with override). A null makes the source's
      reflection-based type test panic; here it aborts the merge with NullLeaf. */
  function MergeValue(store: Store, key: string, v: Value, override: bool): (r: Result<Store, Error>)
    ensures r.Failure? ==> r.error == NullLeaf
    ensures r.Success? ==> store.Keys <= r.value.Keys
    ensures r.Success? && !override ==> forall k :: k in store ==> r.value[k] == store[k]
    decreases v, 1, 0
  {
    match v
    case Obj(es) => MergeFrom(store, es, 0, key, override)
    case Null => Failure(NullLeaf)
    case _ => Success(Put(store, key, v, override))
  }

  /** The loop over the entries `es[i..]` of an object placed under `prefix`. */
  function MergeFrom(store: Store, es: seq<(string, Value)>, i: nat, prefix: string, override: bool): (r: Result<Store, Error>)
    requires i <= |es|
    ensures r.Failure? ==> r.error == NullLeaf
    ensures r.Success? ==> store.Keys <= r.value.Keys
    ensures r.Success? && !override ==> forall k :: k in store ==> r.value[k] == store[k]
    decreases Obj(es), 0, |es| - i
  {
    if i == |es| then Success(store)
    else
      match MergeValue(store, Join(prefix, es[i].0), es[i].1, override)
      case Failure(e) => Failure(e)
      case Success(next) => MergeFrom(next, es, i + 1, prefix, override)
  }

  /** Merging one value is writing its flattened leaves in order, unless it holds a null. */
  lemma {:induction false} MergeValueFlattens(store: Store, key: string, v: Value, override: bool)
    ensures MergeValue(store, key, v, override) ==
      if NullFree(v) then Success(ApplyLeaves(store, FlattenValue(v, key), override)) else Failure(NullLeaf)
    decreases v, 1, 0
  {
    match v
    case Obj(es) =>
      MergeFromFlattens(store, es, 0, key, override);
    case Null =>
    case _ =>
      assert ApplyLeaves(store, [(key, v)], override) == Put(store, key, v, override);
  }

  /** Merging the entries `es[i..]` is writing their flattened leaves in order, unless one of
      them holds a null. */
  lemma {:induction false} MergeFromFlattens(store: Store, es: seq<(string, Value)>, i: nat, prefix: string, override: bool)
    requires i <= |es|
    ensures MergeFrom(store, es, i, prefix, override) ==
      if (forall m | i <= m < |es| :: NullFree(es[m].1))
      then Success(ApplyLeaves(store, FlattenFrom(es, i, prefix), override))
      else Failure(NullLeaf)
    decreases Obj(es), 0, |es| - i
  {
    if i < |es| {
      var key := Join(prefix, es[i].0);
      var v := es[i].1;
      MergeValueFlattens(store, key, v, override);
      if !NullFree(v) {
        assert MergeFrom(store, es, i, prefix, override) == Failure(NullLeaf);
      } else {
        var head := FlattenValue(v, key);
        var tail := FlattenFrom(es, i + 1, prefix);
        var next := ApplyLeaves(store, head, override);
        assert MergeFrom(store, es, i, prefix, override) == MergeFrom(next, es, i + 1, prefix, override);
        assert FlattenFrom(es, i, prefix) == head + tail;
        assert (forall m | i <= m < |es| :: NullFree(es[m].1)) <==> (forall m | i + 1 <= m < |es| :: NullFree(es[m].1));
        MergeFromFlattens(next, es, i + 1, prefix, override);
        ApplyLeavesConcat(store, head, tail, override);
      }
    }
  }

  /** nestedMerge(object, prefix, override) on the store. */
  function NestedMerge(store: Store, es: seq<(string, Value)>, prefix: string, override: bool): (r: Result<Store, Error>)
    // a null anywhere in the object tree (outside arrays) is the only failure
    ensures r.Failure? <==> !NullFree(Obj(es))
    ensures r.Failure? ==> r.error == NullLeaf
    // the result is the leaves of the flattened object, written in order
    ensures r.Success? ==> r.value == ApplyLeaves(store, Flatten(es, prefix), override)
    // old keys plus the flattened paths; nothing is deleted
    ensures r.Success? ==> r.value.Keys == store.Keys + Paths(Flatten(es, prefix))
    // keys that are not a flattened path keep their value
    ensures r.Success? ==> forall k :: k in store && k !in Paths(Flatten(es, prefix)) ==> r.value[k] == store[k]
    // without override every existing key keeps its value
    ensures r.Success? && !override ==> forall k :: k in store ==> r.value[k] == store[k]
    // objects are recursed into, never stored: an object value can only be an old one
    ensures r.Success? ==> forall k :: k in r.value && r.value[k].Obj? ==> k in store && r.value[k] == store[k]
    // nor is a null stored: a null value can only be an old one
    ensures r.Success? ==> forall k :: k in r.value && r.value[k] == Null ==> k in store && store[k] == Null
  {
    MergeFromFlattens(store, es, 0, prefix, override);
    var r := MergeFrom(store, es, 0, prefix, override);
    if r.Success? then
      var leaves := Flatten(es, prefix);
      LeavesAreWritten(store, leaves, override);
      FlattenFromShape(es, 0, prefix);
      r
    else r
  }

  /** Every value that a key takes from the leaves is one of the leaves' values. */
  lemma LeavesAreWritten(store: Store, leaves: seq<Leaf>, override: bool)
    ensures var r := ApplyLeaves(store, leaves, override);
      forall k :: k in r && (k !in store || r[k] != store[k]) ==> (k, r[k]) in leaves
  {
  }

  /** Merging the same object a second time changes nothing, with or without override. */
  lemma MergeIdempotent(store: Store, es: seq<(string, Value)>, prefix: string, override: bool)
    requires NullFree(Obj(es))
    ensures var once := NestedMerge(store, es, prefix, override).value;
      NestedMerge(once, es, prefix, override) == Success(once)
  {
    var leaves := Flatten(es, prefix);
    var once := NestedMerge(store, es, prefix, override).value;
    var again := NestedMerge(once, es, prefix, override);
    assert again.Success?;
    var twice := again.value;
    assert twice.Keys == once.Keys;
    forall k | k in twice
      ensures twice[k] == once[k]
    {
      assert twice[k] == Resolve(once, leaves, k, override);
      assert once[k] == Resolve(store, leaves, k, override);
    }
    assert twice == once;
  }

  /** Lookup round trip: when no two leaves collide, every flattened path holds its leaf after
      the merge — always with override, and without it whenever the key was new. */
  lemma LookupRoundTrip(store: Store, es: seq<(string, Value)>, prefix: string, override: bool)
    requires NullFree(Obj(es))
    requires DistinctPaths(Flatten(es, prefix))
    ensures var leaves := Flatten(es, prefix);
      var r := NestedMerge(store, es, prefix, override).value;
      forall i :: 0 <= i < |leaves| ==>
        leaves[i].0 in r && (override || leaves[i].0 !in store ==> r[leaves[i].0] == leaves[i].1)
  {
    var leaves := Flatten(es, prefix);
    forall i | 0 <= i < |leaves| {
      DistinctLeafFound(leaves, i);
    }
  }

  /** Colliding paths without override: a new key takes the first leaf written on it. */
  lemma FirstLeafWins(store: Store, es: seq<(string, Value)>, prefix: string, i: nat)
    requires NullFree(Obj(es))
    requires i < |Flatten(es, prefix)|
    requires Flatten(es, prefix)[i].0 !in store
    requires forall j :: 0 <= j < i ==> Flatten(es, prefix)[j].0 != Flatten(es, prefix)[i].0
    ensures var l := Flatten(es, prefix)[i];
      NestedMerge(store, es, prefix, false).value[l.0] == l.1
  {
    FirstValueIsFirst(Flatten(es, prefix), i);
  }

  /** Colliding paths with override: a key takes the last leaf written on it. */
  lemma LastLeafWins(store: Store, es: seq<(string, Value)>, prefix: string, i: nat)
    requires NullFree(Obj(es))
    requires i < |Flatten(es, prefix)|
    requires forall j :: i < j < |Flatten(es, prefix)| ==> Flatten(es, prefix)[j].0 != Flatten(es, prefix)[i].0
    ensures var l := Flatten(es, prefix)[i];
      NestedMerge(store, es, prefix, true).value[l.0] == l.1
  {
    LastValueIsLast(Flatten(es, prefix), i);
  }

  /** A leaf is among the leaves of `es[i..]` exactly when it is a leaf of one of those entries. */
  lemma {:induction false} FlattenFromMembership(es: seq<(string, Value)>, i: nat, prefix: string, l: Leaf)
    requires i <= |es|
    ensures l in FlattenFrom(es, i, prefix) <==>
      exists m :: i <= m < |es| && l in FlattenValue(es[m].1, Join(prefix, es[m].0))
    decreases |es| - i
  {
    if i < |es| {
      var head := FlattenValue(es[i].1, Join(prefix, es[i].0));
      var tail := FlattenFrom(es, i + 1, prefix);
      assert FlattenFrom(es, i, prefix) == head + tail;
      FlattenFromMembership(es, i + 1, prefix, l);
      if l in head {
        assert i <= i < |es| && l in FlattenValue(es[i].1, Join(prefix, es[i].0));
      }
    }
  }

  /** Prefix placement: a non-object entry `k` of an object merged under `prefix` is a leaf at
      `prefix.k` (at `k` when the prefix is empty), and an object entry `k` contributes its own
      leaves, flattened under `prefix.k`. */
  lemma EntryPlacement(es: seq<(string, Value)>, prefix: string, m: nat)
    requires m < |es|
    ensures var key := Join(prefix, es[m].0);
      !es[m].1.Obj? ==> (key, es[m].1) in Flatten(es, prefix)
    ensures var key := Join(prefix, es[m].0);
      es[m].1.Obj? ==> forall l :: l in Flatten(es[m].1.entries, key) ==> l in Flatten(es, prefix)
  {
    var key := Join(prefix, es[m].0);
    forall l | l in FlattenValue(es[m].1, key)
      ensures l in Flatten(es, prefix)
    {
      FlattenFromMembership(es, 0, prefix, l);
    }
  }

  /** The order of an object's entries does not matter when no two leaves collide: the source
      iterates a Go map, whose order is unspecified. */
  lemma OrderIndependent(store: Store, es1: seq<(string, Value)>, es2: seq<(string, Value)>, prefix: string, override: bool)
    requires multiset(es1) == multiset(es2)
    requires DistinctPaths(Flatten(es1, prefix))
    ensures NestedMerge(store, es1, prefix, override) == NestedMerge(store, es2, prefix, override)
  {
    SameNullFree(es1, es2);
    if NullFree(Obj(es1)) {
      SameLeaves(es1, es2, prefix);
      FlattenPermutation(es1, es2, prefix);
      DistinctPermutation(Flatten(es1, prefix), Flatten(es2, prefix));
      ApplyLeavesOrderFree(store, Flatten(es1, prefix), Flatten(es2, prefix), override);
    }
  }

  /** Reordered entries hold a null exactly when the original ones do. */
  lemma SameNullFree(es1: seq<(string, Value)>, es2: seq<(string, Value)>)
    requires multiset(es1) == multiset(es2)
    ensures NullFree(Obj(es1)) <==> NullFree(Obj(es2))
  {
    forall m | 0 <= m < |es1| ensures es1[m] in es2 {
      assert es1[m] in multiset(es1);
    }
    forall m | 0 <= m < |es2| ensures es2[m] in es1 {
      assert es2[m] in multiset(es2);
    }
  }

  /** Reordered entries flatten to the same leaves, possibly in another order. */
  lemma SameLeaves(es1: seq<(string, Value)>, es2: seq<(string, Value)>, prefix: string)
    requires multiset(es1) == multiset(es2)
    ensures forall l :: l in Flatten(es1, prefix) <==> l in Flatten(es2, prefix)
  {
    forall l
      ensures l in Flatten(es1, prefix) <==> l in Flatten(es2, prefix)
    {
      FlattenFromMembership(es1, 0, prefix, l);
      FlattenFromMembership(es2, 0, prefix, l);
      if l in Flatten(es1, prefix) {
        SameEntries(es1, es2, prefix, l);
      }
      if l in Flatten(es2, prefix) {
        SameEntries(es2, es1, prefix, l);
      }
    }
  }

  lemma SameEntries(es1: seq<(string, Value)>, es2: seq<(string, Value)>, prefix: string, l: Leaf)
    requires multiset(es1) == multiset(es2)
    requires exists m :: 0 <= m < |es1| && l in FlattenValue(es1[m].1, Join(prefix, es1[m].0))
    ensures exists m :: 0 <= m < |es2| && l in FlattenValue(es2[m].1, Join(prefix, es2[m].0))
  {
    var m :| 0 <= m < |es1| && l in FlattenValue(es1[m].1, Join(prefix, es1[m].0));
    assert es1[m] in multiset(es2);
    var m2 :| 0 <= m2 < |es2| && es2[m2] == es1[m];
  }

  /** Flattening distributes over concatenation, from entry `i` of the first part on. */
  lemma {:induction false} FlattenFromAppend(a: seq<(string, Value)>, b: seq<(string, Value)>, i: nat, prefix: string)
    requires i <= |a|
    ensures FlattenFrom(a + b, i, prefix) == FlattenFrom(a, i, prefix) + Flatten(b, prefix)
    decreases |a| - i
  {
    if i == |a| {
      FlattenFromShift(a, b, 0, prefix);
    } else {
      var e := a[i];
      assert (a + b)[i] == e;
      FlattenFromAppend(a, b, i + 1, prefix);
      assert FlattenFrom(a + b, i, prefix)
        == FlattenValue(e.1, Join(prefix, e.0)) + FlattenFrom(a + b, i + 1, prefix);
      assert FlattenFrom(a, i, prefix) == FlattenValue(e.1, Join(prefix, e.0)) + FlattenFrom(a, i + 1, prefix);
    }
  }

  /** Past the first part, flattening `a + b` is flattening `b`. */
  lemma {:induction false} FlattenFromShift(a: seq<(string, Value)>, b: seq<(string, Value)>, j: nat, prefix: string)
    requires j <= |b|
    ensures FlattenFrom(a + b, |a| + j, prefix) == FlattenFrom(b, j, prefix)
    decreases |b| - j
  {
    if j < |b| {
      FlattenFromShift(a, b, j + 1, prefix);
      ShiftStep(a, b, j, prefix);
    }
  }

  /** One entry of `b`, seen at its shifted position in `a + b`, contributes the same leaves. */
  lemma ShiftStep(a: seq<(string, Value)>, b: seq<(string, Value)>, j: nat, prefix: string)
    requires j < |b|
    ensures FlattenFrom(a + b, |a| + j, prefix)
      == FlattenValue(b[j].1, Join(prefix, b[j].0)) + FlattenFrom(a + b, |a| + j + 1, prefix)
    ensures FlattenFrom(b, j, prefix) == FlattenValue(b[j].1, Join(prefix, b[j].0)) + FlattenFrom(b, j + 1, prefix)
  {
    assert (a + b)[|a| + j] == b[j];
  }

  /** Reordering an object's entries reorders its flattened leaves: the same leaves, each as
      often as before. */
  lemma {:induction false} FlattenPermutation(es1: seq<(string, Value)>, es2: seq<(string, Value)>, prefix: string)
    requires multiset(es1) == multiset(es2)
    ensures multiset(Flatten(es1, prefix)) == multiset(Flatten(es2, prefix))
    decreases |es1|
  {
    if |es1| == 0 {
      assert |multiset(es2)| == 0;
    } else {
      var x := es1[0];
      assert x in multiset(es2);
      var j :| 0 <= j < |es2| && es2[j] == x;
      var rest := es2[..j] + es2[j + 1..];
      assert multiset(rest) == multiset(es1[1..]) by {
        WithoutOne(es2, j);
        WithoutOne(es1, 0);
        assert es1[..0] + es1[1..] == es1[1..];
      }
      FlattenPermutation(es1[1..], rest, prefix);
      PermutationStep(es1, es2, j, prefix);
    }
  }

  /** One step of the permutation: moving the first entry of `es1` to position `j` moves its
      leaves along with it. */
  lemma PermutationStep(es1: seq<(string, Value)>, es2: seq<(string, Value)>, j: nat, prefix: string)
    requires 0 < |es1| && j < |es2| && es2[j] == es1[0]
    requires multiset(Flatten(es1[1..], prefix)) == multiset(Flatten(es2[..j] + es2[j + 1..], prefix))
    ensures multiset(Flatten(es1, prefix)) == multiset(Flatten(es2, prefix))
  {
    FlattenAround(es2, j, prefix);
    FlattenAround(es1, 0, prefix);
    assert es1[..0] + es1[1..] == es1[1..];
  }

  /** Removing the entry at `j` removes one occurrence of it. */
  lemma WithoutOne(es: seq<(string, Value)>, j: nat)
    requires j < |es|
    ensures multiset(es[..j] + es[j + 1..]) == multiset(es) - multiset{es[j]}
  {
    assert es == es[..j] + [es[j]] + es[j + 1..];
  }

  /** The leaves of `es` are those of the entries before `j`, of entry `j`, and of the entries
      after it; removing entry `j` removes exactly its leaves. */
  lemma FlattenAround(es: seq<(string, Value)>, j: nat, prefix: string)
    requires j < |es|
    ensures multiset(Flatten(es, prefix))
      == multiset(Flatten(es[..j] + es[j + 1..], prefix)) + multiset(FlattenValue(es[j].1, Join(prefix, es[j].0)))
  {
    var before, after, x := es[..j], es[j + 1..], es[j];
    var fx := FlattenValue(x.1, Join(prefix, x.0));
    assert es == before + ([x] + after);
    assert FlattenFrom([x], 1, prefix) == [];
    assert Flatten([x], prefix) == fx;
    FlattenFromAppend(before, [x] + after, 0, prefix);
    FlattenFromAppend([x], after, 0, prefix);
    FlattenFromAppend(before, after, 0, prefix);
    assert Flatten(es, prefix) == Flatten(before, prefix) + (fx + Flatten(after, prefix));
    assert Flatten(before + after, prefix) == Flatten(before, prefix) + Flatten(after, prefix);
  }

  /** `v2` is `v1` with the entries of every object, at any depth, listed in some other order:
      the entries of `v2` can be arranged so that they pair up, position by position, with
      those of `v1`, under the same name and with reordered values. Arrays keep their order. */
  ghost predicate Reordered(v1: Value, v2: Value)
    decreases v1, 1
  {
    match v1
    case Obj(es1) => v2.Obj? && exists es3 :: Aligned(es1, es3) && multiset(es3) == multiset(v2.entries)
    case _ => v2 == v1
  }

  /** `es3` pairs up with `es1` position by position: same names, reordered values. */
  ghost predicate Aligned(es1: seq<(string, Value)>, es3: seq<(string, Value)>)
    decreases Obj(es1), 0
  {
    |es1| == |es3| && forall i :: 0 <= i < |es1| ==> es3[i].0 == es1[i].0 && Reordered(es1[i].1, es3[i].1)
  }

  /** A reordered value flattens to the same leaves, each as often as before, under any key. */
  lemma {:induction false} ReorderedLeaves(v1: Value, v2: Value, key: string)
    requires Reordered(v1, v2)
    ensures multiset(FlattenValue(v1, key)) == multiset(FlattenValue(v2, key))
    decreases v1, 1
  {
    match v1
    case Obj(es1) =>
      var es3 :| Aligned(es1, es3) && multiset(es3) == multiset(v2.entries);
      AlignedLeaves(es1, es3, 0, key);
      FlattenPermutation(es3, v2.entries, key);
    case _ =>
  }

  /** Entries paired up with reordered values flatten to the same leaves from entry `i` on. */
  lemma {:induction false} AlignedLeaves(es1: seq<(string, Value)>, es3: seq<(string, Value)>, i: nat, prefix: string)
    requires Aligned(es1, es3)
    requires i <= |es1|
    ensures multiset(FlattenFrom(es1, i, prefix)) == multiset(FlattenFrom(es3, i, prefix))
    decreases Obj(es1), 0, |es1| - i
  {
    if i < |es1| {
      var key := Join(prefix, es1[i].0);
      assert es3[i].0 == es1[i].0 && Reordered(es1[i].1, es3[i].1);
      ReorderedLeaves(es1[i].1, es3[i].1, key);
      AlignedLeaves(es1, es3, i + 1, prefix);
      assert FlattenFrom(es1, i, prefix) == FlattenValue(es1[i].1, key) + FlattenFrom(es1, i + 1, prefix);
      assert FlattenFrom(es3, i, prefix) == FlattenValue(es3[i].1, key) + FlattenFrom(es3, i + 1, prefix);
    }
  }

  /** A reordered value holds a null exactly when the original does. */
  lemma {:induction false} ReorderedNullFree(v1: Value, v2: Value)
    requires Reordered(v1, v2)
    ensures NullFree(v1) <==> NullFree(v2)
    decreases v1, 1
  {
    match v1
    case Obj(es1) =>
      var es3 :| Aligned(es1, es3) && multiset(es3) == multiset(v2.entries);
      AlignedNullFree(es1, es3);
      SameNullFree(es3, v2.entries);
    case _ =>
  }

  /** Entries paired up with reordered values hold a null exactly when the original ones do. */
  lemma {:induction false} AlignedNullFree(es1: seq<(string, Value)>, es3: seq<(string, Value)>)
    requires Aligned(es1, es3)
    ensures NullFree(Obj(es1)) <==> NullFree(Obj(es3))
    decreases Obj(es1), 0
  {
    forall i | 0 <= i < |es1|
      ensures NullFree(es1[i].1) <==> NullFree(es3[i].1)
    {
      ReorderedNullFree(es1[i].1, es3[i].1);
    }
  }

  /** Every value is a reordering of itself. */
  lemma {:induction false} ReorderedReflexive(v: Value)
    ensures Reordered(v, v)
    decreases v, 1
  {
    match v
    case Obj(es) =>
      AlignedReflexive(es);
    case _ =>
  }

  /** Every entry list pairs up with itself. */
  lemma {:induction false} AlignedReflexive(es: seq<(string, Value)>)
    ensures Aligned(es, es)
    decreases Obj(es), 0
  {
    forall i | 0 <= i < |es|
      ensures Reordered(es[i].1, es[i].1)
    {
      ReorderedReflexive(es[i].1);
    }
  }

  /** A permutation of an object's top-level entries is a reordering. */
  lemma PermutationIsReordered(es1: seq<(string, Value)>, es2: seq<(string, Value)>)
    requires multiset(es1) == multiset(es2)
    ensures Reordered(Obj(es1), Obj(es2))
  {
    AlignedReflexive(es1);
  }

  /** The iteration order of the source's maps is unspecified at every level of the recursion.
      Reordering entries anywhere in an object does not change the merge, provided the original
      order makes no two paths collide. */
  lemma DeepOrderIndependent(store: Store, es1: seq<(string, Value)>, es2: seq<(string, Value)>, prefix: string, override: bool)
    requires Reordered(Obj(es1), Obj(es2))
    requires DistinctPaths(Flatten(es1, prefix))
    ensures NestedMerge(store, es1, prefix, override) == NestedMerge(store, es2, prefix, override)
  {
    ReorderedLeaves(Obj(es1), Obj(es2), prefix);
    ReorderedNullFree(Obj(es1), Obj(es2));
    if NullFree(Obj(es1)) {
      var a, b := Flatten(es1, prefix), Flatten(es2, prefix);
      DistinctPermutation(a, b);
      forall l
        ensures l in a <==> l in b
      {
        assert l in a <==> l in multiset(a);
        assert l in b <==> l in multiset(b);
      }
      ApplyLeavesOrderFree(store, a, b, override);
    }
  }
}

