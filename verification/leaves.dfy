/** The reference semantics of a merge: the ordered list of (dotted path, leaf) pairs an object
    flattens to, and the store obtained by writing those leaves one after the other. */
module Leaves {
  import opened Wrappers
  import opened Json

  /** The flat configuration store (the `Config` map of config.go): dot-delimited key to value.
      It is declared here, beside the reference writes into it, so that `Merge`, `Environment`
      and `Config` share this one definition. */
  type Store = map<string, Value>

  /** A flattened leaf: its full dotted path and its (non-object) value. */
  type Leaf = (string, Value)

  /** The key at which entry `k` of an object placed under `prefix` lands: `prefix.k`, or `k`
      itself when the prefix is empty. */
  function Join(prefix: string, k: string): string
  {
    if prefix == "" then k else prefix + "." + k
  }

  /** Under a fixed prefix, different entry names land at different keys. */
  lemma JoinInjective(prefix: string, a: string, b: string)
    requires Join(prefix, a) == Join(prefix, b)
    ensures a == b
  {
    if prefix != "" {
      assert a == Join(prefix, a)[|prefix| + 1..];
      assert b == Join(prefix, b)[|prefix| + 1..];
    }
  }

  /** The leaves of `v` placed at `key`: an object contributes the leaves of its entries, every
      other value (arrays included) is one leaf. */
  function FlattenValue(v: Value, key: string): seq<Leaf>
    decreases v, 1, 0
  {
    match v
    case Obj(es) => FlattenFrom(es, 0, key)
    case _ => [(key, v)]
  }

  /** The leaves of the entries `es[i..]` of an object placed under `prefix`, in entry order. */
  function FlattenFrom(es: seq<(string, Value)>, i: nat, prefix: string): seq<Leaf>
    requires i <= |es|
    decreases Obj(es), 0, |es| - i
  {
    if i == |es| then []
    else FlattenValue(es[i].1, Join(prefix, es[i].0)) + FlattenFrom(es, i + 1, prefix)
  }

  /** `key` itself, or a key nested below it (any key at all when `key` is the top level). */
  predicate Below(key: string, p: string)
  {
    key == "" || p == key || key + "." <= p
  }

  /** The leaves of a value are never objects, lie at or below its key, and are never null when
      the value is null-free. */
  lemma {:induction false} FlattenValueShape(v: Value, key: string)
    ensures forall l :: l in FlattenValue(v, key) ==>
      !l.1.Obj? && Below(key, l.0) && (NullFree(v) ==> l.1 != Null)
    decreases v, 1, 0
  {
    match v
    case Obj(es) =>
      FlattenFromShape(es, 0, key);
    case _ =>
  }

  /** The leaves of `es[i..]` are never objects, lie strictly below a non-empty prefix, and are
      never null when those entries are null-free. */
  lemma {:induction false} FlattenFromShape(es: seq<(string, Value)>, i: nat, prefix: string)
    requires i <= |es|
    ensures forall l :: l in FlattenFrom(es, i, prefix) ==>
      !l.1.Obj? && (prefix != "" ==> prefix + "." <= l.0) &&
      ((forall m | i <= m < |es| :: NullFree(es[m].1)) ==> l.1 != Null)
    decreases Obj(es), 0, |es| - i
  {
    if i < |es| {
      var key := Join(prefix, es[i].0);
      var head := FlattenValue(es[i].1, key);
      var tail := FlattenFrom(es, i + 1, prefix);
      assert FlattenFrom(es, i, prefix) == head + tail;
      FlattenValueShape(es[i].1, key);
      FlattenFromShape(es, i + 1, prefix);
      forall l | l in head && prefix != ""
        ensures prefix + "." <= l.0
      {
        PrefixTransitive(prefix + ".", key, key + ".", l.0);
      }
    }
  }

  lemma PrefixTransitive(a: string, key: string, b: string, s: string)
    requires a <= key && key <= b
    requires s == key || b <= s
    ensures a <= s
  {
  }

  /** The leaves of a whole object placed under `prefix`. */
  function Flatten(es: seq<(string, Value)>, prefix: string): seq<Leaf>
  {
    FlattenFrom(es, 0, prefix)
  }

  /** The set of paths a leaf list writes. */
  function Paths(leaves: seq<Leaf>): set<string>
  {
    set l | l in leaves :: l.0
  }

  /** Pairwise distinct paths: no two leaves collide on one key. */
  predicate DistinctPaths(leaves: seq<Leaf>)
  {
    forall i, j :: 0 <= i < j < |leaves| ==> leaves[i].0 != leaves[j].0
  }

  /** The value of the first leaf written at `p`, if any. */
  function FirstValue(leaves: seq<Leaf>, p: string): (r: Option<Value>)
    ensures r.Some? <==> p in Paths(leaves)
    ensures r.Some? ==> (p, r.value) in leaves
  {
    if |leaves| == 0 then None
    else if leaves[0].0 == p then Some(leaves[0].1)
    else
      assert Paths(leaves) == {leaves[0].0} + Paths(leaves[1..]);
      FirstValue(leaves[1..], p)
  }

  /** The value of the last leaf written at `p`, if any. */
  function LastValue(leaves: seq<Leaf>, p: string): (r: Option<Value>)
    ensures r.Some? <==> p in Paths(leaves)
    ensures r.Some? ==> (p, r.value) in leaves
  {
    if |leaves| == 0 then None
    else
      assert Paths(leaves) == {leaves[0].0} + Paths(leaves[1..]);
      var later := LastValue(leaves[1..], p);
      if later.Some? then later
      else if leaves[0].0 == p then Some(leaves[0].1)
      else None
  }

  /** A leaf at index `i` with no earlier leaf on the same path is what FirstValue finds. */
  lemma {:induction false} FirstValueIsFirst(leaves: seq<Leaf>, i: nat)
    requires i < |leaves|
    requires forall j :: 0 <= j < i ==> leaves[j].0 != leaves[i].0
    ensures FirstValue(leaves, leaves[i].0) == Some(leaves[i].1)
  {
    if i > 0 {
      FirstValueIsFirst(leaves[1..], i - 1);
    }
  }

  /** A leaf at index `i` with no later leaf on the same path is what LastValue finds. */
  lemma {:induction false} LastValueIsLast(leaves: seq<Leaf>, i: nat)
    requires i < |leaves|
    requires forall j :: i < j < |leaves| ==> leaves[j].0 != leaves[i].0
    ensures LastValue(leaves, leaves[i].0) == Some(leaves[i].1)
  {
    if i > 0 {
      LastValueIsLast(leaves[1..], i - 1);
    } else {
      NoLaterLeaf(leaves[1..], leaves[0].0);
    }
  }

  lemma NoLaterLeaf(leaves: seq<Leaf>, p: string)
    requires forall j :: 0 <= j < |leaves| ==> leaves[j].0 != p
    ensures p !in Paths(leaves)
  {
  }

  /** With pairwise distinct paths, every leaf is both the first and the last on its path. */
  lemma DistinctLeafFound(leaves: seq<Leaf>, i: nat)
    requires DistinctPaths(leaves)
    requires i < |leaves|
    ensures FirstValue(leaves, leaves[i].0) == Some(leaves[i].1)
    ensures LastValue(leaves, leaves[i].0) == Some(leaves[i].1)
  {
    FirstValueIsFirst(leaves, i);
    LastValueIsLast(leaves, i);
  }

  /** Writes one leaf: the key is set when it is absent, or when `override` holds. */
  function Put(store: Store, key: string, v: Value, override: bool): (r: Store)
    ensures r.Keys == store.Keys + {key}
    ensures key !in store || override ==> r[key] == v
    ensures key in store && !override ==> r == store
    ensures forall k :: k in store && k != key ==> r[k] == store[k]
  {
    if key !in store || override then store[key := v] else store
  }

  /** The value a key holds after the leaves are written into `store`: with override, the last
      leaf on that path wins; otherwise an existing value stays, and a new key takes the first
      leaf on its path. */
  function Resolve(store: Store, leaves: seq<Leaf>, k: string, override: bool): Value
    requires k in store || k in Paths(leaves)
  {
    if override && k in Paths(leaves) then LastValue(leaves, k).value
    else if k in store then store[k]
    else FirstValue(leaves, k).value
  }

  /** Writing the leaves in order. */
  function ApplyLeaves(store: Store, leaves: seq<Leaf>, override: bool): (r: Store)
    ensures r.Keys == store.Keys + Paths(leaves)
    ensures forall k :: k in r ==> r[k] == Resolve(store, leaves, k, override)
    decreases |leaves|
  {
    if |leaves| == 0 then store
    else
      var next := Put(store, leaves[0].0, leaves[0].1, override);
      ResolveStep(store, leaves, override);
      ApplyLeaves(next, leaves[1..], override)
  }

  /** Resolving against the rest of the leaves after writing the first one is resolving against
      all of them. */
  lemma ResolveStep(store: Store, leaves: seq<Leaf>, override: bool)
    requires |leaves| > 0
    ensures Paths(leaves) == {leaves[0].0} + Paths(leaves[1..])
    ensures forall k :: k in store || k in Paths(leaves) ==>
      var next := Put(store, leaves[0].0, leaves[0].1, override);
      (k in next || k in Paths(leaves[1..])) &&
      Resolve(next, leaves[1..], k, override) == Resolve(store, leaves, k, override)
  {
    assert leaves == [leaves[0]] + leaves[1..];
    assert Paths(leaves) == {leaves[0].0} + Paths(leaves[1..]);
  }

  /** Writing `a` then `b` is writing `a + b`. */
  lemma {:induction false} ApplyLeavesConcat(store: Store, a: seq<Leaf>, b: seq<Leaf>, override: bool)
    ensures ApplyLeaves(store, a + b, override) == ApplyLeaves(ApplyLeaves(store, a, override), b, override)
    decreases |a|
  {
    if |a| == 0 {
      assert a + b == b;
    } else {
      var next := Put(store, a[0].0, a[0].1, override);
      assert (a + b)[0] == a[0];
      assert (a + b)[1..] == a[1..] + b;
      calc {
        ApplyLeaves(store, a + b, override);
        ApplyLeaves(next, a[1..] + b, override);
        { ApplyLeavesConcat(next, a[1..], b, override); }
        ApplyLeaves(ApplyLeaves(next, a[1..], override), b, override);
      }
    }
  }

  /** With distinct paths, a member leaf is what both FirstValue and LastValue find. */
  lemma DistinctMember(leaves: seq<Leaf>, l: Leaf)
    requires DistinctPaths(leaves)
    requires l in leaves
    ensures FirstValue(leaves, l.0) == Some(l.1)
    ensures LastValue(leaves, l.0) == Some(l.1)
  {
    var i :| 0 <= i < |leaves| && leaves[i] == l;
    DistinctLeafFound(leaves, i);
  }

  /** Two leaf lists without collisions that hold the same leaves write the same store, whatever
      their order. */
  lemma ApplyLeavesOrderFree(store: Store, a: seq<Leaf>, b: seq<Leaf>, override: bool)
    requires DistinctPaths(a) && DistinctPaths(b)
    requires forall l :: l in a <==> l in b
    ensures ApplyLeaves(store, a, override) == ApplyLeaves(store, b, override)
  {
    var ra := ApplyLeaves(store, a, override);
    var rb := ApplyLeaves(store, b, override);
    assert Paths(a) == Paths(b);
    forall k | k in ra
      ensures ra[k] == rb[k]
    {
      if k in Paths(a) {
        var l :| l in a && l.0 == k;
        DistinctMember(a, l);
        DistinctMember(b, l);
      }
    }
    assert ra == rb;
  }

  /** A permutation of a leaf list without collisions has none either. */
  lemma DistinctPermutation(a: seq<Leaf>, b: seq<Leaf>)
    requires multiset(a) == multiset(b)
    requires DistinctPaths(a)
    ensures DistinctPaths(b)
  {
    forall m, n | 0 <= m < n < |b|
      ensures b[m].0 != b[n].0
    {
      if b[m].0 == b[n].0 {
        assert b[m] in multiset(a) && b[n] in multiset(a);
        var i :| 0 <= i < |a| && a[i] == b[m];
        var k :| 0 <= k < |a| && a[k] == b[n];
        if b[m] == b[n] {
          TwiceInSeq(b, m, n);
          OnceAtMostInDistinct(a, i);
          assert false;
        } else {
          assert false;
        }
      }
    }
  }

  /** A value at two indices occurs at least twice. */
  lemma TwiceInSeq(s: seq<Leaf>, m: nat, n: nat)
    requires m < n < |s| && s[m] == s[n]
    ensures multiset(s)[s[m]] >= 2
  {
    assert s == s[..n] + [s[n]] + s[n + 1..];
    assert s[m] in s[..n];
  }

  /** In a list without collisions every leaf occurs once. */
  lemma OnceAtMostInDistinct(a: seq<Leaf>, i: nat)
    requires DistinctPaths(a)
    requires i < |a|
    ensures multiset(a)[a[i]] == 1
  {
    assert a == a[..i] + [a[i]] + a[i + 1..];
    assert a[i] !in a[..i];
    assert a[i] !in a[i + 1..];
    assert multiset(a[..i])[a[i]] == 0;
    assert multiset(a[i + 1..])[a[i]] == 0;
  }
}

