/** Concrete instances of the store's behaviour. */
module Examples {
  import opened Wrappers
  import opened Errors
  import opened Json
  import opened Leaves
  import opened Merge
  import opened Environment
  import opened Config

  /** `{"a": {"b": {"c": 5}}}` gives the single key "a.b.c"; no "a" or "a.b" is created. */
  lemma DeepNesting()
    ensures NestedMerge(map[], [("a", Obj([("b", Obj([("c", Num(5.0))]))]))], "", false)
      == Success(map["a.b.c" := Num(5.0)])
  {
    var inner := [("c", Num(5.0))];
    var middle := [("b", Obj(inner))];
    var outer := [("a", Obj(middle))];
    assert Join("a.b", "c") == "a.b.c";
    assert FlattenFrom(inner, 1, "a.b") == [];
    assert FlattenFrom(inner, 0, "a.b") == [("a.b.c", Num(5.0))];
    assert Join("a", "b") == "a.b";
    assert FlattenFrom(middle, 1, "a") == [];
    assert FlattenValue(Obj(inner), "a.b") == [("a.b.c", Num(5.0))];
    assert FlattenFrom(middle, 0, "a") == [("a.b.c", Num(5.0))];
    assert FlattenFrom(outer, 1, "") == [];
    assert FlattenValue(Obj(middle), "a") == [("a.b.c", Num(5.0))];
    assert Flatten(outer, "") == [("a.b.c", Num(5.0))];
  }

  /** `{"a": 1}` merged under "svc" gives "svc.a", not "a". */
  lemma DestinationPrefix()
    ensures NestedMerge(map[], [("a", Num(1.0))], "svc", false) == Success(map["svc.a" := Num(1.0)])
  {
    assert Join("svc", "a") == "svc.a";
    assert FlattenFrom([("a", Num(1.0))], 1, "svc") == [];
    assert Flatten([("a", Num(1.0))], "svc") == [("svc.a", Num(1.0))];
  }

  /** An array is one opaque leaf, even when it holds a null. */
  lemma ArrayIsOneLeaf()
    ensures NestedMerge(map[], [("xs", Arr([Num(1.0), Null]))], "", false)
      == Success(map["xs" := Arr([Num(1.0), Null])])
  {
    assert Flatten([("xs", Arr([Num(1.0), Null]))], "") == [("xs", Arr([Num(1.0), Null]))];
  }

  /** A null object value aborts the merge. */
  lemma NullValueFails()
    ensures NestedMerge(map["k" := Str("v")], [("a", Null)], "", true) == Failure(NullLeaf)
  {
  }

  /** `{"a.b": 1, "a": {"b": 2}}` collides on "a.b": without override the first leaf written
      stays, with override the last one wins, so the iteration order decides. */
  lemma CollidingPaths()
    ensures NestedMerge(map[], [("a.b", Num(1.0)), ("a", Obj([("b", Num(2.0))]))], "", false)
      == Success(map["a.b" := Num(1.0)])
    ensures NestedMerge(map[], [("a.b", Num(1.0)), ("a", Obj([("b", Num(2.0))]))], "", true)
      == Success(map["a.b" := Num(2.0)])
    ensures NestedMerge(map[], [("a", Obj([("b", Num(2.0))])), ("a.b", Num(1.0))], "", false)
      == Success(map["a.b" := Num(2.0)])
  {
    var inner := [("b", Num(2.0))];
    assert Join("a", "b") == "a.b";
    assert FlattenFrom(inner, 1, "a") == [];
    assert FlattenFrom(inner, 0, "a") == [("a.b", Num(2.0))];
    assert FlattenValue(Obj(inner), "a") == [("a.b", Num(2.0))];
    var es := [("a.b", Num(1.0)), ("a", Obj(inner))];
    assert FlattenValue(Num(1.0), "a.b") == [("a.b", Num(1.0))];
    assert FlattenFrom(es, 2, "") == [];
    assert FlattenFrom(es, 1, "") == [("a.b", Num(2.0))];
    assert Flatten(es, "") == [("a.b", Num(1.0)), ("a.b", Num(2.0))];
    var leaves := Flatten(es, "");
    assert ApplyLeaves(map[], leaves, true) == ApplyLeaves(map["a.b" := Num(1.0)], leaves[1..], true);
    assert ApplyLeaves(map["a.b" := Num(1.0)], leaves[1..], true) == map["a.b" := Num(2.0)];
    var swapped := [("a", Obj(inner)), ("a.b", Num(1.0))];
    assert FlattenFrom(swapped, 2, "") == [];
    assert FlattenFrom(swapped, 1, "") == [("a.b", Num(1.0))];
    assert Flatten(swapped, "") == [("a.b", Num(2.0)), ("a.b", Num(1.0))];
  }

  /** Swapping the two keys of a nested object, `{"o":{"x":a,"y":b}}` against
      `{"o":{"y":b,"x":a}}`, does not change the merge, whatever the two leaves are. */
  lemma NestedSwap(store: Store, a: Value, b: Value, override: bool)
    requires !a.Obj? && !b.Obj?
    ensures NestedMerge(store, [("o", Obj([("x", a), ("y", b)]))], "", override)
      == NestedMerge(store, [("o", Obj([("y", b), ("x", a)]))], "", override)
  {
    var xy := [("x", a), ("y", b)];
    var yx := [("y", b), ("x", a)];
    var es1 := [("o", Obj(xy))];
    var es2 := [("o", Obj(yx))];
    assert Reordered(Obj(xy), Obj(yx)) by {
      AlignedReflexive(xy);
      assert multiset(xy) == multiset(yx);
    }
    assert Reordered(Obj(es1), Obj(es2)) by {
      assert Aligned(es1, es2);
    }
    assert DistinctPaths(Flatten(es1, "")) by {
      assert Join("o", "x") == "o.x" && Join("o", "y") == "o.y" && Join("", "o") == "o";
      assert FlattenFrom(xy, 2, "o") == [];
      assert FlattenFrom(xy, 1, "o") == [("o.y", b)];
      assert FlattenFrom(xy, 0, "o") == [("o.x", a), ("o.y", b)];
      assert FlattenValue(Obj(xy), "o") == [("o.x", a), ("o.y", b)];
      assert FlattenFrom(es1, 1, "") == [];
      assert FlattenFrom(es1, 0, "") == FlattenValue(Obj(xy), "o") + FlattenFrom(es1, 1, "");
      assert Flatten(es1, "") == [("o.x", a), ("o.y", b)];
    }
    DeepOrderIndependent(store, es1, es2, "", override);
  }

  /** A document that is not an object is refused; a read failure is passed on. */
  lemma AddFileErrors()
    ensures AddFile(map[], Success(Arr([])), "", false) == Failure(RootNotObject)
    ensures AddFile(map[], Failure("no such file"), "", false) == Failure(ReadFailed("no such file"))
  {
  }

  /** AsInt truncates toward zero and refuses strings and absent keys. */
  lemma AsIntCases()
    ensures AsInt(map["n" := Num(42.0)], "n") == Success(42)
    ensures AsInt(map["n" := Num(42.9)], "n") == Success(42)
    ensures AsInt(map["n" := Num(-42.9)], "n") == Success(-42)
    ensures AsInt(map["s" := Str("hello")], "s") == Failure(NotNumeric)
    ensures AsInt(map[], "n") == Failure(NotNumeric)
  {
    assert TruncatesTo(42.9, 42);
    TruncationUnique(42.9, 42, TruncateTowardZero(42.9));
    assert TruncatesTo(-42.9, -42);
    TruncationUnique(-42.9, -42, TruncateTowardZero(-42.9));
  }

  /** HasKey separates false and zero from absence; AsString gives "" for an absent key. */
  lemma AccessorCases(render: Value -> string)
    ensures HasKey(map["f" := Bool(false)], "f")
    ensures HasKey(map["z" := Num(0.0)], "z")
    ensures !HasKey(map["n" := Null], "n")
    ensures AsString(map[], "missing", render) == ""
    ensures AsString(map["s" := Str("x")], "s", render) == "x"
  {
  }

  /** The split is on the first `=` only, and an entry without `=` has the empty value. */
  lemma SplitCases()
    ensures NameOf("A=b=c") == "A" && ValueOf("A=b=c") == "b=c"
    ensures NameOf("X") == "X" && ValueOf("X") == ""
  {
    assert SplitAtEquals("=b=c") == ["", "b=c"] by {
      assert "=b=c"[0] == '=' && "=b=c"[1..] == "b=c";
    }
    assert SplitAtEquals("A=b=c") == ["A", "b=c"] by {
      assert "A=b=c"[0] == 'A' && "A=b=c"[1..] == "=b=c";
      assert ['A'] + "" == "A";
    }
    assert SplitAtEquals("X") == ["X"] by {
      assert "X"[0] == 'X' && "X"[1..] == "";
      assert SplitAtEquals("") == [""];
      assert ['X'] + "" == "X";
    }
  }

  /** The prefix filter matches partial words: "APP" keeps "APP_X" and "APPLE", not "HOME". */
  lemma PrefixFilter()
    ensures EnvVars(["APP_X=1", "APPLE=2", "HOME=/root"], "APP") == map["APP_X" := "1", "APPLE" := "2"]
  {
    var env := ["APP_X=1", "APPLE=2", "HOME=/root"];
    SplitAtFirstEquals("APP_X=1", 5);
    assert "APP_X=1"[..5] == "APP_X" && "APP_X=1"[6..] == "1";
    SplitAtFirstEquals("APPLE=2", 5);
    assert "APPLE=2"[..5] == "APPLE" && "APPLE=2"[6..] == "2";
    SplitAtFirstEquals("HOME=/root", 4);
    assert "HOME=/root"[..4] == "HOME";
    assert !("APP" <= "HOME");
    assert "APP" <= "APP_X" && "APP" <= "APPLE";
    var one := ["APP_X=1"];
    var two := ["APP_X=1", "APPLE=2"];
    assert one[..0] == [];
    assert EnvVars(one, "APP") == map["APP_X" := "1"];
    assert two[..1] == one;
    assert EnvVars(two, "APP") == map["APP_X" := "1", "APPLE" := "2"];
    assert env[..2] == two;
  }
}
