/** What the SetList operations of strs/setlist.go guarantee, and where
    they fall short of an ordered set. */
module SetListProperties {
  import opened StringOrder
  import opened SetLists

  /** A sequence without repeats has as many distinct elements as entries. */
  lemma {:induction false} DistinctCard(s: seq<string>)
    requires Distinct(s)
    ensures |Elements(s)| == |s|
  {
    if s != [] {
      var n := |s| - 1;
      assert s == s[..n] + [s[n]];
      assert Distinct(s[..n]) by {
        forall i, j | 0 <= i < j < n ensures s[..n][i] != s[..n][j] {
          assert s[..n][i] == s[i] && s[..n][j] == s[j];
        }
      }
      DistinctCard(s[..n]);
      assert Elements(s) == Elements(s[..n]) + {s[n]};
      assert s[n] !in Elements(s[..n]);
    }
  }

  /** `Append` adds exactly the values not yet present (it needs only that
      `pos` has exactly the items as keys, and keeps that so). */
  lemma {:induction false} AppendAllElements(st: State, vs: seq<string>)
    requires st.pos.Keys == Elements(st.items)
    ensures AppendAll(st, vs).pos.Keys == Elements(AppendAll(st, vs).items)
    ensures Elements(AppendAll(st, vs).items) == Elements(st.items) + Elements(vs)
  {
    if vs == [] {
      assert Elements(vs) == {};
    } else {
      var n := |vs| - 1;
      var v := vs[n];
      var r0 := AppendAll(st, vs[..n]);
      AppendAllElements(st, vs[..n]);
      assert vs == vs[..n] + [v];
      ElementsSnoc(vs[..n], v);
      ElementsSnoc(r0.items, v);
    }
  }

  /** `Append` grows `Len` by the number of distinct values not yet present. */
  lemma AppendGrowsLen(st: State, vs: seq<string>)
    requires Indexed(st)
    ensures AppendAll(st, vs).size == st.size + |Elements(vs) - Elements(st.items)|
  {
    var r := AppendAll(st, vs);
    AppendAllIndexed(st, vs);
    AppendAllElements(st, vs);
    DistinctCard(st.items);
    DistinctCard(r.items);
    UnionCard(Elements(st.items), Elements(vs));
  }

  lemma UnionCard(a: set<string>, b: set<string>)
    ensures |a + b| == |a| + |b - a|
  {
    assert a + b == a + (b - a);
    assert a * (b - a) == {};
  }

  /** Appending values that are all present already changes nothing. */
  lemma {:induction false} AppendPresentIsNoOp(st: State, vs: seq<string>)
    requires Indexed(st) && Elements(vs) <= Elements(st.items)
    ensures AppendAll(st, vs) == st
  {
    if vs != [] {
      var n := |vs| - 1;
      assert vs == vs[..n] + [vs[n]];
      assert Elements(vs[..n]) <= Elements(vs);
      AppendPresentIsNoOp(st, vs[..n]);
      assert vs[n] in Elements(vs);
    }
  }

  /** The position of the first occurrence of `x` in `vs`. */
  ghost function FirstIndex(vs: seq<string>, x: string): (k: nat)
    requires x in vs
    ensures k < |vs| && vs[k] == x && x !in vs[..k]
  {
    if vs[0] == x then 0
    else
      var k := FirstIndex(vs[1..], x) + 1;
      assert vs[..k] == [vs[0]] + vs[1..][..k - 1];
      k
  }

  lemma FirstIndexPrefix(vs: seq<string>, n: nat, x: string)
    requires n <= |vs| && x in vs[..n]
    ensures FirstIndex(vs, x) == FirstIndex(vs[..n], x)
  {
    var k, k' := FirstIndex(vs, x), FirstIndex(vs[..n], x);
    assert vs[..n][..k'] == vs[..k'];
  }

  /** The items of `after` past the first `n` come from `vs`, ordered by where they first occur in `vs`. */
  ghost predicate AddedInOrder(n: nat, after: seq<string>, vs: seq<string>)
  {
    && (forall i :: n <= i < |after| ==> after[i] in vs)
    && forall i, j :: n <= i < j < |after| && after[i] in vs && after[j] in vs ==>
         FirstIndex(vs, after[i]) < FirstIndex(vs, after[j])
  }

  /** `Append` adds new values in argument order, each at its first occurrence. */
  lemma {:induction false} AppendInArgumentOrder(st: State, vs: seq<string>)
    requires Indexed(st)
    ensures AddedInOrder(|st.items|, AppendAll(st, vs).items, vs)
  {
    if vs != [] {
      var n := |vs| - 1;
      var init, v := vs[..n], vs[n];
      var r0 := AppendAll(st, init);
      var r := AppendAll(st, vs);
      AppendInArgumentOrder(st, init);
      AppendAllIndexed(st, init);
      AppendAllElements(st, init);
      AppendOneSpec(r0, v);
      assert vs[..n] == init;
      forall i | |st.items| <= i < |r0.items|
        ensures r0.items[i] in vs && FirstIndex(vs, r0.items[i]) == FirstIndex(init, r0.items[i])
      {
        FirstIndexPrefix(vs, n, r0.items[i]);
      }
      if v !in r0.pos {
        assert v !in init by {
          assert v !in Elements(r0.items);
        }
        assert FirstIndex(vs, v) == n;
        assert r.items == r0.items + [v];
      }
    }
  }

  /** `Pull` after appending a new value restores the set as it was. */
  lemma PullUndoesAppend(st: State, v: string)
    requires Indexed(st) && v !in st.items
    ensures CanPull(AppendOne(st, v))
    ensures AppendOne(st, v).items[AppendOne(st, v).size - 1] == v
    ensures AfterPull(AppendOne(st, v)) == st
  {
    assert v !in st.pos;
    assert (st.items + [v])[..|st.items|] == st.items;
    assert st.pos[v := st.size] - {v} == st.pos;
  }

  /** Appending the value `Pull` returned restores the set as it was. */
  lemma AppendUndoesPull(st: State)
    requires Indexed(st) && st.size > 0
    ensures AppendOne(AfterPull(st), st.items[st.size - 1]) == st
  {
    var n := st.size - 1;
    var x := st.items[n];
    var r := AfterPull(st);
    assert x !in r.pos;
    assert r.items + [x] == st.items;
    assert st.pos[x] == n;
    assert (st.pos - {x})[x := n] == st.pos;
  }

  /** On an indexed set, `Remove` of an item deletes exactly that item and keeps the others in order. */
  lemma RemovePresent(st: State, k: int)
    requires Indexed(st) && 0 <= k < |st.items|
    ensures CanRemove(st, st.items[k])
    ensures AfterRemove(st, st.items[k]).items == st.items[..k] + st.items[k + 1..]
    ensures AfterRemove(st, st.items[k]).size == st.size - 1 == |st.items| - 1
    ensures Distinct(AfterRemove(st, st.items[k]).items)
    ensures Elements(AfterRemove(st, st.items[k]).items) == Elements(st.items) - {st.items[k]}
  {
    assert st.pos[st.items[k]] == k;
    Splice(st.items, k);
  }

  /** Cutting one entry out of a sequence without repeats. */
  lemma Splice(s: seq<string>, k: int)
    requires Distinct(s) && 0 <= k < |s|
    ensures Distinct(s[..k] + s[k + 1..])
    ensures Elements(s[..k] + s[k + 1..]) == Elements(s) - {s[k]}
  {
    var t := s[..k] + s[k + 1..];
    forall i | 0 <= i < |t| ensures t[i] == s[if i < k then i else i + 1] {
      if i < k {
        assert t[i] == s[..k][i];
      } else {
        assert t[i] == s[k + 1..][i - k];
      }
    }
    forall i, j | 0 <= i < j < |t| ensures t[i] != t[j] {
      assert t[i] == s[if i < k then i else i + 1];
      assert t[j] == s[if j < k then j else j + 1];
    }
    assert s == s[..k] + [s[k]] + s[k + 1..];
    assert Elements(s) == Elements(t) + {s[k]};
  }

  /** `Remove` does not re-index: every item after the removed one keeps its
      old position, one too high. */
  lemma RemoveLeavesStale(st: State, k: int)
    requires Indexed(st) && 0 <= k < |st.items|
    ensures CanRemove(st, st.items[k])
    ensures forall j :: k <= j < |AfterRemove(st, st.items[k]).items| ==>
              var r := AfterRemove(st, st.items[k]);
              r.items[j] in r.pos && r.pos[r.items[j]] == j + 1
  {
    var r := AfterRemove(st, st.items[k]);
    var s := st.items;
    assert r.items == s[..k] + s[k + 1..];
    forall j | k <= j < |r.items| ensures r.items[j] in r.pos && r.pos[r.items[j]] == j + 1 {
      assert r.items[j] == s[j + 1];
    }
  }

  /** So after `Remove` the set stays indexed only when the last item was removed. */
  lemma RemoveIndexedOnlyAtEnd(st: State, k: int)
    requires Indexed(st) && 0 <= k < |st.items|
    ensures CanRemove(st, st.items[k])
    ensures Indexed(AfterRemove(st, st.items[k])) <==> k == |st.items| - 1
  {
    var r := AfterRemove(st, st.items[k]);
    var s := st.items;
    if k == |s| - 1 {
      RemovePresent(st, k);
      assert r.items == s[..k];
    } else {
      RemoveLeavesStale(st, k);
      assert r.pos[r.items[k]] == k + 1;
    }
  }

  /** A second `Remove` after a first one uses a stale position: removing
      "b" from what is left of ["a", "b", "c"] after removing "a" deletes "c",
      and removing "c" instead would index past the end. */
  lemma SecondRemoveDeletesWrongItem()
    ensures AppendAll(Empty(), ["a", "b", "c"]) == State(3, ["a", "b", "c"], map["a" := 0, "b" := 1, "c" := 2])
    ensures AfterRemove(State(3, ["a", "b", "c"], map["a" := 0, "b" := 1, "c" := 2]), "a")
         == State(2, ["b", "c"], map["b" := 1, "c" := 2])
    ensures AfterRemove(State(2, ["b", "c"], map["b" := 1, "c" := 2]), "b").items == ["b"]
    ensures !CanRemove(State(2, ["b", "c"], map["b" := 1, "c" := 2]), "c")
  {
    assert ["a", "b", "c"][..2] == ["a", "b"] && ["a", "b"][..1] == ["a"] && ["a"][..0] == [];
    var s3 := State(3, ["a", "b", "c"], map["a" := 0, "b" := 1, "c" := 2]);
    assert s3.items[1..] == ["b", "c"];
    assert map["a" := 0, "b" := 1, "c" := 2] - {"a"} == map["b" := 1, "c" := 2];
    var r1 := State(2, ["b", "c"], map["b" := 1, "c" := 2]);
    assert r1.items[..1] + r1.items[2..] == ["b"];
  }

  /** `Remove` as an ordered set means it: the later items are re-indexed. */
  function RemoveReindexed(st: State, v: string): State
    requires CanRemove(st, v)
  {
    if v !in st.pos then st
    else
      var p := st.pos[v];
      var rest := st.items[..p] + st.items[p + 1..];
      State(|rest|, rest, IndexMap(rest))
  }

  /** A sequence without repeats, its length and its `IndexMap` form an indexed set. */
  lemma IndexMapIndexes(s: seq<string>)
    requires Distinct(s)
    ensures Indexed(State(|s|, s, IndexMap(s)))
  {
    var m := IndexMap(s);
    forall i | 0 <= i < |s| ensures s[i] in m && m[s[i]] == i {
      assert s[i] in Elements(s);
    }
  }

  /** The re-indexing `Remove` keeps the set indexed and deletes exactly `v`. */
  lemma RemoveReindexedSpec(st: State, v: string)
    requires Indexed(st) && CanRemove(st, v)
    ensures Indexed(RemoveReindexed(st, v))
    ensures Elements(RemoveReindexed(st, v).items) == Elements(st.items) - {v}
    ensures v in st.items ==> |RemoveReindexed(st, v).items| == |st.items| - 1
  {
    if v in st.pos {
      var k := st.pos[v];
      assert st.items[k] == v;
      RemovePresent(st, k);
      IndexMapIndexes(st.items[..k] + st.items[k + 1..]);
    } else {
      assert v !in Elements(st.items);
    }
  }

  /** A subset of a finite set with as many elements is the whole set. */
  lemma SubsetSameCard(a: set<string>, b: set<string>)
    requires a <= b && |a| == |b|
    ensures a == b
  {
    assert |b - a| == |b| - |a|;
    assert b - a == {};
  }

  /** `Append` leaves the gap between `size` and the number of items as it was. */
  lemma {:induction false} AppendAllKeepsGap(st: State, vs: seq<string>)
    ensures AppendAll(st, vs).size - |AppendAll(st, vs).items| == st.size - |st.items|
  {
    if vs != [] {
      AppendAllKeepsGap(st, vs[..|vs| - 1]);
    }
  }

  /** `size` never exceeds the number of items: the zero value has neither,
      `Append` and `Remove` keep the gap, and `Pull` and a `Sorted` copy
      close it from below. So Go's `Pull` panic on a `size` beyond the items
      cannot happen; only a negative `size` (see NegativeSizeAfterSortedRemove) can. */
  lemma SizeAtMostItemsKept(st: State, vs: seq<string>, v: string)
    requires st.size <= |st.items|
    ensures Empty().size <= |Empty().items|
    ensures AppendAll(st, vs).size <= |AppendAll(st, vs).items|
    ensures CanPull(st) ==> AfterPull(st).size <= |AfterPull(st).items|
    ensures CanRemove(st, v) ==> AfterRemove(st, v).size <= |AfterRemove(st, v).items|
    ensures var c := State(0, Sort(st.items), IndexMap(Sort(st.items))); c.size <= |c.items|
  {
    AppendAllKeepsGap(st, vs);
  }

  /** Without `Sorted`, `size` is always the number of items, so `size` is never negative. */
  lemma SizeIsItemsKept(st: State, vs: seq<string>, v: string)
    requires st.size == |st.items|
    ensures AppendAll(st, vs).size == |AppendAll(st, vs).items|
    ensures CanPull(st) && AfterPull(st).size == |AfterPull(st).items|
    ensures CanRemove(st, v) ==> AfterRemove(st, v).size == |AfterRemove(st, v).items|
  {
    AppendAllKeepsGap(st, vs);
  }

  /** A negative `size` needs `Sorted` and then `Remove`: the sorted copy of
      {"a"} has size 0, removing "a" gives size -1, and `Pull` then panics. */
  lemma NegativeSizeAfterSortedRemove()
    ensures Sort(["a"]) == ["a"] && IndexMap(["a"]) == map["a" := 0]
    ensures CanRemove(State(0, ["a"], map["a" := 0]), "a")
    ensures AfterRemove(State(0, ["a"], map["a" := 0]), "a") == State(-1, [], map[])
    ensures !CanPull(State(-1, [], map[]))
  {
    var s: seq<string> := ["a"];
    assert s[..0] + s[1..] == [];
  }

  /** The sorted copy of {"a", "b"}: items a, b at positions 0 and 1. */
  lemma SortedCopyOfAB()
    ensures Sort(["a", "b"]) == ["a", "b"] && IndexMap(["a", "b"]) == map["a" := 0, "b" := 1]
  {
    var ab: seq<string> := ["a", "b"];
    assert ab[1..] == ["b"];
    assert Sort(["b"]) == ["b"] by {
      var b: seq<string> := ["b"];
      assert b[1..] == [];
    }
    assert LessEq("a", "b") by { assert "a"[0] < "b"[0]; }
    assert Sort(ab) == Insert("a", ["b"]) == ["a", "b"];
    assert ab[..1] == ["a"];
    var a: seq<string> := ["a"];
    assert a[..0] == [];
  }

  /** A stale position without any `Remove`: the sorted copy of {"a", "b"}
      (SortedCopyOfAB) has size 0, so `Append("c")` records "c" at position 0;
      `Pull` then cuts the items at 0 but deletes only "a", leaving keys "b"
      and "c" with no items, and a `Remove` of either panics. */
  lemma PullAfterSortedAppendStrands()
    ensures AppendAll(State(0, ["a", "b"], map["a" := 0, "b" := 1]), ["c"])
         == State(1, ["a", "b", "c"], map["a" := 0, "b" := 1, "c" := 0])
    ensures AfterPull(State(1, ["a", "b", "c"], map["a" := 0, "b" := 1, "c" := 0]))
         == State(0, [], map["b" := 1, "c" := 0])
    ensures !CanRemove(State(0, [], map["b" := 1, "c" := 0]), "b")
    ensures !CanRemove(State(0, [], map["b" := 1, "c" := 0]), "c")
  {
    var ab: seq<string> := ["a", "b"];
    assert "c"[0] != "a"[0] && "c"[0] != "b"[0];
    AppendNewOne(State(0, ab, map["a" := 0, "b" := 1]), "c");
    assert [] + ["c"] == ["c"];
    var abc: seq<string> := ["a", "b", "c"];
    assert abc[..0] == [];
    assert map["a" := 0, "b" := 1, "c" := 0] - {"a"} == map["b" := 1, "c" := 0];
  }

  /** `Equal` without `Match`: a set holding "a" and its sorted copy have the
      same items, but the copy's size is 0, so they do not `Match`. */
  lemma EqualWithoutMatchAfterSorted()
    ensures Sort(["a"]) == ["a"] && IndexMap(["a"]) == map["a" := 0]
    ensures var st, c := State(1, ["a"], map["a" := 0]), State(0, Sort(["a"]), IndexMap(Sort(["a"])));
            Indexed(st) && st.items == c.items && !Matches(st, c)
  {
    var s: seq<string> := ["a"];
    assert s[..0] == [] && s[1..] == [];
    assert Elements(s) == {"a"};
  }

  /** For two indexed sets, `Match` holds exactly when they hold the same
      strings, and `Equal` (same items) implies `Match`. */
  lemma MatchIffSameElements(a: State, b: State)
    requires Indexed(a) && Indexed(b)
    ensures Matches(a, b) <==> Elements(a.items) == Elements(b.items)
    ensures a.items == b.items ==> Matches(a, b)
  {
    var ea, eb := Elements(a.items), Elements(b.items);
    DistinctCard(a.items);
    DistinctCard(b.items);
    if Matches(a, b) {
      assert ea <= eb by {
        forall x | x in ea ensures x in eb {
          var i :| 0 <= i < |a.items| && a.items[i] == x;
        }
      }
      SubsetSameCard(ea, eb);
    }
    if ea == eb {
      forall i | 0 <= i < |a.items| ensures a.items[i] in b.pos {
        assert a.items[i] in ea;
      }
    }
  }

  /** Appending one value not yet present. */
  lemma AppendNewOne(st: State, a: string)
    requires a !in st.pos
    ensures AppendAll(st, [a]) == State(st.size + 1, st.items + [a], st.pos[a := st.size])
  {
    assert [a][..0] == [];
  }

  /** Appending two different values, neither present yet. */
  lemma AppendNewTwo(st: State, a: string, b: string)
    requires a != b && a !in st.pos && b !in st.pos
    ensures AppendAll(st, [a, b])
         == State(st.size + 2, st.items + [a, b], st.pos[a := st.size][b := st.size + 1])
  {
    assert [a, b][..1] == [a];
    AppendNewOne(st, a);
    assert st.items + [a] + [b] == st.items + [a, b];
  }

  /** `Match` does not imply `Equal`: the same two strings appended in the other order. */
  lemma MatchWithoutEqual()
    ensures var x := AppendAll(Empty(), ["foo", "cat"]);
            var y := AppendAll(Empty(), ["cat", "foo"]);
            Matches(x, y) && x.items != y.items
  {
    AppendNewTwo(Empty(), "foo", "cat");
    AppendNewTwo(Empty(), "cat", "foo");
    assert [] + ["foo", "cat"] == ["foo", "cat"] && [] + ["cat", "foo"] == ["cat", "foo"];
    assert "foo"[0] != "cat"[0];
  }

  /** `Sorted` of an indexed set: an ascending permutation of its items, with
      `pos` giving each item's sorted position, but with `size` 0 the copy is
      not indexed unless it is empty. */
  lemma SortedCopy(st: State)
    requires Distinct(st.items)
    ensures Ascending(Sort(st.items)) && multiset(Sort(st.items)) == multiset(st.items)
    ensures Distinct(Sort(st.items)) && Elements(Sort(st.items)) == Elements(st.items)
    ensures forall i :: 0 <= i < |Sort(st.items)| ==>
              (Sort(st.items)[i] in IndexMap(Sort(st.items)) && IndexMap(Sort(st.items))[Sort(st.items)[i]] == i)
    ensures st.items != [] ==> !Indexed(State(0, Sort(st.items), IndexMap(Sort(st.items))))
  {
    var s := Sort(st.items);
    assert |s| == |multiset(s)| == |st.items|;
    MultisetElements(s, st.items);
    IndexMapIndexes(s);
  }

  lemma MultisetElements(s: seq<string>, t: seq<string>)
    requires multiset(s) == multiset(t)
    ensures Elements(s) == Elements(t)
  {
    forall x ensures x in s <==> x in t {
      assert x in s <==> x in multiset(s);
      assert x in t <==> x in multiset(t);
    }
  }

  /** `Sorted` with `size` set: the copy an ordered set means to return. */
  function SortedFixed(st: State): State
  {
    var s := Sort(st.items);
    State(|s|, s, IndexMap(s))
  }

  lemma SortedFixedSpec(st: State)
    requires Distinct(st.items)
    ensures Indexed(SortedFixed(st))
    ensures Ascending(SortedFixed(st).items) && multiset(SortedFixed(st).items) == multiset(st.items)
    ensures SortedFixed(st).size == |st.items|
  {
    var s := Sort(st.items);
    assert |s| == |multiset(s)| == |st.items|;
    IndexMapIndexes(s);
  }


  /** The scenario of strs/setlist_test.go, first steps: a zero-value set,
      Append "foo", and Remove of the absent "bar". `lens` holds `Len()`
      after each step. */
  method FooScenario() returns (x: SetList, lens: seq<int>)
    ensures fresh(x)
    ensures x.Model() == State(1, ["foo"], map["foo" := 0]) && x.pos.Made?
    ensures lens == [0, 1, 1]
  {
    x, lens := NewFooScenario();
    assert "bar"[0] != "foo"[0];
    var removed := x.Remove("bar");
    lens := lens + [x.Len()];
  }

  /** The zero value, then Append "foo". */
  method NewFooScenario() returns (x: SetList, lens: seq<int>)
    ensures fresh(x)
    ensures x.Model() == State(1, ["foo"], map["foo" := 0]) && x.pos.Made?
    ensures lens == [0, 1]
  {
    x := new SetList();
    lens := [x.Len()];
    AppendNewOne(Empty(), "foo");
    x.Append(["foo"]);
    assert x.Model() == AppendAll(Empty(), ["foo"]);
    lens := lens + [x.Len()];
  }

  /** Then Append "bar" and "cat". */
  method AppendScenario() returns (x: SetList, lens: seq<int>)
    ensures fresh(x)
    ensures x.Model() == State(3, ["foo", "bar", "cat"], map["foo" := 0, "bar" := 1, "cat" := 2])
    ensures lens == [0, 1, 1, 3]
  {
    x, lens := FooScenario();
    AppendNewTwo(x.Model(), "bar", "cat");
    x.Append(["bar", "cat"]);
    lens := lens + [x.Len()];
  }

  /** Then `Remove("bar")`: two items are left, and the position of "cat" is stale. */
  method RemoveScenario() returns (x: SetList, len: int)
    ensures fresh(x)
    ensures x.Model() == State(2, ["foo", "cat"], map["foo" := 0, "cat" := 2])
    ensures len == 2
  {
    var lens;
    x, lens := AppendScenario();
    var removed := x.Remove("bar");
    assert x.items == ["foo", "bar", "cat"][..1] + ["foo", "bar", "cat"][2..] == ["foo", "cat"];
    assert map["foo" := 0, "bar" := 1, "cat" := 2] - {"bar"} == map["foo" := 0, "cat" := 2];
    len := x.Len();
  }

  /** Then a second set y gets "foo", "cat", and is `Equal` to x. */
  method EqualScenario() returns (x: SetList, y: SetList, sameOrder: bool)
    ensures fresh(x) && fresh(y)
    ensures x.Model() == State(2, ["foo", "cat"], map["foo" := 0, "cat" := 2])
    ensures y.Model() == State(2, ["foo", "cat"], map["foo" := 0, "cat" := 1])
    ensures sameOrder
  {
    var len;
    x, len := RemoveScenario();
    y := new SetList();
    AppendNewTwo(y.Model(), "foo", "cat");
    y.Append(["foo", "cat"]);
    sameOrder := x.Equal(y);
  }

  /** Then `Pull` on y returns "cat", after which the two are no longer `Equal`. */
  method PullScenario() returns (x: SetList, y: SetList, pulled: string, pulledOk: bool, afterPull: bool)
    ensures fresh(x) && fresh(y)
    ensures x.Model() == State(2, ["foo", "cat"], map["foo" := 0, "cat" := 2])
    ensures y.Model() == State(1, ["foo"], map["foo" := 0])
    ensures pulledOk && pulled == "cat" && !afterPull
  {
    var sameOrder;
    x, y, sameOrder := EqualScenario();
    pulled, pulledOk := y.Pull();
    afterPull := x.Equal(y);
  }

  /** Then y is emptied and refilled in the other order. */
  method RefillScenario() returns (x: SetList, y: SetList)
    ensures x.Model() == State(2, ["foo", "cat"], map["foo" := 0, "cat" := 2])
    ensures y.Model() == State(2, ["cat", "foo"], map["cat" := 0, "foo" := 1])
  {
    var pulled, pulledOk, afterPull;
    x, y, pulled, pulledOk, afterPull := PullScenario();
    var _, _ := y.Pull();
    assert y.Model() == Empty();
    AppendNewTwo(y.Model(), "cat", "foo");
    y.Append(["cat", "foo"]);
  }

  /** Finally: the refilled y is not `Equal` to x, but is a `Match`. */
  method EqualMatchScenario() returns (reversed: bool, matched: bool)
    ensures !reversed && matched
  {
    var x, y := RefillScenario();
    reversed := x.Equal(y);
    matched := x.Match(y);
  }
}
