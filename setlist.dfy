/** The insertion-ordered set of distinct strings of strs/setlist.go.

    A `SetList` keeps its items in a slice, their number in `size`, and the
    position of each item in the map `pos`. The value-level functions below
    say what each operation does to those three fields; the class's methods
    are proved to do exactly that, and the lemmas in SetListProperties state
    what follows. */
module SetLists {
  import opened StringOrder
  import Slices

  /** Go's `map[string]int` field: nil until `init` allocates it. A nil map
      reads as empty and deleting from it does nothing. */
  datatype PosMap = Nil | Made(m: map<string, int>) {

    function Entries(): map<string, int>
    {
      if Nil? then map[] else m
    }

    /** Go's `delete`. */
    function Delete(key: string): (r: PosMap)
      ensures r.Entries() == Entries() - {key}
      ensures r.Nil? == Nil?
    {
      if Nil? then Nil else Made(m - {key})
    }
  }

  /** The three fields of a SetList, with a nil `pos` read as empty. */
  datatype State = State(size: int, items: seq<string>, pos: map<string, int>)

  function Elements(s: seq<string>): set<string>
  {
    set x | x in s
  }

  /** The invariant an ordered set is meant to keep: `size` counts the items,
      no item occurs twice, and `pos` maps exactly the items to their positions. */
  ghost predicate Indexed(st: State)
  {
    && st.size == |st.items|
    && Distinct(st.items)
    && st.pos.Keys == Elements(st.items)
    && forall i :: 0 <= i < |st.items| ==> st.items[i] in st.pos && st.pos[st.items[i]] == i
  }

  /** The zero value. */
  function Empty(): State
  {
    State(0, [], map[])
  }

  /** One iteration of `Append`'s loop: a value `pos` already holds is skipped. */
  function AppendOne(st: State, v: string): State
  {
    if v in st.pos then st
    else State(st.size + 1, st.items + [v], st.pos[v := st.size])
  }

  /** `Append(values...)`: the values taken one at a time, in argument order. */
  function AppendAll(st: State, values: seq<string>): State
    decreases |values|
  {
    if values == [] then st
    else AppendOne(AppendAll(st, values[..|values| - 1]), values[|values| - 1])
  }

  /** `Pull` does not index out of range (Go would panic otherwise). */
  predicate CanPull(st: State)
  {
    st.size == 0 || 0 < st.size <= |st.items|
  }

  /** `Pull`: nothing when `size` is 0, otherwise drop the item at `size - 1`
      and everything after it, and delete its key. */
  function AfterPull(st: State): State
    requires CanPull(st)
  {
    if st.size == 0 then st
    else
      var n := st.size - 1;
      State(n, st.items[..n], st.pos - {st.items[n]})
  }

  /** The position `pos` records for `v`, if any, is inside `items` (Go would
      panic otherwise). */
  predicate CanRemove(st: State, v: string)
  {
    v in st.pos ==> 0 <= st.pos[v] < |st.items|
  }

  /** `Remove` as written: splice out the item at the recorded position,
      decrement `size` and delete `v`'s key, leaving the other positions as they were. */
  function AfterRemove(st: State, v: string): State
    requires CanRemove(st, v)
  {
    if v !in st.pos then st
    else
      var p := st.pos[v];
      State(st.size - 1, st.items[..p] + st.items[p + 1..], st.pos - {v})
  }

  /** `Match`: equal sizes, and every item of `a` is a key of `b`'s `pos`. */
  predicate Matches(a: State, b: State)
  {
    a.size == b.size && forall i :: 0 <= i < |a.items| ==> a.items[i] in b.pos
  }

  /** The map that writing `pos[s[i]] = i` for every `i` in turn leaves behind. */
  function IndexMap(s: seq<string>): (m: map<string, int>)
    ensures m.Keys == Elements(s)
    ensures forall x :: x in m ==> 0 <= m[x] < |s| && s[m[x]] == x
  {
    if s == [] then map[]
    else
      var n := |s| - 1;
      var m' := IndexMap(s[..n]);
      assert forall x :: x in s <==> x in s[..n] || x == s[n] by {
        assert s == s[..n] + [s[n]];
      }
      m'[s[n] := n]
  }

  /** The last write wins: each key maps to the last position holding it. */
  lemma {:induction false} IndexMapKeepsLast(s: seq<string>)
    ensures forall x :: x in IndexMap(s) ==> x !in s[IndexMap(s)[x] + 1..]
  {
    if s != [] {
      var n := |s| - 1;
      IndexMapKeepsLast(s[..n]);
      var m' := IndexMap(s[..n]);
      forall x | x in m' && x != s[n] ensures x !in s[m'[x] + 1..] {
        assert s[m'[x] + 1..] == s[..n][m'[x] + 1..] + [s[n]];
      }
    }
  }

  lemma IndexMapStep(s: seq<string>, i: int)
    requires 0 <= i < |s|
    ensures IndexMap(s[..i + 1]) == IndexMap(s[..i])[s[i] := i]
  {
    assert s[..i + 1][..i] == s[..i];
  }

  /** One argument of `Append` keeps the set indexed and adds the value at the end unless present. */
  lemma AppendOneSpec(st: State, v: string)
    requires Indexed(st)
    ensures Indexed(AppendOne(st, v))
    ensures AppendOne(st, v).items == if v in st.items then st.items else st.items + [v]
  {
    if v !in st.pos {
      var r := AppendOne(st, v);
      assert Elements(r.items) == Elements(st.items) + {v};
      forall i, j | 0 <= i < j < |r.items| ensures r.items[i] != r.items[j] {
        if j == |st.items| {
          assert r.items[i] == st.items[i];
        }
      }
    }
  }

  /** `Append` keeps the set indexed and keeps the old items as a prefix. */
  lemma {:induction false} AppendAllIndexed(st: State, vs: seq<string>)
    requires Indexed(st)
    ensures Indexed(AppendAll(st, vs))
    ensures |st.items| <= |AppendAll(st, vs).items|
    ensures AppendAll(st, vs).items[..|st.items|] == st.items
  {
    if vs != [] {
      var n := |vs| - 1;
      var r0 := AppendAll(st, vs[..n]);
      AppendAllIndexed(st, vs[..n]);
      AppendOneSpec(r0, vs[n]);
      var r := AppendAll(st, vs);
      assert r.items[..|st.items|] == r0.items[..|st.items|];
    }
  }
  lemma ElementsSnoc(s: seq<string>, x: string)
    ensures Elements(s + [x]) == Elements(s) + {x}
  {
    assert forall y :: y in s + [x] <==> y in s || y == x;
  }

  /** `Pull` keeps the set indexed and removes exactly the last item. */
  lemma PullSpec(st: State)
    requires Indexed(st)
    ensures CanPull(st) && Indexed(AfterPull(st))
    ensures st.size > 0 ==> Elements(AfterPull(st).items) == Elements(st.items) - {st.items[st.size - 1]}
  {
    if st.size > 0 {
      var n := st.size - 1;
      var x := st.items[n];
      var r := AfterPull(st);
      assert st.items == r.items + [x];
      ElementsSnoc(r.items, x);
      assert x !in r.items;
      forall i | 0 <= i < n ensures r.items[i] == st.items[i] && r.items[i] != x {
      }
      assert r.pos.Keys == Elements(r.items);
    }
  }

  class SetList {
    var size: int
    var items: seq<string>
    var pos: PosMap

    /** The fields as a value. */
    function Model(): State
      reads this
    {
      State(size, items, pos.Entries())
    }

    ghost predicate Valid()
      reads this
    {
      Indexed(Model())
    }

    /** The zero value `var x SetList`: usable without initialisation. */
    constructor ()
      ensures Model() == Empty() && pos.Nil?
      ensures Valid()
    {
      size := 0;
      items := [];
      pos := Nil;
    }

    /** Allocates `pos` if it is still nil. */
    method Init()
      modifies this
      ensures pos.Made? && Model() == old(Model())
      ensures old(pos).Made? ==> pos == old(pos)
    {
      if pos.Nil? {
        pos := Made(map[]);
      }
    }

    /** Same items in the same order. */
    method Equal(other: SetList) returns (eq: bool)
      ensures eq <==> items == other.items
    {
      eq := Slices.Equal(items, other.items);
    }

    /** Same size, and every item of this set is in `other`. */
    method Match(other: SetList) returns (m: bool)
      ensures m <==> Matches(Model(), other.Model())
    {
      if size != other.size {
        return false;
      }
      for i := 0 to |items|
        invariant forall j :: 0 <= j < i ==> items[j] in other.pos.Entries()
      {
        if !other.Contains(items[i]) {
          return false;
        }
      }
      return true;
    }

    /** Adds each value `pos` does not hold yet, at the end, at position `size`. */
    method Append(values: seq<string>)
      modifies this
      ensures pos.Made?
      ensures Model() == AppendAll(old(Model()), values)
      ensures old(Valid()) ==> Valid()
    {
      Init();
      for i := 0 to |values|
        invariant pos.Made?
        invariant Model() == AppendAll(old(Model()), values[..i])
      {
        assert values[..i + 1][..i] == values[..i];
        var val := values[i];
        if val in pos.m {
          continue;
        }
        items := items + [val];
        pos := Made(pos.m[val := size]);
        size := size + 1;
      }
      assert values[..|values|] == values;
      if old(Valid()) {
        AppendAllIndexed(old(Model()), values);
      }
    }

    /** Removes and returns the last item, or reports that there is none. */
    method Pull() returns (s: string, ok: bool)
      requires CanPull(Model())
      modifies this
      ensures ok <==> old(size) != 0
      ensures s == if ok then old(items[size - 1]) else ""
      ensures Model() == AfterPull(old(Model()))
      ensures pos.Nil? == old(pos.Nil?)
      ensures old(Valid()) ==> Valid()
    {
      if old(Valid()) {
        PullSpec(Model());
      }
      if size == 0 {
        return "", false;
      }
      size := size - 1;
      s := items[size];
      items := items[..size];
      pos := pos.Delete(s);
      return s, true;
    }

    /** Removes `value` if `pos` holds it; the positions of later items are not updated. */
    method Remove(value: string) returns (removed: bool)
      requires CanRemove(Model(), value)
      modifies this
      ensures removed <==> value in old(pos.Entries())
      ensures !removed ==> Model() == old(Model())
      ensures Model() == AfterRemove(old(Model()), value)
      ensures pos.Nil? == old(pos.Nil?)
    {
      if value !in pos.Entries() {
        return false;
      }
      var p := pos.Entries()[value];
      items := items[..p] + items[p + 1..];
      size := size - 1;
      pos := pos.Delete(value);
      return true;
    }

    function Len(): (n: int)
      reads this
      ensures n == size
      ensures Valid() ==> n == |items|
    {
      size
    }

    /** The item at `i`, or "" from `size` on (including a negative `i` when `size` is negative). */
    function Get(i: int): (r: string)
      reads this
      requires i < size ==> 0 <= i < |items|
      ensures i < size ==> r == items[i]
      ensures size <= i ==> r == ""
      ensures Valid() && 0 <= i < |items| ==> r in pos.Entries() && pos.Entries()[r] == i
    {
      if i >= size then "" else items[i]
    }

    function Contains(value: string): (b: bool)
      reads this
      ensures b <==> value in pos.Entries()
      ensures Valid() ==> (b <==> value in items)
    {
      value in pos.Entries()
    }

    /** A copy of the items, in order. */
    function Items(): (r: seq<string>)
      reads this
      ensures r == items
      ensures Valid() ==> |r| == Len() && Distinct(r)
    {
      items
    }

    /** A new SetList holding the items in ascending order, with `pos` rebuilt
        for that order; its `size` is never set and stays 0. */
    method Sorted() returns (result: SetList)
      ensures fresh(result)
      ensures result.items == Sort(items)
      ensures result.size == 0
      ensures result.pos.Made? && result.pos.Entries() == IndexMap(result.items)
    {
      result := new SetList();
      result.Init();
      result.items := result.items + items;
      assert result.items == items;
      result.items := Sort(result.items);
      var sorted := result.items;
      for i := 0 to |sorted|
        invariant result.items == sorted && result.size == 0
        invariant result.pos.Made?
        invariant result.pos.Entries() == IndexMap(sorted[..i])
      {
        IndexMapStep(sorted, i);
        result.pos := Made(result.pos.m[sorted[i] := i]);
      }
      assert sorted[..|sorted|] == sorted;
    }
  }
}
