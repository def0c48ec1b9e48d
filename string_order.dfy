/** Byte-wise lexicographic order on strings and a sort by it: the part of the
    Go library's `sort.Strings` that `SetList.Sorted` relies on. */
module StringOrder {

  /** `a` sorts no later than `b`: compare code unit by code unit, and a
      proper prefix sorts first (Go's `a <= b` on strings). */
  predicate LessEq(a: string, b: string)
  {
    a == [] || (b != [] && (a[0] < b[0] || (a[0] == b[0] && LessEq(a[1..], b[1..]))))
  }

  lemma {:induction false} LessEqTotal(a: string, b: string)
    ensures LessEq(a, b) || LessEq(b, a)
  {
    if a != [] && b != [] && a[0] == b[0] {
      LessEqTotal(a[1..], b[1..]);
    }
  }

  lemma {:induction false} LessEqAntisymmetric(a: string, b: string)
    requires LessEq(a, b) && LessEq(b, a)
    ensures a == b
  {
    if a != [] && b != [] {
      LessEqAntisymmetric(a[1..], b[1..]);
      assert a == [a[0]] + a[1..] && b == [b[0]] + b[1..];
    }
  }

  lemma {:induction false} LessEqTransitive(a: string, b: string, c: string)
    requires LessEq(a, b) && LessEq(b, c)
    ensures LessEq(a, c)
  {
    if a != [] && b != [] && c != [] && a[0] == b[0] && b[0] == c[0] {
      LessEqTransitive(a[1..], b[1..], c[1..]);
    }
  }

  /** Each string sorts no later than the next one. */
  predicate Ascending(s: seq<string>)
  {
    forall i :: 0 < i < |s| ==> LessEq(s[i - 1], s[i])
  }

  /** No string occurs twice. */
  predicate Distinct(s: seq<string>)
  {
    forall i, j :: 0 <= i < j < |s| ==> s[i] != s[j]
  }

  /** In an ascending sequence every earlier string sorts no later than every later one. */
  lemma {:induction false} AscendingAllPairs(s: seq<string>, i: int, j: int)
    requires Ascending(s) && 0 <= i <= j < |s|
    ensures LessEq(s[i], s[j])
    decreases j - i
  {
    if i == j {
      LessEqReflexive(s[i]);
    } else {
      AscendingAllPairs(s, i, j - 1);
      LessEqTransitive(s[i], s[j - 1], s[j]);
    }
  }

  lemma {:induction false} LessEqReflexive(a: string)
    ensures LessEq(a, a)
  {
    if a != [] {
      LessEqReflexive(a[1..]);
    }
  }

  /** Inserts `x` into an ascending sequence at the first place that keeps it ascending. */
  function Insert(x: string, s: seq<string>): (r: seq<string>)
    requires Ascending(s)
    ensures Ascending(r)
    ensures multiset(r) == multiset(s) + multiset{x}
    ensures r[0] == x || (s != [] && r[0] == s[0])
    ensures Distinct(s) && x !in s ==> Distinct(r)
  {
    if s == [] then
      [x]
    else if LessEq(x, s[0]) then
      DistinctCons(x, s);
      [x] + s
    else
      LessEqTotal(x, s[0]);
      assert s == [s[0]] + s[1..];
      DistinctTail(s);
      var rest := Insert(x, s[1..]);
      assert LessEq(s[0], rest[0]);
      assert Distinct(s) && x !in s ==> s[0] !in multiset(rest);
      DistinctCons(s[0], rest);
      [s[0]] + rest
  }

  lemma DistinctCons(x: string, s: seq<string>)
    ensures Distinct(s) && x !in s ==> Distinct([x] + s)
  {
    if Distinct(s) && x !in s {
      forall i, j | 0 <= i < j < |s| + 1
        ensures ([x] + s)[i] != ([x] + s)[j]
      {
        if i > 0 {
          assert ([x] + s)[i] == s[i - 1];
        }
        assert ([x] + s)[j] == s[j - 1];
      }
    }
  }

  lemma DistinctTail(s: seq<string>)
    requires s != []
    ensures Distinct(s) ==> Distinct(s[1..]) && s[0] !in s[1..]
  {
    if Distinct(s) {
      forall i, j | 0 <= i < j < |s| - 1
        ensures s[1..][i] != s[1..][j]
      {
        assert s[1..][i] == s[i + 1] && s[1..][j] == s[j + 1];
      }
      forall i | 0 <= i < |s| - 1
        ensures s[1..][i] != s[0]
      {
        assert s[1..][i] == s[i + 1];
      }
    }
  }

  /** Insertion sort: an ascending permutation of `s`. */
  function Sort(s: seq<string>): (r: seq<string>)
    ensures Ascending(r)
    ensures multiset(r) == multiset(s)
    ensures Distinct(s) ==> Distinct(r)
  {
    if s == [] then
      []
    else
      var rest := Sort(s[1..]);
      assert s == [s[0]] + s[1..];
      DistinctTail(s);
      assert s[0] !in s[1..] ==> s[0] !in multiset(rest);
      Insert(s[0], rest)
  }

  /** There is only one ascending permutation of a sequence, so `Sort` agrees
      with any other sort by the same order. */
  lemma {:induction false} AscendingPermutationUnique(s: seq<string>, t: seq<string>)
    requires Ascending(s) && Ascending(t) && multiset(s) == multiset(t)
    ensures s == t
  {
    if s != [] {
      HeadsAgree(s, t);
      MultisetTail(s);
      MultisetTail(t);
      AscendingTail(s);
      AscendingTail(t);
      AscendingPermutationUnique(s[1..], t[1..]);
      assert s == [s[0]] + s[1..] && t == [t[0]] + t[1..];
    }
  }

  lemma HeadsAgree(s: seq<string>, t: seq<string>)
    requires Ascending(s) && Ascending(t) && multiset(s) == multiset(t) && s != []
    ensures t != [] && s[0] == t[0]
  {
    assert s[0] in multiset(t) && t[0] in multiset(s);
    AscendingHead(t, s[0]);
    AscendingHead(s, t[0]);
    LessEqAntisymmetric(s[0], t[0]);
  }

  lemma AscendingHead(s: seq<string>, x: string)
    requires Ascending(s) && x in s
    ensures LessEq(s[0], x)
  {
    var i :| 0 <= i < |s| && s[i] == x;
    AscendingAllPairs(s, 0, i);
  }

  lemma MultisetTail(s: seq<string>)
    requires s != []
    ensures multiset(s[1..]) == multiset(s) - multiset{s[0]}
  {
    assert s == [s[0]] + s[1..];
  }

  lemma AscendingTail(s: seq<string>)
    requires Ascending(s) && s != []
    ensures Ascending(s[1..])
  {
    forall i | 0 < i < |s| - 1
      ensures LessEq(s[1..][i - 1], s[1..][i])
    {
      assert s[1..][i - 1] == s[i] && s[1..][i] == s[i + 1];
    }
  }
}
