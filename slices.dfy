/** Free functions over string slices (strs/slices.go). A Go slice is a
    `seq<string>`; a callback is a total Dafny function value. */
module Slices {

  datatype Option<T> = None | Some(value: T)

  /** What a fallible callback returns: a string, or an error in place of Go's non-nil `error`. */
  datatype Result<T, E> = Ok(value: T) | Err(error: E)

  /** Element-wise comparison, length first, leaving at the first mismatch. */
  method Equal(a: seq<string>, b: seq<string>) returns (eq: bool)
    ensures eq <==> a == b
  {
    if |a| != |b| {
      return false;
    }
    for i := 0 to |a|
      invariant forall j :: 0 <= j < i ==> a[j] == b[j]
    {
      if a[i] != b[i] {
        return false;
      }
    }
    return true;
  }

  /** Go's missing conditional expression, for strings. */
  function IfElse(cond: bool, ifTrue: string, ifFalse: string): (r: string)
    ensures cond ==> r == ifTrue
    ensures !cond ==> r == ifFalse
  {
    if cond then ifTrue else ifFalse
  }

  /** The slice `Map` returns: `f` applied to every element, in order. */
  function Mapped(a: seq<string>, f: string -> string): (r: seq<string>)
    ensures |r| == |a|
    ensures forall i :: 0 <= i < |a| ==> r[i] == f(a[i])
  {
    if a == [] then [] else Mapped(a[..|a| - 1], f) + [f(a[|a| - 1])]
  }

  /** Fills a result slice of the input's length, one index at a time. */
  method Map(a: seq<string>, f: string -> string) returns (result: seq<string>)
    ensures result == Mapped(a, f)
  {
    var r := new string[|a|](_ => "");
    for i := 0 to |a|
      invariant forall j :: 0 <= j < i ==> r[j] == f(a[j])
    {
      r[i] := f(a[i]);
    }
    result := r[..];
  }

  function Prefix(a: seq<string>, prefix: string): (r: seq<string>)
    ensures |r| == |a|
    ensures forall i :: 0 <= i < |a| ==> r[i] == prefix + a[i]
  {
    Mapped(a, s => prefix + s)
  }

  function Suffix(a: seq<string>, suffix: string): (r: seq<string>)
    ensures |r| == |a|
    ensures forall i :: 0 <= i < |a| ==> r[i] == a[i] + suffix
  {
    Mapped(a, s => s + suffix)
  }

  /** The string `Combine` builds: each element wrapped in `prefix` and
      `suffix`, with `joiner` between neighbours. */
  function Combined(a: seq<string>, prefix: string, joiner: string, suffix: string): string
  {
    if a == [] then ""
    else if |a| == 1 then prefix + a[0] + suffix
    else Combined(a[..|a| - 1], prefix, joiner, suffix) + joiner + prefix + a[|a| - 1] + suffix
  }

  /** Writes into a growing buffer, the joiner before every element but the first. */
  method Combine(a: seq<string>, prefix: string, joiner: string, suffix: string) returns (result: string)
    ensures result == Combined(a, prefix, joiner, suffix)
  {
    result := "";
    for i := 0 to |a|
      invariant result == Combined(a[..i], prefix, joiner, suffix)
    {
      assert a[..i + 1][..i] == a[..i];
      if i > 0 {
        result := result + joiner;
      }
      result := result + prefix;
      result := result + a[i];
      result := result + suffix;
    }
    assert a[..|a|] == a;
  }

  /** `Combined` of two non-empty runs is their `Combined` values with one joiner between. */
  lemma {:induction false} CombinedSplit(a: seq<string>, b: seq<string>, prefix: string, joiner: string, suffix: string)
    requires a != [] && b != []
    ensures Combined(a + b, prefix, joiner, suffix)
         == Combined(a, prefix, joiner, suffix) + joiner + Combined(b, prefix, joiner, suffix)
    decreases |b|
  {
    var n := |b| - 1;
    var w := prefix + b[n] + suffix;
    assert (a + b)[..|a + b| - 1] == a + b[..n];
    if n == 0 {
      assert a + b[..n] == a;
    } else {
      var ca, cb := Combined(a, prefix, joiner, suffix), Combined(b[..n], prefix, joiner, suffix);
      calc {
        Combined(a + b, prefix, joiner, suffix);
        Combined(a + b[..n], prefix, joiner, suffix) + joiner + w;
        { CombinedSplit(a, b[..n], prefix, joiner, suffix); }
        ca + joiner + cb + joiner + w;
        ca + joiner + (cb + joiner + w);
        { assert b[..n] == b[..|b| - 1]; }
        ca + joiner + Combined(b, prefix, joiner, suffix);
      }
    }
  }

  /** The first element is wrapped with no joiner before it, and the rest follow after one joiner. */
  lemma CombinedFront(a: seq<string>, prefix: string, joiner: string, suffix: string)
    requires a != []
    ensures Combined(a, prefix, joiner, suffix)
         == prefix + a[0] + suffix + (if |a| == 1 then "" else joiner + Combined(a[1..], prefix, joiner, suffix))
  {
    if |a| > 1 {
      assert a == [a[0]] + a[1..];
      CombinedSplit([a[0]], a[1..], prefix, joiner, suffix);
    }
  }

  /** `Combined` is empty for no elements; otherwise it starts with the first
      element wrapped and ends with the last element wrapped. */
  lemma CombinedEnds(a: seq<string>, prefix: string, joiner: string, suffix: string)
    ensures a == [] ==> Combined(a, prefix, joiner, suffix) == ""
    ensures a != [] ==> prefix + a[0] + suffix <= Combined(a, prefix, joiner, suffix)
    ensures a != [] ==>
              var r, w := Combined(a, prefix, joiner, suffix), prefix + a[|a| - 1] + suffix;
              |w| <= |r| && r[|r| - |w|..] == w
  {
    if a != [] {
      CombinedFront(a, prefix, joiner, suffix);
      var r, w := Combined(a, prefix, joiner, suffix), prefix + a[|a| - 1] + suffix;
      if |a| > 1 {
        var c := Combined(a[..|a| - 1], prefix, joiner, suffix) + joiner;
        assert r == c + w;
      }
      assert r[|r| - |w|..] == w;
    }
  }

  /** `f` succeeds on every element before `k` and fails on `a[k]`. */
  ghost predicate FailsFirstAt<E>(a: seq<string>, f: string -> Result<string, E>, k: int)
  {
    0 <= k < |a| && f(a[k]).Err? && forall j :: 0 <= j < k ==> f(a[j]).Ok?
  }

  /** Like `Map`, but stops at the first failing element and returns its error;
      the result slots from that element on keep the empty string. */
  method MapErr<E>(a: seq<string>, f: string -> Result<string, E>) returns (result: seq<string>, err: Option<E>)
    ensures |result| == |a|
    ensures err.None? <==> forall j :: 0 <= j < |a| ==> f(a[j]).Ok?
    ensures err.None? ==> forall j :: 0 <= j < |a| ==> f(a[j]).Ok? && result[j] == f(a[j]).value
    ensures err.Some? ==>
              exists k :: FailsFirstAt(a, f, k) && err.value == f(a[k]).error
                && (forall j :: 0 <= j < k ==> f(a[j]).Ok? && result[j] == f(a[j]).value)
                && (forall j :: k <= j < |a| ==> result[j] == "")
  {
    var r := new string[|a|](_ => "");
    for i := 0 to |a|
      invariant forall j :: 0 <= j < i ==> f(a[j]).Ok? && r[j] == f(a[j]).value
      invariant forall j :: i <= j < |a| ==> r[j] == ""
    {
      var n := f(a[i]);
      if n.Err? {
        assert FailsFirstAt(a, f, i);
        return r[..], Some(n.error);
      }
      r[i] := n.value;
    }
    return r[..], None;
  }

  /** The elements satisfying `f`, in their original order. */
  function Filtered(a: seq<string>, f: string -> bool): (r: seq<string>)
    ensures |r| <= |a|
    ensures forall x :: x in r ==> x in a && f(x)
  {
    if a == [] then []
    else
      var last := a[|a| - 1];
      Filtered(a[..|a| - 1], f) + (if f(last) then [last] else [])
  }

  /** Appends every element satisfying `f` to an initially empty result. */
  method Filter(a: seq<string>, f: string -> bool) returns (result: seq<string>)
    ensures result == Filtered(a, f)
  {
    result := [];
    for i := 0 to |a|
      invariant result == Filtered(a[..i], f)
    {
      assert a[..i + 1][..i] == a[..i];
      if f(a[i]) {
        result := result + [a[i]];
      }
    }
    assert a[..|a|] == a;
  }

  /** The number of elements satisfying `f`. */
  function Counted(a: seq<string>, f: string -> bool): (n: nat)
    ensures n <= |a|
  {
    if a == [] then 0
    else Counted(a[..|a| - 1], f) + (if f(a[|a| - 1]) then 1 else 0)
  }

  method Count(a: seq<string>, f: string -> bool) returns (count: int)
    ensures count == Counted(a, f)
  {
    count := 0;
    for i := 0 to |a|
      invariant count == Counted(a[..i], f)
    {
      assert a[..i + 1][..i] == a[..i];
      if f(a[i]) {
        count := count + 1;
      }
    }
    assert a[..|a|] == a;
  }

  /** `r` is `a` with some elements deleted and the rest kept in order. */
  ghost predicate Subsequence(r: seq<string>, a: seq<string>)
    decreases |a|
  {
    if r == [] then true
    else if a == [] then false
    else
      (r[|r| - 1] == a[|a| - 1] && Subsequence(r[..|r| - 1], a[..|a| - 1]))
      || Subsequence(r, a[..|a| - 1])
  }

  /** `Filter` keeps the satisfying elements in their original order. */
  lemma {:induction false} FilteredIsSubsequence(a: seq<string>, f: string -> bool)
    ensures Subsequence(Filtered(a, f), a)
  {
    if a != [] {
      var init := a[..|a| - 1];
      FilteredIsSubsequence(init, f);
      var r := Filtered(a, f);
      if f(a[|a| - 1]) {
        assert r[..|r| - 1] == Filtered(init, f);
      } else {
        assert r == Filtered(init, f);
      }
    }
  }

  /** `Filter` drops no satisfying element, and `Count` counts what it keeps. */
  lemma {:induction false} FilteredComplete(a: seq<string>, f: string -> bool)
    ensures forall x :: x in a && f(x) ==> x in Filtered(a, f)
    ensures |Filtered(a, f)| == Counted(a, f)
  {
    if a != [] {
      var init := a[..|a| - 1];
      FilteredComplete(init, f);
      assert a == init + [a[|a| - 1]];
    }
  }

  /** The indices of `a` whose element satisfies `f`. */
  ghost function Matching(a: seq<string>, f: string -> bool): set<int>
  {
    set i | 0 <= i < |a| && f(a[i])
  }

  /** `Count` is the number of indices whose element satisfies `f`. */
  lemma {:induction false} CountedIsMatching(a: seq<string>, f: string -> bool)
    ensures Counted(a, f) == |Matching(a, f)|
  {
    if a != [] {
      var n := |a| - 1;
      CountedIsMatching(a[..n], f);
      assert forall i :: 0 <= i < n ==> a[..n][i] == a[i];
      if f(a[n]) {
        assert Matching(a, f) == Matching(a[..n], f) + {n};
      } else {
        assert Matching(a, f) == Matching(a[..n], f);
      }
    }
  }

  /** The first element satisfying `f`, or `("", false)` when none does. */
  method First(a: seq<string>, f: string -> bool) returns (s: string, found: bool)
    ensures found ==> exists k :: 0 <= k < |a| && s == a[k] && f(a[k]) && forall j :: 0 <= j < k ==> !f(a[j])
    ensures !found ==> s == "" && forall j :: 0 <= j < |a| ==> !f(a[j])
  {
    for i := 0 to |a|
      invariant forall j :: 0 <= j < i ==> !f(a[j])
    {
      if f(a[i]) {
        return a[i], true;
      }
    }
    return "", false;
  }

  method Contains(a: seq<string>, search: string) returns (found: bool)
    ensures found <==> search in a
  {
    for i := 0 to |a|
      invariant search !in a[..i]
    {
      if a[i] == search {
        return true;
      }
    }
    assert a[..|a|] == a;
    return false;
  }

  /** The least position holding `search`, or `(0, false)` when there is none. */
  method Index(a: seq<string>, search: string) returns (k: int, found: bool)
    ensures found <==> search in a
    ensures found ==> 0 <= k < |a| && a[k] == search && search !in a[..k]
    ensures !found ==> k == 0
  {
    for i := 0 to |a|
      invariant search !in a[..i]
    {
      if a[i] == search {
        return i, true;
      }
    }
    assert a[..|a|] == a;
    return 0, false;
  }
}
