/** The array operations of JavaScript that the services and stores use, as functions on sequences. */
module Seqs {
  import opened Common

  predicate NoDups<T(==)>(s: seq<T>) {
    forall i, j :: 0 <= i < j < |s| ==> s[i] != s[j]
  }

  /** `a` can be obtained from `b` by deleting elements, without reordering the others. */
  predicate IsSubsequence<T(==)>(a: seq<T>, b: seq<T>)
    decreases |b|
  {
    if a == [] then true
    else if b == [] then false
    else if a[0] == b[0] then IsSubsequence(a[1..], b[1..])
    else IsSubsequence(a, b[1..])
  }

  /** `Array.prototype.filter`: the elements of `s` that satisfy `keep`, in their original order. */
  function Filter<T(==,!new)>(s: seq<T>, keep: T -> bool): (r: seq<T>)
    ensures |r| <= |s|
    ensures forall x :: x in r <==> x in s && keep(x)
    ensures forall x :: multiset(r)[x] == (if keep(x) then multiset(s)[x] else 0)
    decreases |s|
  {
    if s == [] then []
    else
      assert s == [s[0]] + s[1..];
      if keep(s[0]) then [s[0]] + Filter(s[1..], keep) else Filter(s[1..], keep)
  }

  /** Filtering keeps the survivors in their original order. */
  lemma {:induction false} FilterIsSubsequence<T(!new)>(s: seq<T>, keep: T -> bool)
    ensures IsSubsequence(Filter(s, keep), s)
    decreases |s|
  {
    if s != [] {
      FilterIsSubsequence(s[1..], keep);
      var rest := Filter(s[1..], keep);
      if keep(s[0]) {
        assert ([s[0]] + rest)[1..] == rest;
      } else if rest != [] {
        assert keep(rest[0]);
      }
    }
  }

  /** Filtering distributes over concatenation: the order of the survivors is that of the input. */
  lemma {:induction false} FilterConcat<T(!new)>(a: seq<T>, b: seq<T>, keep: T -> bool)
    ensures Filter(a + b, keep) == Filter(a, keep) + Filter(b, keep)
    decreases |a|
  {
    if a == [] {
      assert a + b == b;
    } else {
      assert (a + b)[0] == a[0];
      assert (a + b)[1..] == a[1..] + b;
      FilterConcat(a[1..], b, keep);
    }
  }

  /** A filter that every element passes returns its input. */
  lemma {:induction false} FilterKeepsAll<T(!new)>(s: seq<T>, keep: T -> bool)
    requires forall x :: x in s ==> keep(x)
    ensures Filter(s, keep) == s
    decreases |s|
  {
    if s != [] {
      assert forall x :: x in s[1..] ==> x in s;
      FilterKeepsAll(s[1..], keep);
    }
  }

  /** Filtering twice by the same predicate is filtering once. */
  lemma FilterIdempotent<T(!new)>(s: seq<T>, keep: T -> bool)
    ensures Filter(Filter(s, keep), keep) == Filter(s, keep)
  {
    FilterKeepsAll(Filter(s, keep), keep);
  }

  /** Filtering by `outer` first changes nothing when every element `inner` keeps also passes `outer`. */
  lemma {:induction false} FilterAbsorbs<T(!new)>(s: seq<T>, outer: T -> bool, inner: T -> bool)
    requires forall x :: x in s && inner(x) ==> outer(x)
    ensures Filter(Filter(s, outer), inner) == Filter(s, inner)
    decreases |s|
  {
    if s != [] {
      assert forall x :: x in s[1..] ==> x in s;
      FilterAbsorbs(s[1..], outer, inner);
      var rest := Filter(s[1..], outer);
      if outer(s[0]) {
        assert ([s[0]] + rest)[0] == s[0];
        assert ([s[0]] + rest)[1..] == rest;
      }
    }
  }

  /** Overwriting a rejected element with another rejected element does not change the filter. */
  lemma {:induction false} FilterOverwrite<T(!new)>(s: seq<T>, i: nat, x: T, keep: T -> bool)
    requires i < |s| && !keep(s[i]) && !keep(x)
    ensures Filter(s[i := x], keep) == Filter(s, keep)
    decreases i
  {
    var t := s[i := x];
    if i == 0 {
      assert t[1..] == s[1..];
    } else {
      assert t[0] == s[0];
      assert t[1..] == s[1..][i - 1 := x];
      FilterOverwrite(s[1..], i - 1, x, keep);
    }
  }

  /** A filter of a duplicate-free sequence is duplicate-free. */
  lemma {:induction false} FilterNoDups<T(!new)>(s: seq<T>, keep: T -> bool)
    requires NoDups(s)
    ensures NoDups(Filter(s, keep))
    decreases |s|
  {
    if s != [] {
      assert NoDups(s[1..]) by {
        forall i, j | 0 <= i < j < |s[1..]| ensures s[1..][i] != s[1..][j] {
          assert s[1..][i] == s[i + 1] && s[1..][j] == s[j + 1];
        }
      }
      FilterNoDups(s[1..], keep);
      var rest := Filter(s[1..], keep);
      if keep(s[0]) {
        assert s[0] !in s[1..] by {
          forall k | 0 <= k < |s[1..]| ensures s[1..][k] != s[0] {
            assert s[1..][k] == s[k + 1];
          }
        }
        assert s[0] !in rest by {
          assert multiset(rest)[s[0]] <= multiset(s[1..])[s[0]] == 0;
        }
        var r := [s[0]] + rest;
        forall i, j | 0 <= i < j < |r| ensures r[i] != r[j] {
          if i == 0 {
            assert r[j] == rest[j - 1];
          } else {
            assert r[i] == rest[i - 1] && r[j] == rest[j - 1];
          }
        }
      }
    }
  }

  /** `Array.prototype.findIndex`: the index of the first element satisfying `p`, or -1. */
  function FindIndex<T>(s: seq<T>, p: T -> bool): (r: int)
    ensures -1 <= r < |s|
    ensures r == -1 <==> forall i :: 0 <= i < |s| ==> !p(s[i])
    ensures r != -1 ==> p(s[r]) && forall i :: 0 <= i < r ==> !p(s[i])
    decreases |s|
  {
    if s == [] then -1
    else if p(s[0]) then 0
    else
      var k := FindIndex(s[1..], p);
      if k == -1 then -1 else k + 1
  }

  /** `Array.prototype.find`: the first element satisfying `p`, if there is one. */
  function Find<T>(s: seq<T>, p: T -> bool): (r: Option<T>)
    ensures r.None? <==> forall x :: x in s ==> !p(x)
    ensures r.Some? ==> r.value == s[FindIndex(s, p)]
  {
    var k := FindIndex(s, p);
    if k == -1 then None else Some(s[k])
  }

  /**
   * `Array.from(new Set(s))`: one copy of each element of `s`. The contract gives the elements;
   * on a duplicate-free input the order is the input's (`DistinctOfNoDups`).
   */
  function Distinct<T(==,!new)>(s: seq<T>): (r: seq<T>)
    ensures NoDups(r)
    ensures forall x :: x in r <==> x in s
    decreases |s|
  {
    if s == [] then []
    else
      var d := Distinct(s[..|s| - 1]);
      assert s == s[..|s| - 1] + [s[|s| - 1]];
      if s[|s| - 1] in d then d else d + [s[|s| - 1]]
  }

  /** Deduplicating a duplicate-free sequence returns it unchanged. */
  lemma {:induction false} DistinctOfNoDups<T(!new)>(s: seq<T>)
    requires NoDups(s)
    ensures Distinct(s) == s
    decreases |s|
  {
    if s != [] {
      var init := s[..|s| - 1];
      assert NoDups(init);
      DistinctOfNoDups(init);
      assert s[|s| - 1] !in init;
      assert s == init + [s[|s| - 1]];
    }
  }

  /** `s.splice(start, 1)`: deletes one element, counting a negative start from the end. */
  function SpliceOne<T>(s: seq<T>, start: int): (r: seq<T>)
    ensures 0 <= start < |s| ==> r == s[..start] + s[start + 1..]
    ensures -|s| <= start < 0 ==> r == s[..|s| + start] + s[|s| + start + 1..]
    ensures start >= |s| ==> r == s
    ensures start < -|s| && s != [] ==> r == s[1..]
    ensures |r| == if s == [] || start >= |s| then |s| else |s| - 1
  {
    var k := if start < 0 then (if |s| + start < 0 then 0 else |s| + start)
             else (if start > |s| then |s| else start);
    if k < |s| then s[..k] + s[k + 1..] else s
  }
}
