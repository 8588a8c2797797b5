/**
 Generic sequence operations used by the task store: an order-preserving
 `Filter` (JavaScript's `Array.prototype.filter`) and `Distinct`, which keeps
 the first occurrence of every element (what spreading a `Set` built from an
 array yields, since a JavaScript `Set` iterates in insertion order).
 */
module Seqs {

  /* Keeps, in their original order, the elements of `s` that satisfy `p`. */
  function Filter<T(!new)>(s: seq<T>, p: T -> bool): (r: seq<T>)
    ensures |r| <= |s|
    ensures forall x :: x in r <==> x in s && p(x)
  {
    if s == [] then []
    else
      assert s == [s[0]] + s[1..];
      (if p(s[0]) then [s[0]] else []) + Filter(s[1..], p)
  }

  /* Adds one to every index. */
  function Shift(ix: seq<nat>): (r: seq<nat>)
    ensures |r| == |ix|
    ensures forall k :: 0 <= k < |ix| ==> r[k] == ix[k] + 1
  {
    seq(|ix|, k requires 0 <= k < |ix| => ix[k] + 1)
  }

  /* The positions of `s` whose element satisfies `p`, in ascending order. */
  function FilterPositions<T(!new)>(s: seq<T>, p: T -> bool): seq<nat>
  {
    if s == [] then []
    else (if p(s[0]) then [0] else []) + Shift(FilterPositions(s[1..], p))
  }

  /* `r` is the subsequence of `s` at the strictly increasing positions `ix`,
     and `ix` takes in every position of `s` whose element satisfies `p`. */
  ghost predicate Selects<T(!new)>(s: seq<T>, r: seq<T>, ix: seq<nat>, p: T -> bool)
  {
    && |ix| == |r|
    && (forall k :: 0 <= k < |ix| ==> ix[k] < |s| && s[ix[k]] == r[k])
    && (forall k, l :: 0 <= k < l < |ix| ==> ix[k] < ix[l])
    && (forall i :: 0 <= i < |s| && p(s[i]) ==> i in ix)
  }

  /* Filter keeps exactly the elements that satisfy `p`, in their original
     relative order: together with the fact that every element of the result
     satisfies `p`, this determines the result uniquely. */
  lemma {:induction false} FilterKeepsOrder<T(!new)>(s: seq<T>, p: T -> bool)
    ensures Selects(s, Filter(s, p), FilterPositions(s, p), p)
  {
    if s != [] {
      FilterKeepsOrder(s[1..], p);
      if p(s[0]) {
        SelectsKeep(s, Filter(s[1..], p), FilterPositions(s[1..], p), p);
      } else {
        SelectsDrop(s, Filter(s[1..], p), FilterPositions(s[1..], p), p);
      }
    }
  }

  /* The step of FilterKeepsOrder for a head element that is kept. */
  lemma SelectsKeep<T(!new)>(s: seq<T>, tail: seq<T>, tix: seq<nat>, p: T -> bool)
    requires s != [] && p(s[0])
    requires Selects(s[1..], tail, tix, p)
    ensures Selects(s, [s[0]] + tail, [0] + Shift(tix), p)
  {
    var r, ix := [s[0]] + tail, [0] + Shift(tix);
    forall k | 0 <= k < |ix|
      ensures ix[k] < |s| && s[ix[k]] == r[k]
    {
      if k > 0 {
        assert ix[k] == tix[k - 1] + 1;
        assert s[ix[k]] == s[1..][tix[k - 1]];
      }
    }
    forall i | 0 <= i < |s| && p(s[i])
      ensures i in ix
    {
      if i > 0 {
        assert s[1..][i - 1] == s[i];
        var k :| 0 <= k < |tix| && tix[k] == i - 1;
        assert ix[k + 1] == i;
      }
    }
  }

  /* The step of FilterKeepsOrder for a head element that is dropped. */
  lemma SelectsDrop<T(!new)>(s: seq<T>, tail: seq<T>, tix: seq<nat>, p: T -> bool)
    requires s != [] && !p(s[0])
    requires Selects(s[1..], tail, tix, p)
    ensures Selects(s, tail, Shift(tix), p)
  {
    var ix := Shift(tix);
    forall k | 0 <= k < |ix|
      ensures ix[k] < |s| && s[ix[k]] == tail[k]
    {
      assert s[ix[k]] == s[1..][tix[k]];
    }
    forall i | 0 <= i < |s| && p(s[i])
      ensures i in ix
    {
      assert s[1..][i - 1] == s[i];
      var k :| 0 <= k < |tix| && tix[k] == i - 1;
      assert ix[k] == i;
    }
  }

  /* Filtering the filtered sequence again changes nothing. */
  lemma {:induction false} FilterIdempotent<T(!new)>(s: seq<T>, p: T -> bool)
    ensures Filter(Filter(s, p), p) == Filter(s, p)
  {
    if s != [] {
      FilterIdempotent(s[1..], p);
      FilterAppend(if p(s[0]) then [s[0]] else [], Filter(s[1..], p), p);
    }
  }

  /* Filter leaves a sequence alone exactly when every element satisfies `p`. */
  lemma {:induction false} FilterIdentity<T(!new)>(s: seq<T>, p: T -> bool)
    ensures Filter(s, p) == s <==> forall x :: x in s ==> p(x)
  {
    if s != [] {
      FilterIdentity(s[1..], p);
      assert s == [s[0]] + s[1..];
      if !p(s[0]) {
        assert s[0] in s;
      }
    }
  }

  /* Filter keeps every element exactly when it keeps the whole length. */
  lemma {:induction false} FilterFullLength<T(!new)>(s: seq<T>, p: T -> bool)
    ensures |Filter(s, p)| == |s| <==> forall x :: x in s ==> p(x)
  {
    if s != [] {
      FilterFullLength(s[1..], p);
      assert s == [s[0]] + s[1..];
      if !p(s[0]) {
        assert s[0] in s;
      }
    }
  }

  /* Filter distributes over concatenation. */
  lemma {:induction false} FilterAppend<T(!new)>(a: seq<T>, b: seq<T>, p: T -> bool)
    ensures Filter(a + b, p) == Filter(a, p) + Filter(b, p)
  {
    if a != [] {
      assert (a + b)[1..] == a[1..] + b;
      FilterAppend(a[1..], b, p);
    } else {
      assert a + b == b;
    }
  }

  /* A predicate and its complement split a sequence's length between them. */
  lemma {:induction false} FilterComplement<T(!new)>(s: seq<T>, p: T -> bool, q: T -> bool)
    requires forall x :: q(x) == !p(x)
    ensures |Filter(s, p)| + |Filter(s, q)| == |s|
  {
    if s != [] {
      FilterComplement(s[1..], p, q);
    }
  }

  /* Filtering by a stronger predicate after a weaker one is the same as
     filtering by the stronger predicate alone. */
  lemma {:induction false} FilterNarrow<T(!new)>(s: seq<T>, p: T -> bool, q: T -> bool)
    requires forall x :: q(x) ==> p(x)
    ensures Filter(Filter(s, p), q) == Filter(s, q)
  {
    if s != [] {
      FilterNarrow(s[1..], p, q);
      FilterAppend(if p(s[0]) then [s[0]] else [], Filter(s[1..], p), q);
    }
  }

  /* Two filters may be applied in either order. */
  lemma {:induction false} FilterCommute<T(!new)>(s: seq<T>, p: T -> bool, q: T -> bool)
    ensures Filter(Filter(s, p), q) == Filter(Filter(s, q), p)
  {
    if s != [] {
      FilterCommute(s[1..], p, q);
      FilterAppend(if p(s[0]) then [s[0]] else [], Filter(s[1..], p), q);
      FilterAppend(if q(s[0]) then [s[0]] else [], Filter(s[1..], q), p);
    }
  }

  ghost predicate NoDuplicates<T>(s: seq<T>)
  {
    forall i, j :: 0 <= i < j < |s| ==> s[i] != s[j]
  }

  /* The position of the first occurrence of `x` in `s`. */
  function FirstIndex<T(==)>(s: seq<T>, x: T): (i: nat)
    requires x in s
    ensures i < |s| && s[i] == x
    ensures forall j :: 0 <= j < i ==> s[j] != x
  {
    if s[0] == x then 0 else 1 + FirstIndex(s[1..], x)
  }

  /* The elements of `s` without repetitions, each kept where it first occurs. */
  function Distinct<T(==,!new)>(s: seq<T>): (r: seq<T>)
    ensures NoDuplicates(r)
    ensures forall x :: x in r <==> x in s
  {
    if s == [] then []
    else
      var init := s[..|s| - 1];
      assert s == init + [s[|s| - 1]];
      var d := Distinct(init);
      if s[|s| - 1] in d then d else d + [s[|s| - 1]]
  }

  /* Extending a sequence does not move the first occurrence of an element
     that is already present. */
  lemma FirstIndexPrefix<T>(s: seq<T>, n: nat, x: T)
    requires n <= |s| && x in s[..n]
    ensures FirstIndex(s, x) == FirstIndex(s[..n], x)
  {
    assert forall k :: 0 <= k < n ==> s[..n][k] == s[k];
  }

  /* Distinct lists its elements in the order of their first occurrence. */
  lemma {:induction false} DistinctFirstSeenOrder<T(!new)>(s: seq<T>)
    ensures forall i, j :: 0 <= i < j < |Distinct(s)| ==>
      FirstIndex(s, Distinct(s)[i]) < FirstIndex(s, Distinct(s)[j])
  {
    if s != [] {
      var n := |s| - 1;
      var init := s[..n];
      var d0 := Distinct(init);
      DistinctFirstSeenOrder(init);
      var d := Distinct(s);
      forall k | 0 <= k < |d0|
        ensures FirstIndex(s, d0[k]) == FirstIndex(init, d0[k]) < n
      {
        FirstIndexPrefix(s, n, d0[k]);
      }
      if s[n] !in d0 {
        assert d == d0 + [s[n]];
        assert s[n] !in init;
        assert forall k :: 0 <= k < n ==> init[k] == s[k];
        assert FirstIndex(s, s[n]) == n;
        forall i, j | 0 <= i < j < |d|
          ensures FirstIndex(s, d[i]) < FirstIndex(s, d[j])
        {
          assert d[i] == d0[i];
          assert FirstIndex(s, d0[i]) < n;
          if j < |d0| {
            assert d[j] == d0[j];
            assert FirstIndex(init, d0[i]) < FirstIndex(init, d0[j]);
          } else {
            assert d[j] == s[n];
          }
        }
      } else {
        assert d == d0;
      }
    }
  }
}
