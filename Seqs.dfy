/**
 * `Array.prototype.filter` with a keyed predicate, as the core uses it to keep
 * the rows of one topic or of one standard, and what it preserves.
 */
module Seqs {
  import opened Wrappers

  /** `s.filter(x => p(x, key))` */
  function FilterBy<T, K>(s: seq<T>, p: (T, K) -> bool, key: K): (r: seq<T>)
    ensures |r| <= |s|
  {
    if s == [] then []
    else
      var last := s[|s| - 1];
      FilterBy(s[..|s| - 1], p, key) + (if p(last, key) then [last] else [])
  }

  /** The filter keeps matching elements of `s`, and every matching element of `s`. */
  lemma {:induction false} FilterByMembers<T, K>(s: seq<T>, p: (T, K) -> bool, key: K)
    ensures forall i :: 0 <= i < |FilterBy(s, p, key)| ==> FilterBy(s, p, key)[i] in s && p(FilterBy(s, p, key)[i], key)
    ensures forall i :: 0 <= i < |s| && p(s[i], key) ==> s[i] in FilterBy(s, p, key)
  {
    if s != [] {
      var n := |s| - 1;
      FilterByMembers(s[..n], p, key);
      assert s == s[..n] + [s[n]];
    }
  }

  /** The positions of `s` whose element satisfies `p(_, key)`, in increasing order. */
  function PositionsBy<T, K>(s: seq<T>, p: (T, K) -> bool, key: K): seq<nat> {
    if s == [] then []
    else PositionsBy(s[..|s| - 1], p, key) + (if p(s[|s| - 1], key) then [|s| - 1] else [])
  }

  predicate Increasing(idx: seq<nat>) {
    forall k, l :: 0 <= k < l < |idx| ==> idx[k] < idx[l]
  }

  /**
   * The filter keeps exactly the matching elements, each once, in their
   * original order: its k-th element is the element at the k-th matching position.
   */
  lemma {:induction false} FilterByPositions<T, K>(s: seq<T>, p: (T, K) -> bool, key: K)
    ensures var pos := PositionsBy(s, p, key);
      && |FilterBy(s, p, key)| == |pos|
      && Increasing(pos)
      && (forall k :: 0 <= k < |pos| ==> pos[k] < |s| && FilterBy(s, p, key)[k] == s[pos[k]])
      && (forall i :: 0 <= i < |s| ==> (i in pos <==> p(s[i], key)))
  {
    if s != [] {
      var n := |s| - 1;
      var s' := s[..n];
      FilterByPositions(s', p, key);
      var pos', f' := PositionsBy(s', p, key), FilterBy(s', p, key);
      var pos, f := PositionsBy(s, p, key), FilterBy(s, p, key);
      assert pos == pos' + (if p(s[n], key) then [n] else []);
      assert f == f' + (if p(s[n], key) then [s[n]] else []);
      forall k | 0 <= k < |pos|
        ensures pos[k] < |s| && f[k] == s[pos[k]]
      {
        if k < |pos'| {
          assert pos[k] == pos'[k] && f[k] == f'[k];
          assert s'[pos'[k]] == s[pos'[k]];
        }
      }
      forall i | 0 <= i < |s|
        ensures i in pos <==> p(s[i], key)
      {
        if i < n {
          assert s'[i] == s[i];
          assert i in pos <==> i in pos';
        }
      }
    }
  }

  /** Nothing is kept when nothing matches. */
  lemma {:induction false} FilterByNone<T, K>(s: seq<T>, p: (T, K) -> bool, key: K)
    requires forall i :: 0 <= i < |s| ==> !p(s[i], key)
    ensures FilterBy(s, p, key) == []
  {
    if s != [] {
      FilterByNone(s[..|s| - 1], p, key);
    }
  }

  /** Filtering a concatenation filters each part. */
  lemma {:induction false} FilterByAppend<T, K>(a: seq<T>, b: seq<T>, p: (T, K) -> bool, key: K)
    ensures FilterBy(a + b, p, key) == FilterBy(a, p, key) + FilterBy(b, p, key)
    decreases |b|
  {
    if b != [] {
      var n := |b| - 1;
      assert (a + b)[..|a + b| - 1] == a + b[..n];
      FilterByAppend(a, b[..n], p, key);
    } else {
      assert a + b == a;
    }
  }

  /** Filtering one element before a sequence. */
  lemma FilterByCons<T, K>(x: T, s: seq<T>, p: (T, K) -> bool, key: K)
    ensures FilterBy([x] + s, p, key) == (if p(x, key) then [x] else []) + FilterBy(s, p, key)
  {
    assert FilterBy([x], p, key) == (if p(x, key) then [x] else []) by {
      assert [x][..0] == [];
    }
    FilterByAppend([x], s, p, key);
  }

  /** The values of the `Some` entries of `s`, in order. */
  function Somes<T>(s: seq<Option<T>>): seq<T> {
    if s == [] then []
    else Somes(s[..|s| - 1]) + (if s[|s| - 1].Some? then [s[|s| - 1].value] else [])
  }

  /** The positions of the `Some` entries of `s`, in increasing order. */
  function SomePositions<T>(s: seq<Option<T>>): seq<nat> {
    if s == [] then []
    else SomePositions(s[..|s| - 1]) + (if s[|s| - 1].Some? then [|s| - 1] else [])
  }

  /** `Somes` keeps every `Some` entry once, in order, and nothing else. */
  lemma {:induction false} SomesPositions<T>(s: seq<Option<T>>)
    ensures var pos := SomePositions(s);
      && |Somes(s)| == |pos|
      && Increasing(pos)
      && (forall k :: 0 <= k < |pos| ==> pos[k] < |s| && s[pos[k]] == Some(Somes(s)[k]))
      && (forall i :: 0 <= i < |s| ==> (i in pos <==> s[i].Some?))
  {
    if s != [] {
      var n := |s| - 1;
      var s' := s[..n];
      SomesPositions(s');
      var pos', v' := SomePositions(s'), Somes(s');
      var pos, v := SomePositions(s), Somes(s);
      assert pos == pos' + (if s[n].Some? then [n] else []);
      assert v == v' + (if s[n].Some? then [s[n].value] else []);
      forall k | 0 <= k < |pos|
        ensures pos[k] < |s| && s[pos[k]] == Some(v[k])
      {
        if k < |pos'| {
          assert pos[k] == pos'[k] && v[k] == v'[k];
          assert s'[pos'[k]] == s[pos'[k]];
        }
      }
      forall i | 0 <= i < |s|
        ensures i in pos <==> s[i].Some?
      {
        if i < n {
          assert s'[i] == s[i];
          assert i in pos <==> i in pos';
        }
      }
    }
  }

  predicate Distinct<T(==)>(s: seq<T>) {
    forall i, j :: 0 <= i < j < |s| ==> s[i] != s[j]
  }

  /**
   * The distinct elements of `s` in order of first occurrence: the key order
   * of a JavaScript `Map` or `Set` filled from `s`.
   */
  function Dedup<T(==)>(s: seq<T>): seq<T> {
    if s == [] then []
    else
      var d := Dedup(s[..|s| - 1]);
      if s[|s| - 1] in d then d else d + [s[|s| - 1]]
  }

  lemma {:induction false} DedupSpec<T>(s: seq<T>)
    ensures Distinct(Dedup(s))
    ensures forall x :: x in Dedup(s) <==> x in s
    ensures forall k :: 0 <= k < |Dedup(s)| ==> Dedup(s)[k] in s
  {
    if s != [] {
      var n := |s| - 1;
      DedupSpec(s[..n]);
      assert s == s[..n] + [s[n]];
    }
  }

  /** The number of times `x` occurs in `s`. */
  function CountOf<T(==)>(s: seq<T>, x: T): nat {
    if s == [] then 0
    else CountOf(s[..|s| - 1], x) + (if s[|s| - 1] == x then 1 else 0)
  }

  lemma {:induction false} CountOfPositive<T>(s: seq<T>, x: T)
    ensures CountOf(s, x) > 0 <==> x in s
  {
    if s != [] {
      var n := |s| - 1;
      CountOfPositive(s[..n], x);
      assert s == s[..n] + [s[n]];
    }
  }

  /** `n` copies of `x`. */
  function Repeat<T>(x: T, n: nat): (r: seq<T>)
    ensures |r| == n && forall i :: 0 <= i < n ==> r[i] == x
  {
    if n == 0 then [] else Repeat(x, n - 1) + [x]
  }

  lemma RepeatMembers<T>(x: T, n: nat, y: T)
    ensures y in Repeat(x, n) <==> n > 0 && y == x
  {
    if y in Repeat(x, n) {
      var i :| 0 <= i < n && Repeat(x, n)[i] == y;
    }
    if n > 0 {
      assert Repeat(x, n)[0] == x;
    }
  }

  /** The position of the first `x` in `s`: `s.indexOf(x)`. */
  function FirstIndex<T(==)>(s: seq<T>, x: T): (i: nat)
    requires x in s
    ensures i < |s| && s[i] == x
    ensures forall j :: 0 <= j < i ==> s[j] != x
  {
    if s[0] == x then 0 else 1 + FirstIndex(s[1..], x)
  }

  /** `s.find(e => p(e, key))`, as the position of the element found. */
  function FindBy<T, K>(s: seq<T>, p: (T, K) -> bool, key: K): (r: Option<nat>)
    ensures r.Some? ==> r.value < |s| && p(s[r.value], key)
    ensures r.Some? ==> forall j :: 0 <= j < r.value ==> !p(s[j], key)
    ensures r.None? ==> forall j :: 0 <= j < |s| ==> !p(s[j], key)
  {
    if s == [] then None
    else if p(s[0], key) then Some(0)
    else
      match FindBy(s[1..], p, key)
      case None => None
      case Some(i) => Some(i + 1)
  }

  /**
   * The step of an induction over a growing sequence: whether some element
   * satisfies `p` is whether some earlier one does or the last one does.
   */
  lemma ExistsSnoc<T>(s: seq<T>, prev: seq<T>, p: T -> bool, before: bool, now: bool)
    requires s != [] && prev == s[..|s| - 1]
    requires before <==> exists i :: 0 <= i < |prev| && p(prev[i])
    requires now <==> before || p(s[|s| - 1])
    ensures now <==> exists i :: 0 <= i < |s| && p(s[i])
  {
    var n := |s| - 1;
    if exists i :: 0 <= i < |s| && p(s[i]) {
      var i :| 0 <= i < |s| && p(s[i]);
      if i < n {
        assert p(prev[i]);
      }
    }
    if before {
      var i :| 0 <= i < n && p(prev[i]);
      assert p(s[i]);
    }
  }
}
