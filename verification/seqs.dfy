/** Sequence helpers: order-preserving filtering and deduplication, first-index
    lookup, and removal by position. */
module Seqs {

  predicate Distinct<T(==)>(s: seq<T>) {
    forall i, j :: 0 <= i < j < |s| ==> s[i] != s[j]
  }

  /** `Array.prototype.filter` / a Python list comprehension with a condition. */
  function Filter<T(==)>(s: seq<T>, keep: T -> bool): (r: seq<T>)
    ensures |r| <= |s|
    ensures forall x :: x in r ==> x in s && keep(x)
    ensures forall x :: x in s && keep(x) ==> x in r
  {
    if |s| == 0 then [] else (if keep(s[0]) then [s[0]] else []) + Filter(s[1..], keep)
  }

  /** Filtering distributes over concatenation, so it keeps the relative order of what it keeps. */
  lemma {:induction false} FilterAppend<T>(a: seq<T>, b: seq<T>, keep: T -> bool)
    ensures Filter(a + b, keep) == Filter(a, keep) + Filter(b, keep)
  {
    if |a| > 0 {
      assert (a + b)[1..] == a[1..] + b;
      FilterAppend(a[1..], b, keep);
    } else {
      assert a + b == b;
    }
  }

  /** Filtering twice with the same condition is filtering once. */
  lemma {:induction false} FilterIdempotent<T>(s: seq<T>, keep: T -> bool)
    ensures Filter(Filter(s, keep), keep) == Filter(s, keep)
  {
    if |s| > 0 {
      var head := if keep(s[0]) then [s[0]] else [];
      FilterIdempotent(s[1..], keep);
      FilterAppend(head, Filter(s[1..], keep), keep);
    }
  }

  /** A filter that keeps every element returns the sequence unchanged. */
  lemma {:induction false} FilterKeepsAll<T>(s: seq<T>, keep: T -> bool)
    requires forall x :: x in s ==> keep(x)
    ensures Filter(s, keep) == s
  {
    if |s| > 0 {
      assert forall x :: x in s[1..] ==> x in s;
      FilterKeepsAll(s[1..], keep);
    }
  }

  /** A filter that keeps nothing returns the empty sequence. */
  lemma {:induction false} FilterKeepsNone<T>(s: seq<T>, keep: T -> bool)
    requires forall x :: x in s ==> !keep(x)
    ensures Filter(s, keep) == []
  {
    if |s| > 0 {
      assert forall x :: x in s[1..] ==> x in s;
      FilterKeepsNone(s[1..], keep);
    }
  }

  /** Filtering keeps the relative order of what it keeps: any relation that
      holds between earlier and later elements of `s` holds in the result. */
  lemma {:induction false} FilterKeepsOrder<T>(s: seq<T>, keep: T -> bool, before: (T, T) -> bool)
    requires forall i, j :: 0 <= i < j < |s| ==> before(s[i], s[j])
    ensures forall i, j :: 0 <= i < j < |Filter(s, keep)| ==> before(Filter(s, keep)[i], Filter(s, keep)[j])
  {
    if |s| > 0 {
      var rest := Filter(s[1..], keep);
      FilterKeepsOrder(s[1..], keep, before);
      forall y | y in rest
        ensures before(s[0], y)
      {
        var k :| 0 <= k < |s[1..]| && s[1..][k] == y;
        assert s[k + 1] == y;
      }
      if keep(s[0]) {
        var r := [s[0]] + rest;
        forall i, j | 0 <= i < j < |r|
          ensures before(r[i], r[j])
        {
          assert r[j] == rest[j - 1];
          assert rest[j - 1] in rest;
          if i > 0 {
            assert r[i] == rest[i - 1];
          }
        }
      }
    }
  }

  /** Position of the first occurrence of `x`. */
  function FirstIndex<T(==)>(s: seq<T>, x: T): (i: nat)
    requires x in s
    ensures i < |s| && s[i] == x
    ensures forall k :: 0 <= k < i ==> s[k] != x
  {
    if s[0] == x then 0 else 1 + FirstIndex(s[1..], x)
  }

  /** `Array.prototype.indexOf`: the first position of `x`, or -1. */
  function IndexOf<T(==)>(s: seq<T>, x: T): (i: int)
    ensures x in s ==> 0 <= i < |s| && s[i] == x && forall k :: 0 <= k < i ==> s[k] != x
    ensures x !in s ==> i == -1
  {
    if x in s then FirstIndex(s, x) else -1
  }

  /** Deduplication that keeps first occurrences, skipping everything in `seen`. */
  function DedupFrom<T(==)>(s: seq<T>, seen: set<T>): (r: seq<T>)
    ensures |r| <= |s|
    ensures Distinct(r)
    ensures forall x :: x in r ==> x in s && x !in seen
    ensures forall x :: x in s && x !in seen ==> x in r
  {
    if |s| == 0 then []
    else if s[0] in seen then DedupFrom(s[1..], seen)
    else [s[0]] + DedupFrom(s[1..], seen + {s[0]})
  }

  /** Order-preserving deduplication: `Array.from(new Set(s))`, or the
      Python loop that appends an element the first time it is seen. */
  function Dedup<T(==)>(s: seq<T>): (r: seq<T>)
    ensures |r| <= |s|
    ensures Distinct(r)
    ensures forall x :: x in r ==> x in s
    ensures forall x :: x in s ==> x in r
  {
    DedupFrom(s, {})
  }

  /** Two elements deduplicate to both, or to one when they are equal. */
  lemma DedupPair<T>(a: T, b: T)
    ensures Dedup([a, b]) == if a == b then [a] else [a, b]
  {
    assert [a, b][1..] == [b] && [b][1..] == [];
    assert DedupFrom([a, b], {}) == [a] + DedupFrom([b], {a});
  }

  /** Deduplication lists elements in the order of their first occurrence. */
  lemma {:induction false} DedupFromOrder<T>(s: seq<T>, seen: set<T>)
    ensures forall i, j :: 0 <= i < j < |DedupFrom(s, seen)| ==>
      FirstIndex(s, DedupFrom(s, seen)[i]) < FirstIndex(s, DedupFrom(s, seen)[j])
  {
    if |s| > 0 {
      if s[0] in seen {
        DedupFromOrder(s[1..], seen);
        DedupFromOrderSkip(s, seen);
      } else {
        DedupFromOrder(s[1..], seen + {s[0]});
        DedupFromOrderKeep(s, seen);
      }
    }
  }

  /** Past a skipped head, positions in `s` are one more than in its tail. */
  lemma DedupFromOrderSkip<T>(s: seq<T>, seen: set<T>)
    requires |s| > 0 && s[0] in seen
    requires forall i, j :: 0 <= i < j < |DedupFrom(s[1..], seen)| ==>
      FirstIndex(s[1..], DedupFrom(s[1..], seen)[i]) < FirstIndex(s[1..], DedupFrom(s[1..], seen)[j])
    ensures forall i, j :: 0 <= i < j < |DedupFrom(s, seen)| ==>
      FirstIndex(s, DedupFrom(s, seen)[i]) < FirstIndex(s, DedupFrom(s, seen)[j])
  {
    var r := DedupFrom(s, seen);
    forall x | x in r
      ensures FirstIndex(s, x) == 1 + FirstIndex(s[1..], x)
    {
      assert x !in seen;
    }
  }

  /** A kept head comes first, ahead of everything from the tail. */
  lemma DedupFromOrderKeep<T>(s: seq<T>, seen: set<T>)
    requires |s| > 0 && s[0] !in seen
    requires forall i, j :: 0 <= i < j < |DedupFrom(s[1..], seen + {s[0]})| ==>
      FirstIndex(s[1..], DedupFrom(s[1..], seen + {s[0]})[i]) < FirstIndex(s[1..], DedupFrom(s[1..], seen + {s[0]})[j])
    ensures forall i, j :: 0 <= i < j < |DedupFrom(s, seen)| ==>
      FirstIndex(s, DedupFrom(s, seen)[i]) < FirstIndex(s, DedupFrom(s, seen)[j])
  {
    var r := DedupFrom(s, seen);
    var rest := DedupFrom(s[1..], seen + {s[0]});
    assert r == [s[0]] + rest;
    forall x | x in rest
      ensures FirstIndex(s, x) == 1 + FirstIndex(s[1..], x)
    {
      assert x != s[0];
    }
    forall i, j | 0 <= i < j < |r|
      ensures FirstIndex(s, r[i]) < FirstIndex(s, r[j])
    {
      assert r[j] == rest[j - 1];
      if i > 0 {
        assert r[i] == rest[i - 1];
      }
    }
  }

  lemma DedupOrder<T>(s: seq<T>)
    ensures forall i, j :: 0 <= i < j < |Dedup(s)| ==>
      FirstIndex(s, Dedup(s)[i]) < FirstIndex(s, Dedup(s)[j])
  {
    DedupFromOrder(s, {});
  }

  /** A duplicate-free sequence has as many elements as its set of elements:
      `new Set(s).size` equals the length of the deduplicated list. */
  lemma {:induction false} DistinctCardinality<T>(s: seq<T>)
    requires Distinct(s)
    ensures |set x | x in s| == |s|
  {
    if |s| > 0 {
      var rest := s[1..];
      DistinctCardinality(rest);
      assert (set x | x in s) == (set x | x in rest) + {s[0]};
      assert s[0] !in rest;
    }
  }

  /** `s.filter((_, k) => k !== i)`: drops the element at position `i`, if any. */
  function WithoutIndex<T>(s: seq<T>, i: int): (r: seq<T>)
    ensures 0 <= i < |s| ==> r == s[..i] + s[i + 1..]
    ensures !(0 <= i < |s|) ==> r == s
  {
    if |s| == 0 then []
    else (if i == 0 then [] else [s[0]]) + WithoutIndex(s[1..], i - 1)
  }

  /** `Array.prototype.map` / a Python list comprehension without a condition. */
  function Map<A, B>(s: seq<A>, f: A -> B): (r: seq<B>)
    ensures |r| == |s|
    ensures forall i :: 0 <= i < |s| ==> r[i] == f(s[i])
  {
    if |s| == 0 then [] else [f(s[0])] + Map(s[1..], f)
  }

  lemma DropDrop<T>(s: seq<T>, i: nat, j: nat)
    requires i + j <= |s|
    ensures s[i..][j..] == s[i + j..]
  {
  }

  lemma SliceOfDrop<T>(s: seq<T>, i: nat, a: nat, b: nat)
    requires i + a <= i + b <= |s|
    ensures s[i..][a..b] == s[i + a..i + b]
  {
  }

  lemma DropConcat<T>(a: seq<T>, b: seq<T>, k: nat)
    requires k <= |a|
    ensures (a + b)[k..] == a[k..] + b
  {
  }

  lemma LastOfCons<T>(x: T, t: seq<T>)
    requires |t| > 0
    ensures ([x] + t)[|t|] == t[|t| - 1]
  {
  }

  lemma HeadTail<T>(s: seq<T>)
    requires |s| > 0
    ensures s == [s[0]] + s[1..]
  {
  }

  lemma MapCons<A, B>(x: A, s: seq<A>, f: A -> B)
    ensures Map([x] + s, f) == [f(x)] + Map(s, f)
  {
    assert ([x] + s)[1..] == s;
  }

  /** Mapping with `f` and then with a left inverse `g` of `f` restores the sequence. */
  lemma MapThenInverse<A, B>(s: seq<A>, f: A -> B, g: B -> A)
    requires forall x :: g(f(x)) == x
    ensures Map(Map(s, f), g) == s
  {
  }
}
