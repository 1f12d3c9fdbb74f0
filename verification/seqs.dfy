/** Sequence idioms the source leans on everywhere: `Array.prototype.filter`,
    `find`/`findIndex` and counting with `filter(...).length`. */
module Seqs {
  import opened Wrappers

  /** `a` is obtained from `b` by deleting elements, so `a` lists its
      elements in the order `b` has them. */
  predicate IsSubsequence<T(==)>(a: seq<T>, b: seq<T>)
    decreases |b|
  {
    |a| == 0 ||
    (|b| > 0 && ((a[0] == b[0] && IsSubsequence(a[1..], b[1..])) || IsSubsequence(a, b[1..])))
  }

  /** The elements of `s` that satisfy `p`, in their original order. */
  function Filter<T(==,!new)>(s: seq<T>, p: T -> bool): (r: seq<T>)
    ensures |r| <= |s|
    ensures forall x :: multiset(r)[x] == if p(x) then multiset(s)[x] else 0
    ensures forall x :: x in r <==> x in s && p(x)
    ensures IsSubsequence(r, s)
  {
    if |s| == 0 then []
    else
      assert s == [s[0]] + s[1..];
      if p(s[0]) then [s[0]] + Filter(s[1..], p) else Filter(s[1..], p)
  }

  /** How many elements of `s` satisfy `p`: the source's `filter(p).length`. */
  function Count<T(==,!new)>(s: seq<T>, p: T -> bool): (n: nat)
    ensures n <= |s|
    ensures n == 0 <==> forall i :: 0 <= i < |s| ==> !p(s[i])
  {
    var r := Filter(s, p);
    assert forall i :: 0 <= i < |s| && p(s[i]) ==> s[i] in r;
    |r|
  }

  /** `k` is the index of the first element of `s` satisfying `p`: the
      element `find` returns. */
  predicate IsFirst<T>(s: seq<T>, p: T -> bool, k: int) {
    && 0 <= k < |s|
    && p(s[k])
    && forall j :: 0 <= j < k ==> !p(s[j])
  }

  /** No element of `s` satisfies `p`: `find` returns `undefined`. */
  predicate NoneMatch<T>(s: seq<T>, p: T -> bool) {
    forall j :: 0 <= j < |s| ==> !p(s[j])
  }

  /** The index of the first element satisfying `p`: `findIndex`, with
      `None` for its -1. `find` is the element at that index. */
  function FindFirst<T>(s: seq<T>, p: T -> bool): (r: Option<nat>)
    ensures r.Some? ==> IsFirst(s, p, r.value)
    ensures r.None? <==> NoneMatch(s, p)
  {
    if |s| == 0 then None
    else if p(s[0]) then Some(0)
    else match FindFirst(s[1..], p)
      case None => None
      case Some(k) => Some(k + 1)
  }

  /** There is at most one first match. */
  lemma FirstIsUnique<T>(s: seq<T>, p: T -> bool, k: int, k': int)
    requires IsFirst(s, p, k) && IsFirst(s, p, k')
    ensures k == k'
  {
  }

  lemma {:induction false} FilterAppend<T(!new)>(a: seq<T>, b: seq<T>, p: T -> bool)
    ensures Filter(a + b, p) == Filter(a, p) + Filter(b, p)
  {
    if |a| == 0 {
      assert a + b == b;
    } else {
      assert (a + b)[1..] == a[1..] + b;
      FilterAppend(a[1..], b, p);
    }
  }

  /** Keeping only what `p` accepts twice keeps the same elements as once. */
  lemma {:induction false} FilterIdempotent<T(!new)>(s: seq<T>, p: T -> bool)
    ensures Filter(Filter(s, p), p) == Filter(s, p)
  {
    if |s| > 0 {
      FilterIdempotent(s[1..], p);
    }
  }

  /** A filter that accepts everything returns its input unchanged. */
  lemma {:induction false} FilterKeepsAll<T(!new)>(s: seq<T>, p: T -> bool)
    requires forall i :: 0 <= i < |s| ==> p(s[i])
    ensures Filter(s, p) == s
  {
    if |s| > 0 {
      FilterKeepsAll(s[1..], p);
    }
  }

  /** Every element satisfies exactly one of `p` and its complement `q`. */
  lemma {:induction false} CountComplement<T(!new)>(s: seq<T>, p: T -> bool, q: T -> bool)
    requires forall x :: q(x) == !p(x)
    ensures Count(s, p) + Count(s, q) == |s|
  {
    if |s| > 0 {
      CountComplement(s[1..], p, q);
    }
  }

  /** A weaker test counts at least as many elements. */
  lemma {:induction false} CountImplies<T(!new)>(s: seq<T>, p: T -> bool, q: T -> bool)
    requires forall x :: p(x) ==> q(x)
    ensures Count(s, p) <= Count(s, q)
  {
    if |s| > 0 {
      CountImplies(s[1..], p, q);
    }
  }

  /** The count of a non-empty sequence: its head's contribution plus the tail's count. */
  lemma CountCons<T(!new)>(s: seq<T>, p: T -> bool)
    requires |s| > 0
    ensures Count(s, p) == (if p(s[0]) then 1 else 0) + Count(s[1..], p)
  {
    assert s == [s[0]] + s[1..];
  }

  /** Replacing one element changes a count by what the two elements contribute. */
  lemma {:induction false} CountUpdate<T(!new)>(s: seq<T>, k: nat, y: T, p: T -> bool)
    requires k < |s|
    ensures Count(s[k := y], p) ==
            Count(s, p) - (if p(s[k]) then 1 else 0) + (if p(y) then 1 else 0)
  {
    var t := s[k := y];
    CountCons(s, p);
    CountCons(t, p);
    if k == 0 {
      assert t[1..] == s[1..];
    } else {
      assert t[1..] == s[1..][k - 1 := y];
      CountUpdate(s[1..], k - 1, y, p);
    }
  }

  /** Extending a sequence by one element adds that element's contribution. */
  lemma CountSnoc<T(!new)>(s: seq<T>, x: T, p: T -> bool)
    ensures Count(s + [x], p) == Count(s, p) + (if p(x) then 1 else 0)
  {
    FilterAppend(s, [x], p);
  }

  /** The positions of `s` holding an element that satisfies `p`. */
  function Positions<T>(s: seq<T>, p: T -> bool): set<int> {
    set i | 0 <= i < |s| && p(s[i])
  }

  /** Counting by filtering agrees with counting matching positions. */
  lemma {:induction false} CountIsPositions<T(!new)>(s: seq<T>, p: T -> bool)
    ensures Count(s, p) == |Positions(s, p)|
    decreases |s|
  {
    if |s| > 0 {
      var n := |s| - 1;
      var front := s[..n];
      assert s == front + [s[n]];
      CountSnoc(front, s[n], p);
      CountIsPositions(front, p);
      PositionsSnoc(front, s[n], p);
    }
  }

  /** One more element adds its position exactly when it matches. */
  lemma PositionsSnoc<T>(s: seq<T>, x: T, p: T -> bool)
    ensures |s| !in Positions(s, p)
    ensures Positions(s + [x], p) == Positions(s, p) + (if p(x) then {|s|} else {})
  {
    var t := s + [x];
    forall i | 0 <= i < |s| ensures t[i] == s[i] {}
    assert t[|s|] == x;
  }

  /** Filtering a list with one element in front. */
  lemma FilterCons<T(!new)>(x: T, s: seq<T>, p: T -> bool)
    ensures Filter([x] + s, p) == (if p(x) then [x] else []) + Filter(s, p)
  {
    assert ([x] + s)[1..] == s;
  }

  /** Filtering a non-empty list decides its head, then filters the rest. */
  lemma FilterHead<T(!new)>(s: seq<T>, p: T -> bool)
    requires |s| > 0
    ensures Filter(s, p) == (if p(s[0]) then [s[0]] else []) + Filter(s[1..], p)
  {
  }
}
