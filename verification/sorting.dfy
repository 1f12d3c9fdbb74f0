/** `Array.prototype.sort` with a comparator, which ECMAScript requires to
    be stable: `cmp(a, b) <= 0` lets `a` stay ahead of `b`. The model is a
    stable insertion sort, and the lemmas say when its output is ordered. */
module Sorting {
  import Seqs

  /** Every earlier element may precede every later one. */
  predicate Sorted<T>(s: seq<T>, cmp: (T, T) -> int) {
    forall i, j :: 0 <= i < j < |s| ==> cmp(s[i], s[j]) <= 0
  }

  /** On the elements of `s`, `cmp(a, b) <= 0` is total and transitive: the
      condition under which a comparator sort has a well-defined result. */
  ghost predicate TotalPreorderOn<T>(cmp: (T, T) -> int, s: seq<T>) {
    && (forall a, b :: a in s && b in s ==> cmp(a, b) <= 0 || cmp(b, a) <= 0)
    && (forall a, b, c :: a in s && b in s && c in s && cmp(a, b) <= 0 && cmp(b, c) <= 0 ==> cmp(a, c) <= 0)
  }

  /** Places `x` ahead of the first element it may precede. */
  function Insert<T(==)>(x: T, s: seq<T>, cmp: (T, T) -> int): (r: seq<T>)
    ensures multiset(r) == multiset(s) + multiset{x}
    ensures |r| == |s| + 1
  {
    if |s| == 0 then [x]
    else if cmp(x, s[0]) <= 0 then [x] + s
    else
      assert s == [s[0]] + s[1..];
      [s[0]] + Insert(x, s[1..], cmp)
  }

  /** The sorted permutation of `s`; ties keep their original order. */
  function Sort<T(==)>(s: seq<T>, cmp: (T, T) -> int): (r: seq<T>)
    ensures multiset(r) == multiset(s)
    ensures |r| == |s|
  {
    if |s| == 0 then []
    else
      assert s == [s[0]] + s[1..];
      Insert(s[0], Sort(s[1..], cmp), cmp)
  }

  lemma {:induction false} InsertSorted<T>(x: T, s: seq<T>, cmp: (T, T) -> int)
    requires Sorted(s, cmp)
    requires TotalPreorderOn(cmp, [x] + s)
    ensures Sorted(Insert(x, s, cmp), cmp)
    decreases |s|, 1
  {
    if |s| > 0 {
      if cmp(x, s[0]) <= 0 {
        InsertAhead(x, s, cmp);
      } else {
        InsertBehind(x, s, cmp);
      }
    }
  }

  /** `x` may precede the head of the sorted `s`, so it may precede all of it. */
  lemma InsertAhead<T>(x: T, s: seq<T>, cmp: (T, T) -> int)
    requires |s| > 0 && Sorted(s, cmp) && cmp(x, s[0]) <= 0
    requires TotalPreorderOn(cmp, [x] + s)
    ensures Sorted([x] + s, cmp)
  {
    var r := [x] + s;
    forall j | 1 < j < |r| ensures cmp(x, r[j]) <= 0 {
      assert cmp(s[0], s[j - 1]) <= 0;
      assert s[0] in [x] + s && s[j - 1] in [x] + s;
    }
  }

  /** The head of `s` stays ahead when `x` goes further in. */
  lemma {:induction false} InsertBehind<T>(x: T, s: seq<T>, cmp: (T, T) -> int)
    requires |s| > 0 && Sorted(s, cmp) && cmp(x, s[0]) > 0
    requires TotalPreorderOn(cmp, [x] + s)
    ensures Sorted(Insert(x, s, cmp), cmp)
    decreases |s|, 0
  {
    TailIsPart(x, s);
    PreorderOnPart(cmp, [x] + s[1..], [x] + s);
    SortedTail(s, cmp);
    InsertSorted(x, s[1..], cmp);
    var rest := Insert(x, s[1..], cmp);
    assert Insert(x, s, cmp) == [s[0]] + rest;
    assert cmp(s[0], x) <= 0 by {
      assert x in [x] + s && s[0] in [x] + s;
    }
    HeadPrecedesInsert(x, s, rest, cmp);
    SortedCons(s[0], rest, cmp);
  }

  lemma TailIsPart<T>(x: T, s: seq<T>)
    requires |s| > 0
    ensures forall y :: y in [x] + s[1..] ==> y in [x] + s
  {
    forall y | y in [x] + s[1..] ensures y in [x] + s {
      if y != x {
        var k :| 0 <= k < |s[1..]| && s[1..][k] == y;
        assert s[k + 1] == y;
      }
    }
  }

  lemma SortedTail<T>(s: seq<T>, cmp: (T, T) -> int)
    requires |s| > 0 && Sorted(s, cmp)
    ensures Sorted(s[1..], cmp)
  {
    forall i, j | 0 <= i < j < |s[1..]| ensures cmp(s[1..][i], s[1..][j]) <= 0 {
      assert s[1..][i] == s[i + 1] && s[1..][j] == s[j + 1];
    }
  }

  /** A comparator that is a total preorder on `b` is one on any `a` drawn from `b`. */
  lemma PreorderOnPart<T>(cmp: (T, T) -> int, a: seq<T>, b: seq<T>)
    requires TotalPreorderOn(cmp, b)
    requires forall y :: y in a ==> y in b
    ensures TotalPreorderOn(cmp, a)
  {
  }

  /** A head that may precede every element of a sorted tail gives a sorted sequence. */
  lemma SortedCons<T>(h: T, rest: seq<T>, cmp: (T, T) -> int)
    requires Sorted(rest, cmp)
    requires forall j :: 0 <= j < |rest| ==> cmp(h, rest[j]) <= 0
    ensures Sorted([h] + rest, cmp)
  {
    var r := [h] + rest;
    forall i, j | 0 <= i < j < |r| ensures cmp(r[i], r[j]) <= 0 {
      if i == 0 {
        assert r[j] == rest[j - 1];
      } else {
        assert r[i] == rest[i - 1] && r[j] == rest[j - 1];
      }
    }
  }

  /** Every element of `Insert(x, s[1..])` is `x` or a later element of
      the sorted `s`, so the head of `s` may precede each of them. */
  lemma HeadPrecedesInsert<T>(x: T, s: seq<T>, rest: seq<T>, cmp: (T, T) -> int)
    requires |s| > 0 && Sorted(s, cmp) && cmp(s[0], x) <= 0
    requires rest == Insert(x, s[1..], cmp)
    ensures forall j :: 0 <= j < |rest| ==> cmp(s[0], rest[j]) <= 0
  {
    forall j | 0 <= j < |rest| ensures cmp(s[0], rest[j]) <= 0 {
      assert rest[j] in multiset(s[1..]) + multiset{x};
      if rest[j] != x {
        assert rest[j] in s[1..];
        var k :| 0 <= k < |s[1..]| && s[1..][k] == rest[j];
        assert s[k + 1] == rest[j];
      }
    }
  }

  /** A comparator that is a total preorder on the input sorts it. */
  lemma {:induction false} SortSorted<T>(s: seq<T>, cmp: (T, T) -> int)
    requires TotalPreorderOn(cmp, s)
    ensures Sorted(Sort(s, cmp), cmp)
  {
    if |s| > 0 {
      var t := Sort(s[1..], cmp);
      assert forall y :: y in s[1..] ==> y in s;
      SortSorted(s[1..], cmp);
      assert forall y :: y in t ==> y in multiset(s[1..]);
      assert forall y :: y in [s[0]] + t ==> y in s;
      InsertSorted(s[0], t, cmp);
    }
  }

  /** A comparator computing `key(b) - key(a)`, the source's idiom for
      "largest first", sorts by descending key. */
  lemma SortByKeyDescending<T(!new)>(s: seq<T>, cmp: (T, T) -> int, key: T -> int)
    requires forall a, b :: cmp(a, b) == key(b) - key(a)
    ensures var r := Sort(s, cmp); forall i, j :: 0 <= i < j < |r| ==> key(r[i]) >= key(r[j])
  {
    SortSorted(s, cmp);
    var r := Sort(s, cmp);
    forall i, j | 0 <= i < j < |r| ensures key(r[i]) >= key(r[j]) {
      assert cmp(r[i], r[j]) <= 0;
    }
  }

  /** A comparator that is a total preorder on all values sorts any input
      by it. */
  lemma SortByPreorder<T(!new)>(s: seq<T>, cmp: (T, T) -> int)
    requires forall a, b :: cmp(a, b) <= 0 || cmp(b, a) <= 0
    requires forall a, b, c :: cmp(a, b) <= 0 && cmp(b, c) <= 0 ==> cmp(a, c) <= 0
    ensures Sorted(Sort(s, cmp), cmp)
  {
    SortSorted(s, cmp);
  }

  /** Stability: elements of a tie class, any two of which the comparator
      lets stand in either order, come out of this insertion sort in the
      order they went in, whether or not `cmp` is consistent elsewhere. */
  lemma {:induction false} SortStable<T(!new)>(s: seq<T>, cmp: (T, T) -> int, tie: T -> bool)
    requires forall a, b :: tie(a) && tie(b) ==> cmp(a, b) <= 0
    ensures Seqs.Filter(Sort(s, cmp), tie) == Seqs.Filter(s, tie)
  {
    if |s| > 0 {
      var t := Sort(s[1..], cmp);
      SortStable(s[1..], cmp, tie);
      InsertStable(s[0], t, cmp, tie);
      assert Sort(s, cmp) == Insert(s[0], t, cmp);
      Seqs.FilterHead(s, tie);
    }
  }

  /** Inserting `x` puts it ahead of every element of its tie class. */
  lemma {:induction false} InsertStable<T(!new)>(x: T, s: seq<T>, cmp: (T, T) -> int, tie: T -> bool)
    requires forall a, b :: tie(a) && tie(b) ==> cmp(a, b) <= 0
    ensures Seqs.Filter(Insert(x, s, cmp), tie) == (if tie(x) then [x] else []) + Seqs.Filter(s, tie)
    decreases |s|, 1
  {
    if |s| == 0 {
      Seqs.FilterCons(x, s, tie);
    } else if cmp(x, s[0]) <= 0 {
      assert Insert(x, s, cmp) == [x] + s;
      Seqs.FilterCons(x, s, tie);
    } else {
      InsertStableBehind(x, s, cmp, tie);
    }
  }

  /** The case where `x` goes behind the head of `s`. */
  lemma {:induction false} InsertStableBehind<T(!new)>(x: T, s: seq<T>, cmp: (T, T) -> int, tie: T -> bool)
    requires forall a, b :: tie(a) && tie(b) ==> cmp(a, b) <= 0
    requires |s| > 0 && cmp(x, s[0]) > 0
    ensures Seqs.Filter(Insert(x, s, cmp), tie) == (if tie(x) then [x] else []) + Seqs.Filter(s, tie)
    decreases |s|, 0
  {
    var rest := Insert(x, s[1..], cmp);
    var tail := Seqs.Filter(s[1..], tie);
    var head: seq<T> := if tie(s[0]) then [s[0]] else [];
    var mine: seq<T> := if tie(x) then [x] else [];
    assert Insert(x, s, cmp) == [s[0]] + rest;
    InsertStable(x, s[1..], cmp, tie);
    assert Seqs.Filter(rest, tie) == mine + tail;
    Seqs.FilterHead(s, tie);
    assert Seqs.Filter(s, tie) == head + tail;
    Seqs.FilterCons(s[0], rest, tie);
    assert Seqs.Filter(Insert(x, s, cmp), tie) == head + (mine + tail);
    assert tie(x) ==> head == [];
    SwapPastEmpty(head, mine, tail);
  }

  /** Two pieces of which one is empty may trade places. */
  lemma SwapPastEmpty<T>(head: seq<T>, mine: seq<T>, tail: seq<T>)
    requires head == [] || mine == []
    ensures head + (mine + tail) == mine + (head + tail)
  {
  }
}
