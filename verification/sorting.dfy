/** The LINQ building blocks the services chain together: a stable sort
    (`OrderBy` / `OrderByDescending`), `Where`, and `OrderBy(..).First()`.
    A sort is driven by `le(a, b)`, "a may come before b"; keys that compare
    equal are the ties a stable sort keeps in input order. */
module Sorting {

  ghost predicate TotalPreorder<T(!new)>(le: (T, T) -> bool) {
    && (forall a, b :: le(a, b) || le(b, a))
    && (forall a, b, c :: le(a, b) && le(b, c) ==> le(a, c))
  }

  ghost predicate Sorted<T>(s: seq<T>, le: (T, T) -> bool) {
    forall i, j :: 0 <= i < j < |s| ==> le(s[i], s[j])
  }

  /** Inserts `x` in front of the first element it may precede. */
  function Insert<T>(x: T, s: seq<T>, le: (T, T) -> bool): (r: seq<T>)
    ensures |r| == |s| + 1
    ensures multiset(r) == multiset(s) + multiset{x}
  {
    if s == [] || le(x, s[0]) then [x] + s
    else
      assert s == [s[0]] + s[1..];
      [s[0]] + Insert(x, s[1..], le)
  }

  /** Stable insertion sort. */
  function Sort<T>(s: seq<T>, le: (T, T) -> bool): (r: seq<T>)
    ensures |r| == |s|
    ensures multiset(r) == multiset(s)
  {
    if s == [] then []
    else
      assert s == [s[0]] + s[1..];
      Insert(s[0], Sort(s[1..], le), le)
  }

  lemma {:induction false} InsertSorted<T(!new)>(x: T, s: seq<T>, le: (T, T) -> bool)
    requires TotalPreorder(le)
    requires Sorted(s, le)
    ensures Sorted(Insert(x, s, le), le)
  {
    if s == [] || le(x, s[0]) {
    } else {
      var tail := Insert(x, s[1..], le);
      InsertSorted(x, s[1..], le);
      forall k | 0 <= k < |tail|
        ensures le(s[0], tail[k])
      {
        assert tail[k] in multiset(tail);
        if tail[k] != x {
          assert tail[k] in multiset(s[1..]);
          var j :| 0 <= j < |s[1..]| && s[1..][j] == tail[k];
          assert s[1 + j] == tail[k];
        }
      }
    }
  }

  /** `Sort` orders its output. */
  lemma {:induction false} SortSorted<T(!new)>(s: seq<T>, le: (T, T) -> bool)
    requires TotalPreorder(le)
    ensures Sorted(Sort(s, le), le)
  {
    if s != [] {
      SortSorted(s[1..], le);
      InsertSorted(s[0], Sort(s[1..], le), le);
    }
  }

  /** The elements of `s` that tie with `y`, in order. */
  ghost function Ties<T>(s: seq<T>, y: T, le: (T, T) -> bool): seq<T> {
    if s == [] then []
    else (if le(s[0], y) && le(y, s[0]) then [s[0]] else []) + Ties(s[1..], y, le)
  }

  lemma {:induction false} TiesCons<T>(x: T, s: seq<T>, y: T, le: (T, T) -> bool)
    ensures Ties([x] + s, y, le) == (if le(x, y) && le(y, x) then [x] else []) + Ties(s, y, le)
  {
    assert ([x] + s)[1..] == s;
  }

  /** Under a total preorder, an element that may not precede `s0` cannot tie with
      the same `y` as `s0`. */
  lemma {:induction false} TieExclusive<T(!new)>(x: T, s0: T, y: T, le: (T, T) -> bool)
    requires TotalPreorder(le)
    requires !le(x, s0)
    ensures !(le(x, y) && le(y, x) && le(s0, y) && le(y, s0))
  {
  }

  lemma {:induction false} InsertStableStep<T>(x: T, s: seq<T>, y: T, le: (T, T) -> bool)
    requires s != [] && !le(x, s[0])
    requires !(le(x, y) && le(y, x) && le(s[0], y) && le(y, s[0]))
    requires Ties(Insert(x, s[1..], le), y, le) == Ties([x] + s[1..], y, le)
    ensures Ties(Insert(x, s, le), y, le) == Ties([x] + s, y, le)
  {
    var s0 := s[0];
    var tx: seq<T> := if le(x, y) && le(y, x) then [x] else [];
    var t0: seq<T> := if le(s0, y) && le(y, s0) then [s0] else [];
    TiesCons(s0, Insert(x, s[1..], le), y, le);
    TiesCons(x, s[1..], y, le);
    TiesCons(x, s, y, le);
    TiesCons(s0, s[1..], y, le);
    assert s == [s0] + s[1..];
    calc {
      Ties(Insert(x, s, le), y, le);
      t0 + Ties(Insert(x, s[1..], le), y, le);
      t0 + (tx + Ties(s[1..], y, le));
      { assert t0 + tx == tx + t0; }
      tx + (t0 + Ties(s[1..], y, le));
      Ties([x] + s, y, le);
    }
  }

  lemma {:induction false} InsertStable<T(!new)>(x: T, s: seq<T>, y: T, le: (T, T) -> bool)
    requires TotalPreorder(le)
    ensures Ties(Insert(x, s, le), y, le) == Ties([x] + s, y, le)
  {
    if s != [] && !le(x, s[0]) {
      InsertStable(x, s[1..], y, le);
      TieExclusive(x, s[0], y, le);
      InsertStableStep(x, s, y, le);
    }
  }

  /** `Sort` is stable: every class of tied elements keeps its input order. */
  lemma {:induction false} SortStable<T(!new)>(s: seq<T>, y: T, le: (T, T) -> bool)
    requires TotalPreorder(le)
    ensures Ties(Sort(s, le), y, le) == Ties(s, y, le)
  {
    if s != [] {
      SortStable(s[1..], y, le);
      InsertStable(s[0], Sort(s[1..], le), y, le);
      TiesCons(s[0], Sort(s[1..], le), y, le);
      TiesCons(s[0], s[1..], y, le);
      assert s == [s[0]] + s[1..];
    }
  }

  /** LINQ `Where`. */
  function Filter<T>(s: seq<T>, keep: T -> bool): (r: seq<T>)
    ensures |r| <= |s|
    ensures forall i :: 0 <= i < |r| ==> keep(r[i])
    ensures multiset(r) <= multiset(s)
    ensures forall x :: x in s && keep(x) ==> x in r
  {
    if s == [] then []
    else
      assert s == [s[0]] + s[1..];
      (if keep(s[0]) then [s[0]] else []) + Filter(s[1..], keep)
  }

  /** `Where` keeps the order of what it keeps. */
  lemma {:induction false} FilterSorted<T>(s: seq<T>, keep: T -> bool, le: (T, T) -> bool)
    requires Sorted(s, le)
    ensures Sorted(Filter(s, keep), le)
  {
    if s != [] {
      FilterSorted(s[1..], keep, le);
      var rest := Filter(s[1..], keep);
      forall k | 0 <= k < |rest|
        ensures le(s[0], rest[k])
      {
        assert rest[k] in multiset(s[1..]);
        var j :| 0 <= j < |s[1..]| && s[1..][j] == rest[k];
        assert s[1 + j] == rest[k];
      }
    }
  }

  /** When `keep` decides whole tie classes, filtering keeps or drops the class of `y` as a block. */
  lemma {:induction false} FilterTies<T>(s: seq<T>, keep: T -> bool, y: T, le: (T, T) -> bool)
    requires forall a :: le(a, y) && le(y, a) ==> keep(a) == keep(y)
    ensures Ties(Filter(s, keep), y, le) == if keep(y) then Ties(s, y, le) else []
  {
    if s != [] {
      FilterTies(s[1..], keep, y, le);
      var head := if keep(s[0]) then [s[0]] else [];
      var rest := Filter(s[1..], keep);
      assert Filter(s, keep) == head + rest;
      if keep(s[0]) {
        TiesCons(s[0], rest, y, le);
      } else {
        assert head + rest == rest;
      }
    }
  }

  /** Taking a prefix takes a prefix of every tie class. */
  lemma {:induction false} TakeTies<T>(s: seq<T>, n: nat, y: T, le: (T, T) -> bool)
    requires n <= |s|
    ensures Ties(s[..n], y, le) <= Ties(s, y, le)
  {
    if n > 0 {
      TakeTies(s[1..], n - 1, y, le);
      assert s[..n] == [s[0]] + s[1..][..n - 1];
      TiesCons(s[0], s[1..][..n - 1], y, le);
      TiesCons(s[0], s[1..], y, le);
      assert s == [s[0]] + s[1..];
    }
  }

  /** `OrderBy(key).First()`: the position of the first element with the least key;
      `None` for an empty sequence, where `First` throws. */
  function FirstMin<T>(s: seq<T>, key: T -> int): (i: nat)
    requires |s| > 0
    ensures i < |s|
    ensures forall j :: 0 <= j < |s| ==> key(s[i]) <= key(s[j])
    ensures forall j :: 0 <= j < i ==> key(s[j]) > key(s[i])
  {
    if |s| == 1 then 0
    else
      var k := FirstMin(s[1..], key);
      assert forall j :: 1 <= j < |s| ==> s[j] == s[1..][j - 1];
      if key(s[0]) <= key(s[1 + k]) then 0 else 1 + k
  }

  /** An element at two positions occurs at least twice. */
  lemma MultiplicityOfRepeat<T>(s: seq<T>, i: int, j: int)
    requires 0 <= i < j < |s| && s[i] == s[j]
    ensures multiset(s)[s[i]] >= 2
  {
    assert s == s[..i] + [s[i]] + s[i + 1..j] + [s[j]] + s[j + 1..];
  }

  /** The first `n` elements of a permutation of `s` are drawn from `s`. */
  lemma PrefixOfPermutation<T>(s: seq<T>, t: seq<T>, n: nat)
    requires multiset(t) == multiset(s) && n <= |t|
    ensures multiset(t[..n]) <= multiset(s)
    ensures forall k :: 0 <= k < n ==> t[k] in s
  {
    assert t == t[..n] + t[n..];
    assert multiset(t) == multiset(t[..n]) + multiset(t[n..]);
    forall k | 0 <= k < n
      ensures t[k] in s
    {
      assert t[k] in multiset(t);
    }
  }

  /** `f` applied to every element, in order. */
  function MapSeq<A, B>(s: seq<A>, f: A -> B): (r: seq<B>)
    ensures |r| == |s| && forall k :: 0 <= k < |s| ==> r[k] == f(s[k])
  {
    seq(|s|, k requires 0 <= k < |s| => f(s[k]))
  }

  /** Removing the element at `i` removes one occurrence of it. */
  lemma RemoveAt<T>(t: seq<T>, i: nat)
    requires i < |t|
    ensures multiset(t[..i] + t[i + 1..]) == multiset(t) - multiset{t[i]}
  {
    assert t == t[..i] + [t[i]] + t[i + 1..];
  }

  /** Mapping a sequence maps the element at `i` plus the rest. */
  lemma MapRemoveAt<A, B>(t: seq<A>, i: nat, f: A -> B)
    requires i < |t|
    ensures multiset(MapSeq(t, f)) == multiset(MapSeq(t[..i] + t[i + 1..], f)) + multiset{f(t[i])}
  {
    var left, right := MapSeq(t[..i], f), MapSeq(t[i + 1..], f);
    assert MapSeq(t, f) == left + [f(t[i])] + right;
    assert MapSeq(t[..i] + t[i + 1..], f) == left + right;
  }

  lemma MapHead<A, B>(s: seq<A>, f: A -> B)
    requires s != []
    ensures multiset(MapSeq(s, f)) == multiset(MapSeq(s[1..], f)) + multiset{f(s[0])}
  {
    assert MapSeq(s, f) == [f(s[0])] + MapSeq(s[1..], f);
  }

  /** Where the first element of `s` sits in a permutation `t` of `s`; the
      rests are permutations of each other. */
  lemma MatchHead<T>(s: seq<T>, t: seq<T>) returns (i: nat)
    requires s != [] && multiset(s) == multiset(t)
    ensures i < |t| && t[i] == s[0]
    ensures multiset(s[1..]) == multiset(t[..i] + t[i + 1..])
  {
    assert s[0] in multiset(s);
    i := IndexOf(t, s[0]);
    RemoveMatched(s, t, i);
  }

  lemma IndexOf<T>(t: seq<T>, x: T) returns (i: nat)
    requires x in multiset(t)
    ensures i < |t| && t[i] == x
  {
    assert x in t;
    i :| 0 <= i < |t| && t[i] == x;
  }

  lemma RemoveMatched<T>(s: seq<T>, t: seq<T>, i: nat)
    requires s != [] && multiset(s) == multiset(t) && i < |t| && t[i] == s[0]
    ensures multiset(s[1..]) == multiset(t[..i] + t[i + 1..])
  {
    var x, tail := s[0], s[1..];
    RemoveAt(t, i);
    assert s == [x] + tail;
    assert multiset(s) == multiset{x} + multiset(tail);
    assert multiset(s) - multiset{x} == multiset(tail);
  }

  /** Mapping two permutations of each other gives permutations of each other. */
  lemma {:induction false} MapPermutation<A, B>(s: seq<A>, t: seq<A>, f: A -> B)
    requires multiset(s) == multiset(t)
    ensures multiset(MapSeq(s, f)) == multiset(MapSeq(t, f))
    decreases |s|
  {
    if s == [] {
      assert |t| == |multiset(t)| == 0;
    } else {
      var i := MatchHead(s, t);
      var rest := t[..i] + t[i + 1..];
      MapPermutation(s[1..], rest, f);
      MapRemoveAt(t, i, f);
      MapHead(s, f);
    }
  }
}
