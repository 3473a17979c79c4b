/**
 A stable sort by a caller-supplied "not after" relation. `Array.prototype.sort`
 is stable, and the popup relies on that for headers that share a name; any
 stable sort by a consistent comparator yields the same sequence, so the
 model uses insertion sort.
 */
module Sorting {

  /** `le` is total and transitive: a consistent comparator's "not after". */
  ghost predicate TotalPreorder<T(!new)>(le: (T, T) -> bool) {
    && (forall a, b :: le(a, b) || le(b, a))
    && (forall a, b, c :: le(a, b) && le(b, c) ==> le(a, c))
  }

  ghost predicate SortedBy<T>(s: seq<T>, le: (T, T) -> bool) {
    forall i, j :: 0 <= i < j < |s| ==> le(s[i], s[j])
  }

  /** `x` placed in front of the first element it is not after. */
  function Insert<T>(x: T, s: seq<T>, le: (T, T) -> bool): (r: seq<T>)
    ensures |r| == |s| + 1
    ensures multiset(r) == multiset(s) + multiset{x}
  {
    if |s| == 0 || le(x, s[0]) then [x] + s
    else
      assert s == [s[0]] + s[1..];
      [s[0]] + Insert(x, s[1..], le)
  }

  /** Stable insertion sort of `s` by `le`. */
  function Sort<T>(s: seq<T>, le: (T, T) -> bool): (r: seq<T>)
    ensures |r| == |s|
    ensures multiset(r) == multiset(s)
  {
    if |s| == 0 then []
    else
      assert s == [s[0]] + s[1..];
      Insert(s[0], Sort(s[1..], le), le)
  }

  lemma {:induction false} InsertSorted<T(!new)>(x: T, s: seq<T>, le: (T, T) -> bool)
    requires TotalPreorder(le) && SortedBy(s, le)
    ensures SortedBy(Insert(x, s, le), le)
  {
    if |s| > 0 && !le(x, s[0]) {
      InsertSorted(x, s[1..], le);
      var r := Insert(x, s[1..], le);
      forall k | 0 <= k < |r|
        ensures le(s[0], r[k])
      {
        assert r[k] in multiset(r);
        assert r[k] == x || r[k] in s[1..];
      }
    }
  }

  /** The sorted sequence is ordered by `le`. */
  lemma {:induction false} SortSorted<T(!new)>(s: seq<T>, le: (T, T) -> bool)
    requires TotalPreorder(le)
    ensures SortedBy(Sort(s, le), le)
  {
    if |s| > 0 {
      SortSorted(s[1..], le);
      InsertSorted(s[0], Sort(s[1..], le), le);
    }
  }

  /** `[a]` when `a` is tied with `k` under `le`, otherwise empty. */
  function TieOf<T>(a: T, le: (T, T) -> bool, k: T): seq<T> {
    if le(a, k) && le(k, a) then [a] else []
  }

  /** The elements of `s` tied with `k` under `le`, in their order in `s`. */
  function Ties<T>(s: seq<T>, le: (T, T) -> bool, k: T): seq<T> {
    if |s| == 0 then [] else TieOf(s[0], le, k) + Ties(s[1..], le, k)
  }

  lemma TiesCons<T>(a: T, s: seq<T>, le: (T, T) -> bool, k: T)
    ensures Ties([a] + s, le, k) == TieOf(a, le, k) + Ties(s, le, k)
  {
    assert ([a] + s)[1..] == s;
  }

  lemma {:induction false} InsertStable<T(!new)>(x: T, s: seq<T>, le: (T, T) -> bool, k: T)
    requires TotalPreorder(le)
    ensures Ties(Insert(x, s, le), le, k) == Ties([x] + s, le, k)
  {
    if |s| > 0 && !le(x, s[0]) {
      var y, rest := s[0], s[1..];
      var inserted := Insert(x, rest, le);
      InsertStable(x, rest, le, k);
      assert Insert(x, s, le) == [y] + inserted;
      assert s == [y] + rest;
      PassTies(x, y, rest, inserted, le, k);
    }
  }

  /** Moving `x` past an element it is after keeps the ties in order: the
      two are never both tied with `k`. */
  lemma PassTies<T(!new)>(x: T, y: T, rest: seq<T>, inserted: seq<T>, le: (T, T) -> bool, k: T)
    requires TotalPreorder(le) && !le(x, y)
    requires Ties(inserted, le, k) == Ties([x] + rest, le, k)
    ensures Ties([y] + inserted, le, k) == Ties([x] + ([y] + rest), le, k)
  {
    TiesCons(y, inserted, le, k);
    TiesCons(x, rest, le, k);
    TiesCons(x, [y] + rest, le, k);
    TiesCons(y, rest, le, k);
    NotBothTied(x, y, le, k);
    SwapEmpty(TieOf(x, le, k), TieOf(y, le, k), Ties(rest, le, k));
  }

  lemma NotBothTied<T(!new)>(x: T, y: T, le: (T, T) -> bool, k: T)
    requires TotalPreorder(le) && !le(x, y)
    ensures TieOf(x, le, k) == [] || TieOf(y, le, k) == []
  {
    assert le(x, k) && le(k, y) ==> le(x, y);
  }

  lemma SwapEmpty<T>(tx: seq<T>, ty: seq<T>, tr: seq<T>)
    requires tx == [] || ty == []
    ensures ty + (tx + tr) == tx + (ty + tr)
  {
    if tx == [] {
      assert ty + ([] + tr) == ty + tr;
    } else {
      assert [] + (tx + tr) == tx + tr;
    }
  }

  /** Sorting is stable: the elements tied with any `k` keep their original
      relative order. */
  lemma {:induction false} SortStable<T(!new)>(s: seq<T>, le: (T, T) -> bool, k: T)
    requires TotalPreorder(le)
    ensures Ties(Sort(s, le), le, k) == Ties(s, le, k)
  {
    if |s| > 0 {
      SortStable(s[1..], le, k);
      InsertStable(s[0], Sort(s[1..], le), le, k);
      TiesCons(s[0], Sort(s[1..], le), le, k);
      TiesCons(s[0], s[1..], le, k);
      assert s == [s[0]] + s[1..];
    }
  }

  /** Two sequences ordered by `le`, holding the same elements, whose tied
      elements come in the same order, are equal. */
  lemma {:induction false} SortedTiesDetermine<T(!new)>(a: seq<T>, b: seq<T>, le: (T, T) -> bool)
    requires TotalPreorder(le)
    requires SortedBy(a, le) && SortedBy(b, le)
    requires multiset(a) == multiset(b)
    requires forall k :: Ties(a, le, k) == Ties(b, le, k)
    ensures a == b
  {
    assert |a| == |b| by {
      assert |multiset(a)| == |multiset(b)|;
    }
    if |a| > 0 {
      HeadsEqual(a, b, le);
      var x := a[0];
      assert a == [x] + a[1..] && b == [x] + b[1..];
      TailTies(x, a[1..], b[1..], le);
      TailMultiset(x, a[1..], b[1..]);
      SortedTiesDetermine(a[1..], b[1..], le);
    }
  }

  /** Removing a common first element keeps the ties equal. */
  lemma TailTies<T>(x: T, a: seq<T>, b: seq<T>, le: (T, T) -> bool)
    requires forall k :: Ties([x] + a, le, k) == Ties([x] + b, le, k)
    ensures forall k :: Ties(a, le, k) == Ties(b, le, k)
  {
    forall k
      ensures Ties(a, le, k) == Ties(b, le, k)
    {
      TiesCons(x, a, le, k);
      TiesCons(x, b, le, k);
      var t := TieOf(x, le, k);
      assert Ties(a, le, k) == (t + Ties(a, le, k))[|t|..];
      assert Ties(b, le, k) == (t + Ties(b, le, k))[|t|..];
    }
  }

  /** Removing a common first element keeps the multisets equal. */
  lemma TailMultiset<T>(x: T, a: seq<T>, b: seq<T>)
    requires multiset([x] + a) == multiset([x] + b)
    ensures multiset(a) == multiset(b)
  {
    assert multiset(a) == multiset([x] + a) - multiset{x};
    assert multiset(b) == multiset([x] + b) - multiset{x};
  }

  /** The first elements of two such sequences are tied, and since each
      comes first among its ties, they are the same element. */
  lemma HeadsEqual<T(!new)>(a: seq<T>, b: seq<T>, le: (T, T) -> bool)
    requires TotalPreorder(le)
    requires SortedBy(a, le) && SortedBy(b, le)
    requires multiset(a) == multiset(b) && |a| > 0 && |b| > 0
    requires forall k :: Ties(a, le, k) == Ties(b, le, k)
    ensures a[0] == b[0]
  {
    var x, y := a[0], b[0];
    HeadIsLeast(a, y, le);
    HeadIsLeast(b, x, le);
    assert le(x, x) || le(x, x);
    TiesHead(a, le, x);
    TiesHead(b, le, x);
    assert Ties(a, le, x) == Ties(b, le, x);
  }

  /** A first element tied with `k` comes first among the ties. */
  lemma TiesHead<T>(a: seq<T>, le: (T, T) -> bool, k: T)
    requires |a| > 0 && le(a[0], k) && le(k, a[0])
    ensures |Ties(a, le, k)| > 0 && Ties(a, le, k)[0] == a[0]
  {
  }

  /** The first element of a sequence ordered by `le` is not after any of
      its elements. */
  lemma HeadIsLeast<T(!new)>(a: seq<T>, y: T, le: (T, T) -> bool)
    requires TotalPreorder(le) && SortedBy(a, le)
    requires y in multiset(a)
    ensures le(a[0], y)
  {
    var i :| 0 <= i < |a| && a[i] == y;
    if i == 0 {
      assert le(y, y) || le(y, y);
    }
  }

  /** Every stable sort by `le` gives the sequence `Sort` gives, so modelling
      the engine's stable sort by insertion sort loses nothing. */
  lemma StableSortIsUnique<T(!new)>(s: seq<T>, r: seq<T>, le: (T, T) -> bool)
    requires TotalPreorder(le)
    requires SortedBy(r, le) && multiset(r) == multiset(s)
    requires forall k :: Ties(r, le, k) == Ties(s, le, k)
    ensures r == Sort(s, le)
  {
    SortSorted(s, le);
    forall k
      ensures Ties(r, le, k) == Ties(Sort(s, le), le, k)
    {
      SortStable(s, le, k);
    }
    SortedTiesDetermine(r, Sort(s, le), le);
  }
}
