/** Python's `sorted`, which is stable: with `reverse=True` on a key, the
    result is ordered by descending key, and items with equal keys keep the
    order they had. Each item carries its original position, so stability is
    the order by descending key and then ascending position. */
module Ranking {
  import opened Text

  datatype Ranked<T> = Ranked(item: T, key: int, pos: nat)

  /** `a` may come before `b` in a stable descending sort. */
  predicate Before<T>(a: Ranked<T>, b: Ranked<T>) {
    a.key > b.key || (a.key == b.key && a.pos <= b.pos)
  }

  predicate Ordered<T>(s: seq<Ranked<T>>) {
    forall i, j :: 0 <= i < j < |s| ==> Before(s[i], s[j])
  }

  /** Items numbered by their position in the input. */
  predicate Numbered<T>(s: seq<Ranked<T>>) {
    forall i :: 0 <= i < |s| ==> s[i].pos == i
  }

  function Insert<T>(x: Ranked<T>, s: seq<Ranked<T>>): (r: seq<Ranked<T>>)
    ensures multiset(r) == multiset(s) + multiset{x}
    ensures |r| == |s| + 1
  {
    if s == [] || Before(x, s[0]) then [x] + s
    else
      assert s == [s[0]] + s[1..];
      [s[0]] + Insert(x, s[1..])
  }

  lemma {:induction false} InsertOrdered<T>(x: Ranked<T>, s: seq<Ranked<T>>)
    requires Ordered(s)
    ensures Ordered(Insert(x, s))
  {
    if s != [] && !Before(x, s[0]) {
      var t := Insert(x, s[1..]);
      InsertOrdered(x, s[1..]);
      forall k | 0 <= k < |t|
        ensures Before(s[0], t[k])
      {
        assert t[k] in multiset(t);
        assert t[k] == x || t[k] in s[1..];
      }
    }
  }

  /** `sorted(s, key=key, reverse=True)` */
  function SortDescending<T>(s: seq<Ranked<T>>): (r: seq<Ranked<T>>)
    ensures Ordered(r)
    ensures multiset(r) == multiset(s)
    ensures |r| == |s|
  {
    if s == [] then []
    else
      assert s == s[..|s| - 1] + [s[|s| - 1]];
      InsertOrdered(s[|s| - 1], SortDescending(s[..|s| - 1]));
      Insert(s[|s| - 1], SortDescending(s[..|s| - 1]))
  }

  /** Items with distinct positions. */
  predicate PositionsDistinct<T(==)>(a: seq<Ranked<T>>) {
    forall x, y :: x in a && y in a && x.pos == y.pos ==> x == y
  }

  /** Of two orderings of the same items, the first items agree. */
  lemma HeadsAgree<T>(a: seq<Ranked<T>>, b: seq<Ranked<T>>)
    requires Ordered(a) && Ordered(b) && multiset(a) == multiset(b)
    requires PositionsDistinct(a) && a != []
    ensures b != [] && a[0] == b[0]
  {
    assert a[0] in multiset(b);
    var i :| 0 <= i < |b| && b[i] == a[0];
    assert b[0] in multiset(a);
    var j :| 0 <= j < |a| && a[j] == b[0];
    assert Before(b[0], a[0]) by { if i > 0 { assert Before(b[0], b[i]); } }
    assert Before(a[0], b[0]) by { if j > 0 { assert Before(a[0], a[j]); } }
  }

  lemma TailMultiset<T>(a: seq<Ranked<T>>)
    requires a != []
    ensures multiset(a[1..]) == multiset(a) - multiset{a[0]}
  {
    assert a == [a[0]] + a[1..];
  }

  /** Two orderings of the same items with distinct positions agree: the
      stable order is determined by the keys and the positions alone. */
  lemma {:induction false} OrderedUnique<T>(a: seq<Ranked<T>>, b: seq<Ranked<T>>)
    requires Ordered(a) && Ordered(b) && multiset(a) == multiset(b)
    requires PositionsDistinct(a)
    ensures a == b
    decreases |a|
  {
    if a == [] {
      assert |b| == |multiset(b)| == 0;
    } else {
      HeadsAgree(a, b);
      TailMultiset(a);
      TailMultiset(b);
      assert PositionsDistinct(a[1..]) by {
        forall x, y | x in a[1..] && y in a[1..] && x.pos == y.pos
          ensures x == y
        {
          assert x in a && y in a;
        }
      }
      OrderedUnique(a[1..], b[1..]);
      assert a == [a[0]] + a[1..];
      assert b == [b[0]] + b[1..];
    }
  }

  /** The items of a ranking, in its order. */
  function Items<T>(rs: seq<Ranked<T>>): (r: seq<T>)
    ensures |r| == |rs|
    ensures forall i :: 0 <= i < |rs| ==> r[i] == rs[i].item
  {
    if rs == [] then [] else [rs[0].item] + Items(rs[1..])
  }

  /** The items of `xs` ranked by `key` and numbered by their position. */
  function Numbering<T>(xs: seq<T>, key: T -> int): (r: seq<Ranked<T>>)
    ensures |r| == |xs|
    ensures forall i :: 0 <= i < |xs| ==> r[i] == Ranked(xs[i], key(xs[i]), i)
  {
    seq(|xs|, i requires 0 <= i < |xs| => Ranked(xs[i], key(xs[i]), i))
  }

  /** `sorted(xs, key=key, reverse=True)[:n]` */
  function Top<T>(xs: seq<T>, key: T -> int, n: nat): seq<T> {
    Items(Take(SortDescending(Numbering(xs, key)), n))
  }

  /** A value that occurs at two places of `b` occurs at least twice in its
      multiset. */
  lemma RepeatedTwice<T>(b: seq<T>, i: nat, j: nat)
    requires i < j < |b| && b[i] == b[j]
    ensures multiset(b)[b[i]] >= 2
  {
    assert b == b[..j] + b[j..];
    assert b[i] in b[..j];
    assert b[j] == b[j..][0];
  }

  /** In a sequence without repeats each value occurs at most once. */
  lemma {:induction false} OnceInDistinct<T>(a: seq<T>, x: T)
    requires forall i, j :: 0 <= i < j < |a| ==> a[i] != a[j]
    ensures multiset(a)[x] <= 1
  {
    if a != [] {
      assert a == [a[0]] + a[1..];
      OnceInDistinct(a[1..], x);
      if x == a[0] {
        assert x !in a[1..];
      }
    }
  }

  /** A permutation of a sequence without repeats has none either. */
  lemma PermutationNoRepeats<T>(a: seq<T>, b: seq<T>)
    requires forall i, j :: 0 <= i < j < |a| ==> a[i] != a[j]
    requires multiset(a) == multiset(b)
    ensures forall i, j :: 0 <= i < j < |b| ==> b[i] != b[j]
  {
    forall i, j | 0 <= i < j < |b|
      ensures b[i] != b[j]
    {
      if b[i] == b[j] {
        RepeatedTwice(b, i, j);
        OnceInDistinct(a, b[i]);
      }
    }
  }

  /** `s` is in ascending order. */
  predicate Ascending(s: seq<int>) {
    forall i, j :: 0 <= i < j < |s| ==> s[i] <= s[j]
  }

  function InsertAscending(x: int, s: seq<int>): (r: seq<int>)
    ensures multiset(r) == multiset(s) + multiset{x}
  {
    if s == [] || x <= s[0] then [x] + s
    else
      assert s == [s[0]] + s[1..];
      [s[0]] + InsertAscending(x, s[1..])
  }

  lemma {:induction false} InsertAscendingSorted(x: int, s: seq<int>)
    requires Ascending(s)
    ensures Ascending(InsertAscending(x, s))
  {
    if s != [] && x > s[0] {
      var t := InsertAscending(x, s[1..]);
      InsertAscendingSorted(x, s[1..]);
      forall k | 0 <= k < |t|
        ensures s[0] <= t[k]
      {
        assert t[k] in multiset(t);
        assert t[k] == x || t[k] in s[1..];
      }
    }
  }

  /** `sorted(s)` for integers. */
  function SortAscending(s: seq<int>): (r: seq<int>)
    ensures Ascending(r)
    ensures multiset(r) == multiset(s)
  {
    if s == [] then []
    else
      assert s == s[..|s| - 1] + [s[|s| - 1]];
      InsertAscendingSorted(s[|s| - 1], SortAscending(s[..|s| - 1]));
      InsertAscending(s[|s| - 1], SortAscending(s[..|s| - 1]))
  }

  /** The sorted numbering holds each item at its position, once. */
  lemma SortedNumbering<T>(xs: seq<T>, key: T -> int)
    ensures var s := SortDescending(Numbering(xs, key));
      forall x :: x in s ==> x.pos < |xs| && x.item == xs[x.pos] && x.key == key(x.item)
    ensures var s := SortDescending(Numbering(xs, key));
      forall i, j :: 0 <= i < j < |s| ==> s[i] != s[j]
  {
    var s := SortDescending(Numbering(xs, key));
    forall x | x in s
      ensures x.pos < |xs| && x.item == xs[x.pos] && x.key == key(x.item)
    {
      assert x in multiset(Numbering(xs, key));
    }
    PermutationNoRepeats(Numbering(xs, key), s);
  }

  /** The first `n` are `n` items of `xs`, or all of them when there are fewer. */
  lemma TopFrom<T>(xs: seq<T>, key: T -> int, n: nat)
    ensures |Top(xs, key, n)| == Min(n, |xs|)
    ensures forall t :: t in Top(xs, key, n) ==> t in xs
  {
    var s := SortDescending(Numbering(xs, key));
    var top := Top(xs, key, n);
    SortedNumbering(xs, key);
    forall t | t in top
      ensures t in xs
    {
      var k :| 0 <= k < |top| && top[k] == t;
      assert s[k] in s;
    }
  }

  /** They come by descending key, and items with equal keys in the order
      they have in `xs`. */
  lemma TopOrdered<T>(xs: seq<T>, key: T -> int, n: nat)
    ensures var top := Top(xs, key, n);
      forall i, j :: 0 <= i < j < |top| ==>
        key(top[i]) > key(top[j])
        || (key(top[i]) == key(top[j]) && exists p, q :: 0 <= p < q < |xs| && xs[p] == top[i] && xs[q] == top[j])
  {
    var s := SortDescending(Numbering(xs, key));
    var top := Top(xs, key, n);
    SortedNumbering(xs, key);
    forall i, j | 0 <= i < j < |top|
      ensures key(top[i]) > key(top[j])
        || (key(top[i]) == key(top[j]) && exists p, q :: 0 <= p < q < |xs| && xs[p] == top[i] && xs[q] == top[j])
    {
      assert Before(s[i], s[j]);
      assert s[i] in s && s[j] in s;
      if s[i].key == s[j].key {
        assert s[i].pos != s[j].pos;
        assert xs[s[i].pos] == top[i] && xs[s[j].pos] == top[j];
      }
    }
  }

  /** An item left out has a key no greater than the last of the `n` kept. */
  lemma TopBest<T>(xs: seq<T>, key: T -> int, n: nat, x: T)
    requires x in xs && n > 0
    ensures var top := Top(xs, key, n);
      x in top || (|top| == n && key(x) <= key(top[n - 1]))
  {
    var s := SortDescending(Numbering(xs, key));
    var top := Top(xs, key, n);
    SortedNumbering(xs, key);
    var p :| 0 <= p < |xs| && xs[p] == x;
    var r := Numbering(xs, key)[p];
    assert r in multiset(s);
    var m :| 0 <= m < |s| && s[m] == r;
    if m < n {
      assert top[m] == x;
    } else {
      assert Before(s[n - 1], s[m]);
      assert s[n - 1] in s;
    }
  }

  /** Distinct items give distinct leaders. */
  lemma TopDistinct<T>(xs: seq<T>, key: T -> int, n: nat)
    requires Distinct(xs)
    ensures Distinct(Top(xs, key, n))
  {
    var s := SortDescending(Numbering(xs, key));
    var top := Top(xs, key, n);
    SortedNumbering(xs, key);
    forall i, j | 0 <= i < j < |top|
      ensures top[i] != top[j]
    {
      assert s[i] in s && s[j] in s;
    }
  }
}
