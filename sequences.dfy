/**
 * Row-set operations that the SQL queries of the core are built from:
 * WHERE (Filter), projection (MapSeq) and ORDER BY (SortBy, a stable
 * insertion sort under a total preorder). ORDER BY leaves the order among
 * rows with equal keys open; the lemmas about the queries use only
 * sortedness and the permutation property, never the tie order chosen here.
 */
module Sequences {

  ghost predicate Total<T(!new)>(le: (T, T) -> bool) {
    forall a, b :: le(a, b) || le(b, a)
  }

  ghost predicate Transitive<T(!new)>(le: (T, T) -> bool) {
    forall a, b, c :: le(a, b) && le(b, c) ==> le(a, c)
  }

  /** What an ORDER BY list denotes: a total preorder on rows. */
  ghost predicate TotalPreorder<T(!new)>(le: (T, T) -> bool) {
    Total(le) && Transitive(le)
  }

  predicate SortedBy<T>(s: seq<T>, le: (T, T) -> bool) {
    forall i, j :: 0 <= i < j < |s| ==> le(s[i], s[j])
  }

  /** WHERE p: the rows satisfying p, in their original order. */
  function Filter<T(!new)>(s: seq<T>, p: T -> bool): (r: seq<T>)
    ensures |r| <= |s|
    ensures forall x {:trigger multiset(r)[x]} :: multiset(r)[x] == if p(x) then multiset(s)[x] else 0
    ensures forall k :: 0 <= k < |r| ==> p(r[k]) && r[k] in s
  {
    if s == [] then []
    else
      assert s == [s[0]] + s[1..];
      var rest := Filter(s[1..], p);
      if p(s[0]) then [s[0]] + rest else rest
  }

  lemma {:induction false} FilterAppend<T(!new)>(a: seq<T>, b: seq<T>, p: T -> bool)
    ensures Filter(a + b, p) == Filter(a, p) + Filter(b, p)
  {
    if a == [] {
      assert a + b == b;
    } else {
      var ab := a + b;
      assert ab[0] == a[0] && ab[1..] == a[1..] + b;
      FilterAppend(a[1..], b, p);
      var head := if p(a[0]) then [a[0]] else [];
      assert Filter(ab, p) == head + Filter(a[1..] + b, p);
      assert Filter(a, p) == head + Filter(a[1..], p);
    }
  }

  lemma {:induction false} FilterAll<T(!new)>(s: seq<T>, p: T -> bool)
    requires forall k :: 0 <= k < |s| ==> p(s[k])
    ensures Filter(s, p) == s
  {
    if s != [] {
      FilterAll(s[1..], p);
    }
  }

  lemma {:induction false} FilterNone<T(!new)>(s: seq<T>, p: T -> bool)
    requires forall k :: 0 <= k < |s| ==> !p(s[k])
    ensures Filter(s, p) == []
  {
    if s != [] {
      FilterNone(s[1..], p);
    }
  }

  /** A row is among the filtered rows exactly when it is in s and passes p. */
  lemma InFilter<T(!new)>(s: seq<T>, p: T -> bool)
    ensures forall x :: x in Filter(s, p) <==> x in s && p(x)
  {
    forall x ensures x in Filter(s, p) <==> x in s && p(x) {
      assert x in multiset(Filter(s, p)) <==> x in multiset(s) && p(x);
    }
  }

  /** SELECT f(row): the projection of every row, in order. */
  function MapSeq<T, U>(s: seq<T>, f: T -> U): (r: seq<U>)
    ensures |r| == |s|
    ensures forall k :: 0 <= k < |s| ==> r[k] == f(s[k])
  {
    if s == [] then [] else [f(s[0])] + MapSeq(s[1..], f)
  }

  /** Projection turns a permutation of rows into a permutation of values. */
  lemma {:induction false} MapSeqMultiset<T, U>(a: seq<T>, b: seq<T>, f: T -> U)
    requires multiset(a) == multiset(b)
    ensures multiset(MapSeq(a, f)) == multiset(MapSeq(b, f))
    decreases |a|
  {
    if a == [] {
      assert |b| == |multiset(b)| == 0;
    } else {
      assert a == [a[0]] + a[1..];
      assert a[0] in multiset(b);
      var k :| 0 <= k < |b| && b[k] == a[0];
      RemoveAtMultiset(b, k);
      MapSeqMultiset(a[1..], b[..k] + b[k + 1..], f);
      MapSeqRemoveAt(b, k, f);
    }
  }

  lemma RemoveAtMultiset<T>(b: seq<T>, k: nat)
    requires k < |b|
    ensures multiset(b[..k] + b[k + 1..]) == multiset(b) - multiset{b[k]}
  {
    assert b == b[..k] + [b[k]] + b[k + 1..];
  }

  lemma MapSeqRemoveAt<T, U>(b: seq<T>, k: nat, f: T -> U)
    requires k < |b|
    ensures multiset(MapSeq(b, f)) == multiset{f(b[k])} + multiset(MapSeq(b[..k] + b[k + 1..], f))
  {
    var b1, b2 := b[..k], b[k + 1..];
    assert b == b1 + ([b[k]] + b2);
    MapSeqSplit(b1, [b[k]] + b2, f);
    MapSeqSplit([b[k]], b2, f);
    MapSeqSplit(b1, b2, f);
  }

  /** A value is among the projections exactly when some row projects to it. */
  lemma InMapSeq<T, U>(s: seq<T>, f: T -> U, y: U)
    ensures y in MapSeq(s, f) <==> exists x :: x in s && f(x) == y
  {
    if y in MapSeq(s, f) {
      var k :| 0 <= k < |s| && MapSeq(s, f)[k] == y;
      assert s[k] in s;
    }
    if x :| x in s && f(x) == y {
      var k :| 0 <= k < |s| && s[k] == x;
      assert MapSeq(s, f)[k] == y;
    }
  }

  lemma InMapSeqAll<T, U>(s: seq<T>, f: T -> U)
    ensures forall y :: y in MapSeq(s, f) <==> exists x :: x in s && f(x) == y
  {
    forall y ensures y in MapSeq(s, f) <==> exists x :: x in s && f(x) == y {
      InMapSeq(s, f, y);
    }
  }

  /** Every element of a permutation of the rows passing p is a row of s that passes p. */
  lemma PermutedFilter<T(!new)>(s: seq<T>, p: T -> bool, rows: seq<T>)
    requires multiset(rows) == multiset(Filter(s, p))
    ensures forall k :: 0 <= k < |rows| ==> rows[k] in s && p(rows[k])
  {
    forall k | 0 <= k < |rows| ensures rows[k] in s && p(rows[k]) {
      assert rows[k] in multiset(Filter(s, p));
      InFilter(s, p);
    }
  }

  /** The projections of a permutation of the rows passing p: one value per such row. */
  lemma SelectedValues<T(!new), U>(table: seq<T>, p: T -> bool, rows: seq<T>, f: T -> U)
    requires multiset(rows) == multiset(Filter(table, p))
    ensures |MapSeq(rows, f)| == |Filter(table, p)|
    ensures forall y :: y in MapSeq(rows, f) <==> exists x :: x in table && p(x) && f(x) == y
  {
    InFilter(table, p);
    InMapSeqAll(rows, f);
    assert forall x :: x in rows <==> x in multiset(Filter(table, p));
    assert |rows| == |multiset(rows)|;
  }

  lemma {:induction false} MapSeqSplit<T, U>(a: seq<T>, b: seq<T>, f: T -> U)
    ensures MapSeq(a + b, f) == MapSeq(a, f) + MapSeq(b, f)
  {
    if a == [] {
      assert a + b == b;
    } else {
      assert (a + b)[1..] == a[1..] + b;
      MapSeqSplit(a[1..], b, f);
    }
  }

  /** Puts x in front of the first element it is not after. */
  function Insert<T(!new)>(x: T, s: seq<T>, le: (T, T) -> bool): (r: seq<T>)
    requires TotalPreorder(le) && SortedBy(s, le)
    ensures multiset(r) == multiset(s) + multiset{x}
    ensures SortedBy(r, le)
  {
    if s == [] || le(x, s[0]) then
      [x] + s
    else
      var tail := Insert(x, s[1..], le);
      assert s == [s[0]] + s[1..];
      assert forall k :: 0 <= k < |tail| ==> le(s[0], tail[k]) by {
        forall k | 0 <= k < |tail| ensures le(s[0], tail[k]) {
          assert tail[k] in multiset(tail);
          if tail[k] != x {
            assert tail[k] in multiset(s[1..]);
            var m :| 0 <= m < |s[1..]| && s[1..][m] == tail[k];
            assert s[m + 1] == tail[k];
          }
        }
      }
      [s[0]] + tail
  }

  /** ORDER BY le: the rows of s as a sequence sorted by le. */
  function SortBy<T(!new)>(s: seq<T>, le: (T, T) -> bool): (r: seq<T>)
    requires TotalPreorder(le)
    ensures multiset(r) == multiset(s) && |r| == |s|
    ensures SortedBy(r, le)
  {
    if s == [] then []
    else
      assert s == [s[0]] + s[1..];
      var r := Insert(s[0], SortBy(s[1..], le), le);
      assert |multiset(r)| == |multiset(s)|;
      r
  }

  /** TOP 1 ... ORDER BY le: a first row under le, that is, one that no row precedes. */
  function Top<T(!new)>(s: seq<T>, le: (T, T) -> bool): (r: T)
    requires TotalPreorder(le) && |s| > 0
    ensures r in s
    ensures forall x :: x in s ==> le(r, x)
  {
    var sorted := SortBy(s, le);
    assert sorted[0] in multiset(s);
    assert forall x :: x in s ==> le(sorted[0], x) by {
      forall x | x in s ensures le(sorted[0], x) {
        assert x in multiset(sorted);
        var k :| 0 <= k < |sorted| && sorted[k] == x;
        if k == 0 {
          assert le(x, x) || le(x, x);
        }
      }
    }
    sorted[0]
  }

  /** SELECT DISTINCT: every value of s once, in the order first met. */
  function Distinct<T(==,!new)>(s: seq<T>): (r: seq<T>)
    ensures forall x :: x in r <==> x in s
    ensures forall i, j :: 0 <= i < j < |r| ==> r[i] != r[j]
  {
    if s == [] then []
    else
      var n := |s| - 1;
      var front := Distinct(s[..n]);
      assert forall x :: x in s <==> x in s[..n] || x == s[n] by {
        assert s == s[..n] + [s[n]];
      }
      if s[n] in front then front else front + [s[n]]
  }

  /** The rows each element yields, concatenated in order. */
  function FlatMap<T, U>(s: seq<T>, f: T -> seq<U>): seq<U> {
    if s == [] then [] else f(s[0]) + FlatMap(s[1..], f)
  }

  lemma {:induction false} InFlatMap<T, U>(s: seq<T>, f: T -> seq<U>, y: U)
    ensures y in FlatMap(s, f) <==> exists x :: x in s && y in f(x)
  {
    if s != [] {
      InFlatMap(s[1..], f, y);
      assert y in f(s[0]) + FlatMap(s[1..], f) <==> y in f(s[0]) || y in FlatMap(s[1..], f);
      assert forall x :: x in s <==> x == s[0] || x in s[1..] by {
        assert s == [s[0]] + s[1..];
      }
    }
  }

  /** Filtering a sequence without repeats leaves one without repeats. */
  lemma {:induction false} FilterDistinct<T(!new)>(s: seq<T>, p: T -> bool)
    requires forall i, j :: 0 <= i < j < |s| ==> s[i] != s[j]
    ensures forall i, j :: 0 <= i < j < |Filter(s, p)| ==> Filter(s, p)[i] != Filter(s, p)[j]
  {
    if s != [] {
      var t := Filter(s[1..], p);
      FilterDistinct(s[1..], p);
      assert forall k :: 0 <= k < |t| ==> t[k] != s[0] by {
        forall k | 0 <= k < |t| ensures t[k] != s[0] {
          var m :| 0 <= m < |s[1..]| && s[1..][m] == t[k];
          assert s[m + 1] == t[k];
        }
      }
      assert s == [s[0]] + s[1..];
    }
  }

  function KeyIs<T, K(==)>(key: T -> K, k: K): T -> bool {
    x => key(x) == k
  }

  /** A first element under le among the elements of s whose key is k. */
  function TopForKey<T(!new), K(==)>(s: seq<T>, key: T -> K, le: (T, T) -> bool, k: K, j: nat): (r: T)
    requires TotalPreorder(le)
    requires j < |s| && key(s[j]) == k
    ensures r in s && key(r) == k
    ensures forall x :: x in s && key(x) == k ==> le(r, x)
  {
    var part := Filter(s, KeyIs(key, k));
    InFilter(s, KeyIs(key, k));
    assert s[j] in part;
    Top(part, le)
  }

  /** The per-key tops of the keys of s, position by position. */
  function TopsOf<T(!new), K(==)>(s: seq<T>, key: T -> K, le: (T, T) -> bool): (r: seq<T>)
    requires TotalPreorder(le)
    ensures |r| == |s|
    ensures forall i {:trigger r[i]} :: 0 <= i < |s| ==> r[i] == TopForKey(s, key, le, key(s[i]), i)
  {
    seq(|s|, i requires 0 <= i < |s| => TopForKey(s, key, le, key(s[i]), i))
  }

  /** One first element under le for every key that occurs in s. */
  function GroupTops<T(==,!new), K(==)>(s: seq<T>, key: T -> K, le: (T, T) -> bool): (r: seq<T>)
    requires TotalPreorder(le)
  {
    Distinct(TopsOf(s, key, le))
  }

  lemma GroupTopsAreTops<T(!new), K>(s: seq<T>, key: T -> K, le: (T, T) -> bool, e: T)
    requires TotalPreorder(le) && e in GroupTops(s, key, le)
    ensures e in s
    ensures forall x :: x in s && key(x) == key(e) ==> le(e, x)
  {
    var tops := TopsOf(s, key, le);
    assert e in tops;
    var i :| 0 <= i < |tops| && tops[i] == e;
    assert e == TopForKey(s, key, le, key(s[i]), i);
  }

  lemma GroupTopsCover<T(!new), K>(s: seq<T>, key: T -> K, le: (T, T) -> bool, x: T)
    requires TotalPreorder(le) && x in s
    ensures exists e :: e in GroupTops(s, key, le) && key(e) == key(x)
  {
    var tops := TopsOf(s, key, le);
    var j :| 0 <= j < |s| && s[j] == x;
    assert tops[j] in tops;
    assert tops[j] in GroupTops(s, key, le);
  }

  lemma GroupTopsKeysDistinct<T(!new), K>(s: seq<T>, key: T -> K, le: (T, T) -> bool)
    requires TotalPreorder(le)
    ensures forall i, j :: 0 <= i < j < |GroupTops(s, key, le)| ==>
      key(GroupTops(s, key, le)[i]) != key(GroupTops(s, key, le)[j])
  {
    var r := GroupTops(s, key, le);
    var tops := TopsOf(s, key, le);
    forall i, j | 0 <= i < j < |r| ensures key(r[i]) != key(r[j]) {
      assert r[i] in tops && r[j] in tops;
      var a :| 0 <= a < |tops| && tops[a] == r[i];
      var b :| 0 <= b < |tops| && tops[b] == r[j];
      assert r[i] == TopForKey(s, key, le, key(s[a]), a);
      assert r[j] == TopForKey(s, key, le, key(s[b]), b);
    }
  }

  /** The only sequence whose multiset is {c, c} is [c, c]. */
  lemma OneOfOne<T>(s: seq<T>, c: T)
    requires multiset(s) == multiset{c}
    ensures s == [c]
  {
    assert |s| == |multiset(s)| == 1;
    assert s[0] in multiset(s);
  }

  lemma TwoOfOne<T>(s: seq<T>, c: T)
    requires multiset(s) == multiset{c, c}
    ensures s == [c, c]
  {
    assert |s| == |multiset(s)| == 2;
    assert s[0] in multiset(s) && s[1] in multiset(s);
  }
}
