/** The cursor operations the read handlers are built from: a collection in
    natural order, filter, stable sort by a key, limit, and case-insensitive
    substring matching. */
module Listing {
  import opened Common

  /** The documents of a collection whose identities lie below `bound`, in
      natural (identity, hence insertion) order. */
  function Collect<T(!new)>(m: map<Id, T>, bound: nat): (r: seq<Stored<T>>)
    ensures forall x :: x in r <==> x.id < bound && x.id in m && m[x.id] == x.doc
    ensures forall i, j :: 0 <= i < j < |r| ==> r[i].id < r[j].id
  {
    if bound == 0 then []
    else
      var k := bound - 1;
      Collect(m, k) + (if k in m then [Stored(k, m[k])] else [])
  }

  /** A `find(filter)`: the elements satisfying `p`, order kept. */
  function Filter<T(!new)>(s: seq<T>, p: T -> bool): (r: seq<T>)
    ensures forall x :: x in r <==> x in s && p(x)
    ensures multiset(r) <= multiset(s)
  {
    if s == [] then []
    else
      var rest := Filter(s[1..], p);
      assert s == [s[0]] + s[1..];
      if p(s[0]) then [s[0]] + rest else rest
  }

  predicate SortedBy<T>(s: seq<T>, key: T -> int) {
    forall i, j :: 0 <= i < j < |s| ==> key(s[i]) <= key(s[j])
  }

  /** Inserts x before the first element whose key is not smaller. */
  function Insert<T>(x: T, s: seq<T>, key: T -> int): (r: seq<T>)
    requires SortedBy(s, key)
    ensures SortedBy(r, key)
    ensures multiset(r) == multiset(s) + multiset{x}
    ensures forall y :: y in r ==> y == x || y in s
  {
    if s == [] then [x]
    else if key(x) <= key(s[0]) then
      SortedCons(x, s, key);
      [x] + s
    else
      var rest := Insert(x, s[1..], key);
      assert s == [s[0]] + s[1..];
      SortedCons(s[0], rest, key);
      [s[0]] + rest
  }

  /** A sorted sequence stays sorted under a head whose key bounds it. */
  lemma SortedCons<T>(a: T, t: seq<T>, key: T -> int)
    requires SortedBy(t, key)
    requires forall y :: y in t ==> key(a) <= key(y)
    ensures SortedBy([a] + t, key)
  {
    var u := [a] + t;
    forall i, j | 0 <= i < j < |u|
      ensures key(u[i]) <= key(u[j])
    {
      if i == 0 {
        assert u[j] == t[j - 1];
        assert u[j] in t;
      } else {
        assert u[i] == t[i - 1] && u[j] == t[j - 1];
      }
    }
  }

  /** A `sort({key: 1})`: ascending by key; ties keep the natural order. A
      descending sort is a sort by the negated key. */
  function SortBy<T(!new)>(s: seq<T>, key: T -> int): (r: seq<T>)
    ensures SortedBy(r, key)
    ensures multiset(r) == multiset(s)
    ensures forall x :: x in r <==> x in s
  {
    if s == [] then []
    else
      assert s == [s[0]] + s[1..];
      var r := Insert(s[0], SortBy(s[1..], key), key);
      assert forall x :: x in r <==> x in multiset(r);
      assert forall x :: x in s <==> x in multiset(s);
      r
  }

  /** The elements of s whose key is k, in the order s has them. */
  function WithKey<T>(s: seq<T>, key: T -> int, k: int): seq<T> {
    if s == [] then []
    else (if key(s[0]) == k then [s[0]] else []) + WithKey(s[1..], key, k)
  }

  lemma WithKeyCons<T>(a: T, t: seq<T>, key: T -> int, k: int)
    ensures WithKey([a] + t, key, k) == (if key(a) == k then [a] else []) + WithKey(t, key, k)
  {
    assert ([a] + t)[1..] == t;
  }

  /** An element with a key k or more never moves an element of key k out
      of its place: inserting x adds it in front of the x-keyed run. */
  lemma {:induction false} InsertWithKey<T>(x: T, t: seq<T>, key: T -> int, k: int)
    requires SortedBy(t, key)
    ensures WithKey(Insert(x, t, key), key, k) ==
              (if key(x) == k then [x] + WithKey(t, key, k) else WithKey(t, key, k))
  {
    if t == [] {
      WithKeyCons(x, t, key, k);
    } else if key(x) <= key(t[0]) {
      WithKeyCons(x, t, key, k);
    } else {
      assert t == [t[0]] + t[1..];
      assert SortedBy(t[1..], key) by {
        forall i, j | 0 <= i < j < |t[1..]|
          ensures key(t[1..][i]) <= key(t[1..][j])
        {
          assert t[1..][i] == t[i + 1] && t[1..][j] == t[j + 1];
        }
      }
      InsertWithKey(x, t[1..], key, k);
      WithKeyCons(t[0], Insert(x, t[1..], key), key, k);
      WithKeyCons(t[0], t[1..], key, k);
    }
  }

  /** SortBy is stable: for every key, the elements carrying that key come
      out in the order they went in. */
  lemma {:induction false} SortByStable<T(!new)>(s: seq<T>, key: T -> int, k: int)
    ensures WithKey(SortBy(s, key), key, k) == WithKey(s, key, k)
  {
    if s != [] {
      SortByStable(s[1..], key, k);
      InsertWithKey(s[0], SortBy(s[1..], key), key, k);
    }
  }

  /** A sequence without repeated elements holds each element at most once. */
  lemma {:induction false} AtMostOnce<T>(s: seq<T>)
    ensures (forall i, j :: 0 <= i < j < |s| ==> s[i] != s[j]) ==> forall x :: multiset(s)[x] <= 1
  {
    if s != [] && forall i, j :: 0 <= i < j < |s| ==> s[i] != s[j] {
      assert s == [s[0]] + s[1..];
      assert forall i, j :: 0 <= i < j < |s[1..]| ==> s[1..][i] == s[i + 1] && s[1..][j] == s[j + 1];
      AtMostOnce(s[1..]);
      assert s[0] !in s[1..];
    }
  }

  /** A `limit(n)`: the first n elements, or all of them when there are
      fewer, in order and each no more often than in s. */
  function Take<T>(s: seq<T>, n: nat): (r: seq<T>)
    ensures |r| == if |s| < n then |s| else n
    ensures forall i :: 0 <= i < |r| ==> r[i] == s[i]
    ensures multiset(r) <= multiset(s)
  {
    if |s| <= n then s
    else
      assert s == s[..n] + s[n..];
      s[..n]
  }

  /** Taking the first n of a sort by key keeps the n smallest: nothing left
      out has a smaller key than anything taken, and when fewer than n are
      taken everything is. */
  lemma {:induction false} TakeOfSorted<T(!new)>(s: seq<T>, key: T -> int, n: nat)
    ensures var r := Take(SortBy(s, key), n);
      && (forall x, i :: x in s && x !in r && 0 <= i < |r| ==> key(r[i]) <= key(x))
      && (|r| < n ==> forall x :: x in s ==> x in r)
      && (forall x :: x in r ==> x in s)
      && multiset(r) <= multiset(s)
      && SortedBy(r, key)
  {
    var t := SortBy(s, key);
    var r := Take(t, n);
    assert forall i, j :: 0 <= i < j < |r| ==> r[i] == t[i] && r[j] == t[j];
    forall x | x in s
      ensures x in t
    {
      assert x in multiset(s);
    }
    forall x | x in r
      ensures x in s
    {
      assert x in t;
      assert x in multiset(t);
    }
    forall x, i | x in s && x !in r && 0 <= i < |r|
      ensures key(r[i]) <= key(x)
    {
      assert x in t;
      var j :| 0 <= j < |t| && t[j] == x;
      assert i < j;
    }
  }

  function LowerChar(c: char): char {
    if 'A' <= c <= 'Z' then (c as int + 32) as char else c
  }

  function Lower(s: string): string {
    seq(|s|, i requires 0 <= i < |s| => LowerChar(s[i]))
  }

  /** The pattern occurs at offset i, ignoring ASCII case. */
  predicate MatchesAt(text: string, pat: string, i: nat) {
    i + |pat| <= |text| && Lower(text[i..i + |pat|]) == Lower(pat)
  }

  function SearchFrom(text: string, pat: string, i: nat): (b: bool)
    decreases |text| - i
    ensures b <==> exists j :: i <= j && MatchesAt(text, pat, j)
  {
    if i + |pat| > |text| then false
    else MatchesAt(text, pat, i) || SearchFrom(text, pat, i + 1)
  }

  /** `{ $regex: pat, $options: 'i' }` on a pattern without metacharacters:
      pat occurs somewhere in text, ignoring ASCII case. */
  function ContainsIgnoreCase(text: string, pat: string): (b: bool)
    ensures b <==> exists j :: MatchesAt(text, pat, j)
  {
    SearchFrom(text, pat, 0)
  }
}
