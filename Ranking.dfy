/** Ranking by stars: `arr.sort((a, b) => b.stargazers_count - a.stargazers_count)`.
    `Array.prototype.sort` is stable (section 22.1.3.27 of ECMA-262, 2019 edition
    onwards), so repos with equal stars keep their relative order. SortByStars is
    the specification; SortInPlace sorts an array in place and is proved to agree
    with it. */
module Ranking {
  import opened Repos

  /** Stars never increase along the list. */
  predicate SortedByStars(s: seq<Repo>) {
    forall i, j :: 0 <= i < j < |s| ==> s[i].stars >= s[j].stars
  }

  /** The repos of `s` that have exactly `k` stars, in their order in `s`. */
  function WithStars(s: seq<Repo>, k: int): seq<Repo> {
    if s == [] then []
    else (if s[0].stars == k then [s[0]] else []) + WithStars(s[1..], k)
  }

  /** `r` is what a stable sort of `s` by descending stars gives: sorted, a
      permutation of `s`, and for every star count the repos with that count in
      the same relative order as in `s`. */
  ghost predicate IsStableSortOf(r: seq<Repo>, s: seq<Repo>) {
    SortedByStars(r) && multiset(r) == multiset(s) &&
    forall k :: WithStars(r, k) == WithStars(s, k)
  }

  /** Puts `x` in front of the first repo of `t` that does not have more stars. */
  function Insert(x: Repo, t: seq<Repo>): seq<Repo> {
    if t == [] || x.stars >= t[0].stars then [x] + t else [t[0]] + Insert(x, t[1..])
  }

  /** Stable insertion sort, by descending stars. */
  function SortByStars(s: seq<Repo>): seq<Repo> {
    if s == [] then [] else Insert(s[0], SortByStars(s[1..]))
  }

  // ---------------------------------------------------------------------------
  // Lemmas

  /** Insert adds `x` and loses nothing. */
  lemma {:induction false} InsertPermutes(x: Repo, t: seq<Repo>)
    ensures multiset(Insert(x, t)) == multiset(t) + multiset{x}
  {
    if t != [] && x.stars < t[0].stars {
      InsertPermutes(x, t[1..]);
      assert t == [t[0]] + t[1..];
    }
  }

  /** A repo with at least as many stars as every repo of a sorted list can go in
      front of it. */
  lemma SortedCons(h: Repo, rest: seq<Repo>)
    requires SortedByStars(rest)
    requires forall y :: y in rest ==> y.stars <= h.stars
    ensures SortedByStars([h] + rest)
  {
    var r := [h] + rest;
    forall i, j | 0 <= i < j < |r| ensures r[i].stars >= r[j].stars {
      assert r[j] == rest[j - 1];
      if i > 0 {
        assert r[i] == rest[i - 1];
      }
    }
  }

  /** Inserting into a sorted list keeps it sorted. */
  lemma {:induction false} InsertSorted(x: Repo, t: seq<Repo>)
    requires SortedByStars(t)
    ensures SortedByStars(Insert(x, t))
  {
    if t == [] || x.stars >= t[0].stars {
      forall y | y in t ensures y.stars <= x.stars {
        var i :| 0 <= i < |t| && t[i] == y;
      }
      SortedCons(x, t);
    } else {
      var rest := Insert(x, t[1..]);
      assert SortedByStars(t[1..]);
      InsertSorted(x, t[1..]);
      InsertPermutes(x, t[1..]);
      forall y | y in rest ensures y.stars <= t[0].stars {
        assert y in multiset(rest);
        if y != x {
          assert y in multiset(t[1..]);
          var i :| 0 <= i < |t[1..]| && t[1..][i] == y;
          assert t[i + 1] == y;
        }
      }
      SortedCons(t[0], rest);
    }
  }

  /** Insert puts `x` in front of every repo with as many stars, so among the
      repos with its star count it comes first, ahead of those that followed it. */
  lemma {:induction false} InsertRuns(x: Repo, t: seq<Repo>, k: int)
    ensures WithStars(Insert(x, t), k) == (if x.stars == k then [x] else []) + WithStars(t, k)
  {
    if t == [] || x.stars >= t[0].stars {
      assert ([x] + t)[1..] == t;
      assert WithStars([x] + t, k) == (if x.stars == k then [x] else []) + WithStars(t, k);
    } else {
      var rest := Insert(x, t[1..]);
      assert ([t[0]] + rest)[1..] == rest;
      assert WithStars([t[0]] + rest, k) == (if t[0].stars == k then [t[0]] else []) + WithStars(rest, k);
      InsertRuns(x, t[1..], k);
      assert WithStars(t, k) == (if t[0].stars == k then [t[0]] else []) + WithStars(t[1..], k);
    }
  }

  /** SortByStars is a stable sort of its input. */
  lemma {:induction false} SortByStarsStable(s: seq<Repo>)
    ensures IsStableSortOf(SortByStars(s), s)
  {
    if s != [] {
      SortByStarsStable(s[1..]);
      InsertSorted(s[0], SortByStars(s[1..]));
      InsertPermutes(s[0], SortByStars(s[1..]));
      assert s == [s[0]] + s[1..];
      forall k ensures WithStars(SortByStars(s), k) == WithStars(s, k) {
        InsertRuns(s[0], SortByStars(s[1..]), k);
      }
    }
  }

  /** The repos with `k` stars are exactly the members of `s` that have `k` stars. */
  lemma {:induction false} WithStarsMembers(s: seq<Repo>, k: int)
    ensures forall x :: x in WithStars(s, k) <==> x in s && x.stars == k
  {
    if s != [] {
      WithStarsMembers(s[1..], k);
      assert s == [s[0]] + s[1..];
    }
  }

  /** The first repo of a list is among the repos with its star count. */
  lemma WithOwnStars(s: seq<Repo>)
    requires s != []
    ensures WithStars(s, s[0].stars) != []
  {
    WithStarsMembers(s, s[0].stars);
  }

  /** Two sorted lists that agree star count by star count start with the same
      repo. */
  lemma SameHead(r1: seq<Repo>, r2: seq<Repo>)
    requires r1 != [] && r2 != []
    requires SortedByStars(r1) && SortedByStars(r2)
    requires forall k :: WithStars(r1, k) == WithStars(r2, k)
    ensures r1[0] == r2[0]
  {
    var m1, m2 := r1[0].stars, r2[0].stars;
    WithStarsMembers(r1, m1);
    WithStarsMembers(r2, m1);
    WithStarsMembers(r1, m2);
    WithStarsMembers(r2, m2);
    assert r1[0] in WithStars(r2, m1);
    var i :| 0 <= i < |r2| && r2[i] == r1[0];
    assert r2[0] in WithStars(r1, m2);
    var j :| 0 <= j < |r1| && r1[j] == r2[0];
    assert m1 == m2;
    assert WithStars(r1, m1)[0] == r1[0];
    assert WithStars(r2, m1)[0] == r2[0];
  }

  /** Once the heads agree, the tails agree star count by star count too. */
  lemma SameTailRuns(r1: seq<Repo>, r2: seq<Repo>, k: int)
    requires r1 != [] && r2 != [] && r1[0] == r2[0]
    requires WithStars(r1, k) == WithStars(r2, k)
    ensures WithStars(r1[1..], k) == WithStars(r2[1..], k)
  {
    var head: seq<Repo> := if r1[0].stars == k then [r1[0]] else [];
    assert WithStars(r1, k) == head + WithStars(r1[1..], k);
    assert WithStars(r2, k) == head + WithStars(r2[1..], k);
    assert WithStars(r1[1..], k) == WithStars(r1, k)[|head|..];
    assert WithStars(r2[1..], k) == WithStars(r2, k)[|head|..];
  }

  /** There is only one stable sort: two sorted lists that agree, star count by
      star count, on the order of their repos are equal. So every stable
      descending sort of a list, whatever its algorithm, returns SortByStars. */
  lemma {:induction false} StableSortUnique(r1: seq<Repo>, r2: seq<Repo>)
    requires SortedByStars(r1) && SortedByStars(r2)
    requires forall k :: WithStars(r1, k) == WithStars(r2, k)
    ensures r1 == r2
  {
    if r1 == [] || r2 == [] {
      if r1 != [] {
        WithOwnStars(r1);
        assert false;
      } else if r2 != [] {
        WithOwnStars(r2);
        assert false;
      }
    } else {
      SameHead(r1, r2);
      forall k ensures WithStars(r1[1..], k) == WithStars(r2[1..], k) {
        SameTailRuns(r1, r2, k);
      }
      assert SortedByStars(r1[1..]) && SortedByStars(r2[1..]);
      StableSortUnique(r1[1..], r2[1..]);
      assert r1 == [r1[0]] + r1[1..];
      assert r2 == [r2[0]] + r2[1..];
    }
  }

  /** Any stable sort of `s` is SortByStars(s). */
  lemma StableSortIsSortByStars(r: seq<Repo>, s: seq<Repo>)
    requires IsStableSortOf(r, s)
    ensures r == SortByStars(s)
  {
    SortByStarsStable(s);
    StableSortUnique(r, SortByStars(s));
  }

  /** Where Insert puts `x`: after the `p` leading repos with more stars. */
  lemma {:induction false} InsertAt(x: Repo, t: seq<Repo>, p: int)
    requires 0 <= p <= |t|
    requires forall m :: 0 <= m < p ==> t[m].stars > x.stars
    requires p == |t| || t[p].stars <= x.stars
    ensures Insert(x, t) == t[..p] + [x] + t[p..]
  {
    if p == 0 {
      assert t[..0] + [x] + t[0..] == [x] + t;
    } else {
      var tail := t[1..];
      forall m | 0 <= m < p - 1 ensures tail[m].stars > x.stars {
        assert tail[m] == t[m + 1];
      }
      assert p - 1 == |tail| || tail[p - 1] == t[p];
      InsertAt(x, tail, p - 1);
      assert Insert(x, t) == [t[0]] + Insert(x, tail);
      assert t[..p] + [x] + t[p..] == [t[0]] + (tail[..p - 1] + [x] + tail[p - 1..]);
    }
  }

  /** Sorts the array in place, stably, by descending stars: insertion sort that
      grows a sorted suffix leftwards. */
  method SortInPlace(a: array<Repo>)
    modifies a
    ensures a[..] == SortByStars(old(a[..]))
  {
    var i := a.Length;
    while i > 0
      invariant 0 <= i <= a.Length
      invariant a[..i] == old(a[..i])
      invariant a[i..] == SortByStars(old(a[..])[i..])
    {
      i := i - 1;
      assert old(a[..])[i..] == [a[i]] + old(a[..])[i + 1..];
      InsertInPlace(a, i);
    }
  }

  /** Moves `a[i]` into the suffix `a[i + 1..]`, shifting left the repos with
      more stars than it; the part before `i` is left alone. */
  method InsertInPlace(a: array<Repo>, i: int)
    requires 0 <= i < a.Length
    modifies a
    ensures a[..i] == old(a[..i])
    ensures a[i..] == Insert(old(a[i]), old(a[i + 1..]))
  {
    var x := a[i];
    ghost var t := a[i + 1..];
    var j := i;
    while j + 1 < a.Length && a[j + 1].stars > x.stars
      invariant i <= j < a.Length
      invariant forall m :: 0 <= m < i ==> a[m] == old(a[m])
      invariant forall m :: 0 <= m < j - i ==> a[i + m] == t[m]
      invariant forall m :: 0 <= m < j - i ==> t[m].stars > x.stars
      invariant forall m :: j - i <= m < |t| ==> a[i + 1 + m] == t[m]
    {
      a[j] := a[j + 1];
      j := j + 1;
    }
    var p := j - i;
    assert p == |t| || t[p].stars <= x.stars by {
      if p < |t| {
        assert a[i + 1 + p] == t[p];
      }
    }
    ghost var shifted := a[..];
    a[j] := x;
    assert a[i..] == Insert(x, t) by {
      var r := t[..p] + [x] + t[p..];
      forall m | 0 <= m < |r| ensures a[i + m] == r[m] {
        if m < p {
          assert shifted[i + m] == t[m];
        } else if m > p {
          var k := m - 1;
          assert shifted[i + 1 + k] == t[k];
        }
      }
      assert a[i..] == r;
      InsertAt(x, t, p);
    }
  }
}
