/** Repository records as the listing endpoint returns them, the abandonment
    predicate, the owner tagging of the collection flow and the display
    statistics (src/App.js). */
module Repos {

  datatype Option<T> = None | Some(value: T)

  /** One repository record. `updatedAt` and `createdAt` are the time values of
      `updated_at` and `created_at`; `owner` is `owner_name`, which only the
      collection flow adds. The other fields the page shows are carried along so
      that "every other field unchanged" has content. */
  datatype Repo = Repo(
    id: int,
    name: string,
    description: Option<string>,
    fork: bool,
    createdAt: int,
    updatedAt: int,
    stars: nat,
    openIssues: nat,
    htmlUrl: string,
    owner: Option<string>)

  /** `!repo.fork && new Date(repo.updated_at) < filterDate`. */
  predicate IsAbandoned(r: Repo, cutoff: int) {
    !r.fork && r.updatedAt < cutoff
  }

  /** `repos.filter(repo => IsAbandoned(repo, cutoff))`. */
  function Abandoned(repos: seq<Repo>, cutoff: int): seq<Repo> {
    if repos == [] then []
    else (if IsAbandoned(repos[0], cutoff) then [repos[0]] else []) + Abandoned(repos[1..], cutoff)
  }

  /** `.map(repo => ({...repo, owner_name: user}))`: a new record per repo, with
      the owner set and every other field copied. */
  function Tagged(repos: seq<Repo>, user: string): seq<Repo> {
    if repos == [] then [] else [repos[0].(owner := Some(user))] + Tagged(repos[1..], user)
  }

  /** `arr.reduce((sum, repo) => sum + f(repo), 0)`, folding from the left. */
  function Total(s: seq<Repo>, f: Repo -> nat): nat {
    if s == [] then 0 else Total(s[..|s| - 1], f) + f(s[|s| - 1])
  }

  function Stars(r: Repo): nat { r.stars }
  function Issues(r: Repo): nat { r.openIssues }

  /** The three numbers of the statistics panel. */
  datatype Statistics = Statistics(count: nat, totalStars: nat, totalIssues: nat)

  function Stats(s: seq<Repo>): (st: Statistics)
    ensures st.count == |s|
    ensures s == [] ==> st == Statistics(0, 0, 0)
    ensures forall i :: 0 <= i < |s| ==> s[i].stars <= st.totalStars && s[i].openIssues <= st.totalIssues
  {
    TotalBounds(s, Stars);
    TotalBounds(s, Issues);
    Statistics(|s|, Total(s, Stars), Total(s, Issues))
  }

  // ---------------------------------------------------------------------------
  // Lemmas

  /** The filter keeps exactly the abandoned repos, each as often as it occurs,
      and nothing else. */
  lemma {:induction false} AbandonedMembers(repos: seq<Repo>, cutoff: int)
    ensures forall x :: multiset(Abandoned(repos, cutoff))[x] == (if IsAbandoned(x, cutoff) then multiset(repos)[x] else 0)
    ensures multiset(Abandoned(repos, cutoff)) <= multiset(repos)
    ensures |Abandoned(repos, cutoff)| <= |repos|
    ensures forall x :: x in Abandoned(repos, cutoff) <==> x in repos && IsAbandoned(x, cutoff)
  {
    if repos != [] {
      AbandonedMembers(repos[1..], cutoff);
      assert repos == [repos[0]] + repos[1..];
    }
  }

  /** Tagging keeps the length and gives the repo at each position a copy with the
      owner set and every other field as it was. */
  lemma {:induction false} TaggedFields(repos: seq<Repo>, user: string)
    ensures |Tagged(repos, user)| == |repos|
    ensures forall i :: 0 <= i < |repos| ==>
      Tagged(repos, user)[i].owner == Some(user) && Tagged(repos, user)[i].(owner := repos[i].owner) == repos[i]
  {
    if repos != [] {
      TaggedFields(repos[1..], user);
    }
  }

  /** A fork is never abandoned, whatever its update time and the cutoff. */
  lemma ForkNeverAbandoned(r: Repo, cutoff: int)
    requires r.fork
    ensures !IsAbandoned(r, cutoff)
    ensures Abandoned([r], cutoff) == []
  {
  }

  /** The boundary is strict: a repo updated exactly at the cutoff is kept out. */
  lemma CutoffIsExclusive(r: Repo, cutoff: int)
    requires !r.fork
    ensures IsAbandoned(r, cutoff) <==> r.updatedAt < cutoff
    ensures r.updatedAt == cutoff ==> Abandoned([r], cutoff) == []
    ensures r.updatedAt < cutoff ==> Abandoned([r], cutoff) == [r]
  {
  }

  /** Filtering distributes over concatenation: the kept repos of a list are those
      of its first part followed by those of its second part, in order. */
  lemma {:induction false} AbandonedAppend(a: seq<Repo>, b: seq<Repo>, cutoff: int)
    ensures Abandoned(a + b, cutoff) == Abandoned(a, cutoff) + Abandoned(b, cutoff)
  {
    if a == [] {
      assert a + b == b;
    } else {
      var head: seq<Repo> := if IsAbandoned(a[0], cutoff) then [a[0]] else [];
      assert (a + b)[0] == a[0];
      assert (a + b)[1..] == a[1..] + b;
      AbandonedAppend(a[1..], b, cutoff);
      calc {
        Abandoned(a + b, cutoff);
        head + Abandoned(a[1..] + b, cutoff);
        head + (Abandoned(a[1..], cutoff) + Abandoned(b, cutoff));
        (head + Abandoned(a[1..], cutoff)) + Abandoned(b, cutoff);
        Abandoned(a, cutoff) + Abandoned(b, cutoff);
      }
    }
  }

  /** An earlier cutoff keeps a sub-list of what a later cutoff keeps. */
  lemma {:induction false} AbandonedMonotone(repos: seq<Repo>, earlier: int, later: int)
    requires earlier <= later
    ensures multiset(Abandoned(repos, earlier)) <= multiset(Abandoned(repos, later))
  {
    if repos != [] {
      AbandonedMonotone(repos[1..], earlier, later);
    }
  }

  /** The owner does not take part in the predicate, so tagging and filtering
      commute. */
  lemma {:induction false} TaggedAbandoned(repos: seq<Repo>, user: string, cutoff: int)
    ensures Abandoned(Tagged(repos, user), cutoff) == Tagged(Abandoned(repos, cutoff), user)
  {
    if repos != [] {
      TaggedAbandoned(repos[1..], user, cutoff);
      assert Tagged(repos, user)[1..] == Tagged(repos[1..], user);
      var head: seq<Repo> := if IsAbandoned(repos[0], cutoff) then [repos[0]] else [];
      TaggedAppend(head, Abandoned(repos[1..], cutoff), user);
    }
  }

  lemma {:induction false} TaggedAppend(a: seq<Repo>, b: seq<Repo>, user: string)
    ensures Tagged(a + b, user) == Tagged(a, user) + Tagged(b, user)
  {
    if a == [] {
      assert a + b == b;
    } else {
      assert (a + b)[1..] == a[1..] + b;
      TaggedAppend(a[1..], b, user);
    }
  }

  /** The fold adds up the two halves of a concatenation separately. */
  lemma {:induction false} TotalAppend(a: seq<Repo>, b: seq<Repo>, f: Repo -> nat)
    ensures Total(a + b, f) == Total(a, f) + Total(b, f)
    decreases |b|
  {
    if b == [] {
      assert a + b == a;
    } else {
      assert (a + b)[..|a + b| - 1] == a + b[..|b| - 1];
      TotalAppend(a, b[..|b| - 1], f);
    }
  }

  /** No repo's share exceeds the total. */
  lemma {:induction false} TotalBounds(s: seq<Repo>, f: Repo -> nat)
    ensures forall i :: 0 <= i < |s| ==> f(s[i]) <= Total(s, f)
  {
    if s != [] {
      TotalBounds(s[..|s| - 1], f);
      assert forall i :: 0 <= i < |s| - 1 ==> s[..|s| - 1][i] == s[i];
    }
  }

  /** The total of a one-repo list is that repo's share. */
  lemma TotalSingleton(x: Repo, f: Repo -> nat)
    ensures Total([x], f) == f(x)
  {
    assert [x][..0] == [];
  }

  /** Taking one repo out of a list takes exactly its share out of the total. */
  lemma TotalRemove(b: seq<Repo>, j: int, f: Repo -> nat)
    requires 0 <= j < |b|
    ensures Total(b, f) == Total(b[..j] + b[j + 1..], f) + f(b[j])
  {
    var pre, x, post := b[..j], b[j], b[j + 1..];
    assert Total(b, f) == Total(pre + [x], f) + Total(post, f) by {
      assert b == (pre + [x]) + post;
      TotalAppend(pre + [x], post, f);
    }
    assert Total(pre + [x], f) == Total(pre, f) + f(x) by {
      TotalAppend(pre, [x], f);
      TotalSingleton(x, f);
    }
    TotalAppend(pre, post, f);
  }

  /** The totals do not depend on the order of the list: any permutation gives
      the same sum. */
  lemma {:induction false} TotalPermutation(a: seq<Repo>, b: seq<Repo>, f: Repo -> nat)
    requires multiset(a) == multiset(b)
    ensures Total(a, f) == Total(b, f)
    decreases |a|
  {
    if a != [] {
      var x := a[|a| - 1];
      var front := a[..|a| - 1];
      assert multiset(front) == multiset(a) - multiset{x} by {
        assert a == front + [x];
      }
      var j := RemoveOne(b, x);
      TotalPermutation(front, b[..j] + b[j + 1..], f);
      TotalRemove(b, j, f);
    }
  }

  /** Finds an occurrence of `x` in `b`; what is left without it is `b` minus one
      copy of `x`. */
  lemma RemoveOne(b: seq<Repo>, x: Repo) returns (j: int)
    requires x in multiset(b)
    ensures 0 <= j < |b| && b[j] == x
    ensures multiset(b[..j] + b[j + 1..]) == multiset(b) - multiset{x}
  {
    assert x in b;
    j :| 0 <= j < |b| && b[j] == x;
    assert b == b[..j] + [x] + b[j + 1..];
  }

  /** Statistics of a permuted list are the statistics of the original. */
  lemma StatsPermutation(a: seq<Repo>, b: seq<Repo>)
    requires multiset(a) == multiset(b)
    ensures Stats(a) == Stats(b)
  {
    TotalPermutation(a, b, Stars);
    TotalPermutation(a, b, Issues);
    assert |a| == |multiset(a)| == |multiset(b)| == |b|;
  }
}
