/** The `App` component of src/App.js: the single-user search
    (`findAbandonedProjects`), the curated collections (`loadCollection`), and the
    choice of the list the page shows with its statistics.

    Each network call `fetch(...)` followed by `response.json()` is an injected
    FetchOutcome. The clock `new Date()`, which the code reads right after a listing
    arrives, travels with the listing. */
module Museum {
  import opened Calendar
  import opened Repos
  import opened Ranking

  /** The outcome of fetching one account's repositories. `Listed` carries the
      array the body parsed to and the clock reading taken when it was filtered;
      `Failed` stands for anything that throws inside the `try`: a network error,
      a body that is not JSON, or a JSON body that is not an array (its `.filter`
      throws). */
  datatype FetchOutcome =
    | Listed(repos: seq<Repo>, clock: CalendarTime)
    | Failed

  /** The keys of CURATED_COLLECTIONS. */
  datatype Collection = Famous | Gamedev | Tools | Webdev

  /** The accounts of each curated collection, in the order they are fetched. */
  function Users(c: Collection): seq<string> {
    match c
    case Famous => ["torvalds", "gvanrossum", "antirez", "tj", "sindresorhus"]
    case Gamedev => ["photonstorm", "kittykatattack", "liabru", "goldfire"]
    case Tools => ["tj", "sindresorhus", "substack", "remy"]
    case Webdev => ["addyosmani", "paulirish", "chriscoyier", "wesbos"]
  }

  const SearchError: string := "Failed to fetch repositories. Please check the username or try again."

  /** `allRepos.slice(0, 12)`. */
  const CollectionLimit: nat := 12

  function Min(a: int, b: int): int { if a <= b then a else b }

  /** What a successful single-user search shows: the abandoned repos, stably
      sorted by descending stars, with nothing dropped. */
  function SearchResult(repos: seq<Repo>, clock: CalendarTime, months: int): seq<Repo> {
    SortByStars(Abandoned(repos, Cutoff(clock, months)))
  }

  /** What one account adds to `allRepos`: nothing when its fetch failed, else its
      abandoned repos, each tagged with the account name. */
  function Contribution(user: string, outcome: FetchOutcome, months: int): seq<Repo> {
    match outcome
    case Failed => []
    case Listed(repos, clock) => Tagged(Abandoned(repos, Cutoff(clock, months)), user)
  }

  /** The accumulator `allRepos` after the loop has visited `users` in order. */
  function Merged(users: seq<string>, outcomes: seq<FetchOutcome>, months: int): seq<Repo>
    requires |users| == |outcomes|
  {
    if users == [] then []
    else Contribution(users[0], outcomes[0], months) + Merged(users[1..], outcomes[1..], months)
  }

  /** What a collection shows: the merged repos, stably sorted by descending stars,
      cut to the first twelve. */
  function CollectionResult(users: seq<string>, outcomes: seq<FetchOutcome>, months: int): seq<Repo>
    requires |users| == |outcomes|
  {
    var ranked := SortByStars(Merged(users, outcomes, months));
    ranked[..Min(CollectionLimit, |ranked|)]
  }

  /** The loop of `loadCollection`: visits the accounts in order and appends each
      one's tagged abandoned repos; an account whose fetch failed is skipped. */
  method MergeCollection(users: seq<string>, outcomes: seq<FetchOutcome>, months: int)
    returns (allRepos: seq<Repo>)
    requires |users| == |outcomes|
    ensures allRepos == Merged(users, outcomes, months)
  {
    allRepos := [];
    for i := 0 to |users|
      invariant allRepos == Merged(users[..i], outcomes[..i], months)
    {
      match outcomes[i] {
        case Failed =>
        case Listed(repos, clock) =>
          var filterDate := Cutoff(clock, months);
          var abandoned := Tagged(Abandoned(repos, filterDate), users[i]);
          allRepos := allRepos + abandoned;
      }
      MergedStep(users, outcomes, i, months);
    }
    assert users[..|users|] == users && outcomes[..|outcomes|] == outcomes;
  }

  // ---------------------------------------------------------------------------
  // Lemmas about the pipelines

  /** Appending one account to the visited ones appends its contribution. */
  lemma {:induction false} MergedAppend(users: seq<string>, outcomes: seq<FetchOutcome>,
                                         user: string, outcome: FetchOutcome, months: int)
    requires |users| == |outcomes|
    ensures Merged(users + [user], outcomes + [outcome], months)
         == Merged(users, outcomes, months) + Contribution(user, outcome, months)
  {
    if users != [] {
      assert (users + [user])[1..] == users[1..] + [user];
      assert (outcomes + [outcome])[1..] == outcomes[1..] + [outcome];
      MergedAppend(users[1..], outcomes[1..], user, outcome, months);
    }
  }

  /** Visiting one more account of a list appends that account's contribution. */
  lemma MergedStep(users: seq<string>, outcomes: seq<FetchOutcome>, i: int, months: int)
    requires |users| == |outcomes|
    requires 0 <= i < |users|
    ensures Merged(users[..i + 1], outcomes[..i + 1], months)
         == Merged(users[..i], outcomes[..i], months) + Contribution(users[i], outcomes[i], months)
  {
    MergedAppend(users[..i], outcomes[..i], users[i], outcomes[i], months);
    assert users[..i + 1] == users[..i] + [users[i]];
    assert outcomes[..i + 1] == outcomes[..i] + [outcomes[i]];
  }

  /** The merged list of two runs of accounts is the first run's followed by the
      second run's. */
  lemma {:induction false} MergedConcat(users1: seq<string>, outcomes1: seq<FetchOutcome>,
                                         users2: seq<string>, outcomes2: seq<FetchOutcome>, months: int)
    requires |users1| == |outcomes1| && |users2| == |outcomes2|
    ensures Merged(users1 + users2, outcomes1 + outcomes2, months)
         == Merged(users1, outcomes1, months) + Merged(users2, outcomes2, months)
  {
    if users1 == [] {
      assert users1 + users2 == users2 && outcomes1 + outcomes2 == outcomes2;
    } else {
      assert (users1 + users2)[1..] == users1[1..] + users2;
      assert (outcomes1 + outcomes2)[1..] == outcomes1[1..] + outcomes2;
      MergedConcat(users1[1..], outcomes1[1..], users2, outcomes2, months);
    }
  }

  /** The merged list is the accounts before `i`, then account `i`'s contribution,
      then the accounts after it. */
  lemma MergedSplit(users: seq<string>, outcomes: seq<FetchOutcome>, i: int, months: int)
    requires |users| == |outcomes|
    requires 0 <= i < |users|
    ensures Merged(users, outcomes, months)
         == Merged(users[..i], outcomes[..i], months)
          + Contribution(users[i], outcomes[i], months)
          + Merged(users[i + 1..], outcomes[i + 1..], months)
  {
    assert users == users[..i] + users[i..] && outcomes == outcomes[..i] + outcomes[i..];
    MergedConcat(users[..i], outcomes[..i], users[i..], outcomes[i..], months);
    assert users[i..][1..] == users[i + 1..] && outcomes[i..][1..] == outcomes[i + 1..];
  }

  /** An account whose fetch failed adds nothing and does not stop the accounts
      after it: the result is that of the accounts before it followed by that of
      the accounts after it. */
  lemma FailedUserSkipped(users: seq<string>, outcomes: seq<FetchOutcome>, i: int, months: int)
    requires |users| == |outcomes|
    requires 0 <= i < |users| && outcomes[i].Failed?
    ensures Merged(users, outcomes, months)
         == Merged(users[..i], outcomes[..i], months) + Merged(users[i + 1..], outcomes[i + 1..], months)
  {
    MergedSplit(users, outcomes, i, months);
  }

  /** A repo in an account's contribution is one of that account's fetched repos,
      abandoned by that fetch's cutoff, with `owner_name` set to the account and
      every other field as fetched; and every such repo is in the contribution. */
  lemma ContributionMembers(user: string, outcome: FetchOutcome, months: int, x: Repo)
    ensures x in Contribution(user, outcome, months) <==>
      outcome.Listed? &&
      exists y :: y in outcome.repos && IsAbandoned(y, Cutoff(outcome.clock, months)) &&
        x == y.(owner := Some(user))
  {
    if outcome.Listed? {
      var cutoff := Cutoff(outcome.clock, months);
      var kept := Abandoned(outcome.repos, cutoff);
      TaggedMembers(kept, user, x);
      assert forall y :: y in kept <==> y in outcome.repos && IsAbandoned(y, cutoff) by {
        AbandonedMembers(outcome.repos, cutoff);
      }
    }
  }

  /** A repo is in a tagged list exactly when it is a member of the list with the
      owner set. */
  lemma TaggedMembers(kept: seq<Repo>, user: string, x: Repo)
    ensures x in Tagged(kept, user) <==> exists y :: y in kept && x == y.(owner := Some(user))
  {
    var tagged := Tagged(kept, user);
    TaggedFields(kept, user);
    if x in tagged {
      var i :| 0 <= i < |tagged| && tagged[i] == x;
      assert kept[i] in kept && x == kept[i].(owner := Some(user));
    }
    if exists y :: y in kept && x == y.(owner := Some(user)) {
      var y :| y in kept && x == y.(owner := Some(user));
      var i :| 0 <= i < |kept| && kept[i] == y;
      assert tagged[i] == x;
    }
  }

  /** A repo is in the merged list exactly when it is in the contribution of one
      of the visited accounts. */
  lemma {:induction false} MergedMembers(users: seq<string>, outcomes: seq<FetchOutcome>, months: int, x: Repo)
    requires |users| == |outcomes|
    ensures x in Merged(users, outcomes, months) <==>
      exists i :: 0 <= i < |users| && x in Contribution(users[i], outcomes[i], months)
  {
    if users != [] {
      MergedMembers(users[1..], outcomes[1..], months, x);
      if x in Merged(users[1..], outcomes[1..], months) {
        var i :| 0 <= i < |users| - 1 && x in Contribution(users[1..][i], outcomes[1..][i], months);
        assert x in Contribution(users[i + 1], outcomes[i + 1], months);
      }
      if exists i :: 0 <= i < |users| && x in Contribution(users[i], outcomes[i], months) {
        var i :| 0 <= i < |users| && x in Contribution(users[i], outcomes[i], months);
        if i > 0 {
          assert x in Contribution(users[1..][i - 1], outcomes[1..][i - 1], months);
        }
      }
    }
  }

  /** Keeping a prefix of a list keeps a prefix of each star count's repos. */
  lemma {:induction false} WithStarsOfPrefix(s: seq<Repo>, n: int, k: int)
    requires 0 <= n <= |s|
    ensures WithStars(s[..n], k) <= WithStars(s, k)
  {
    if n > 0 {
      WithStarsOfPrefix(s[1..], n - 1, k);
      assert s[..n][1..] == s[1..][..n - 1];
    }
  }

  /** The single-user result is exactly the abandoned repos of the listing, stably
      sorted by descending stars: same repos, same multiplicity, no truncation,
      forks and repos updated at or after the cutoff left out. */
  lemma SearchResultSpec(repos: seq<Repo>, clock: CalendarTime, months: int)
    ensures var kept := Abandoned(repos, Cutoff(clock, months));
      var r := SearchResult(repos, clock, months);
      IsStableSortOf(r, kept) && |r| == |kept| &&
      (forall x :: x in r <==> x in repos && !x.fork && x.updatedAt < Cutoff(clock, months))
  {
    var kept := Abandoned(repos, Cutoff(clock, months));
    var r := SearchResult(repos, clock, months);
    assert forall y :: y in kept <==> y in repos && IsAbandoned(y, Cutoff(clock, months)) by {
      AbandonedMembers(repos, Cutoff(clock, months));
    }
    SortByStarsStable(kept);
    assert |r| == |multiset(r)| == |multiset(kept)| == |kept|;
    forall x ensures x in r <==> x in kept {
      assert x in r <==> x in multiset(r);
      assert x in kept <==> x in multiset(kept);
    }
  }

  /** The statistics of a single-user result are those of the abandoned repos:
      sorting changes neither the count nor the sums. */
  lemma SearchStats(repos: seq<Repo>, clock: CalendarTime, months: int)
    ensures Stats(SearchResult(repos, clock, months)) == Stats(Abandoned(repos, Cutoff(clock, months)))
  {
    SortByStarsStable(Abandoned(repos, Cutoff(clock, months)));
    StatsPermutation(SearchResult(repos, clock, months), Abandoned(repos, Cutoff(clock, months)));
  }

  /** The first `m` repos of a stable sort of `all` are sorted, drawn from `all`,
      and keep each star count's repos in their order in `all`. */
  lemma PrefixOfStableSort(ranked: seq<Repo>, all: seq<Repo>, m: int)
    requires IsStableSortOf(ranked, all)
    requires 0 <= m <= |ranked|
    ensures SortedByStars(ranked[..m])
    ensures multiset(ranked[..m]) <= multiset(all)
    ensures forall k :: WithStars(ranked[..m], k) <= WithStars(all, k)
  {
    assert ranked == ranked[..m] + ranked[m..];
    forall k ensures WithStars(ranked[..m], k) <= WithStars(all, k) {
      WithStarsOfPrefix(ranked, m, k);
    }
  }

  /** No repo among the first `m` of a sorted list has fewer stars than a repo of
      `all` that is not among them. */
  lemma PrefixKeepsBest(ranked: seq<Repo>, all: seq<Repo>, m: int)
    requires SortedByStars(ranked) && multiset(ranked) == multiset(all)
    requires 0 <= m <= |ranked|
    ensures forall x, y :: x in ranked[..m] && y in multiset(all) - multiset(ranked[..m]) ==> x.stars >= y.stars
  {
    var r := ranked[..m];
    assert multiset(ranked) == multiset(r) + multiset(ranked[m..]) by {
      assert ranked == r + ranked[m..];
    }
    forall x, y | x in r && y in multiset(all) - multiset(r) ensures x.stars >= y.stars {
      assert y in multiset(ranked[m..]);
      var i :| 0 <= i < m && r[i] == x;
      var j :| 0 <= j < |ranked| - m && ranked[m..][j] == y;
      assert ranked[i] == x && ranked[m + j] == y;
    }
  }

  /** The first `n` repos of the ranking of `all`: as many as there are, up to
      `n`; sorted; drawn from `all`; each star count's repos in their order in
      `all`; and none of them with fewer stars than a repo left out. */
  lemma TopRanked(all: seq<Repo>, n: nat)
    ensures var ranked := SortByStars(all);
      var r := ranked[..Min(n, |ranked|)];
      |r| == Min(n, |all|) &&
      SortedByStars(r) &&
      multiset(r) <= multiset(all) &&
      (forall k :: WithStars(r, k) <= WithStars(all, k)) &&
      (forall x, y :: x in r && y in multiset(all) - multiset(r) ==> x.stars >= y.stars)
  {
    var ranked := SortByStars(all);
    var m := Min(n, |ranked|);
    SortByStarsStable(all);
    assert |ranked| == |all| by {
      assert |ranked| == |multiset(ranked)| == |multiset(all)| == |all|;
    }
    PrefixOfStableSort(ranked, all, m);
    PrefixKeepsBest(ranked, all, m);
  }

  /** The collection result holds at most twelve repos, sorted by descending stars;
      it is cut from the merged list without losing equal-star order; every kept
      repo has at least as many stars as every dropped one; and every repo in it
      is an abandoned repo of one of the accounts, tagged with that account. */
  lemma CollectionResultSpec(users: seq<string>, outcomes: seq<FetchOutcome>, months: int)
    requires |users| == |outcomes|
    ensures var all := Merged(users, outcomes, months);
      var r := CollectionResult(users, outcomes, months);
      |r| == Min(CollectionLimit, |all|) &&
      SortedByStars(r) &&
      multiset(r) <= multiset(all) &&
      (forall k :: WithStars(r, k) <= WithStars(all, k)) &&
      (forall x, y :: x in r && y in multiset(all) - multiset(r) ==> x.stars >= y.stars) &&
      (forall x :: x in r ==> exists i :: 0 <= i < |users| && x in Contribution(users[i], outcomes[i], months))
  {
    var all := Merged(users, outcomes, months);
    var r := CollectionResult(users, outcomes, months);
    TopRanked(all, CollectionLimit);
    forall x | x in r ensures exists i :: 0 <= i < |users| && x in Contribution(users[i], outcomes[i], months) {
      assert x in multiset(r);
      MergedMembers(users, outcomes, months, x);
    }
  }

  /** When every fetch of a collection fails, the collection result is empty. */
  lemma {:induction false} AllFailedEmpty(users: seq<string>, outcomes: seq<FetchOutcome>, months: int)
    requires |users| == |outcomes|
    requires forall i :: 0 <= i < |outcomes| ==> outcomes[i].Failed?
    ensures Merged(users, outcomes, months) == []
    ensures CollectionResult(users, outcomes, months) == []
  {
    if users != [] {
      assert outcomes[0].Failed?;
      AllFailedEmpty(users[1..], outcomes[1..], months);
    }
  }

  /** No account appears twice in a collection, so a repo's owner tag names the
      one account whose fetch it came from. */
  lemma CollectionUsersDistinct(c: Collection)
    ensures forall i, j :: 0 <= i < j < |Users(c)| ==> Users(c)[i] != Users(c)[j]
  {
  }

  /** Within a collection, a repo's owner tag names one account: a repo cannot be
      in the contributions of two different accounts. */
  lemma OwnerNamesAccount(c: Collection, outcomes: seq<FetchOutcome>, months: int, x: Repo, i: int, j: int)
    requires |outcomes| == |Users(c)|
    requires 0 <= i < |Users(c)| && 0 <= j < |Users(c)|
    requires x in Contribution(Users(c)[i], outcomes[i], months)
    requires x in Contribution(Users(c)[j], outcomes[j], months)
    ensures i == j
  {
    ContributionMembers(Users(c)[i], outcomes[i], months, x);
    ContributionMembers(Users(c)[j], outcomes[j], months, x);
    CollectionUsersDistinct(c);
  }

  /** The non-fork repo of the example: last updated on 2023-01-01T00:00Z. */
  function Relic(issues: nat): Repo {
    Repo(1, "relic", None, false, 0, 1672531200000, 50, issues, "", None)
  }

  /** The example's listing for the first account: the old repo and a fork of it. */
  function RelicListing(issues: nat): FetchOutcome {
    Listed([Relic(issues), Relic(issues).(id := 2, fork := true)], CalendarTime(2024, 5, 1, 0))
  }

  /** Six months before 2024-06-01T00:00Z is 2023-12-01T00:00Z. */
  lemma JuneCutoff()
    ensures Cutoff(CalendarTime(2024, 5, 1, 0), 6) == 1701388800000
  {
    assert -1 / 12 == -1 && -1 % 12 == 11;
    assert DayFromYear(2023) == 19358;
    assert MonthStart(2023, 11) == 334;
  }

  /** The first account contributes its old repo, tagged; the fork is dropped. */
  lemma RelicContribution(issues: nat)
    ensures Contribution("alice", RelicListing(issues), 6) == [Relic(issues).(owner := Some("alice"))]
  {
    var repo := Relic(issues);
    var fork := repo.(id := 2, fork := true);
    JuneCutoff();
    assert Abandoned([repo, fork], 1701388800000) == [repo] by {
      assert [repo, fork][1..] == [fork];
      assert [fork][1..] == [];
      assert Abandoned([fork], 1701388800000) == [];
    }
    assert Tagged([repo], "alice") == [repo.(owner := Some("alice"))] by {
      assert [repo][1..] == [];
    }
  }

  /** The failing second account adds nothing to the first one's contribution. */
  lemma RelicMerged(issues: nat)
    ensures Merged(["alice", "bob"], [RelicListing(issues), Failed], 6) == [Relic(issues).(owner := Some("alice"))]
  {
    RelicContribution(issues);
    assert ["alice", "bob"][1..] == ["bob"];
    assert [RelicListing(issues), Failed][1..] == [Failed];
    assert Merged(["bob"], [Failed], 6) == [] by {
      assert ["bob"][1..] == [];
      assert [Failed][1..] == [];
    }
  }

  /** The statistics of a one-repo list are that repo's numbers. */
  lemma SingletonStats(x: Repo)
    ensures Stats([x]) == Statistics(1, x.stars, x.openIssues)
  {
    TotalSingleton(x, Stars);
    TotalSingleton(x, Issues);
  }

  /** A two-account collection where the second fetch fails: the first account's
      old non-fork repo is shown, tagged, and its fork is ignored. */
  lemma PartialFailureExample(issues: nat)
    ensures var r := CollectionResult(["alice", "bob"], [RelicListing(issues), Failed], 6);
      r == [Relic(issues).(owner := Some("alice"))] && Stats(r) == Statistics(1, 50, issues)
  {
    var tagged := Relic(issues).(owner := Some("alice"));
    assert CollectionResult(["alice", "bob"], [RelicListing(issues), Failed], 6) == [tagged] by {
      RelicMerged(issues);
      assert SortByStars([tagged]) == [tagged] by {
        assert [tagged][1..] == [];
      }
    }
    SingletonStats(tagged);
  }

  // ---------------------------------------------------------------------------
  // The component's state

  /** The state variables of `App` that the two flows update. `timeFilter` is not
      a field: each flow receives, as `months`, the value its closure captured. */
  class App {
    var username: string
    var exhibits: seq<Repo>
    var loading: bool
    var error: string
    var selectedCollection: Option<Collection>
    var collectionRepos: seq<Repo>

    /** Both lists are ranked, and a collection never shows more than twelve repos. */
    ghost predicate Valid()
      reads this
    {
      |collectionRepos| <= CollectionLimit && SortedByStars(collectionRepos) && SortedByStars(exhibits)
    }

    /** The initial values of the `useState` calls. */
    constructor ()
      ensures Valid()
      ensures username == "" && exhibits == [] && !loading && error == ""
      ensures selectedCollection == None && collectionRepos == []
    {
      username := "";
      exhibits := [];
      loading := false;
      error := "";
      selectedCollection := None;
      collectionRepos := [];
    }

    /** `reposToDisplay`: the collection list when it is non-empty, otherwise the
        single-user list. */
    function Displayed(): (r: seq<Repo>)
      reads this
      ensures collectionRepos != [] ==> r == collectionRepos
      ensures collectionRepos == [] ==> r == exhibits
      ensures r == [] <==> collectionRepos == [] && exhibits == []
    {
      if |collectionRepos| > 0 then collectionRepos else exhibits
    }

    /** `reposToDisplay.length`, `totalStars` and `totalIssues`. */
    function Summary(): (st: Statistics)
      reads this
      ensures st.count == |Displayed()|
      ensures Displayed() == [] ==> st == Statistics(0, 0, 0)
    {
      Stats(Displayed())
    }

    /** The synchronous start of `findAbandonedProjects`, before the fetch is
        awaited: the collection is dropped, the error cleared. */
    method StartSearch()
      requires Valid()
      modifies this
      ensures Valid()
      ensures loading && error == "" && selectedCollection == None && collectionRepos == []
      ensures username == old(username) && exhibits == old(exhibits)
    {
      loading := true;
      error := "";
      selectedCollection := None;
      collectionRepos := [];
    }

    /** The rest of `findAbandonedProjects`, once the fetch has settled: the
        abandoned repos sorted in place on success; on failure the error message
        and an empty list, never the previous results. */
    method FinishSearch(outcome: FetchOutcome, months: int)
      requires Valid()
      modifies this
      ensures Valid() && !loading
      ensures outcome.Failed? ==> error == SearchError && exhibits == []
      ensures outcome.Listed? ==>
        error == old(error) && exhibits == SearchResult(outcome.repos, outcome.clock, months)
      ensures username == old(username) && selectedCollection == old(selectedCollection)
      ensures collectionRepos == old(collectionRepos)
    {
      match outcome {
        case Failed =>
          error := SearchError;
          exhibits := [];
        case Listed(repos, clock) =>
          var filterDate := Cutoff(clock, months);
          var abandoned := Abandoned(repos, filterDate);
          var a := new Repo[|abandoned|](k requires 0 <= k < |abandoned| => abandoned[k]);
          assert a[..] == abandoned;
          SortInPlace(a);
          SortByStarsStable(abandoned);
          exhibits := a[..];
      }
      loading := false;
    }

    /** `findAbandonedProjects` as a whole. On success the page shows the
        single-user result and its statistics are those of the abandoned repos. */
    method FindAbandonedProjects(outcome: FetchOutcome, months: int)
      requires Valid()
      modifies this
      ensures Valid() && !loading
      ensures selectedCollection == None && collectionRepos == [] && username == old(username)
      ensures outcome.Failed? ==> error == SearchError && exhibits == [] && Displayed() == []
      ensures outcome.Listed? ==>
        error == "" && exhibits == SearchResult(outcome.repos, outcome.clock, months) &&
        Displayed() == exhibits &&
        Summary() == Stats(Abandoned(outcome.repos, Cutoff(outcome.clock, months)))
    {
      StartSearch();
      FinishSearch(outcome, months);
      if outcome.Listed? {
        SearchStats(outcome.repos, outcome.clock, months);
      }
    }

    /** The synchronous start of `loadCollection`: the collection is selected, the
        error and the username cleared; the lists on show stay until the end. */
    method StartCollection(c: Collection)
      requires Valid()
      modifies this
      ensures Valid()
      ensures loading && error == "" && selectedCollection == Some(c) && username == ""
      ensures exhibits == old(exhibits) && collectionRepos == old(collectionRepos)
    {
      loading := true;
      error := "";
      selectedCollection := Some(c);
      username := "";
    }

    /** The loop of `loadCollection` over the accounts of `c`, one outcome per
        account in listing order, then the in-place sort and the top twelve. */
    method GatherCollection(c: Collection, outcomes: seq<FetchOutcome>, months: int)
      requires Valid()
      requires |outcomes| == |Users(c)|
      modifies this
      ensures Valid() && !loading
      ensures collectionRepos == CollectionResult(Users(c), outcomes, months)
      ensures username == old(username) && exhibits == old(exhibits)
      ensures error == old(error) && selectedCollection == old(selectedCollection)
    {
      var allRepos := MergeCollection(Users(c), outcomes, months);
      var a := new Repo[|allRepos|](k requires 0 <= k < |allRepos| => allRepos[k]);
      assert a[..] == allRepos;
      SortInPlace(a);
      collectionRepos := a[..Min(CollectionLimit, a.Length)];
      assert SortedByStars(collectionRepos) by {
        TopRanked(allRepos, CollectionLimit);
      }
      loading := false;
    }

    /** `loadCollection` as a whole. */
    method LoadCollection(c: Collection, outcomes: seq<FetchOutcome>, months: int)
      requires Valid()
      requires |outcomes| == |Users(c)|
      modifies this
      ensures Valid() && !loading
      ensures error == "" && selectedCollection == Some(c) && username == ""
      ensures collectionRepos == CollectionResult(Users(c), outcomes, months)
      ensures exhibits == old(exhibits)
      ensures collectionRepos == [] ==> Displayed() == old(exhibits)
    {
      StartCollection(c);
      GatherCollection(c, outcomes, months);
    }
  }
}
