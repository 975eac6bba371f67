# Procrastination Museum: the abandonment filter and ranking pipeline

The web page of this repository shows a GitHub account's "abandoned" repositories. These are repositories that are not forks and have not been updated for a chosen number of months. The page can also merge the abandoned repositories of a curated group of accounts into a "collection". All of that logic lives in the `App` component of `src/App.js`. This project models that component and proves properties of it in Dafny.

The model has four modules:

- `Calendar` — the cutoff `filterDate.setMonth(filterDate.getMonth() - timeFilter)`.
  - It follows the date arithmetic of section 21.4.1 of ECMA-262: DayFromYear, MakeDay, MakeDate.
  - A month outside 0..11 borrows from or carries into the year by floored division.
  - The day of the month is kept; if it does not exist in the target month, it rolls forward into the next month.
  - Time values are integer milliseconds. A clock reading is given by its calendar fields.
- `Repos` — the repository record and the abandonment predicate `!fork && updated < cutoff`.
  - The `.filter` of both flows.
  - The `owner_name` tagging of the collection flow.
  - The `reduce` folds behind the statistics panel.
- `Ranking` — the sort `(a, b) => b.stargazers_count - a.stargazers_count`.
  - `Array.prototype.sort` is stable (section 22.1.3.27 of ECMA-262, 2019 edition onwards).
  - `SortByStars` specifies it as a stable insertion sort. The model proves that any stable descending sort returns the same list.
  - `SortInPlace` sorts an `array` in place and is proved equal to `SortByStars`.
- `Museum` — the two flows and the component state.
  - `findAbandonedProjects` and `loadCollection` are modelled as pure pipelines (`SearchResult`, `Merged`, `CollectionResult`) with their lemmas.
  - The state is the class `App`, holding the state variables of the component. Its methods update those fields as the setters do, and are proved against the pipelines.

Each `fetch(...)` followed by `response.json()` is an injected `FetchOutcome`:
- `Listed(repos, clock)` carries the parsed array and the clock reading that `new Date()` returns right after it.
- `Failed` stands for whatever makes the `try` block throw.

`loadCollection` takes one outcome per account of the collection, in the order `CURATED_COLLECTIONS` lists them.

Two consequences of the code, as written, are stated in the model:

- A failed single-user search does not re-throw. It sets the error message and an empty `exhibits` list. `FinishSearch` models this, not a failure value returned to a caller.
- `loadCollection` never clears `exhibits`. When a collection yields no repos (every fetch failed, or nothing is old enough), the page falls back to the last single-user result. `LoadCollection` states this fallback, and `AllFailedEmpty` shows that every fetch failing leads to it.

## Model

| member | source | states |
|---|---|---|
| Calendar.NormalizeMonth | src/App.js:53 | the target month lies in 0..11 and the pair (year, month) denotes the same month count as `getMonth() - timeFilter` in the current year |
| Calendar.DayFromYearStep | src/App.js:52-53 | the closed-form day number of a year's first day advances by 366 in leap years and by 365 otherwise |
| Calendar.MakeDayStep | src/App.js:53 | moving one month forward, including across a year boundary, advances the day number by the length of the month left behind |
| Calendar.MakeDayIncreasing | src/App.js:53 | for a fixed year and day of the month, a later month gives a strictly later day |
| Calendar.CutoffBeforeNow | src/App.js:52-53 | a threshold of 0 months gives the clock reading itself; a positive threshold gives a strictly earlier moment, even when the day of the month overflows the target month; a negative one gives a later moment |
| Calendar.CutoffDecreasing | src/App.js:52-53 | a longer threshold gives a strictly earlier cutoff |
| Calendar.CutoffKeepsDate | src/App.js:52-53 | when the day of the month exists in the target month, the cutoff is the clock reading with the year and month moved back and the day and time of day unchanged |
| Calendar.CutoffExample | src/App.js:52-53 | 2024-03-15 moved back one month is 2024-02-15 at the same time of day |
| Calendar.CutoffOverflowExample | src/App.js:52-53 | 2024-03-31 moved back one month is 2024-03-02, not the end of February |
| Calendar.CutoffYearBorrowExample | src/App.js:88-89 | January 2024 moved back 1 and 13 months gives December 2023 and December 2022 |
| Repos.ForkNeverAbandoned | src/App.js:55-58 | a fork is never abandoned, whatever its update time |
| Repos.CutoffIsExclusive | src/App.js:91-93 | a non-fork is abandoned exactly when updated strictly before the cutoff; one updated at the cutoff is kept out |
| Repos.AbandonedMembers | src/App.js:55-58 | the filter keeps each abandoned repo exactly as often as it occurs in the listing and drops every other repo |
| Repos.AbandonedAppend | src/App.js:55-58 | the filter keeps order: filtering a concatenation concatenates the filtered parts |
| Repos.AbandonedMonotone | src/App.js:52-58 | an earlier cutoff keeps a sub-multiset of what a later cutoff keeps |
| Repos.TaggedFields | src/App.js:94 | tagging keeps the length, and the repo at each position becomes a copy with `owner_name` set and every other field unchanged |
| Repos.TaggedAbandoned | src/App.js:91-94 | filtering then tagging equals tagging then filtering |
| Repos.TaggedAppend | src/App.js:94-96 | tagging distributes over concatenation |
| Repos.TotalAppend | src/App.js:133-134 | the fold of a concatenation is the sum of the folds of its parts |
| Repos.TotalBounds | src/App.js:133-134 | no repo's share exceeds the total |
| Repos.TotalPermutation | src/App.js:133-134 | the totals do not depend on the order of the list |
| Repos.Stats | src/App.js:252 | the count is the length of the shown list, all three numbers are zero for an empty list, and no repo's stars or issues exceed the totals |
| Repos.StatsPermutation | src/App.js:133-134 | reordering the shown list leaves the statistics unchanged |
| Ranking.InsertPermutes | src/App.js:61 | inserting adds the repo and loses nothing |
| Ranking.InsertSorted | src/App.js:61 | inserting into a list sorted by descending stars keeps it sorted |
| Ranking.InsertRuns | src/App.js:61 | an inserted repo comes before the repos with its star count that followed it |
| Ranking.SortByStarsStable | src/App.js:61 | the specified sort orders by descending stars, is a permutation of its input, and keeps equal-star repos in their input order |
| Ranking.WithStarsMembers | src/App.js:61 | the repos with a given star count are exactly the members with that count |
| Ranking.StableSortUnique | src/App.js:61 | two sorted lists with the same equal-star order are equal, so a stable descending sort has only one possible result |
| Ranking.StableSortIsSortByStars | src/App.js:103 | any stable descending sort of a list, whatever its algorithm, returns `SortByStars` of it |
| Ranking.InsertAt | src/App.js:61 | the inserted repo lands after the leading repos that have more stars than it |
| Ranking.SortInPlace | src/App.js:61 | the array after the in-place sort holds the stable sort of its old contents |
| Ranking.InsertInPlace | src/App.js:61 | one insertion step moves the repo into the sorted suffix and leaves the prefix alone |
| Museum.MergeCollection | src/App.js:79-100 | the loop's accumulator is the accounts' contributions in listing order, with a failing account skipped |
| Museum.MergedAppend | src/App.js:96 | visiting one more account appends its contribution to the accumulator |
| Museum.MergedConcat | src/App.js:81-100 | the merge over two runs of accounts is the first run's merge followed by the second run's |
| Museum.MergedSplit | src/App.js:81-100 | the merge is the accounts before one account, that account's contribution, then the accounts after it |
| Museum.FailedUserSkipped | src/App.js:97-99 | an account whose fetch fails contributes nothing and does not stop the accounts after it |
| Museum.ContributionMembers | src/App.js:88-94 | a repo is in an account's contribution exactly when it is an abandoned repo of that account's listing with `owner_name` set to the account |
| Museum.TaggedMembers | src/App.js:94 | a repo is in a tagged list exactly when it is a member of the list with `owner_name` set |
| Museum.MergedMembers | src/App.js:79-100 | a repo is in the merged list exactly when it is in the contribution of one of the accounts |
| Museum.SearchResultSpec | src/App.js:55-65 | the single-user result is a stable descending sort of exactly the abandoned repos: same repos and multiplicity, no truncation, no forks, none updated at or after the cutoff |
| Museum.SearchStats | src/App.js:61 | the statistics of the single-user result are those of the abandoned repos before sorting |
| Museum.TopRanked | src/App.js:103-104 | the first n repos of a ranking number min(n, length); they are sorted, drawn from the list, keep equal-star order, and none has fewer stars than a repo left out |
| Museum.CollectionResultSpec | src/App.js:103-104 | the collection result holds min(12, merged length) repos; it is sorted, drawn from the merged list in equal-star order, and no kept repo has fewer stars than a dropped one; each repo comes from one account's contribution |
| Museum.AllFailedEmpty | src/App.js:81-104 | when every fetch of a collection fails, the merged list and the collection result are empty |
| Museum.CollectionUsersDistinct | src/App.js:4-25 | no account appears twice in a curated collection |
| Museum.OwnerNamesAccount | src/App.js:81-96 | within a collection, a repo lies in the contribution of at most one account, so its `owner_name` names the one account it came from |
| Museum.PartialFailureExample | src/App.js:74-106 | with "alice" listing an old repo and a fork of it, and the fetch for "bob" failing, a six-month threshold on 2024-06-01 shows alice's repo alone, tagged, with its stars and issues as the statistics |
| Museum.App.constructor | src/App.js:28-34 | the initial state: empty username, lists and error, not loading, no collection selected |
| Museum.App.Displayed | src/App.js:130 | the shown list is the collection list when that is non-empty, otherwise the single-user list; it is empty only when both are |
| Museum.App.Summary | src/App.js:133-134 | the statistics panel counts the shown list and is all zeros when nothing is shown |
| Museum.App.StartSearch | src/App.js:37-40 | starting a search sets loading, clears the error, deselects the collection and empties the collection list, leaving the rest alone |
| Museum.App.FinishSearch | src/App.js:42-71 | on success the single-user list becomes the sorted abandoned repos; on failure the error message is set and the list emptied, never left stale; loading ends |
| Museum.App.FindAbandonedProjects | src/App.js:36-72 | after a search no collection is shown; on success the page shows the single-user result with the statistics of the abandoned repos; on failure it shows the error and nothing |
| Museum.App.StartCollection | src/App.js:75-78 | starting a collection sets loading, clears the error and the username, and selects the collection |
| Museum.App.GatherCollection | src/App.js:79-105 | the collection list becomes the top twelve of the stably ranked merge of the accounts' contributions; loading ends |
| Museum.App.LoadCollection | src/App.js:74-106 | the whole collection flow: the collection is selected, the list is the collection result, and the old single-user list stays, shown again when the collection result is empty |

## Left out

- Network I/O (`fetch`, `response.json()`, src/App.js:46-47 and 85-86): each call is an injected `FetchOutcome`. The code never checks the HTTP status, so an error body reaches the model as `Failed` only when its `.filter` throws; a JSON array error body is not distinguished.
- The 200 ms `setTimeout` before every fetch of a collection (src/App.js:83) and the `async`/`await` interleaving: timing and concurrency. The flows are modelled as the sequence of state changes one run makes, split at the first `await` into the Start and Finish/Gather methods.
- `handleFilterChange` (src/App.js:119-127): React state wiring, whose closures hold the previous `timeFilter` and whose overlapping runs can race. `timeFilter` is a parameter (`months`) of each flow rather than a field.
- `getPoetryDescription` (src/App.js:108-117): random and floating point, cosmetic.
- Logging through `console.log` and `console.error`.
- Rendering, number and date formatting, CSS (src/App.js:136-303), including the "Back to Collections" button (src/App.js:227-233), which resets the state from the page.
- JavaScript numbers are doubles: `Date` time values are clipped to ±8.64e15 ms (NaN beyond), and the `reduce` sums are exact only up to 2^53. The model uses unbounded integers; no realistic listing comes near these limits.
- Full `Date` semantics: parsing of `updated_at`, time zones (local time is taken to be UTC), and NaN for invalid dates. `Repo.updatedAt` is already an integer time value.
- The record fields the pipeline never reads, other than those kept to show that tagging leaves the rest of a repo unchanged.
- `Array.prototype.sort`'s own algorithm is not modelled. The insertion sort stands for it; `StableSortUnique` shows that every stable sort gives the same result.
- Museum.App.FinishSearch: the `try` block is modelled as failing as a whole, before any state changes. In the code, nothing is set between the fetch and `setExhibits`, so the two agree.
