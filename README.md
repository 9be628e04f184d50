# RytonStore catalog, modelled in Dafny

RytonStore is a small package catalog for the Ryton language, served by one FastAPI
application (`app/main.py`). Signed-in GitHub users submit repositories they own.
The service stores one record per package in `packages.json`, refreshes the records
from the GitHub API, and offers a searchable home page, a per-tag categories page,
a "my packages" page and an admin action that refreshes everything.

This project models the catalog bookkeeping of that application:

- reading `<owner>/<repo>` out of a repository URL (strict and loose parsers);
- the ownership check for a submission;
- the fields a repository fetch produces: topic filter, developer status,
  `.ryx` download link, date fallback;
- the in-place refresh of a record;
- the request handlers that load, change and save the catalog: update one,
  update all, my packages, package details, add, search, categories.

GitHub is an input: `GitHubClient.Env` holds a snapshot of the answers GitHub would
give, the tag allow-list and the date formatter. The session cookie is an
`Option<User>`. The organisation list is a parameter. `packages.json` is the field
`file` of `PackageStore.Store`.

The handlers that write (update one, update all, package details and add) load
the document as fresh `PackageRecord.Package` objects in an array, change them in
place or append to them, and write the whole list back. My packages loads and
annotates the objects the same way but never saves; search and categories read
the document without building objects. So the model shows two things the source
depends on:

- the refresh changes the very object it is given and returns it;
- the `index` key `my_packages` adds never reaches the file.

Modules, in dependency order:

| file | module | content |
|---|---|---|
| wrappers.dfy | Wrappers | `Option` |
| seqs.dfy | Seqs | first index, filter, subsequence, stable descending sort |
| text.dfy | Text | ASCII lower-casing, substring test, `strip`, `split` |
| github_url.dfy | GitHubUrl | the repository URL parsers |
| ownership.dfy | Ownership | `check_repo_ownership` |
| github_client.dfy | GitHubClient | `get_github_repo_info`, `get_user_repos` |
| catalog.dfy | Catalog | records as values: refresh merge, new record, permission, search, star bar |
| tags.dfy | Tags | the categories page |
| package.dfy | PackageRecord | the mutable record object |
| store.dfy | PackageStore | the catalog document and the request handlers |

## Model

| member | source | states |
|---|---|---|
| Text.Split | app/main.py:162 | `split("/")` yields at least one piece; no piece contains the separator; joining the pieces gives the string back |
| Text.SplitJoin | app/main.py:162 | splitting what was joined from separator-free pieces gives the pieces back |
| Text.Strip | app/main.py:162 | `strip("/")` removes exactly the leading and trailing separators and keeps the middle |
| Text.Lower | app/main.py:451 | `.lower()` maps every character and keeps the length (ASCII only) |
| Text.LowerIdempotent | app/main.py:451 | lower-casing twice is lower-casing once |
| GitHubUrl.ParseRepoUrl | app/main.py:162-174 | no `github.com` segment gives no result; otherwise the result is the two segments after the first `github.com`, or none when fewer follow or the repository segment is empty |
| GitHubUrl.ParseWellFormed | app/main.py:162-174 | round trip: a URL joined from separator-free segments around `github.com/<owner>/<repo>` parses back to that owner and repository |
| GitHubUrl.ParseHttpsUrl | app/main.py:162-174 | `https://github.com/<owner>/<repo>` parses to that owner and repository |
| GitHubUrl.EmptyOwnerAccepted | app/main.py:170-174 | only the repository segment is tested, so `github.com//<repo>` parses with an empty owner |
| GitHubUrl.ParseIgnoresTrailingSlash | app/main.py:162 | a trailing `/` does not change the parse |
| GitHubUrl.LooseParserAcceptsEmptyName | app/main.py:549-554 | the loose parser of the details page agrees with the strict one except on an empty repository segment, which only the loose one accepts |
| Ownership.AnyOrgMatches | app/main.py:465-467 | the org loop answers true iff some organisation login equals the owner up to ASCII case |
| Ownership.OwnershipDecision | app/main.py:431-469 | false without a session, without an access token, or for an unparsable URL; otherwise true iff the URL owner equals the login or some organisation login, ignoring ASCII case |
| Ownership.OwnerNeedsNoOrgs | app/main.py:451-452 | a user who owns the repository personally is accepted whatever the organisation list |
| Ownership.OwnershipIgnoresLoginCase | app/main.py:451 | the case of the user's login does not matter |
| GitHubClient.FilterTopics | app/main.py:240-244 | an empty topic list gives `[]`; a non-empty list with no allowed topic gives `["other"]`; otherwise the result keeps the input order and holds exactly the allowed topics, each as often as in the input |
| GitHubClient.TopicsAsWrittenAreLost | app/main.py:240-246 | with the undefined `ALLOWED_TAGS`, a repository with topics gets `[]`, where the intended filter never returns `[]` |
| GitHubClient.DeveloperStatus | app/main.py:219-227 | team members get "CLteam Member", other trusted developers get "Trusted Developer", everyone else no status (exact, case-sensitive) |
| GitHubClient.TrustedDeveloperStatus | app/main.py:219-227 | the two lists do not overlap, so every trusted developer gets that status |
| GitHubClient.DownloadUrl | app/main.py:282-283 | the download link of the first asset whose name ends in `.ryx`, or `""` when there is none |
| GitHubClient.RepoInfoContract | app/main.py:159-286 | a fetch resolves iff the URL parses and GitHub answers for the repository; the result keeps the URL verbatim, takes the URL owner as owner login with its developer status, and degrades a missing release, user profile or topic list to empty values (`N/A` dates; the avatar falls back to the repository owner's) |
| GitHubClient.UserRepos | app/main.py:289-334 | refused without a session or access token; otherwise the user's and the organisations' repositories, all of them, ordered by non-increasing stars |
| GitHubClient.UserReposStable | app/main.py:332 | repositories with equal stars keep their fetch order |
| Seqs.SortDesc | app/main.py:502 | `sorted(..., reverse=True)` on a key: a permutation with non-increasing keys |
| Seqs.SortDescStable | app/main.py:502 | the sort is stable: the elements with any one key keep their order |
| Catalog.RefreshContract | app/main.py:132-156 | no URL or an unresolved fetch leaves the record unchanged; otherwise exactly the twelve GitHub-derived fields take the fetched values, and name, description, URL, topics and submitter are kept |
| Catalog.RefreshForgetsOldValues | app/main.py:143-154 | after a successful refresh the GitHub-derived fields depend only on the fetch, not on their old values |
| Catalog.RefreshIdempotent | app/main.py:132-156 | refreshing twice against the same answers is refreshing once |
| Catalog.RefreshCyclesKeepLocalFields | app/main.py:132-156 | any number of refreshes keeps name, description, URL, topics and submitter |
| Catalog.RefreshAll | app/main.py:515-519 | the catalog after an update-all run: same length, each record refreshed in place |
| Catalog.NewRecordIsFresh | app/main.py:602-619 | a submitted record carries the submitter's login and the URL verbatim, and refreshing it against the answers it was built from changes nothing |
| Catalog.OwnedIndices | app/main.py:345-348 | the listed indices are increasing, each names a record the user may update, and every such record is listed |
| Catalog.Search | app/main.py:477-479 | no or empty query gives every record; otherwise the matching records, in catalog order, each as often as in the catalog |
| Catalog.SearchNoMatch | app/main.py:477-479 | a query that matches nothing gives an empty list |
| Catalog.SearchIgnoresQueryCase | app/main.py:478-479 | the case of the query does not matter |
| Catalog.StarsPercent | app/main.py:543 | the star bar is the star count capped at 100 |
| Tags.StatsCounts | app/main.py:493-499 | the dictionary holds each topic once, exactly the topics that occur, each with its number of occurrences (at least 1) |
| Tags.StatsFirstEncounterOrder | app/main.py:493-499 | the dictionary keeps its keys in the order of their first occurrence |
| Tags.StatsSum | app/main.py:493-499 | the counts add up to the number of topic occurrences |
| Tags.Tally | app/main.py:496-499 | one increment `tag_stats[topic] += 1` or insertion `tag_stats[topic] = 1` is counting one more topic |
| Tags.CountTopics | app/main.py:495-499 | the inner loop counts one record's topics on top of those already counted |
| Tags.CountTags | app/main.py:493-499 | the nested loop builds the dictionary of all topics of all records |
| Tags.SortedTagsContract | app/main.py:493-502 | the categories list has distinct tags, counts in non-increasing order, exactly the topics that occur, each with its number of occurrences (at least 1), and the counts sum to the number of occurrences |
| Tags.SortedTagsTieOrder | app/main.py:493-502 | tags with equal counts appear in the order their topics were first met |
| PackageRecord.Package.FromRecord | app/main.py:42-46 | a loaded object holds the stored record and no index |
| PackageRecord.Package.Annotate | app/main.py:347 | `package["index"] = i` sets only the index |
| PackageRecord.Package.MergeRepository | app/main.py:143-150 | the owner, counters, language and dates take the fetched values |
| PackageRecord.Package.MergeRelease | app/main.py:151-154 | version, download link, date and notes take the release values |
| PackageRecord.Package.MergeFetched | app/main.py:143-154 | the object now holds the merge of its old value with the fetch result; its index is kept |
| PackageRecord.Package.RefreshFromGitHub | app/main.py:132-156 | returns the very object it was given, whose value is now the refreshed record |
| PackageRecord.Values | app/main.py:49-51 | the list written back holds the value of each object, in array order |
| PackageStore.Store.Load | app/main.py:42-46 | one fresh, distinct, unannotated object per stored record, holding that record |
| PackageStore.Store.Save | app/main.py:49-51 | the whole list replaces the document |
| PackageStore.RefreshInPlace | app/main.py:537 | `packages[i] = update_package_from_github(packages[i])` replaces only entry `i`, by its refreshed value |
| PackageStore.Store.RefreshAndSave | app/main.py:537-538 | the refresh of one entry followed by a save changes only that record in the document |
| PackageStore.Store.Append | app/main.py:622-624 | the document gains exactly the new record at its end |
| PackageStore.Store.UpdatePackage | app/main.py:64-84 | no session redirects to sign-in; an index outside the catalog is 404; a user who is neither the owner nor the submitter (exact comparison) is 403; these leave the document unchanged; otherwise only that record is refreshed and the user is sent to `/my-packages` |
| PackageStore.RefreshStep | app/main.py:516 | one refresh in the update-all loop: entry `i` now holds its refreshed value, and the other entries are untouched |
| PackageStore.Store.UpdateAllPackages | app/main.py:510-526 | every record is refreshed in index order and saved once; the reported count is 0 |
| PackageStore.Differences | app/main.py:517-519 | the number of changed positions is at most the catalog length |
| PackageStore.DifferencesSeeChange | app/main.py:517-519 | a changed record is counted |
| PackageStore.NoDifferences | app/main.py:517-519 | an unchanged catalog has no differences |
| PackageStore.RefreshChangesStaleRecord | app/main.py:515-519 | a record whose repository now reports one more star is changed by the refresh, so the intended count is 1 |
| PackageStore.Store.UpdateAllPackagesCounted | app/main.py:515-519 | the same run, counting the records whose value the refresh changed |
| PackageStore.ListIfOwned | app/main.py:346-348 | one step of the my-packages loop: the record is annotated and listed iff the user is its owner or submitter |
| PackageStore.Store.MyPackages | app/main.py:336-354 | no session redirects; otherwise the user's records, in catalog order, each annotated with its own index; the document is not written |
| PackageStore.Store.PackageDetails | app/main.py:529-564 | an index outside the catalog is 404; otherwise the record is refreshed and saved, then shown with the star bar and, when it has a URL, the repository the loose parser finds for reviews |
| PackageStore.Store.AddPackage | app/main.py:577-627 | no session redirects to sign-in; a repository the user does not own, or one the fetch cannot resolve, gives the form with its error message; these leave the document unchanged; otherwise the new record is appended and the user is sent to `/` with 303 |
| PackageStore.Store.Categories | app/main.py:488-507 | the page lists the sorted tag counts of the whole catalog |

## Left out

- The GitHub OAuth exchange, the login and logout routes, and the session cookie (app/main.py:54-62, 357-429) are not modelled. A missing, expired or forged cookie is `None`; a valid one is a `User` with a login and an optional access token.
- HTTP calls to GitHub are not modelled. Their answers are inputs: `Upstream` for the repository, release, user and topic fetches, an organisation list for the ownership check, and per-source repository lists for `get_user_repos`. A request that would not come back with status 200 is a missing map key. The model does not capture:
  - exceptions raised by `requests` or `httpx`;
  - the `UnboundLocalError` a failed user-profile request would raise at app/main.py:215, where the model falls back to an empty profile;
  - the `UnboundLocalError` a failed topics request would raise at app/main.py:264;
  - JSON `null` values.
  - a non-200 answer to `GET /user/orgs` (app/main.py:461-467) or to the repository lists of `get_user_repos` (app/main.py:300-318). The source iterates the error object it gets back and raises `TypeError`, so `add_package` answers 500 where `Store.AddPackage` gives the not-yours form. The model's list inputs stand only for successful answers.
- Fetching reviews (`get_github_reviews`, app/main.py:86-130) is not modelled. The details page returns the `(owner, repo)` it would fetch reviews for.
- `load_packages` and `save_packages` work on the in-memory document `file`, not on a JSON file. A missing file and an empty catalog are the same.
- Text.Lower: `.lower()` is modelled on ASCII letters only. Python's Unicode case mapping is not modelled.
- GitHubClient.FormatDate: `datetime.fromisoformat` and `strftime` are a formatter passed in `Env`. Only "empty gives `N/A`" and "unparsable is kept" are written out.
- GitHubClient.FilterTopics: the allow-list is a parameter, because `ALLOWED_TAGS` is not defined in app/main.py (see Findings).
- GitHubClient.GetRepoInfo: the fetch fills `topics` with the intended filter `FilterTopics`, not with `TopicsAsWritten`, which gives `[]` for any non-empty topic list. No handler reads the fetched `topics`: a new record stores none and a refresh keeps the record's own.
- Catalog.NewRecord: `add_package` stores no `topics` key. A record's topics are only what the catalog file already holds; a refresh never writes them.
- Concurrent requests interleaving their load and save are not modelled. Each handler is one atomic step.
- Jinja templates, static files, the serverless handler and the admin message string are not modelled. The handlers return a `Response` value or the data a template would receive.
- The `/add` form page (app/main.py:567-575) only redirects or renders; it is not modelled.

## Findings

| source | as written | input that shows it | evidently intended | confidence | as-written member | corrected member |
|---|---|---|---|---|---|---|
| app/main.py:240 | the comprehension tests `topic in ALLOWED_TAGS`, a name app/main.py never defines; the `NameError` on the first topic is swallowed by the bare `except` at 245-246, so the topics become `[]` | any repository whose topic list is non-empty | keep the allow-listed topics in order, or `["other"]` when none is allowed | not executed | GitHubClient.TopicsAsWrittenAreLost | GitHubClient.FilterTopics |
| app/main.py:515-519 | `update_package_from_github` changes its argument in place and returns it, so `updated_package != package` compares a dictionary with itself and the counter stays 0 | a one-record catalog whose repository now reports one more star than stored (`PackageStore.RefreshChangesStaleRecord`) | the admin message reports how many records the refresh changed | not executed | PackageStore.Store.UpdateAllPackages | PackageStore.Store.UpdateAllPackagesCounted |
