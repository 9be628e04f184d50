/** `get_github_repo_info` and `get_user_repos`: what the service makes of GitHub's
    answers. GitHub itself is an input, a snapshot of the answers it would give
    (`Upstream`); a request that would not come back with status 200 is a key
    missing from the snapshot. JSON objects are records whose optional keys are
    `Option`s, so that Python's `d.get(key, default)` can be written out. */
module GitHubClient {
  import opened Wrappers
  import opened Seqs
  import opened Text
  import opened GitHubUrl
  import opened Ownership

  /** `GET /repos/{owner}/{repo}`: the keys the service reads. */
  datatype RepoData = RepoData(
    name: Option<string>,
    description: Option<string>,
    stargazersCount: Option<nat>,
    forksCount: Option<nat>,
    watchersCount: Option<nat>,
    language: Option<string>,
    openIssuesCount: Option<nat>,
    createdAt: Option<string>,
    updatedAt: Option<string>,
    ownerAvatarUrl: Option<string>)

  datatype Asset = Asset(name: string, browserDownloadUrl: string)

  /** `GET /repos/{owner}/{repo}/releases/latest`. */
  datatype ReleaseData = ReleaseData(
    tagName: Option<string>,
    publishedAt: Option<string>,
    assets: Option<seq<Asset>>,
    body: Option<string>)

  /** `GET /users/{owner}`. */
  datatype UserData = UserData(avatarUrl: Option<string>, name: Option<string>, bio: Option<string>)

  /** The answers GitHub would give. `topics` holds the `names` list of
      `GET /repos/{owner}/{repo}/topics` (an answer without `names` is `[]`). */
  datatype Upstream = Upstream(
    repos: map<RepoRef, RepoData>,
    releases: map<RepoRef, ReleaseData>,
    users: map<string, UserData>,
    topics: map<RepoRef, seq<string>>)

  /** Everything a repository fetch depends on besides the URL: GitHub's answers, the
      tag allow-list, and the date formatter (`datetime.fromisoformat` followed by
      `strftime("%d %b %Y")`), which answers `None` where Python raises. */
  datatype Env = Env(github: Upstream, allowedTags: set<string>, formatDate: string -> Option<string>)

  datatype Owner = Owner(login: string, avatarUrl: string, name: string, bio: string, status: Option<string>)

  datatype Release = Release(version: string, publishedAt: string, downloadUrl: string, body: string)

  /** The dictionary `get_github_repo_info` returns. */
  datatype RepoInfo = RepoInfo(
    name: string,
    description: string,
    stars: nat,
    topics: seq<string>,
    allTopics: seq<string>,
    forks: nat,
    watchers: nat,
    language: string,
    openIssues: nat,
    createdAt: string,
    updatedAt: string,
    githubUrl: string,
    owner: Owner,
    release: Release)

  // ---------------------------------------------------------------- topics

  predicate AllowedTopic(allowed: set<string>, t: string)
  {
    t in allowed
  }

  /** The topic filter with its allow-list as a parameter: the allowed topics in
      their order, or `["other"]` when GitHub reported topics and none is allowed. */
  function FilterTopics(allTopics: seq<string>, allowed: set<string>): (r: seq<string>)
    ensures allTopics == [] ==> r == []
    ensures allTopics != [] && (forall t :: t in allTopics ==> t !in allowed) ==> r == ["other"]
    ensures (exists t :: t in allTopics && t in allowed) ==>
              IsSubsequence(r, allTopics) &&
              forall t :: multiset(r)[t] == if t in allowed then multiset(allTopics)[t] else 0
  {
    var kept := Filter(allTopics, t => AllowedTopic(allowed, t));
    FilterCount(allTopics, t => AllowedTopic(allowed, t));
    FilterIsSubsequence(allTopics, t => AllowedTopic(allowed, t));
    if kept == [] && allTopics != [] then
      assert forall t :: t in allTopics ==> t !in allowed by {
        forall t | t in allTopics ensures t !in allowed {
          assert multiset(kept)[t] == 0;
        }
      }
      ["other"]
    else kept
  }

  /** The topic step as app/main.py:240-246 has it. The comprehension tests
      `topic in ALLOWED_TAGS`, a name the module never defines: on a non-empty list
      the first test raises `NameError`, which the bare `except:` turns into `[]`;
      on an empty list the test never runs and the fallback does not apply. */
  function TopicsAsWritten(allTopics: seq<string>): (r: seq<string>)
  {
    []
  }

  /** Whatever the allow-list would be, the code as written reports no topics for a
      repository that has some, where the intended filter always reports some. */
  lemma {:induction false} TopicsAsWrittenAreLost(allTopics: seq<string>, allowed: set<string>)
    requires allTopics != []
    ensures TopicsAsWritten(allTopics) == []
    ensures FilterTopics(allTopics, allowed) != []
  {
    if exists t :: t in allTopics && t in allowed {
      var t :| t in allTopics && t in allowed;
      assert multiset(FilterTopics(allTopics, allowed))[t] > 0;
    }
  }

  // ---------------------------------------------------------------- developer status

  const ClteamMembers: seq<string> := ["Rejzi-dich", "CodeLibraty"]
  const TrustedDevelopers: seq<string> := ["trusted_dev1", "trusted_dev2", "trusted_dev3"]

  /** `developer_status`: team members first, then trusted developers; exact,
      case-sensitive membership of the owner segment of the URL. */
  function DeveloperStatus(username: string): (r: Option<string>)
    ensures r == Some("CLteam Member") <==> username in ClteamMembers
    ensures r == Some("Trusted Developer") <==> username !in ClteamMembers && username in TrustedDevelopers
    ensures r == None <==> username !in ClteamMembers && username !in TrustedDevelopers
  {
    if username in ClteamMembers then Some("CLteam Member")
    else if username in TrustedDevelopers then Some("Trusted Developer")
    else None
  }

  /** The two lists do not overlap, so every trusted developer gets that status. */
  lemma TrustedDeveloperStatus(username: string)
    requires username in TrustedDevelopers
    ensures DeveloperStatus(username) == Some("Trusted Developer")
  {
  }

  // ---------------------------------------------------------------- release asset

  const PackageExtension: string := ".ryx"

  /** `next((a["browser_download_url"] for a in assets if a["name"].endswith(".ryx")), "")`:
      the download link of the first `.ryx` asset, or `""` when there is none. */
  function DownloadUrl(assets: seq<Asset>): (r: string)
    ensures (forall i :: 0 <= i < |assets| ==> !EndsWith(assets[i].name, PackageExtension)) ==> r == ""
    ensures forall k :: 0 <= k < |assets| && EndsWith(assets[k].name, PackageExtension) &&
                        (forall j :: 0 <= j < k ==> !EndsWith(assets[j].name, PackageExtension)) ==>
                        r == assets[k].browserDownloadUrl
  {
    if assets == [] then ""
    else if EndsWith(assets[0].name, PackageExtension) then assets[0].browserDownloadUrl
    else
      var r := DownloadUrl(assets[1..]);
      assert forall i :: 1 <= i < |assets| ==> assets[i] == assets[1..][i - 1];
      r
  }

  // ---------------------------------------------------------------- the fetch

  /** `format_date`: an empty date reads `N/A`; one the formatter cannot parse is kept. */
  function FormatDate(date: string, format: string -> Option<string>): string
  {
    if date == "" then "N/A"
    else match format(date)
      case Some(formatted) => formatted
      case None => date
  }

  const EmptyRelease := ReleaseData(None, None, None, None)
  const EmptyUser := UserData(None, None, None)

  function GetRepoInfo(url: string, env: Env): (r: Option<RepoInfo>)
  {
    match ParseRepoUrl(url)
    case None => None
    case Some(ref) =>
      if ref !in env.github.repos then None
      else
        var data := env.github.repos[ref];
        var release := if ref in env.github.releases then env.github.releases[ref] else EmptyRelease;
        var user := if ref.owner in env.github.users then env.github.users[ref.owner] else EmptyUser;
        var allTopics := if ref in env.github.topics then env.github.topics[ref] else [];
        Some(RepoInfo(
          name := data.name.GetOr(ref.name),
          description := data.description.GetOr(""),
          stars := data.stargazersCount.GetOr(0),
          topics := FilterTopics(allTopics, env.allowedTags),
          allTopics := allTopics,
          forks := data.forksCount.GetOr(0),
          watchers := data.watchersCount.GetOr(0),
          language := data.language.GetOr(""),
          openIssues := data.openIssuesCount.GetOr(0),
          createdAt := FormatDate(data.createdAt.GetOr(""), env.formatDate),
          updatedAt := FormatDate(data.updatedAt.GetOr(""), env.formatDate),
          githubUrl := url,
          owner := Owner(
            login := ref.owner,
            avatarUrl := user.avatarUrl.GetOr(data.ownerAvatarUrl.GetOr("")),
            name := user.name.GetOr(""),
            bio := user.bio.GetOr(""),
            status := DeveloperStatus(ref.owner)),
          release := Release(
            version := release.tagName.GetOr(""),
            publishedAt := FormatDate(release.publishedAt.GetOr(""), env.formatDate),
            downloadUrl := DownloadUrl(release.assets.GetOr([])),
            body := release.body.GetOr(""))))
  }

  /** What a repository fetch promises: it resolves exactly when the URL parses and
      GitHub answers for that repository; the result keeps the URL verbatim, names
      the URL's owner segment as owner, and degrades a missing release, profile or
      topic list to empty values instead of failing. */
  lemma {:induction false} RepoInfoContract(url: string, env: Env)
    ensures GetRepoInfo(url, env).Some? <==>
              ParseRepoUrl(url).Some? && ParseRepoUrl(url).value in env.github.repos
    ensures GetRepoInfo(url, env).Some? ==>
              var info := GetRepoInfo(url, env).value;
              var ref := ParseRepoUrl(url).value;
              info.githubUrl == url &&
              info.owner.login == ref.owner &&
              info.owner.status == DeveloperStatus(ref.owner) &&
              (ref !in env.github.releases ==> info.release == Release("", "N/A", "", "")) &&
              (ref.owner !in env.github.users ==>
                 info.owner.name == "" && info.owner.bio == "" &&
                 info.owner.avatarUrl == env.github.repos[ref].ownerAvatarUrl.GetOr("")) &&
              (ref !in env.github.topics ==> info.topics == [] && info.allTopics == []) &&
              (forall t :: t in info.topics ==> t in env.allowedTags || info.topics == ["other"])
  {
    match ParseRepoUrl(url)
    case None =>
    case Some(ref) =>
      if ref in env.github.repos {
        var info := GetRepoInfo(url, env).value;
        var allTopics := info.allTopics;
        if exists t :: t in allTopics && t in env.allowedTags {
          forall t | t in info.topics ensures t in env.allowedTags {
            assert multiset(info.topics)[t] > 0;
          }
        }
      }
  }

  // ---------------------------------------------------------------- user repositories

  /** One entry of the list `get_user_repos` returns. */
  datatype RepoListing = RepoListing(
    name: string, description: string, htmlUrl: string, stars: int, language: string, ownerLogin: string)

  function Stars(r: RepoListing): int
  {
    r.stars
  }

  function Concat<T>(lists: seq<seq<T>>): seq<T>
  {
    if lists == [] then [] else lists[0] + Concat(lists[1..])
  }

  /** `get_user_repos`: refused without a session carrying an access token; otherwise
      the user's repositories followed by those of each organisation, in that order,
      sorted by stars from most to fewest, stably. */
  function UserRepos(session: Option<User>, own: seq<RepoListing>, orgRepos: seq<seq<RepoListing>>): (r: Option<seq<RepoListing>>)
    ensures r.None? <==> session.None? || session.value.accessToken.None?
    ensures r.Some? ==> multiset(r.value) == multiset(own + Concat(orgRepos)) && NonIncreasing(r.value, Stars)
  {
    if session.None? || session.value.accessToken.None? then None
    else Some(SortDesc(own + Concat(orgRepos), Stars))
  }

  /** Repositories with the same number of stars keep the order in which they were fetched. */
  lemma {:induction false} UserReposStable(user: User, own: seq<RepoListing>, orgRepos: seq<seq<RepoListing>>, stars: int)
    requires user.accessToken.Some?
    ensures WithKey(UserRepos(Some(user), own, orgRepos).value, Stars, stars) == WithKey(own + Concat(orgRepos), Stars, stars)
  {
    SortDescStable(own + Concat(orgRepos), Stars, stars);
  }
}
