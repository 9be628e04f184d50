/** A package record as the handlers hold it: a mutable object (the dictionary
    `json.load` returns), updated field by field in place. */
module PackageRecord {
  import opened Wrappers
  import opened GitHubClient
  import opened Catalog

  class Package {
    var name: string
    var description: string
    var githubUrl: string
    var stars: nat
    var forks: nat
    var watchers: nat
    var language: string
    var openIssues: nat
    var createdAt: string
    var updatedAt: string
    var owner: Option<Owner>
    var version: string
    var downloadUrl: string
    var publishedAt: string
    var releaseNotes: string
    var topics: seq<string>
    var submittedBy: Option<string>
    /** The `index` key `my_packages` adds for its links; never saved. */
    var index: Option<nat>

    /** The record this object would be written back as: every field but `index`. */
    function Value(): Record
      reads this`name, this`description, this`githubUrl, this`stars, this`forks, this`watchers,
            this`language, this`openIssues, this`createdAt, this`updatedAt, this`owner,
            this`version, this`downloadUrl, this`publishedAt, this`releaseNotes, this`topics,
            this`submittedBy
    {
      Record(name, description, githubUrl, stars, forks, watchers, language, openIssues,
             createdAt, updatedAt, owner, version, downloadUrl, publishedAt, releaseNotes,
             topics, submittedBy)
    }

    /** One entry of `json.load`. */
    constructor FromRecord(r: Record)
      ensures Value() == r && index == None
    {
      name, description, githubUrl := r.name, r.description, r.githubUrl;
      stars, forks, watchers := r.stars, r.forks, r.watchers;
      language, openIssues := r.language, r.openIssues;
      createdAt, updatedAt, owner := r.createdAt, r.updatedAt, r.owner;
      version, downloadUrl := r.version, r.downloadUrl;
      publishedAt, releaseNotes := r.publishedAt, r.releaseNotes;
      topics, submittedBy := r.topics, r.submittedBy;
      index := None;
    }

    /** `package["index"] = i` in `my_packages`. */
    method Annotate(i: nat)
      modifies this`index
      ensures index == Some(i)
    {
      index := Some(i);
    }

    /** The first assignments of `update_package_from_github`: the repository's owner,
        counters, language and dates. */
    method MergeRepository(info: RepoInfo)
      modifies this`owner, this`stars, this`forks, this`watchers, this`language, this`openIssues,
               this`createdAt, this`updatedAt
      ensures owner == Some(info.owner) && stars == info.stars && forks == info.forks
      ensures watchers == info.watchers && language == info.language && openIssues == info.openIssues
      ensures createdAt == info.createdAt && updatedAt == info.updatedAt
    {
      owner, stars, forks, watchers := Some(info.owner), info.stars, info.forks, info.watchers;
      language, openIssues := info.language, info.openIssues;
      createdAt, updatedAt := info.createdAt, info.updatedAt;
    }

    /** The release assignments of `update_package_from_github`. Their fallbacks to
        the record's old values never apply, since a fetch result always carries all
        four release keys. */
    method MergeRelease(release: Release)
      modifies this`version, this`downloadUrl, this`publishedAt, this`releaseNotes
      ensures version == release.version && downloadUrl == release.downloadUrl
      ensures publishedAt == release.publishedAt && releaseNotes == release.body
    {
      version := release.version;
      downloadUrl := release.downloadUrl;
      publishedAt := release.publishedAt;
      releaseNotes := release.body;
    }

    /** All the assignments of `update_package_from_github` for a fetch result: the
        GitHub-derived fields take the fetched values, nothing else changes. */
    method MergeFetched(info: RepoInfo)
      modifies this
      ensures Value() == Merge(old(Value()), info)
      ensures index == old(index)
    {
      MergeRepository(info);
      MergeRelease(info.release);
    }

    /** `update_package_from_github`: overwrites the GitHub-derived fields in place and
        returns the very object it was given. */
    method RefreshFromGitHub(env: Env) returns (same: Package)
      modifies this
      ensures same == this
      ensures Value() == Refreshed(old(Value()), env)
      ensures index == old(index)
    {
      ghost var before := Value();
      if githubUrl == "" {
        return this;
      }
      var fetched := GetRepoInfo(githubUrl, env);
      if fetched.None? {
        return this;
      }
      assert Refreshed(before, env) == Merge(before, fetched.value);
      MergeFetched(fetched.value);
      return this;
    }
  }

  /** No object occurs twice in the array. */
  predicate Distinct(a: array<Package>)
    reads a
  {
    forall i, j :: 0 <= i < j < a.Length ==> a[i] != a[j]
  }

  /** The list `save_packages` writes. */
  function Values(a: array<Package>): (r: seq<Record>)
    reads a, a[..]
    ensures |r| == a.Length
    ensures forall i :: 0 <= i < a.Length ==> r[i] == a[i].Value()
  {
    seq(a.Length, i reads a, a[..] requires 0 <= i < a.Length => a[i].Value())
  }
}
