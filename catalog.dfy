/** The catalog's package records as values (one entry of `packages.json`) and the
    rules the request handlers apply to them: the refresh merge of
    `update_package_from_github`, the record `add_package` builds, the update
    permission, the search of the home page and the star bar of the details page. */
module Catalog {
  import opened Wrappers
  import opened Seqs
  import opened Text
  import opened GitHubUrl
  import opened GitHubClient

  /** One package record. A key the record may lack is an `Option` where the code
      tells absence apart (`package.get("owner", {}).get("login")`,
      `package.get("submitted_by")`); where it does not (`github_url`, `topics`,
      `description` are only tested for truthiness or read with an empty default),
      the empty value stands for the missing key. */
  datatype Record = Record(
    name: string,
    description: string,
    githubUrl: string,
    stars: nat,
    forks: nat,
    watchers: nat,
    language: string,
    openIssues: nat,
    createdAt: string,
    updatedAt: string,
    owner: Option<Owner>,
    version: string,
    downloadUrl: string,
    publishedAt: string,
    releaseNotes: string,
    topics: seq<string>,
    submittedBy: Option<string>)

  /** The fields the catalog owns and a refresh must not touch. */
  datatype LocalFields = LocalFields(
    name: string, description: string, githubUrl: string, topics: seq<string>, submittedBy: Option<string>)

  function Local(r: Record): LocalFields
  {
    LocalFields(r.name, r.description, r.githubUrl, r.topics, r.submittedBy)
  }

  predicate SameLocalFields(a: Record, b: Record)
  {
    Local(a) == Local(b)
  }

  /** Overwrites the GitHub-derived fields with a fetch result. The release fields
      are always present in a fetch result, so the fallbacks to the record's old
      values at app/main.py:151-154 never apply: a repository without a release
      gets an empty version, download link and notes. */
  function Merge(rec: Record, info: RepoInfo): Record
  {
    rec.(owner := Some(info.owner), stars := info.stars, forks := info.forks,
         watchers := info.watchers, language := info.language, openIssues := info.openIssues,
         createdAt := info.createdAt, updatedAt := info.updatedAt,
         version := info.release.version, downloadUrl := info.release.downloadUrl,
         publishedAt := info.release.publishedAt, releaseNotes := info.release.body)
  }

  /** The value a record has after `update_package_from_github`. */
  function Refreshed(rec: Record, env: Env): Record
  {
    if rec.githubUrl == "" then rec
    else match GetRepoInfo(rec.githubUrl, env)
      case None => rec
      case Some(info) => Merge(rec, info)
  }

  /** The refresh contract: without a URL, or when the fetch does not resolve, the
      record is unchanged; otherwise exactly the GitHub-derived fields take the
      fetched values, and the catalog's own fields are kept. */
  lemma {:induction false} RefreshContract(rec: Record, env: Env)
    ensures SameLocalFields(Refreshed(rec, env), rec)
    ensures rec.githubUrl == "" || GetRepoInfo(rec.githubUrl, env).None? ==> Refreshed(rec, env) == rec
    ensures rec.githubUrl != "" && GetRepoInfo(rec.githubUrl, env).Some? ==>
              var info := GetRepoInfo(rec.githubUrl, env).value;
              var r := Refreshed(rec, env);
              r.owner == Some(info.owner) && r.stars == info.stars && r.forks == info.forks &&
              r.watchers == info.watchers && r.language == info.language &&
              r.openIssues == info.openIssues && r.createdAt == info.createdAt &&
              r.updatedAt == info.updatedAt && r.version == info.release.version &&
              r.downloadUrl == info.release.downloadUrl && r.publishedAt == info.release.publishedAt &&
              r.releaseNotes == info.release.body
  {
  }

  /** The GitHub-derived fields reflect only the latest fetch: two records that agree
      on the catalog's fields are equal once refreshed, unless the fetch fails. */
  lemma {:induction false} RefreshForgetsOldValues(a: Record, b: Record, env: Env)
    requires SameLocalFields(a, b)
    requires a.githubUrl != "" && GetRepoInfo(a.githubUrl, env).Some?
    ensures Refreshed(a, env) == Refreshed(b, env)
  {
  }

  /** Refreshing twice against the same upstream answers is refreshing once. */
  lemma {:induction false} RefreshIdempotent(rec: Record, env: Env)
    ensures Refreshed(Refreshed(rec, env), env) == Refreshed(rec, env)
  {
  }

  /** `envs` applied in order, one refresh per upstream snapshot. */
  function RefreshCycles(rec: Record, envs: seq<Env>): Record
    decreases |envs|
  {
    if envs == [] then rec else Refreshed(RefreshCycles(rec, envs[..|envs| - 1]), envs[|envs| - 1])
  }

  /** Any number of refreshes keeps the catalog's own fields, `submitted_by` among them. */
  lemma {:induction false} RefreshCyclesKeepLocalFields(rec: Record, envs: seq<Env>)
    ensures SameLocalFields(RefreshCycles(rec, envs), rec)
  {
    if envs != [] {
      var before := RefreshCycles(rec, envs[..|envs| - 1]);
      RefreshCyclesKeepLocalFields(rec, envs[..|envs| - 1]);
      RefreshContract(before, envs[|envs| - 1]);
    }
  }

  /** `update_all_packages` on values: every record refreshed, in place. */
  function RefreshAll(records: seq<Record>, env: Env): (r: seq<Record>)
    ensures |r| == |records|
    ensures forall i :: 0 <= i < |records| ==> r[i] == Refreshed(records[i], env)
  {
    seq(|records|, i requires 0 <= i < |records| => Refreshed(records[i], env))
  }

  /** The record `add_package` stores: the fetched fields, the submitted URL verbatim,
      the submitter's login, and no `topics` key. */
  function NewRecord(githubUrl: string, info: RepoInfo, login: string): Record
  {
    Record(
      name := info.name, description := info.description, githubUrl := githubUrl,
      stars := info.stars, forks := info.forks, watchers := info.watchers,
      language := info.language, openIssues := info.openIssues,
      createdAt := info.createdAt, updatedAt := info.updatedAt, owner := Some(info.owner),
      version := info.release.version, downloadUrl := info.release.downloadUrl,
      publishedAt := info.release.publishedAt, releaseNotes := info.release.body,
      topics := [], submittedBy := Some(login))
  }

  /** A record just added is already up to date: refreshing it against the answers
      it was built from changes nothing. */
  lemma {:induction false} NewRecordIsFresh(githubUrl: string, env: Env, login: string)
    requires GetRepoInfo(githubUrl, env).Some?
    ensures var rec := NewRecord(githubUrl, GetRepoInfo(githubUrl, env).value, login);
            rec.submittedBy == Some(login) && rec.githubUrl == githubUrl &&
            Refreshed(rec, env) == rec
  {
    RepoInfoContract(githubUrl, env);
  }

  // ---------------------------------------------------------------- permission

  /** `update_package` and `my_packages`: the record's owner login or its submitter
      is the user's login, compared exactly. */
  predicate MayUpdate(rec: Record, login: string)
  {
    (rec.owner.Some? && rec.owner.value.login == login) || rec.submittedBy == Some(login)
  }

  /** The indices `my_packages` lists for `login`, in store order. */
  function OwnedIndices(records: seq<Record>, login: string): (r: seq<nat>)
    ensures forall k :: 0 <= k < |r| ==> r[k] < |records| && MayUpdate(records[r[k]], login)
    ensures forall k, l :: 0 <= k < l < |r| ==> r[k] < r[l]
    ensures forall i :: 0 <= i < |records| && MayUpdate(records[i], login) ==> i in r
  {
    if records == [] then []
    else
      var n := |records| - 1;
      var earlier := OwnedIndices(records[..n], login);
      if MayUpdate(records[n], login) then earlier + [n] else earlier
  }

  lemma OwnedIndicesSnoc(records: seq<Record>, i: nat, login: string)
    requires i < |records|
    ensures OwnedIndices(records[..i + 1], login) ==
            OwnedIndices(records[..i], login) + if MayUpdate(records[i], login) then [i] else []
  {
    assert records[..i + 1][..i] == records[..i];
  }

  // ---------------------------------------------------------------- search

  /** The home page condition: the query, lower-cased, occurs in the lower-cased name,
      or in a non-empty description. */
  predicate Matches(rec: Record, query: string)
  {
    Contains(Lower(rec.name), Lower(query)) ||
    (rec.description != "" && Contains(Lower(rec.description), Lower(query)))
  }

  /** The home page list: all records for a missing or empty query, otherwise the
      matching ones in store order. */
  function Search(records: seq<Record>, q: Option<string>): (r: seq<Record>)
    ensures q.None? || q.value == "" ==> r == records
    ensures q.Some? && q.value != "" ==>
              IsSubsequence(r, records) &&
              (forall i :: 0 <= i < |r| ==> Matches(r[i], q.value)) &&
              forall x :: multiset(r)[x] == if Matches(x, q.value) then multiset(records)[x] else 0
  {
    if q.None? || q.value == "" then records
    else
      FilterIsSubsequence(records, x => Matches(x, q.value));
      FilterCount(records, x => Matches(x, q.value));
      Filter(records, x => Matches(x, q.value))
  }

  /** A query that matches nothing gives an empty list, not an error. */
  lemma {:induction false} SearchNoMatch(records: seq<Record>, q: string)
    requires q != ""
    requires forall i :: 0 <= i < |records| ==> !Matches(records[i], q)
    ensures Search(records, Some(q)) == []
  {
  }

  /** The search ignores the case of the query. */
  lemma {:induction false} SearchIgnoresQueryCase(records: seq<Record>, q: string)
    ensures Search(records, Some(q)) == Search(records, Some(Lower(q)))
  {
    LowerIdempotent(q);
    FilterCongruent(records, x => Matches(x, q), x => Matches(x, Lower(q)));
  }

  // ---------------------------------------------------------------- details page

  /** `min(package.get("stars", 0), 100)`, the width of the star bar. */
  function StarsPercent(stars: nat): (r: nat)
    ensures r <= 100 && r <= stars
    ensures r == stars || r == 100
  {
    if stars < 100 then stars else 100
  }
}
