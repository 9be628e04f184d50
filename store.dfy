/** The request handlers that read and write the package catalog. The catalog is
    the `packages.json` document (`file`); a handler loads it as fresh mutable
    objects, changes them, and writes the whole list back. */
module PackageStore {
  import opened Wrappers
  import opened Seqs
  import opened GitHubUrl
  import opened Ownership
  import opened GitHubClient
  import opened Catalog
  import opened Tags
  import opened PackageRecord

  const LoginPage: string := "/login/github"
  const NotYoursError: string := "You can only add repositories that belong to you or your organizations"
  const InvalidRepositoryError: string := "Invalid GitHub repository"

  /** What a handler answers. `RedirectResponse` defaults to status 307. */
  datatype Response =
    | Redirect(location: string, status: nat)
    | HttpError(status: nat, detail: string)
    | AddForm(error: string)
    | PackagePage(package: Record, packageId: nat, starsPercent: nat, reviewsFrom: Option<RepoRef>)

  /** The number of positions at which `after` differs from `before`. */
  function Differences(before: seq<Record>, after: seq<Record>): (n: nat)
    requires |before| == |after|
    ensures n <= |before|
  {
    if before == [] then 0
    else
      var k := |before| - 1;
      Differences(before[..k], after[..k]) + if before[k] != after[k] then 1 else 0
  }

  /** A record that changed is counted. */
  lemma {:induction false} DifferencesSeeChange(before: seq<Record>, after: seq<Record>, i: nat)
    requires |before| == |after| && i < |before| && before[i] != after[i]
    ensures Differences(before, after) >= 1
  {
    var k := |before| - 1;
    if i < k {
      assert before[..k][i] == before[i] && after[..k][i] == after[i];
      DifferencesSeeChange(before[..k], after[..k], i);
    }
  }

  lemma {:induction false} DifferencesSnoc(before: seq<Record>, after: seq<Record>, i: nat)
    requires |before| == |after| && i < |before|
    ensures Differences(before[..i + 1], after[..i + 1]) ==
            Differences(before[..i], after[..i]) + if before[i] != after[i] then 1 else 0
  {
    assert before[..i + 1][..i] == before[..i] && after[..i + 1][..i] == after[..i];
  }

  /** Unchanged lists have no differences. */
  lemma {:induction false} NoDifferences(records: seq<Record>)
    ensures Differences(records, records) == 0
  {
    if records != [] {
      NoDifferences(records[..|records| - 1]);
    }
  }

  /** A catalog entry whose repository GitHub reports with a star count other than
      the stored one is changed by an update-all run, so a count of updated packages
      should be at least 1. */
  lemma {:induction false} RefreshChangesStaleRecord(rec: Record, ref: RepoRef, data: RepoData, env: Env)
    requires ParseRepoUrl(rec.githubUrl) == Some(ref)
    requires env.github.repos == map[ref := data]
    requires data.stargazersCount == Some(rec.stars + 1)
    ensures Refreshed(rec, env).stars == rec.stars + 1
    ensures Differences([rec], RefreshAll([rec], env)) == 1
  {
    assert rec.githubUrl != "";
    assert GetRepoInfo(rec.githubUrl, env).Some?;
    var info := GetRepoInfo(rec.githubUrl, env).value;
    assert info.stars == rec.stars + 1;
    assert Refreshed(rec, env) == Merge(rec, info);
    var after := RefreshAll([rec], env);
    assert after[0] != rec;
    DifferencesSeeChange([rec], after, 0);
  }

  /** `packages[i] = update_package_from_github(packages[i])`: the entry is refreshed
      in place and written back to its slot. */
  method RefreshInPlace(packages: array<Package>, i: nat, env: Env) returns (refreshed: Record)
    requires i < packages.Length && Distinct(packages)
    modifies packages, packages[i]
    ensures refreshed == Refreshed(old(packages[i].Value()), env)
    ensures Values(packages) == old(Values(packages))[i := refreshed]
  {
    ghost var before := Values(packages);
    var updated := packages[i].RefreshFromGitHub(env);
    assert forall k :: 0 <= k < packages.Length && k != i ==> packages[k].Value() == before[k];
    packages[i] := updated;
    refreshed := updated.Value();
    assert Values(packages) == before[i := refreshed];
  }

  /** `updated_package = update_package_from_github(package)` for record `i`. */
  method RefreshStep(packages: array<Package>, i: nat, env: Env, ghost records: seq<Record>, ghost target: seq<Record>)
    returns (updated: Package)
    requires i < packages.Length == |records| == |target| && Distinct(packages)
    requires forall k :: 0 <= k < i ==> packages[k].Value() == target[k]
    requires forall k :: i <= k < packages.Length ==> packages[k].Value() == records[k]
    requires target[i] == Refreshed(records[i], env)
    modifies packages[i]
    ensures updated == packages[i]
    ensures forall k :: 0 <= k < i + 1 ==> packages[k].Value() == target[k]
    ensures forall k :: i + 1 <= k < packages.Length ==> packages[k].Value() == records[k]
  {
    ghost var before := packages[i].Value();
    updated := packages[i].RefreshFromGitHub(env);
    assert updated.Value() == Refreshed(before, env) == target[i];
    assert forall k :: 0 <= k < i ==> packages[k].Value() == target[k];
  }

  /** The state of the `my_packages` loop after the first `i` records: the loaded
      objects still hold the stored records, and `list` holds, in order, those of
      the first `i` that `login` may update, each annotated with its index. */
  predicate Listed(packages: array<Package>, file: seq<Record>, login: string, i: nat,
                   list: seq<Package>, owned: seq<nat>)
    reads packages, packages[..]
  {
    i <= packages.Length == |file| && Distinct(packages) &&
    (forall k :: 0 <= k < packages.Length ==> packages[k].Value() == file[k]) &&
    owned == OwnedIndices(file[..i], login) &&
    |list| == |owned| &&
    forall k :: 0 <= k < |owned| ==>
      owned[k] < i && list[k] == packages[owned[k]] && list[k].index == Some(owned[k])
  }

  /** One step of the `my_packages` loop: record `i` is annotated and listed when
      `login` is its owner or submitter. */
  method ListIfOwned(packages: array<Package>, file: seq<Record>, login: string, i: nat,
                     list: seq<Package>, ghost owned: seq<nat>)
    returns (list': seq<Package>, ghost owned': seq<nat>)
    requires i < packages.Length
    requires Listed(packages, file, login, i, list, owned)
    modifies (packages[i] as Package)`index
    ensures Listed(packages, file, login, i + 1, list', owned')
  {
    var package := packages[i];
    OwnedIndicesSnoc(file, i, login);
    list', owned' := list, owned;
    if (package.owner.Some? && package.owner.value.login == login) || package.submittedBy == Some(login) {
      package.Annotate(i);
      list' := list + [package];
      owned' := owned + [i];
    }
  }

  class Store {
    /** The contents of `packages.json`. */
    var file: seq<Record>

    constructor (records: seq<Record>)
      ensures file == records
    {
      file := records;
    }

    /** `load_packages`: one fresh object per stored record. */
    method Load() returns (packages: array<Package>)
      ensures fresh(packages) && packages.Length == |file| && Distinct(packages)
      ensures forall i :: 0 <= i < packages.Length ==> fresh(packages[i]) && packages[i].index == None
      ensures Values(packages) == file
    {
      var list: seq<Package> := [];
      while |list| < |file|
        invariant |list| <= |file|
        invariant forall k :: 0 <= k < |list| ==>
                    fresh(list[k]) && list[k].Value() == file[k] && list[k].index == None
        invariant forall k, l :: 0 <= k < l < |list| ==> list[k] != list[l]
      {
        var package := new Package.FromRecord(file[|list|]);
        list := list + [package];
      }
      packages := new Package[|list|](k requires 0 <= k < |list| => list[k]);
      assert Values(packages) == file;
    }

    /** `save_packages`: the whole list replaces the document. */
    method Save(packages: array<Package>)
      modifies this
      ensures file == Values(packages)
    {
      file := Values(packages);
    }

    /** `packages[i] = update_package_from_github(packages[i])` followed by
        `save_packages(packages)`. */
    method RefreshAndSave(packages: array<Package>, i: nat, env: Env) returns (refreshed: Record)
      requires i < packages.Length && Distinct(packages)
      modifies this, packages, packages[i]
      ensures refreshed == Refreshed(old(packages[i].Value()), env)
      ensures file == old(Values(packages))[i := refreshed]
    {
      refreshed := RefreshInPlace(packages, i, env);
      Save(packages);
    }

    /** `packages.append(new_package)` between a load and a save. */
    method Append(record: Record)
      modifies this
      ensures file == old(file) + [record]
    {
      var packages := Load();
      var newPackage := new Package.FromRecord(record);
      var extended := new Package[packages.Length + 1](k reads packages requires 0 <= k <= packages.Length =>
                                                         if k < packages.Length then packages[k] else newPackage);
      assert Values(extended) == file + [record] by {
        assert forall k :: 0 <= k < packages.Length ==> Values(extended)[k] == Values(packages)[k];
      }
      Save(extended);
    }

    /** `update_package`: sign-in, index and permission guards, then one record
        refreshed and the catalog saved. */
    method UpdatePackage(packageId: int, session: Option<User>, env: Env) returns (resp: Response)
      modifies this
      ensures session.None? ==> resp == Redirect(LoginPage, 307) && file == old(file)
      ensures session.Some? && !(0 <= packageId < |old(file)|) ==>
                resp == HttpError(404, "Package not found") && file == old(file)
      ensures session.Some? && 0 <= packageId < |old(file)| && !MayUpdate(old(file)[packageId], session.value.login) ==>
                resp == HttpError(403, "You don't have permission to update this package") && file == old(file)
      ensures session.Some? && 0 <= packageId < |old(file)| && MayUpdate(old(file)[packageId], session.value.login) ==>
                resp == Redirect("/my-packages", 307) &&
                file == old(file)[packageId := Refreshed(old(file)[packageId], env)]
    {
      if session.None? {
        return Redirect(LoginPage, 307);
      }
      var login := session.value.login;
      var packages := Load();
      if packageId < 0 || packageId >= packages.Length {
        return HttpError(404, "Package not found");
      }
      var package := packages[packageId];
      assert package.Value() == file[packageId];
      if (package.owner.None? || package.owner.value.login != login) && package.submittedBy != Some(login) {
        return HttpError(403, "You don't have permission to update this package");
      }
      var _ := RefreshAndSave(packages, packageId, env);
      return Redirect("/my-packages", 307);
    }

    /** `update_all_packages` as written: every record is refreshed in index order and
        saved once, and the reported count is 0. The refresh returns the object it was
        given, so `updated_package != package` compares a dictionary with itself and
        the branch that counts never runs. The source's `if` is written here as two
        conditional expressions, and Python's `!=` on dictionaries (a comparison of
        contents) as `!=` on references; the two agree only because both sides are
        the same object, which `RefreshStep` guarantees. */
    method UpdateAllPackages(env: Env) returns (updatedCount: nat)
      modifies this
      ensures file == RefreshAll(old(file), env)
      ensures updatedCount == 0
    {
      ghost var records, target := file, RefreshAll(file, env);
      var packages := Load();
      ghost var loaded := packages[..];
      updatedCount := 0;
      var i := 0;
      while i < packages.Length
        modifies packages, loaded
        invariant packages[..] == loaded
        invariant i <= packages.Length == |records| == |target| && Distinct(packages)
        invariant forall k :: 0 <= k < i ==> packages[k].Value() == target[k]
        invariant forall k :: i <= k < packages.Length ==> packages[k].Value() == records[k]
        invariant updatedCount == 0
      {
        var package := packages[i];
        var updated := RefreshStep(packages, i, env, records, target);
        updatedCount := updatedCount + if updated != package then 1 else 0;
        packages[i] := if updated != package then updated else packages[i];
        i := i + 1;
      }
      assert Values(packages) == target;
      Save(packages);
    }

    /** `update_all_packages` as evidently intended: the count is the number of
        records the refresh changed. */
    method UpdateAllPackagesCounted(env: Env) returns (updatedCount: nat)
      modifies this
      ensures file == RefreshAll(old(file), env)
      ensures updatedCount == Differences(old(file), file)
    {
      ghost var records, target := file, RefreshAll(file, env);
      var packages := Load();
      ghost var loaded := packages[..];
      updatedCount := 0;
      var i := 0;
      while i < packages.Length
        modifies loaded
        invariant packages[..] == loaded
        invariant i <= packages.Length == |records| == |target| && Distinct(packages)
        invariant forall k :: 0 <= k < i ==> packages[k].Value() == target[k]
        invariant forall k :: i <= k < packages.Length ==> packages[k].Value() == records[k]
        invariant updatedCount == Differences(records[..i], target[..i])
      {
        assert packages[i] in loaded;
        var before := packages[i].Value();
        var updated := RefreshStep(packages, i, env, records, target);
        if updated.Value() != before {
          updatedCount := updatedCount + 1;
        }
        DifferencesSnoc(records, target, i);
        i := i + 1;
      }
      assert records[..i] == records && target[..i] == target;
      assert Values(packages) == target;
      Save(packages);
    }

    /** `my_packages`: the user's records in catalog order, each annotated with its
        index; nothing is written back. `None` is the redirect to sign-in. */
    method MyPackages(session: Option<User>) returns (userPackages: Option<seq<Package>>)
      ensures session.None? <==> userPackages.None?
      ensures session.Some? ==>
                var owned := OwnedIndices(file, session.value.login);
                |userPackages.value| == |owned| &&
                forall k :: 0 <= k < |owned| ==>
                  userPackages.value[k].Value() == file[owned[k]] &&
                  userPackages.value[k].index == Some(owned[k])
    {
      if session.None? {
        return None;
      }
      var login := session.value.login;
      var packages := Load();
      ghost var loaded := packages[..];
      ghost var owned: seq<nat> := [];
      var list: seq<Package> := [];
      var i := 0;
      while i < packages.Length
        modifies loaded`index
        invariant i <= packages.Length
        invariant Listed(packages, file, login, i, list, owned)
      {
        list, owned := ListIfOwned(packages, file, login, i, list, owned);
        i := i + 1;
      }
      assert file[..i] == file;
      return Some(list);
    }

    /** `package_details`: the record is refreshed and saved before it is shown. */
    method PackageDetails(packageId: int, env: Env) returns (resp: Response)
      modifies this
      ensures !(0 <= packageId < |old(file)|) ==> resp == HttpError(404, "Package not found") && file == old(file)
      ensures 0 <= packageId < |old(file)| ==>
                var package := Refreshed(old(file)[packageId], env);
                file == old(file)[packageId := package] &&
                resp == PackagePage(package, packageId, StarsPercent(package.stars),
                                    if package.githubUrl != "" then ParseRepoUrlLoose(package.githubUrl) else None)
    {
      var packages := Load();
      if packageId < 0 || packageId >= packages.Length {
        return HttpError(404, "Package not found");
      }
      var package := RefreshAndSave(packages, packageId, env);
      var reviewsFrom := if package.githubUrl != "" then ParseRepoUrlLoose(package.githubUrl) else None;
      return PackagePage(package, packageId, StarsPercent(package.stars), reviewsFrom);
    }

    /** `add_package`: sign-in, ownership and fetch guards, then one record appended. */
    method AddPackage(githubUrl: string, session: Option<User>, orgLogins: seq<string>, env: Env) returns (resp: Response)
      modifies this
      ensures session.None? ==> resp == Redirect(LoginPage, 307) && file == old(file)
      ensures session.Some? && !IsRepoOwner(githubUrl, session, orgLogins) ==>
                resp == AddForm(NotYoursError) && file == old(file)
      ensures session.Some? && IsRepoOwner(githubUrl, session, orgLogins) && GetRepoInfo(githubUrl, env).None? ==>
                resp == AddForm(InvalidRepositoryError) && file == old(file)
      ensures session.Some? && IsRepoOwner(githubUrl, session, orgLogins) && GetRepoInfo(githubUrl, env).Some? ==>
                resp == Redirect("/", 303) &&
                file == old(file) + [NewRecord(githubUrl, GetRepoInfo(githubUrl, env).value, session.value.login)]
    {
      if session.None? {
        return Redirect(LoginPage, 307);
      }
      if !IsRepoOwner(githubUrl, session, orgLogins) {
        return AddForm(NotYoursError);
      }
      var info := GetRepoInfo(githubUrl, env);
      if info.None? {
        return AddForm(InvalidRepositoryError);
      }
      Append(NewRecord(githubUrl, info.value, session.value.login));
      return Redirect("/", 303);
    }

    /** `categories`: the tag counts of the whole catalog, most used first. */
    method Categories() returns (tags: seq<TagCount>)
      ensures tags == SortedTags(file)
    {
      var stats := CountTags(file);
      tags := SortDesc(stats, Count);
    }
  }
}
