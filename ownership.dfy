/** `check_repo_ownership`: may the signed-in user claim the repository a URL points
    at? The list of the user's organisations, which the service fetches from
    `GET /user/orgs` when it needs it, is an input here. */
module Ownership {
  import opened Wrappers
  import opened Text
  import opened GitHubUrl

  /** The claims of the session cookie that the catalog reads. The cookie itself
      (a signed, expiring token) is not modelled: a missing, expired or forged cookie
      is simply no session (`None`). */
  datatype User = User(login: string, accessToken: Option<string>)

  /** The org loop: some organisation login equals `owner` up to ASCII case. */
  function AnyOrgMatches(orgLogins: seq<string>, owner: string): (r: bool)
    ensures r <==> exists i :: 0 <= i < |orgLogins| && EqualsIgnoreCase(orgLogins[i], owner)
  {
    if orgLogins == [] then false
    else if EqualsIgnoreCase(orgLogins[0], owner) then true
    else
      var r := AnyOrgMatches(orgLogins[1..], owner);
      assert forall i :: 1 <= i < |orgLogins| ==> orgLogins[i] == orgLogins[1..][i - 1];
      r
  }

  function IsRepoOwner(url: string, session: Option<User>, orgLogins: seq<string>): bool
  {
    if session.None? || session.value.accessToken.None? then false
    else match ParseRepoUrl(url)
      case None => false
      case Some(ref) =>
        if EqualsIgnoreCase(ref.owner, session.value.login) then true
        else AnyOrgMatches(orgLogins, ref.owner)
  }

  /** The decision in full: no session, no access token or an unparsable URL is
      refused; otherwise the URL's owner must be the user's login or one of the
      user's organisations, compared without regard to ASCII case. */
  lemma {:induction false} OwnershipDecision(url: string, session: Option<User>, orgLogins: seq<string>)
    ensures IsRepoOwner(url, session, orgLogins) <==>
              session.Some? && session.value.accessToken.Some? && ParseRepoUrl(url).Some? &&
              (EqualsIgnoreCase(ParseRepoUrl(url).value.owner, session.value.login) ||
               exists i :: 0 <= i < |orgLogins| && EqualsIgnoreCase(orgLogins[i], ParseRepoUrl(url).value.owner))
  {
  }

  /** A user who owns the repository personally is accepted whatever the organisation
      lookup returns. */
  lemma {:induction false} OwnerNeedsNoOrgs(url: string, user: User, orgs1: seq<string>, orgs2: seq<string>)
    requires user.accessToken.Some?
    requires ParseRepoUrl(url).Some? && EqualsIgnoreCase(ParseRepoUrl(url).value.owner, user.login)
    ensures IsRepoOwner(url, Some(user), orgs1) && IsRepoOwner(url, Some(user), orgs2)
  {
  }

  /** Case does not matter on the user's side either. */
  lemma {:induction false} OwnershipIgnoresLoginCase(url: string, user: User, orgLogins: seq<string>)
    ensures IsRepoOwner(url, Some(user), orgLogins) == IsRepoOwner(url, Some(user.(login := Lower(user.login))), orgLogins)
  {
    LowerIdempotent(user.login);
  }
}
