/** How the service reads `<owner>/<repo>` out of a repository URL. The same parsing
    is written out twice in app/main.py, in `get_github_repo_info` and in
    `check_repo_ownership`, and a looser copy in `package_details` drops the check
    that the repository segment is non-empty. */
module GitHubUrl {
  import opened Wrappers
  import opened Seqs
  import opened Text

  datatype RepoRef = RepoRef(owner: string, name: string)

  const Host: string := "github.com"

  /** `repo_url.strip("/").split("/")`. */
  function Segments(url: string): seq<string>
  {
    Split(Strip(url, '/'), '/')
  }

  /** The first `github.com` segment of `parts` is the one at `g`. */
  predicate FirstHostAt(parts: seq<string>, g: int)
  {
    0 <= g < |parts| && parts[g] == Host && Host !in parts[..g]
  }

  /** The parser of `get_github_repo_info` and `check_repo_ownership`: the two segments
      after the first `github.com` segment. It fails when there is no such segment,
      when nothing or only one segment follows it, or when the repository segment is
      empty; an empty owner segment is accepted. */
  function ParseRepoUrl(url: string): (r: Option<RepoRef>)
    ensures Host !in Segments(url) ==> r == None
    ensures forall g :: FirstHostAt(Segments(url), g) ==>
              var parts := Segments(url);
              r == if g + 2 < |parts| && parts[g + 2] != "" then Some(RepoRef(parts[g + 1], parts[g + 2])) else None
  {
    var parts := Segments(url);
    var g := IndexOf(parts, Host);
    if g == |parts| then None
    else if g + 1 >= |parts| then None
    else if g + 2 >= |parts| then None
    else if parts[g + 2] == "" then None
    else Some(RepoRef(parts[g + 1], parts[g + 2]))
  }

  /** The parser of `package_details`, used only to find where to read reviews: it
      asks for two segments after `github.com` and nothing more. */
  function ParseRepoUrlLoose(url: string): Option<RepoRef>
  {
    var parts := Segments(url);
    var g := IndexOf(parts, Host);
    if g < |parts| && g + 1 < |parts| - 1 then Some(RepoRef(parts[g + 1], parts[g + 2]))
    else None
  }

  /** The two parsers differ exactly on URLs whose repository segment is empty: the
      loose one returns them, the strict one refuses them. */
  lemma {:induction false} LooseParserAcceptsEmptyName(url: string)
    ensures ParseRepoUrl(url) ==
            match ParseRepoUrlLoose(url)
            case Some(ref) => if ref.name == "" then None else Some(ref)
            case None => None
  {
  }

  /** Joining separator-free pieces starts with the first piece and ends with the last. */
  lemma {:induction false} JoinEnds(parts: seq<string>)
    requires |parts| >= 1
    ensures parts[0] != "" ==> Join(parts, '/') != [] && Join(parts, '/')[0] == parts[0][0]
    ensures var last := parts[|parts| - 1];
            last != "" ==> Join(parts, '/') != [] && Join(parts, '/')[|Join(parts, '/')| - 1] == last[|last| - 1]
  {
    if |parts| > 1 {
      JoinEnds(parts[1..]);
    }
  }

  /** A URL joined from separator-free segments, the first and last non-empty, is
      split back into those segments. */
  lemma {:induction false} SegmentsOfJoin(parts: seq<string>)
    requires |parts| >= 1
    requires forall i :: 0 <= i < |parts| ==> '/' !in parts[i]
    requires parts[0] != "" && parts[|parts| - 1] != ""
    ensures Segments(Join(parts, '/')) == parts
  {
    JoinEnds(parts);
    StripUntouched(Join(parts, '/'), '/');
    SplitJoin(parts, '/');
  }

  /** Round trip: a URL built from separator-free segments around
      `github.com/<owner>/<repo>` parses back to that owner and repository, whatever
      the segments before (other than `github.com`) and after. */
  lemma {:induction false} ParseWellFormed(pre: seq<string>, owner: string, repo: string, post: seq<string>)
    requires forall i :: 0 <= i < |pre| ==> '/' !in pre[i] && pre[i] != Host
    requires forall i :: 0 <= i < |post| ==> '/' !in post[i]
    requires '/' !in owner && '/' !in repo && repo != ""
    requires pre == [] || pre[0] != ""
    requires post == [] || post[|post| - 1] != ""
    ensures ParseRepoUrl(Join(pre + [Host, owner, repo] + post, '/')) == Some(RepoRef(owner, repo))
  {
    var parts := pre + [Host, owner, repo] + post;
    var url := Join(parts, '/');
    WellFormedSegments(pre, owner, repo, post);
    assert Segments(url) == parts;
    assert parts[..|pre|] == pre;
    assert parts[|pre|] == Host && parts[|pre| + 1] == owner && parts[|pre| + 2] == repo;
    assert FirstHostAt(Segments(url), |pre|);
  }

  lemma {:induction false} WellFormedSegments(pre: seq<string>, owner: string, repo: string, post: seq<string>)
    requires forall i :: 0 <= i < |pre| ==> '/' !in pre[i]
    requires forall i :: 0 <= i < |post| ==> '/' !in post[i]
    requires '/' !in owner && '/' !in repo && repo != ""
    requires pre == [] || pre[0] != ""
    requires post == [] || post[|post| - 1] != ""
    ensures Segments(Join(pre + [Host, owner, repo] + post, '/')) == pre + [Host, owner, repo] + post
  {
    var parts := pre + [Host, owner, repo] + post;
    forall i | 0 <= i < |parts| ensures '/' !in parts[i] {
      if i < |pre| { assert parts[i] == pre[i]; }
      else if i >= |pre| + 3 { assert parts[i] == post[i - |pre| - 3]; }
    }
    assert parts[0] != "" by {
      if pre != [] { assert parts[0] == pre[0]; }
    }
    assert parts[|parts| - 1] != "" by {
      if post != [] { assert parts[|parts| - 1] == post[|post| - 1]; }
    }
    SegmentsOfJoin(parts);
  }

  /** The usual form of a repository link. */
  lemma {:induction false} ParseHttpsUrl(owner: string, repo: string)
    requires '/' !in owner && '/' !in repo && repo != ""
    ensures ParseRepoUrl("https://" + Host + "/" + owner + "/" + repo) == Some(RepoRef(owner, repo))
  {
    var parts := ["https:", ""] + [Host, owner, repo] + [];
    assert Join(parts, '/') == "https://" + Host + "/" + owner + "/" + repo by {
      assert Join(parts[4..], '/') == repo;
      assert Join(parts[3..], '/') == owner + "/" + repo;
      assert Join(parts[2..], '/') == Host + "/" + owner + "/" + repo;
      assert Join(parts[1..], '/') == "/" + Host + "/" + owner + "/" + repo;
    }
    ParseWellFormed(["https:", ""], owner, repo, []);
  }

  /** The quirk of checking only the repository segment: `github.com//<repo>` yields
      an empty owner. */
  lemma {:induction false} EmptyOwnerAccepted(repo: string)
    requires '/' !in repo && repo != ""
    ensures ParseRepoUrl(Host + "//" + repo) == Some(RepoRef("", repo))
  {
    var parts := [] + [Host, "", repo] + [];
    assert Join(parts, '/') == Host + "//" + repo by {
      assert Join(parts[2..], '/') == repo;
      assert Join(parts[1..], '/') == "/" + repo;
    }
    ParseWellFormed([], "", repo, []);
  }

  lemma {:induction false} LeadingAppend(s: string, c: char, x: char)
    requires Leading(s, c) < |s|
    ensures Leading(s + [x], c) == Leading(s, c)
  {
    if s[0] != c {
      assert (s + [x])[0] == s[0];
    } else {
      assert (s + [x])[1..] == s[1..] + [x];
      LeadingAppend(s[1..], c, x);
    }
  }

  /** `strip` removes a trailing separator, so a URL parses the same with or without one. */
  lemma {:induction false} ParseIgnoresTrailingSlash(url: string)
    ensures ParseRepoUrl(url + "/") == ParseRepoUrl(url)
  {
    var s := url + "/";
    if Leading(url, '/') == |url| {
      assert forall i :: 0 <= i < |s| ==> s[i] == '/';
      assert Leading(s, '/') == |s|;
      assert Strip(s, '/') == [] == Strip(url, '/');
    } else {
      LeadingAppend(url, '/', '/');
      var tail := url[Leading(url, '/')..];
      assert s[Leading(s, '/')..] == tail + "/";
      assert (tail + "/")[..|tail|] == tail;
      assert Trailing(tail + "/", '/') == Trailing(tail, '/') + 1;
      assert Strip(s, '/') == Strip(url, '/');
    }
  }
}
