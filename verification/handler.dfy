/**
 * The catch-all request handler of the repository proxy (`app.all("*", ...)`
 * in src/index.ts), as two pure steps and their composition:
 *
 *  - `Decide` turns the request path and the `SOURCE_REPOS` setting into a
 *    decision: reject the path format (400), reject the repository (403), or
 *    fetch one raw.githubusercontent.com URL;
 *  - `Respond` turns what the upstream fetch did into the response sent back;
 *  - `Handle` runs `Decide` and, only for an upstream URL, calls the fetch it
 *    is given (the network is a parameter here) and passes the outcome to
 *    `Respond`.
 */
module Handler {
  import opened Text

  datatype Option<T> = None | Some(value: T)

  /** Prefix of the canonical repository URL used as the allowlist key. */
  const GitHubPrefix: string := "https://github.com/"
  /** Prefix of every upstream URL. */
  const RawPrefix: string := "https://raw.githubusercontent.com/"
  /** Fewest path segments the handler accepts (user/repo/refs/heads/branch). */
  const MinSegments: nat := 5

  const BadFormatMessage: string := "Invalid path format. Expected: /username/repo/refs/heads/branch/file-path"
  const ForbiddenMessage: string := "Repository not allowed"
  const UpstreamFailedMessage: string := "Failed to fetch file from repository"
  const FetchThrewMessage: string := "Failed to fetch repository data"
  const UnknownErrorDetails: string := "Unknown error"
  const NotConfiguredMessage: string := "No source repositories configured"
  const DefaultContentType: string := "text/plain"
  const CacheDirective: string := "public, max-age=300"

  /** What the handler decides before any network access. */
  datatype Outcome = BadFormat | Forbidden | Upstream(url: string) | NotConfigured

  /**
   * `https://github.com/<user>/<repo>`, the key looked up in the allowlist.
   * For a user and repository that are path segments, the part after the
   * prefix has exactly those two segments, so the key names one repository.
   */
  function RepoUrl(user: string, repo: string): (url: string)
    ensures |url| > |GitHubPrefix| && url[..|GitHubPrefix|] == GitHubPrefix
    ensures PathSegments([user, repo]) ==> Segments(url[|GitHubPrefix|..]) == [user, repo]
  {
    var tail := user + "/" + repo;
    SegmentsAppend(user, repo);
    SegmentsWithoutSlash(user);
    SegmentsWithoutSlash(repo);
    assert PathSegments([user, repo]) ==> user != "" && '/' !in user && repo != "" && '/' !in repo by {
      if PathSegments([user, repo]) {
        assert [user, repo][0] == user && [user, repo][1] == repo;
      }
    }
    assert (GitHubPrefix + tail)[|GitHubPrefix|..] == tail;
    GitHubPrefix + tail
  }

  /** Distinct repositories have distinct allowlist keys. */
  lemma RepoUrlInjective(user1: string, repo1: string, user2: string, repo2: string)
    requires PathSegments([user1, repo1]) && PathSegments([user2, repo2])
    requires RepoUrl(user1, repo1) == RepoUrl(user2, repo2)
    ensures user1 == user2 && repo1 == repo2
  {
  }

  /**
   * `https://raw.githubusercontent.com/<user>/<repo>/<branch>/<filePath>`.
   * For a user, repository and branch that are path segments, the part after
   * the prefix has those three segments followed by the segments of the file
   * path.
   */
  function RawUrl(user: string, repo: string, branch: string, filePath: string): (url: string)
    ensures |url| > |RawPrefix| && url[..|RawPrefix|] == RawPrefix
    ensures PathSegments([user, repo, branch]) ==>
      Segments(url[|RawPrefix|..]) == [user, repo, branch] + Segments(filePath)
  {
    var tail := user + "/" + repo + "/" + branch + "/" + filePath;
    SegmentsAppend(user + "/" + repo + "/" + branch, filePath);
    SegmentsAppend(user + "/" + repo, branch);
    SegmentsAppend(user, repo);
    SegmentsWithoutSlash(user);
    SegmentsWithoutSlash(repo);
    SegmentsWithoutSlash(branch);
    assert PathSegments([user, repo, branch]) ==>
      user != "" && '/' !in user && repo != "" && '/' !in repo && branch != "" && '/' !in branch by {
      if PathSegments([user, repo, branch]) {
        var t := [user, repo, branch];
        assert t[0] == user && t[1] == repo && t[2] == branch;
      }
    }
    assert (RawPrefix + tail)[|RawPrefix|..] == tail;
    RawPrefix + tail
  }

  /** The allowlist: `SOURCE_REPOS.split(",")`, entries kept verbatim. */
  function Allowlist(sourceRepos: string): (allow: seq<string>)
    ensures |allow| > 0
    ensures forall i :: 0 <= i < |allow| ==> ',' !in allow[i]
  {
    Split(sourceRepos, ',')
  }

  /**
   * The decision of the handler for a request path, given the `SOURCE_REPOS`
   * setting. The format check (at least five non-empty segments) comes
   * before the allowlist check; segments 2 and 3 are never looked at.
   */
  function Decide(path: string, sourceRepos: string): (o: Outcome)
    ensures o != NotConfigured
    ensures o == BadFormat <==> |Segments(path)| < MinSegments
  {
    var allow := Allowlist(sourceRepos);
    if |allow| > 0 then
      var parts := Segments(path);
      if |parts| < MinSegments then BadFormat
      else
        var user, repo, branch := parts[0], parts[1], parts[4];
        var filePath := Join(parts[5..], '/');
        if RepoUrl(user, repo) !in allow then Forbidden
        else Upstream(RawUrl(user, repo, branch, filePath))
    else NotConfigured
  }

  /** A too-short path is a format error whatever the allowlist says. */
  lemma ShortPathIsBadFormat(path: string, sourceRepos: string)
    requires |Segments(path)| < MinSegments
    ensures Decide(path, sourceRepos) == BadFormat
    ensures forall other :: Decide(path, other) == Decide(path, sourceRepos)
  {
  }

  /**
   * With enough segments, the request is forbidden exactly when the
   * canonical URL of segments 0 and 1 is not, verbatim, an allowlist entry;
   * otherwise the decision is an upstream URL.
   */
  lemma ForbiddenExactlyWhenUnlisted(path: string, sourceRepos: string)
    requires |Segments(path)| >= MinSegments
    ensures var segs := Segments(path);
      Decide(path, sourceRepos) == Forbidden <==> RepoUrl(segs[0], segs[1]) !in Allowlist(sourceRepos)
    ensures Decide(path, sourceRepos).Upstream? <==> Decide(path, sourceRepos) != Forbidden
  {
  }

  /**
   * The upstream URL starts with the raw-content prefix and its path has as
   * segments user, repository, branch (segment 4) and then every segment from
   * index 5 on, unchanged and in order.
   */
  lemma {:induction false} UpstreamForwardsSegments(path: string, sourceRepos: string)
    requires Decide(path, sourceRepos).Upstream?
    ensures var url, segs := Decide(path, sourceRepos).url, Segments(path);
      |segs| >= MinSegments
      && |url| >= |RawPrefix| && url[..|RawPrefix|] == RawPrefix
      && Segments(url[|RawPrefix|..]) == [segs[0], segs[1], segs[4]] + segs[5..]
  {
    var segs := Segments(path);
    var rest := segs[5..];
    assert PathSegments(rest) by {
      forall i | 0 <= i < |rest| ensures rest[i] != "" && '/' !in rest[i] {
        assert rest[i] == segs[i + 5];
      }
    }
    SegmentsJoin(rest);
    var t := [segs[0], segs[1], segs[4]];
    assert PathSegments(t) by {
      assert t[0] == segs[0] && t[1] == segs[1] && t[2] == segs[4];
    }
  }

  /** A non-empty string without a slash is a single segment. */
  lemma SegmentsWithoutSlash(s: string)
    ensures s != "" && '/' !in s ==> Segments(s) == [s]
  {
    if '/' !in s {
      SplitWithoutSeparator(s, '/');
    }
  }

  /** With exactly five segments the file path is empty and the URL ends in `<branch>/`. */
  lemma FiveSegmentsEndInBranchSlash(path: string, sourceRepos: string)
    requires |Segments(path)| == MinSegments
    requires Decide(path, sourceRepos).Upstream?
    ensures var segs := Segments(path);
      Decide(path, sourceRepos).url == RawPrefix + segs[0] + "/" + segs[1] + "/" + segs[4] + "/"
  {
  }

  /** Segments 2 and 3 (nominally `refs` and `heads`) never affect the decision. */
  lemma RefsHeadsIgnored(path1: string, path2: string, sourceRepos: string)
    requires |Segments(path1)| == |Segments(path2)|
    requires forall i :: 0 <= i < |Segments(path1)| && i != 2 && i != 3 ==> Segments(path1)[i] == Segments(path2)[i]
    ensures Decide(path1, sourceRepos) == Decide(path2, sourceRepos)
  {
    var s1, s2 := Segments(path1), Segments(path2);
    if |s1| >= MinSegments {
      assert s1[0] == s2[0] && s1[1] == s2[1] && s1[4] == s2[4];
      assert s1[5..] == s2[5..];
    }
  }

  /** Doubled slashes anywhere, and a leading or trailing slash, never affect the decision. */
  lemma ExtraSlashesIgnored(a: string, b: string, sourceRepos: string)
    ensures Decide(a + "//" + b, sourceRepos) == Decide(a + "/" + b, sourceRepos)
    ensures Decide("/" + a, sourceRepos) == Decide(a, sourceRepos)
    ensures Decide(a + "/", sourceRepos) == Decide(a, sourceRepos)
  {
    SegmentsIgnoreDoubledSlash(a, b);
    SegmentsIgnoreOuterSlash(a);
  }

  /**
   * The request `/<s0>/<s1>/.../<sn>` built from path segments is decided by
   * the allowlist alone, and when allowed goes to the raw URL of its user,
   * repository, branch and remaining segments.
   */
  lemma DecideCanonicalPath(segs: seq<string>, sourceRepos: string)
    requires PathSegments(segs) && |segs| >= MinSegments
    ensures Decide("/" + Join(segs, '/'), sourceRepos) ==
      if RepoUrl(segs[0], segs[1]) in Allowlist(sourceRepos)
      then Upstream(RawUrl(segs[0], segs[1], segs[4], Join(segs[5..], '/')))
      else Forbidden
  {
    SegmentsIgnoreOuterSlash(Join(segs, '/'));
    SegmentsJoin(segs);
  }

  /**
   * When `SOURCE_REPOS` is a comma-joined list of comma-free URLs, a request
   * with enough segments is forbidden exactly when its canonical repository
   * URL is not one of them; nothing is trimmed, so an entry written with a
   * surrounding space matches no request.
   */
  lemma ListedRepositoriesAllowed(path: string, repos: seq<string>)
    requires |repos| >= 1 && SeparatorFree(repos, ',')
    requires |Segments(path)| >= MinSegments
    ensures var segs := Segments(path);
      Decide(path, Join(repos, ',')) == Forbidden <==> RepoUrl(segs[0], segs[1]) !in repos
  {
    SplitJoin(repos, ',');
  }

  /**
   * Entries are compared verbatim: when the only entry naming a repository
   * has anything written around its canonical URL (for instance the space in
   * `https://github.com/a/b, https://github.com/c/d`), that repository is
   * forbidden.
   */
  lemma PaddedEntryDoesNotMatch(path: string, repos: seq<string>, k: nat, before: string, after: string)
    requires |Segments(path)| >= MinSegments
    requires SeparatorFree(repos, ',') && k < |repos|
    requires before + after != ""
    requires var segs := Segments(path); repos[k] == before + RepoUrl(segs[0], segs[1]) + after
    requires var segs := Segments(path);
      forall j :: 0 <= j < |repos| && j != k ==> repos[j] != RepoUrl(segs[0], segs[1])
    ensures Decide(path, Join(repos, ',')) == Forbidden
  {
    var segs := Segments(path);
    ListedRepositoriesAllowed(path, repos);
    assert |repos[k]| > |RepoUrl(segs[0], segs[1])|;
  }

  /**
   * An empty `SOURCE_REPOS` is not reported as "not configured": it is the
   * allowlist `[""]`, so every request is rejected with 400 or 403 and none
   * reaches upstream.
   */
  lemma EmptyConfigurationForbidsAll(path: string)
    ensures Decide(path, "") == (if |Segments(path)| < MinSegments then BadFormat else Forbidden)
  {
  }

  /** A repository whose canonical URL holds a comma can never be allowed. */
  lemma CommaInRepositoryForbidden(path: string, sourceRepos: string)
    requires |Segments(path)| >= MinSegments
    requires ',' in RepoUrl(Segments(path)[0], Segments(path)[1])
    ensures Decide(path, sourceRepos) == Forbidden
  {
  }

  /**
   * The request shape the handler documents, `/<user>/<repo>/refs/heads/<branch>/<file>`,
   * with `SOURCE_REPOS` set to that one repository, is fetched from
   * `https://raw.githubusercontent.com/<user>/<repo>/<branch>/<file>`.
   */
  lemma DocumentedRequest(user: string, repo: string, branch: string, file: string)
    requires PathSegments([user, repo, branch, file])
    requires ',' !in user && ',' !in repo
    ensures Decide("/" + user + "/" + repo + "/refs/heads/" + branch + "/" + file, RepoUrl(user, repo))
      == Upstream(RawUrl(user, repo, branch, file))
  {
    var segs := [user, repo, "refs", "heads", branch, file];
    assert PathSegments(segs) by {
      assert PathSegments([user, repo, branch, file]);
      assert '/' !in "refs" && '/' !in "heads";
      forall i | 0 <= i < 6 ensures segs[i] != "" && '/' !in segs[i] {
        if i == 0 || i == 1 {
          assert segs[i] == [user, repo, branch, file][i];
        } else if i == 4 || i == 5 {
          assert segs[i] == [user, repo, branch, file][i - 2];
        }
      }
    }
    JoinExample6(segs, '/');
    assert "/" + user + "/" + repo + "/refs/heads/" + branch + "/" + file == "/" + Join(segs, '/');
    DecideCanonicalPath(segs, RepoUrl(user, repo));
    SingleRepositoryAllowlist(user, repo);
    assert segs[5..] == [file];
  }

  /** `SOURCE_REPOS` set to one comma-free repository URL is the allowlist of that URL alone. */
  lemma SingleRepositoryAllowlist(user: string, repo: string)
    requires ',' !in user && ',' !in repo
    ensures Allowlist(RepoUrl(user, repo)) == [RepoUrl(user, repo)]
  {
    var url := RepoUrl(user, repo);
    assert url == GitHubPrefix + user + "/" + repo;
    assert ',' !in url;
    SplitWithoutSeparator(url, ',');
  }

  /** Joining six pieces, written out. */
  lemma JoinExample6(segs: seq<string>, sep: char)
    requires |segs| == 6
    ensures Join(segs, sep) == segs[0] + [sep] + segs[1] + [sep] + segs[2] + [sep] + segs[3] + [sep] + segs[4] + [sep] + segs[5]
  {
    var s := segs;
    assert s[4..][1..] == s[5..] && s[3..][1..] == s[4..] && s[2..][1..] == s[3..] && s[1..][1..] == s[2..];
    var j5 := Join(s[5..], sep);
    assert j5 == s[5];
    var j4 := Join(s[4..], sep);
    assert j4 == s[4] + [sep] + j5;
    var j3 := Join(s[3..], sep);
    assert j3 == s[3] + [sep] + j4;
    var j2 := Join(s[2..], sep);
    assert j2 == s[2] + [sep] + j3;
    var j1 := Join(s[1..], sep);
    assert j1 == s[1] + [sep] + j2;
    assert Join(s, sep) == s[0] + [sep] + j1;
    RegroupSix(s[0], s[1], s[2], s[3], s[4], s[5], sep);
  }

  /** Six pieces and five separators, regrouped from the right to the left. */
  lemma RegroupSix(a: string, b: string, c: string, d: string, e: string, f: string, sep: char)
    ensures a + [sep] + (b + [sep] + (c + [sep] + (d + [sep] + (e + [sep] + f))))
      == a + [sep] + b + [sep] + c + [sep] + d + [sep] + e + [sep] + f
  {
  }

  // ---------------------------------------------------------------------------
  // Fetch outcome to response

  /** A value thrown by `fetch` or `response.text()`: an `Error` or anything else. */
  datatype Thrown = ErrorValue(message: string) | OtherValue

  /** What the single upstream fetch did. */
  datatype FetchResult =
    | Responded(status: int, contentType: Option<string>, body: string)
    | Threw(thrown: Thrown)

  /** `response.ok`: a 2xx status. */
  predicate IsOk(status: int)
  {
    200 <= status <= 299
  }

  /** The response the handler returns: a JSON error body or the proxied content (status 200). */
  datatype Response =
    | JsonError(status: int, error: string, upstreamStatus: Option<int>, details: Option<string>)
    | Content(body: string, contentType: string, cacheControl: string)

  function StatusOf(r: Response): int
  {
    match r
    case JsonError(status, _, _, _) => status
    case Content(_, _, _) => 200
  }

  /**
   * Maps what the fetch did to the response: a non-2xx status and a thrown
   * value are both 500; success passes the body text through unchanged with the
   * upstream content type (or `text/plain`) and a five-minute public cache.
   */
  function Respond(f: FetchResult): (r: Response)
    ensures r.Content? <==> f.Responded? && IsOk(f.status)
    ensures r.Content? ==> r.body == f.body && r.cacheControl == CacheDirective && r.contentType != ""
    ensures r.Content? && f.contentType.Some? && f.contentType.value != "" ==> r.contentType == f.contentType.value
    ensures r.Content? && (f.contentType == None || f.contentType == Some("")) ==> r.contentType == DefaultContentType
    ensures r.JsonError? ==> r.status == 500
    ensures f.Responded? && !IsOk(f.status) ==>
      r.upstreamStatus == Some(f.status) && r.error == UpstreamFailedMessage && r.details == None
    ensures f.Threw? ==> r.error == FetchThrewMessage && r.upstreamStatus == None
    ensures f.Threw? && f.thrown.ErrorValue? ==> r.details == Some(f.thrown.message)
    ensures f == Threw(OtherValue) ==> r.details == Some(UnknownErrorDetails)
  {
    match f
    case Responded(status, contentType, body) =>
      if !IsOk(status) then JsonError(500, UpstreamFailedMessage, Some(status), None)
      else
        var ct := if contentType.Some? && contentType.value != "" then contentType.value else DefaultContentType;
        Content(body, ct, CacheDirective)
    case Threw(thrown) =>
      var details := if thrown.ErrorValue? then thrown.message else UnknownErrorDetails;
      JsonError(500, FetchThrewMessage, None, Some(details))
  }

  /** An upstream 404 is not passed through: it becomes a 500 that carries the 404. */
  lemma UpstreamNotFoundIs500(contentType: Option<string>, body: string)
    ensures Respond(Responded(404, contentType, body)) == JsonError(500, UpstreamFailedMessage, Some(404), None)
  {
  }

  /** The whole handler: decide, then fetch the upstream URL only if there is one. */
  function Handle(path: string, sourceRepos: string, fetch: string -> FetchResult): (r: Response)
    ensures StatusOf(r) in {200, 400, 403, 500}
    ensures StatusOf(r) == 400 <==> |Segments(path)| < MinSegments
    ensures StatusOf(r) == 400 ==> r == JsonError(400, BadFormatMessage, None, None)
    ensures StatusOf(r) == 403 ==> r == JsonError(403, ForbiddenMessage, None, None)
    ensures Decide(path, sourceRepos).Upstream? ==> r == Respond(fetch(Decide(path, sourceRepos).url))
    ensures !Decide(path, sourceRepos).Upstream? ==> StatusOf(r) in {400, 403}
  {
    match Decide(path, sourceRepos)
    case BadFormat => JsonError(400, BadFormatMessage, None, None)
    case Forbidden => JsonError(403, ForbiddenMessage, None, None)
    case NotConfigured => JsonError(500, NotConfiguredMessage, None, None)
    case Upstream(url) => Respond(fetch(url))
  }

  /**
   * The response depends on the network only through the fetch of the
   * decided upstream URL: rejected requests never fetch, and two fetchers
   * that agree on that URL give the same response.
   */
  lemma FetchOnlyTheUpstreamUrl(path: string, sourceRepos: string, f1: string -> FetchResult, f2: string -> FetchResult)
    requires Decide(path, sourceRepos).Upstream? ==> f1(Decide(path, sourceRepos).url) == f2(Decide(path, sourceRepos).url)
    ensures Handle(path, sourceRepos, f1) == Handle(path, sourceRepos, f2)
  {
  }

  /** The "No source repositories configured" response is never produced. */
  lemma NeverNotConfigured(path: string, sourceRepos: string, fetch: string -> FetchResult)
    ensures Handle(path, sourceRepos, fetch).JsonError? ==> Handle(path, sourceRepos, fetch).error != NotConfiguredMessage
  {
  }

  /** A request is answered 403 exactly when it has enough segments and its repository is unlisted. */
  lemma ForbiddenStatusExactly(path: string, sourceRepos: string, fetch: string -> FetchResult)
    ensures var segs := Segments(path);
      StatusOf(Handle(path, sourceRepos, fetch)) == 403 <==>
        |segs| >= MinSegments && RepoUrl(segs[0], segs[1]) !in Allowlist(sourceRepos)
  {
  }
}
