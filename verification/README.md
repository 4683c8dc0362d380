# repo-worker-proxy: the request decision, in Dafny

repo-worker-proxy is a Cloudflare Worker with a single catch-all handler. The
handler takes a request path such as
`/keiko233/nyanpasu-scripts/refs/heads/main/easywarp-provider.js` and checks
that `https://github.com/<user>/<repo>` appears in the comma-separated
`SOURCE_REPOS` setting. If it does, the handler fetches
`https://raw.githubusercontent.com/<user>/<repo>/<branch>/<file>`. It sends the
body back with the upstream content type and a five-minute public cache
directive. Every failure becomes a JSON error with an HTTP status.

The handler is pure string work around one network call, so this model uses
functions and lemmas only:

- `text.dfy`, module `Text`: the JavaScript operations the handler is built
  from. These are `split` with a one-character separator, `filter` of empty
  pieces and `join`. The module also holds their laws: split and join are
  inverses, a split always yields at least one piece, and path segments do not
  notice extra slashes.
- `handler.dfy`, module `Handler`:
  - `Decide(path, sourceRepos)`: 400 for a bad format, 403 for a forbidden
    repository, or the upstream URL.
  - `Respond(fetchResult)`: turns what the fetch did into the response.
  - `Handle`: their composition. The fetch is a function parameter
    `string -> FetchResult`, so the network is not modelled.

Behaviour of the code worth knowing:

- The error message at src/index.ts:21 asks for
  `/username/repo/refs/heads/branch/file-path`. The code only checks that there
  are at least five non-empty segments. Segments 2 and 3 are never compared
  with `refs` and `heads` (`RefsHeadsIgnored`).
- `split(",")` always yields at least one piece, so the "No source repositories
  configured" response can never be sent (`NeverNotConfigured`). An empty
  `SOURCE_REPOS` means the allowlist `[""]`. Every request then gets 400 or 403,
  never 500 (`EmptyConfigurationForbidsAll`).
- Every non-2xx upstream status, 404 included, becomes 500 carrying that
  status.

## Model

| member | source | states |
|---|---|---|
| Text.Split | src/index.ts:12 | `split` yields exactly one piece more than there are separators, so never zero pieces, and no piece contains the separator |
| Text.NonEmpty | src/index.ts:15 | the `filter(part => part !== "")` result is no longer than its input, holds no empty piece, and holds exactly the non-empty pieces of the input |
| Text.Segments | src/index.ts:15 | every path segment is non-empty and contains no `/` |
| Text.Join | src/index.ts:30 | joining one or more separator-free pieces puts exactly one separator between neighbours: the result holds one separator fewer than there are pieces |
| Text.JoinSplit | src/index.ts:30 | joining the pieces of a split with the same separator gives back the original string |
| Text.SplitJoin | src/index.ts:12 | splitting the join of separator-free pieces gives back those pieces |
| Text.SplitWithoutSeparator | src/index.ts:12 | a string without the separator splits to itself alone |
| Text.SplitAppend | src/index.ts:15 | splitting `a + sep + b` gives the pieces of `a` followed by the pieces of `b` |
| Text.NonEmptyAppend | src/index.ts:15 | dropping empty pieces distributes over concatenation |
| Text.NonEmptyKeepsNonEmpty | src/index.ts:15 | dropping empty pieces from a sequence without any changes nothing |
| Text.SegmentsAppend | src/index.ts:15 | the segments of `a/b` are the segments of `a` followed by those of `b` |
| Text.SegmentsIgnoreDoubledSlash | src/index.ts:15 | a doubled slash anywhere in a path gives the same segments as a single one |
| Text.SegmentsIgnoreOuterSlash | src/index.ts:15 | a leading or trailing slash does not change the segments |
| Text.SegmentsJoin | src/index.ts:15 | segments joined with `/` split back into the same segments |
| Handler.RepoUrl | src/index.ts:32 | the key starts with `https://github.com/`, and for a user and repository that are path segments the rest has exactly those two segments |
| Handler.RepoUrlInjective | src/index.ts:32 | two different user/repository pairs never share an allowlist key |
| Handler.RawUrl | src/index.ts:44 | the upstream URL starts with `https://raw.githubusercontent.com/`, and for segment user, repository and branch the rest has those three segments followed by the segments of the file path |
| Handler.SingleRepositoryAllowlist | src/index.ts:12 | `SOURCE_REPOS` set to one comma-free repository URL is the allowlist of exactly that URL |
| Handler.Allowlist | src/index.ts:12-14 | the allowlist is never empty and its entries hold no comma, so the `length > 0` guard always holds |
| Handler.Decide | src/index.ts:12-44 | the decision is never "not configured", and it is the format error exactly when the path has fewer than five non-empty segments |
| Handler.ShortPathIsBadFormat | src/index.ts:17-25 | a path with fewer than five segments is a format error whatever `SOURCE_REPOS` holds, so the allowlist is not consulted |
| Handler.ForbiddenExactlyWhenUnlisted | src/index.ts:32-41 | with five or more segments the request is forbidden exactly when `https://github.com/<seg0>/<seg1>` is not verbatim an allowlist entry; otherwise it goes upstream |
| Handler.UpstreamForwardsSegments | src/index.ts:27-44 | an upstream URL starts with `https://raw.githubusercontent.com/`, and its path segments are user, repository, segment 4 and then segments 5 onwards unchanged |
| Handler.FiveSegmentsEndInBranchSlash | src/index.ts:29-44 | with exactly five segments the file path is empty and the URL ends in `<branch>/` |
| Handler.RefsHeadsIgnored | src/index.ts:27-44 | two paths whose segments differ only at indices 2 and 3 get the same decision |
| Handler.ExtraSlashesIgnored | src/index.ts:15 | doubled slashes anywhere, and leading or trailing slashes, never change the decision |
| Handler.DecideCanonicalPath | src/index.ts:15-44 | the path `/s0/s1/.../sn` built from segments goes to `raw.githubusercontent.com/s0/s1/s4/s5/.../sn` when `github.com/s0/s1` is listed, and is forbidden otherwise |
| Handler.ListedRepositoriesAllowed | src/index.ts:12-41 | when `SOURCE_REPOS` is a comma-joined list of comma-free URLs, a well-formed request is forbidden exactly when its canonical URL is not in that list |
| Handler.EmptyConfigurationForbidsAll | src/index.ts:12-41 | an empty `SOURCE_REPOS` rejects every request with 400 or 403 |
| Handler.PaddedEntryDoesNotMatch | src/index.ts:32-41 | in a comma-joined `SOURCE_REPOS` such as `https://github.com/a/b, https://github.com/c/d`, when the only entry naming a repository has anything around its canonical URL (such as the space after the comma), that repository is forbidden |
| Handler.CommaInRepositoryForbidden | src/index.ts:12-41 | a repository whose canonical URL contains a comma is always forbidden |
| Handler.DocumentedRequest | src/index.ts:8-44 | `/<user>/<repo>/refs/heads/<branch>/<file>`, with that one repository configured, is fetched from `raw.githubusercontent.com/<user>/<repo>/<branch>/<file>` |
| Handler.Respond | src/index.ts:48-73 | a 2xx fetch passes the body text through unchanged with the upstream content type (`text/plain` when it is missing or empty) and `public, max-age=300`; a non-2xx status becomes 500 carrying that status; a thrown value becomes 500 whose details are the error's message, or "Unknown error" for a non-Error value |
| Handler.UpstreamNotFoundIs500 | src/index.ts:48-55 | an upstream 404 is answered with 500 carrying status 404 and the fetch-failure message, not passed through |
| Handler.Handle | src/index.ts:7-83 | the status is 200, 400, 403 or 500; it is 400, with the format message, exactly when the path has fewer than five segments; a 403 carries "Repository not allowed"; an allowed request's response is `Respond` applied to the fetch of the upstream URL, and any other request gets 400 or 403 |
| Handler.FetchOnlyTheUpstreamUrl | src/index.ts:43-46 | the response depends on the network only through the fetch of the decided URL, and rejected requests do not fetch at all |
| Handler.NeverNotConfigured | src/index.ts:77-82 | the "No source repositories configured" error is never returned |
| Handler.ForbiddenStatusExactly | src/index.ts:34-41 | the response is 403 exactly when the path has five or more segments and its canonical URL is not in the allowlist |

## Left out

- The `fetch` call and `response.text()` (src/index.ts:46, 58) are network I/O. `Handle` takes the fetch as a function parameter. A `FetchResult` records the status, the Content-Type header and the body, or a thrown value. An exception from `response.text()` is the `Threw` case.
- Hono app construction, routing, `c.json` and `new Response` (src/index.ts:1-7, 18, 60, 85) are not modelled. A response is a plain datatype: JSON error fields, or body and headers with status 200.
- Reading the Cloudflare binding `c.env.SOURCE_REPOS` is not modelled. The string is a parameter. A missing binding would be a JavaScript TypeError, which is outside the model.
- Async execution and concurrent requests are not modelled. Requests share no state.
- Handler.Respond: the body is the text that `response.text()` (src/index.ts:58) returns, already decoded as UTF-8, with invalid bytes replaced by U+FFFD. `new Response` (src/index.ts:60) encodes it again. The model does not capture that a binary or non-UTF-8 file is therefore not passed through byte for byte.
- Handler.UpstreamForwardsSegments: this is about the URL string handed to `fetch` (src/index.ts:46). The fetch URL parser is not modelled: it turns `\` into `/` and resolves `.` and `..` segments. A path segment holding such characters can make the fetched resource differ from the one the segments name.
- The decoding of percent-escapes in the request path (`c.req.path`) is not modelled. The path is taken as the string the handler sees.
