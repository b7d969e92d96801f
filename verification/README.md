# caddy-netlify-redirects: the redirect decision engine in Dafny

This project models how the Caddy middleware `caddy-netlify-redirects`
decides what to do with one request, given a list of Netlify-style
redirect rules (`from`, `to`, `status`). It proves properties of that
decision.

There are two layers:

- **The per-rule resolver** (`matcher.go`).
  - `ParseUrlWithContext` decides whether to put the request's scheme in
    front of a rule or request string. It uses a crude substring test for
    `http://` or `https://`, and falls back to the string as it is when the
    prefixed string parses without a host.
  - `MatchUrlToRule` runs the rule through an ordered chain of gates:
    request precondition, path match, `:param`/`:splat` substitution,
    self-redirect suppression, exact raw-query gate, from/to/request host
    gates, the `$ENFORCE_TRAILING_SLASH` directive, and the default match.
    Each gate returns one `MatchResult` with the flags `IsMatched`,
    `IsNoRedirect` and `IsHostRedirect`, and an optional error.
- **The handler** (`module.go`).
  - It picks the scheme from TLS and parses the request URL.
  - It walks the rules in order, with these checks on each result:
    - `IsNoRedirect` stops the walk;
    - a result with an error is skipped;
    - a result that did not match is skipped;
    - a match that resolves to the request's own path stops the walk
      without a redirect;
    - the first other match produces a response.
  - The response has the rule's status, the resolved target as Location,
    and an HTML body unless the status is in the 300–399 range.

Files:

- `types.dfy` (module `Types`) holds the records: `Url`, `Rule`, `Param`,
  `PathMatch`, `MatchContext`, `MatchResult`, `MatchError`. It also holds
  `Primitives`, a record of the three foreign functions the core calls.
- `gostrings.dfy` (module `GoStrings`) gives concrete definitions of the Go
  `strings` functions the matcher relies on:
  - `Contains`/`Index`;
  - `IndexByte`;
  - `HasSuffix`;
  - `Trim` with a one-character cut set;
  - `Split` with a one-character separator;
  - `ReplaceAll` and `Count`.

  Each definition comes with a contract or lemma that characterises it
  independently of the definition: first occurrence, round trip with
  `Join`, membership of a piece, the trimmed slice, the Go replacement
  loop, and the length after replacement.
- `matcher.dfy` (module `Matcher`) models `ParseUrlWithContext`,
  `replaceParams`, `replaceSplat` and `MatchUrlToRule` with every gate,
  together with one lemma per gate.
- `middleware.dfy` (module `Middleware`) models the scheme choice,
  `handleRedirectResponse`, and the rule loop of `ServeHTTP`.
  - The loop appears twice. `ServeHTTP` is a method with a `while` loop,
    shaped like the Go code. `Walk` is a recursive function that the
    lemmas reason about.
  - The method is proved equal to the function.
  - Both are characterised by which rule fires first.
  - The walk lemmas hold for any per-rule evaluator that gives every
    matched result a target. `Evaluator` plugs in `MatchUrlToRule`, and
    `EvaluatorSound` shows that it satisfies this condition.

Error results do not stop the walk. The precondition, `from` and `to`
errors leave `IsNoRedirect` false, and the loop logs them and moves on to
the next rule (module.go:63-66). A path mismatch and an error are the two
results after which the next rule is tried.

One oddity of the code is stated as it is. On the trailing-slash redirect,
`IsHostRedirect` is the flag computed from the rule's `to` (matcher.go:123,
156), even though the target is the request URL itself.
`Matcher.MatchTrailingSlash` gives that result exactly, flag included. The
matcher's headline contract therefore ties `IsHostRedirect` to a foreign
target host only on results that carry the rule (`source` set). Nothing in
the handler reads the flag.

## Model

| member | source | states |
|---|---|---|
| GoStrings.IndexFrom | matcher.go:16 | the result is -1 or an occurrence of the pattern at or after the start, and no earlier position (none at all for -1) holds one |
| GoStrings.ContainsIff | matcher.go:16 | `strings.Contains` holds exactly when the pattern occurs somewhere in the string |
| GoStrings.Trim | matcher.go:60-61 | trimming `/` never lengthens the path, and a non-empty result neither starts nor ends with `/` |
| GoStrings.TrimShape | matcher.go:60-61 | the trimmed path is a contiguous slice of the path, and every character outside it is `/` |
| GoStrings.TrimIdempotent | matcher.go:60-61 | trimming an already trimmed path changes nothing |
| GoStrings.SplitSingle | matcher.go:138 | splitting gives more than one part exactly when the separator occurs |
| GoStrings.SplitPieces | matcher.go:133 | no part of a split contains the separator |
| GoStrings.JoinSplit | matcher.go:133 | joining the parts of a split with the separator restores the string |
| GoStrings.SplitJoin | matcher.go:133 | splitting a join of separator-free parts gives the parts back |
| GoStrings.SplitLastPart | matcher.go:138-143 | the last part is the separator-free suffix of the string, preceded by a separator when there are several parts |
| GoStrings.SplitMember | matcher.go:133-136 | a separator-free word is a part of the split exactly when it occurs bounded by separators or string ends |
| GoStrings.ReplaceAllAbsent | matcher.go:176 | a string in which the pattern does not occur is left unchanged by `strings.ReplaceAll` |
| GoStrings.ReplaceFromNext | matcher.go:176 | replacement keeps the text before the next occurrence, emits the replacement, and continues after the occurrence |
| GoStrings.ReplaceFromSelf | matcher.go:176 | replacing a pattern by itself changes nothing |
| GoStrings.CountFromZero | matcher.go:184 | the number of replaced occurrences is zero exactly when the pattern does not occur |
| GoStrings.ReplaceFromLength | matcher.go:184 | the length changes by the replacement's length minus the pattern's, once per replaced occurrence |
| Matcher.ParseUrlWithContext | matcher.go:13-32 | a string with a scheme marker is parsed as it is; a result differing from the plain parse is the scheme-prefixed parse and has a host; a host-less result is the plain parse |
| Matcher.ParsePrefixedStable | matcher.go:16-31 | a string that starts with `http://` or `https://` is never prefixed again, whatever the context |
| Matcher.ParseUnmarked | matcher.go:16-31 | without a marker, a failing prefixed parse is an error, a host-less prefixed parse falls back to the plain string, and otherwise the prefixed parse wins |
| Matcher.ReplaceParamsAppend | matcher.go:173-181 | substituting a list of captures is substituting its parts in sequence |
| Matcher.ReplaceParams | matcher.go:173-181 | substituting the captures leaves a destination without `:` unchanged, whatever the captures |
| Matcher.ReplaceParamsIdentity | matcher.go:173-181 | captures whose values are their own placeholders leave the destination unchanged |
| Matcher.ReplaceSplat | matcher.go:183-185 | substituting the trailing capture leaves a destination without `:splat` unchanged |
| Matcher.ReplaceSplatEmpty | matcher.go:183-185 | with an empty trailing capture, the text before the first `:splat` is kept and that placeholder dropped, and the destination is six characters shorter per replaced occurrence |
| Matcher.ReplaceSplatFirst | matcher.go:183-185 | the text before the first `:splat` is kept and that placeholder becomes the trailing capture |
| Matcher.EnforcesTrailingSlashIff | matcher.go:133-136 | the directive is recognised exactly when `$ENFORCE_TRAILING_SLASH` occurs in the unsubstituted `to` bounded by `\|` or the string ends |
| Matcher.IsFileLikeIff | matcher.go:138-143 | the original path counts as a file exactly when it ends in `.` plus 2 to 5 characters without a `.` |
| Matcher.MatchUrlToRule | matcher.go:34-171 | no result is both matched and suppressed; a match has no error, a target and a path match; an error clears every flag; a suppression has a target and no host redirect; the request-precondition error occurs exactly for a request without host or scheme; a result carrying the rule is matched; a matched result without the rule is the trailing-slash redirect to the request path plus `/` |
| Matcher.ResolveTarget | matcher.go:87-170 | once the destination is resolved, every result is error-free and either a match or a suppression; a suppression keeps the destination; a match goes to the destination or to the request URL plus `/`; a destination equal to the request is suppressed; the host-redirect flag is set exactly on a query-free match to a destination on another host |
| Matcher.MatchErrors | matcher.go:35-85 | a request without host or scheme, an unparseable `from` and an unparseable substituted `to` each give their error with both flags clear |
| Matcher.MatchPathMismatch | matcher.go:59-70 | the empty, error-free result arises exactly when the trimmed `from` pattern does not match the trimmed request path |
| Matcher.MatchSelfRedirect | matcher.go:87-100 | a target with the request's path and the request's host or no host is suppressed |
| Matcher.MatchQueryGate | matcher.go:106-116 | a rule with a raw query matches (no host redirect) exactly the identical request query, suppresses any other, and does not depend on the original URL |
| Matcher.MatchHostGates | matcher.go:118-170 | a foreign rule host suppresses; a host-less rule redirecting to the request host suppresses; otherwise, without the directive, the rule redirects to `to`, as a host redirect exactly when `to` names another host |
| Matcher.MatchTrailingSlash | matcher.go:133-161 | under the directive a file-like original path is suppressed; a path without trailing `/` gives a redirect to the request URL plus `/` that carries no rule and the host-redirect flag computed from `to`; a path with a trailing `/` is suppressed |
| Middleware.SchemeFor | module.go:34-37 | the scheme is `https://` exactly for a TLS request, `http://` otherwise |
| Middleware.SchemeForStable | module.go:34-44 | a string prefixed with the chosen scheme is parsed unchanged by `ParseUrlWithContext` |
| Middleware.RequestUrl | module.go:44-52 | the request URL fails exactly when the joined Host header and path fail to parse in the request context; otherwise it carries that parse's scheme, host and path and the request's own raw query, which the query gate compares |
| Middleware.HandleRedirectResponse | module.go:89-101 | the response carries the rule's status and the resolved target, with an HTML body exactly when the status is outside 300–399 |
| Middleware.EvaluatorSound | module.go:72 | every matched result of the matcher has a target, so the loop's same-path test is defined |
| Middleware.Walk | module.go:56-86 | the rule loop never reports a request-URL error |
| Middleware.WalkSkipPrefix | module.go:63-70 | rules whose results are errors or non-matches can be dropped from the front without changing the outcome |
| Middleware.WalkAllSkipped | module.go:68-86 | when every rule is skipped the request passes through |
| Middleware.WalkStopsOnNoRedirect | module.go:59-61 | the first suppressed result makes the request pass through whatever rules follow it |
| Middleware.WalkStopsOnSamePath | module.go:72-80 | an error-free match resolving to the request's own path makes the request pass through |
| Middleware.FirstUnskipped | module.go:56-70 | the index returned is that of the first rule not skipped (or the number of rules), with every earlier rule skipped |
| Middleware.WalkRespondIff | module.go:56-83 | the walk answers with a redirect exactly when some rule fires after only skipped rules, and the answer is built from that rule |
| Middleware.ServeRequestUrlError | module.go:44-50 | the handler reports an error exactly when the request URL fails to parse, and then the rules make no difference |
| Middleware.ServeHTTP | module.go:33-87 | the loop computes the walk's outcome: an error exactly on an unparseable request URL, a response exactly when some rule fires first |

## Left out

- Caddy module registration, provisioning and logging (module.go:15-31 and
  the logger calls) are framework plumbing.
- Writing the response through `caddyhttp.StaticResponse` and its error
  (module.go:95-108) is left out. The model stops at the decision: status,
  Location target and whether a body is sent.
- The HTML text of `buildHtmlRedirect` and its `html.EscapeString`
  (module.go:111-124) are string formatting over a foreign escaper. Only
  the presence of the body is modelled.
- `url.URL.String()` is left out. The Location is the resolved `Url`
  record itself.
- `net/url.Parse`, `urlpath.New(...).Match` and `path.Join` are foreign
  library calls. They are parameters of the model (the `Primitives`
  record), so every property holds for any behaviour of them.
- `Types.Url` keeps only scheme, host, path and raw query, the fields the
  core reads. Error values keep only which gate failed and on what input,
  not Go's message text.
- Go map iteration order in `replaceParams` (matcher.go:175) is unspecified.
  The captures are a sequence substituted in its order. No
  order-independence is claimed, because overlapping names such as `:id`
  and `:id2` interfere.
- The `len(matched.Params) > 0` guard (matcher.go:174) is not written out.
  An empty capture list substitutes nothing either way.
- `GoStrings.ReplaceFrom`: the Go rule for an empty pattern is not
  modelled, because the core only passes `":"+name` and `":splat"`, which
  are never empty.
- `Trim` and `Split` are modelled only with the one-character cut set and
  separator the core uses (`/`, `|`, `.`).
- Strings are sequences of characters where Go uses bytes. For the ASCII
  separators and markers used here the results agree. The exception is the
  2-to-5 length test in `Matcher.IsFileLike`, which counts characters
  where Go counts bytes, so a non-ASCII extension can be judged
  differently.
- The aliasing at matcher.go:149 is modelled as a fresh copy.
  There, `prefixedTo := reqUrl` mutates the caller's request URL, but the
  loop returns or passes through right after such a result, so the
  mutation is never observed.
- The nil-able `Match` field and the zero-valued `Source` of Go results become
  `Option` values.
