/**
  The records the redirect matcher and the middleware pass around: a parsed
  URL, a redirect rule, the match context, the result of matching one rule,
  and the library primitives the matcher calls but does not define.
 */
module Types {

  datatype Option<T> = None | Some(value: T)

  /** The parts of a Go `*url.URL` the matcher reads. */
  datatype Url = Url(scheme: string, host: string, path: string, rawQuery: string)

  /** One redirect rule as the `_redirects` file describes it. */
  datatype Rule = Rule(from: string, to: string, status: int)

  /** One named capture of a path pattern (`:name` matched `value`). */
  datatype Param = Param(name: string, value: string)

  /**
    A successful `urlpath` match: the named captures, and what a trailing
    `*` matched (the `:splat` value).
   */
  datatype PathMatch = PathMatch(params: seq<Param>, trailing: string)

  /** `scheme` is the "http://" or "https://" prefix; `originalUrl` is the request's own URL. */
  datatype MatchContext = MatchContext(scheme: string, originalUrl: Url)

  /** Why a rule could not be evaluated. */
  datatype MatchError =
    | InvalidRequestUrl            // the request URL lacks a host or a scheme
    | UrlParseError(input: string) // a rule's `from` or substituted `to` did not parse

  /**
    The outcome of matching one rule against a request. `source` is set only
    on the results that carry the rule itself (Go leaves the zero value).
   */
  datatype MatchResult = MatchResult(
    resolvedTo: Option<Url>,
    pathMatch: Option<PathMatch>,
    source: Option<Rule>,
    isNoRedirect: bool,
    isMatched: bool,
    isHostRedirect: bool,
    error: Option<MatchError>)

  /**
    The foreign functions the core calls: `net/url.Parse` (None for an error),
    `urlpath.New(pattern).Match(path)` (None for no match) and `path.Join` of
    two elements. They are parameters of the model, not part of it.
   */
  datatype Primitives = Primitives(
    parse: string -> Option<Url>,
    matchPath: (string, string) -> Option<PathMatch>,
    join: (string, string) -> string)
}
